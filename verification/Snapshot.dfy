/** Saving the images of a tree of modules to a file, and reading them back from it. */
module Snapshot {
  import opened Wrappers
  import opened Bytes
  import opened Regions
  import opened RegioCache
  import CacheFile
  import Regio

  /** A module with its base address and byte image, its external memories (None: not cached)
      and its kids (None: not initialised). */
  datatype Tree = Node(image: Region, mems: seq<Option<Region>>, kids: seq<Option<Tree>>)

  /** The cached images of a list of memories. */
  function MemImages(mems: seq<Option<Region>>): seq<Region> {
    if mems == [] then []
    else MemImages(mems[..|mems| - 1]) + if mems[|mems| - 1].Some? then [mems[|mems| - 1].value] else []
  }

  /** The images of a tree in the order they are written. A kid always brings its memories. */
  function Images(t: Tree, includeMem: bool): seq<Region>
    decreases t
  {
    [t.image] + (if includeMem then MemImages(t.mems) else []) + KidImages(t.kids)
  }

  function KidImages(kids: seq<Option<Tree>>): seq<Region>
    decreases kids
  {
    if kids == [] then []
    else KidImages(kids[..|kids| - 1]) + KidImage(kids[|kids| - 1])
  }

  function KidImage(k: Option<Tree>): seq<Region>
    decreases k
  {
    if k.Some? then Images(k.value, true) else []
  }

  /** Every image lies in the 32-bit space. */
  predicate AllInRange(images: seq<Region>) {
    forall i :: 0 <= i < |images| ==> InRange(images[i].start, |images[i].data|)
  }

  /** No two images share an address. */
  predicate Apart(images: seq<Region>) {
    forall i, j :: 0 <= i < j < |images| ==> images[i].End() <= images[j].start || images[j].End() <= images[i].start
  }

  // ------------------------------------------------------------------ which images these are

  /** The module a path of kid numbers leads to, through initialised kids only. */
  function ModuleAt(t: Tree, path: seq<nat>): Option<Tree>
    decreases path
  {
    if path == [] then Some(t)
    else if path[0] < |t.kids| && t.kids[path[0]].Some? then ModuleAt(t.kids[path[0]].value, path[1..])
    else None
  }

  /** The image of the module at a path, or of one of its cached memories. */
  function ImageAt(t: Tree, path: seq<nat>, mem: Option<nat>): Option<Region> {
    var m := ModuleAt(t, path);
    if m.None? then None
    else if mem.None? then Some(m.value.image)
    else if mem.value < |m.value.mems| then m.value.mems[mem.value]
    else None
  }

  /** Main result: the images written for a tree are those of all its modules and of all their
      cached memories, and nothing else. */
  lemma {:induction false} ImagesAre(t: Tree, im: Region)
    ensures im in Images(t, true) <==> exists path, mem :: ImageAt(t, path, mem) == Some(im)
  {
    hide Images, ImageAt;
    if im in Images(t, true) {
      var path, mem := ImageHasPath(t, im);
    }
    forall path, mem | ImageAt(t, path, mem) == Some(im) ensures im in Images(t, true) {
      PathHasImage(t, path, mem);
    }
  }

  /** The order, which decides where images overlap: a module, then its memories, then its kids, each
      kid with all that is below it. */
  lemma {:induction false} ImagesInOrder(a: Region, b: Region, c: Region, m1: Region, m2: Region, n: Region)
    ensures var kid := Node(b, [Some(n)], []);
            Images(Node(a, [Some(m1), None, Some(m2)], [Some(kid), None, Some(Node(c, [], []))]), true) ==
              [a, m1, m2, b, n, c]
  {
    hide MemImages, KidImages;
    var (kid, last) := (Node(b, [Some(n)], []), Node(c, [], []));
    MemsInOrder(m1, m2, n);
    KidsInOrder(kid, last);
    assert Images(kid, true) == [b, n] && Images(last, true) == [c];
  }

  lemma {:induction false} MemsInOrder(m1: Region, m2: Region, n: Region)
    ensures MemImages([Some(m1), None, Some(m2)]) == [m1, m2] && MemImages([Some(n)]) == [n] && MemImages([]) == []
  {
    hide MemImages;
    var (one, two, three) := ([Some(m1)], [Some(m1), None], [Some(m1), None, Some(m2)]);
    assert one[..0] == [] && two[..1] == one && three[..2] == two && [Some(n)][..0] == [];
    MemImagesSplit([]);
    MemImagesSplit(one);
    MemImagesSplit(two);
    MemImagesSplit(three);
    MemImagesSplit([Some(n)]);
  }

  lemma {:induction false} KidsInOrder(kid: Tree, last: Tree)
    ensures KidImages([Some(kid), None, Some(last)]) == Images(kid, true) + Images(last, true) && KidImages([]) == []
  {
    hide Images, KidImages;
    var (one, two, three) := ([Some(kid)], [Some(kid), None], [Some(kid), None, Some(last)]);
    assert one[..0] == [] && two[..1] == one && three[..2] == two;
    NoKidImages();
    KidImagesSplit(one);
    KidImagesSplit(two);
    KidImagesSplit(three);
  }

  lemma {:induction false} NoKidImages()
    ensures KidImages([]) == []
  {
  }

  /** Without the memories of the root only those are missing; the kids bring theirs. */
  lemma {:induction false} ImagesWithoutMem(t: Tree, im: Region)
    ensures im in Images(t, false) <==>
            exists path, mem :: ImageAt(t, path, mem) == Some(im) && (path != [] || mem == None)
  {
    hide KidImages, MemImages, ImageAt;
    if im in Images(t, false) {
      if im == t.image {
        RootImage(t);
        assert ImageAt(t, [], None) == Some(im);
      } else {
        var i := KidFrom(t.kids, im);
        var rest, m := ImageHasPath(t.kids[i].value, im);
        BelowImage(t, i, rest, m);
        assert ImageAt(t, [i] + rest, m) == Some(im);
      }
    }
    forall path, mem | ImageAt(t, path, mem) == Some(im) && (path != [] || mem == None)
      ensures im in Images(t, false)
    {
      RootImage(t);
      if path != [] {
        KidOfPath(t, path, mem);
        PathHasImage(t.kids[path[0]].value, path[1..], mem);
        KidIsIn(t.kids, path[0], im);
      }
    }
  }

  lemma {:induction false} RootImage(t: Tree)
    ensures ImageAt(t, [], None) == Some(t.image)
  {
  }

  lemma {:induction false} BelowImage(t: Tree, i: nat, rest: seq<nat>, mem: Option<nat>)
    requires i < |t.kids| && t.kids[i].Some?
    ensures ImageAt(t, [i] + rest, mem) == ImageAt(t.kids[i].value, rest, mem)
  {
    assert ([i] + rest)[1..] == rest;
  }

  lemma {:induction false} KidOfPath(t: Tree, path: seq<nat>, mem: Option<nat>)
    requires path != [] && ImageAt(t, path, mem).Some?
    ensures path[0] < |t.kids| && t.kids[path[0]].Some?
    ensures ImageAt(t.kids[path[0]].value, path[1..], mem) == ImageAt(t, path, mem)
  {
  }

  lemma {:induction false} PathHasImage(t: Tree, path: seq<nat>, mem: Option<nat>)
    requires ImageAt(t, path, mem).Some?
    ensures ImageAt(t, path, mem).value in Images(t, true)
    decreases path
  {
    hide KidImages, MemImages;
    if path == [] {
      if mem.Some? {
        MemIsIn(t.mems, mem.value);
      }
    } else {
      PathHasImage(t.kids[path[0]].value, path[1..], mem);
      KidIsIn(t.kids, path[0], ImageAt(t, path, mem).value);
    }
  }

  lemma {:induction false} MemIsIn(mems: seq<Option<Region>>, i: nat)
    requires i < |mems| && mems[i].Some?
    ensures mems[i].value in MemImages(mems)
    decreases |mems|
  {
    if i < |mems| - 1 {
      MemIsIn(mems[..|mems| - 1], i);
    }
  }

  lemma {:induction false} KidIsIn(kids: seq<Option<Tree>>, i: nat, im: Region)
    requires i < |kids| && kids[i].Some? && im in Images(kids[i].value, true)
    ensures im in KidImages(kids)
    decreases |kids|
  {
    hide Images;
    if i < |kids| - 1 {
      KidIsIn(kids[..|kids| - 1], i, im);
    }
  }

  lemma {:induction false} ImageHasPath(t: Tree, im: Region) returns (path: seq<nat>, mem: Option<nat>)
    requires im in Images(t, true)
    ensures ImageAt(t, path, mem) == Some(im)
    decreases t, 1
  {
    hide KidImages, MemImages;
    if im == t.image {
      path, mem := [], None;
    } else if im in MemImages(t.mems) {
      var i := MemFrom(t.mems, im);
      path, mem := [], Some(i);
    } else {
      var i := KidFrom(t.kids, im);
      var rest, m := ImageHasPath(t.kids[i].value, im);
      path, mem := [i] + rest, m;
      assert path[1..] == rest;
    }
  }

  lemma {:induction false} MemFrom(mems: seq<Option<Region>>, im: Region) returns (i: nat)
    requires im in MemImages(mems)
    ensures i < |mems| && mems[i] == Some(im)
    decreases |mems|
  {
    var n := |mems| - 1;
    if mems[n] == Some(im) {
      i := n;
    } else {
      i := MemFrom(mems[..n], im);
    }
  }

  lemma {:induction false} KidFrom(kids: seq<Option<Tree>>, im: Region) returns (i: nat)
    requires im in KidImages(kids)
    ensures i < |kids| && kids[i].Some? && im in Images(kids[i].value, true)
    decreases |kids|
  {
    hide Images;
    var n := |kids| - 1;
    if im in KidImage(kids[n]) {
      i := n;
    } else {
      i := KidFrom(kids[..n], im);
    }
  }

  // ------------------------------------------------------------------ each of them once

  datatype Name = Name(path: seq<nat>, mem: Option<nat>)

  /** ns names the images of a list, each by another name. */
  ghost predicate Names(t: Tree, images: seq<Region>, ns: seq<Name>) {
    |ns| == |images| && (forall i :: 0 <= i < |ns| ==> ImageAt(t, ns[i].path, ns[i].mem) == Some(images[i])) &&
    forall i, j :: 0 <= i < j < |ns| ==> ns[i] != ns[j]
  }

  ghost predicate KidNames(kids: seq<Option<Tree>>, ns: seq<Name>) {
    |ns| == |KidImages(kids)| &&
    (forall i :: 0 <= i < |ns| ==> ns[i].path != [] && KidImageAt(kids, ns[i]) == Some(KidImages(kids)[i])) &&
    forall i, j :: 0 <= i < j < |ns| ==> ns[i] != ns[j]
  }

  function KidImageAt(kids: seq<Option<Tree>>, n: Name): Option<Region>
    requires n.path != []
  {
    if n.path[0] < |kids| && kids[n.path[0]].Some? then ImageAt(kids[n.path[0]].value, n.path[1..], n.mem) else None
  }

  lemma {:induction false} NameAll(t: Tree) returns (ns: seq<Name>)
    ensures Names(t, Images(t, true), ns)
    decreases t
  {
    hide Images, MemImages, ImageAt, KidNames;
    var ms := NameMems(t.mems);
    var ks := NameKids(t.kids);
    var own := OwnNames(ms);
    ns := own + ks;
    OwnNamed(t, ms);
    KidsNamed(t, ks);
    ImagesSplit(t);
    forall i, j | 0 <= i < j < |ns| ensures ns[i] != ns[j] {
      if i >= |own| {
        assert ns[i] == ks[i - |own|] && ns[j] == ks[j - |own|];
      }
    }
  }

  /** The names of a module and of its memories. */
  function OwnNames(ms: seq<nat>): (ns: seq<Name>)
    ensures |ns| == |ms| + 1 && ns[0] == Name([], None)
    ensures forall i :: 0 <= i < |ms| ==> ns[i + 1] == Name([], Some(ms[i]))
  {
    [Name([], None)] + seq(|ms|, i requires 0 <= i < |ms| => Name([], Some(ms[i])))
  }

  lemma {:induction false} OwnNamed(t: Tree, ms: seq<nat>)
    requires |ms| == |MemImages(t.mems)|
    requires forall i :: 0 <= i < |ms| ==> ms[i] < |t.mems| && t.mems[ms[i]] == Some(MemImages(t.mems)[i])
    requires forall i, j :: 0 <= i < j < |ms| ==> ms[i] < ms[j]
    ensures Names(t, [t.image] + MemImages(t.mems), OwnNames(ms))
  {
    hide MemImages, OwnNames;
    var ns := OwnNames(ms);
    forall i | 0 <= i < |ns| ensures ImageAt(t, ns[i].path, ns[i].mem) == Some(([t.image] + MemImages(t.mems))[i]) {
      if i > 0 {
        assert ns[i] == Name([], Some(ms[i - 1]));
      }
    }
    forall i, j | 0 <= i < j < |ns| ensures ns[i] != ns[j] {
      assert ns[j] == Name([], Some(ms[j - 1]));
      assert i > 0 ==> ns[i] == Name([], Some(ms[i - 1]));
    }
  }

  lemma {:induction false} KidsNamed(t: Tree, ks: seq<Name>)
    requires KidNames(t.kids, ks)
    ensures Names(t, KidImages(t.kids), ks) && forall i :: 0 <= i < |ks| ==> ks[i].path != []
  {
    hide KidImages;
    forall i | 0 <= i < |ks| ensures ImageAt(t, ks[i].path, ks[i].mem) == Some(KidImages(t.kids)[i]) {
      assert ks[i].path != [];
    }
  }

  lemma {:induction false} ImagesSplit(t: Tree)
    ensures Images(t, true) == [t.image] + MemImages(t.mems) + KidImages(t.kids)
  {
  }

  lemma {:induction false} NameMems(mems: seq<Option<Region>>) returns (ms: seq<nat>)
    ensures |ms| == |MemImages(mems)|
    ensures forall i :: 0 <= i < |ms| ==> ms[i] < |mems| && mems[ms[i]] == Some(MemImages(mems)[i])
    ensures forall i, j :: 0 <= i < j < |ms| ==> ms[i] < ms[j]
    decreases |mems|
  {
    hide MemImages;
    ms := [];
    MemImagesSplit(mems);
    if mems != [] {
      var n := |mems| - 1;
      var ns := NameMems(mems[..n]);
      ms := ns + if mems[n].Some? then [n] else [];
      forall i | 0 <= i < |ms| ensures ms[i] < |mems| && mems[ms[i]] == Some(MemImages(mems)[i]) {
        assert i < |ns| ==> ms[i] == ns[i] && mems[..n][ns[i]] == Some(MemImages(mems[..n])[i]);
      }
    }
  }

  lemma {:induction false} MemImagesSplit(mems: seq<Option<Region>>)
    ensures if mems == [] then MemImages(mems) == []
            else var last := mems[|mems| - 1];
              MemImages(mems) == MemImages(mems[..|mems| - 1]) + if last.Some? then [last.value] else []
  {
  }

  lemma {:induction false} NameKids(kids: seq<Option<Tree>>) returns (ns: seq<Name>)
    ensures KidNames(kids, ns)
    ensures forall i :: 0 <= i < |ns| ==> ns[i].path != [] && ns[i].path[0] < |kids|
    decreases kids
  {
    ns := [];
    if kids != [] {
      var n := |kids| - 1;
      ns := NameKids(kids[..n]);
      var more := [];
      more := NameKid(kids[n]);
      KidNamed(kids, ns, more);
      ns := ns + Below(n, more);
    }
  }

  lemma {:induction false} NameKid(kid: Option<Tree>) returns (ns: seq<Name>)
    ensures if kid.Some? then Names(kid.value, Images(kid.value, true), ns) else ns == []
    decreases kid
  {
    ns := [];
    if kid.Some? {
      ns := NameAll(kid.value);
    }
  }

  /** The names of a kid seen from its parent. */
  function Below(n: nat, names: seq<Name>): (ns: seq<Name>)
    ensures |ns| == |names|
    ensures forall i :: 0 <= i < |names| ==> ns[i].path == [n] + names[i].path && ns[i].mem == names[i].mem
  {
    seq(|names|, i requires 0 <= i < |names| => Name([n] + names[i].path, names[i].mem))
  }

  lemma {:induction false} KidNamed(kids: seq<Option<Tree>>, ns: seq<Name>, more: seq<Name>)
    requires kids != [] && KidNames(kids[..|kids| - 1], ns)
    requires forall i :: 0 <= i < |ns| ==> ns[i].path != [] && ns[i].path[0] < |kids| - 1
    requires if kids[|kids| - 1].Some? then Names(kids[|kids| - 1].value, Images(kids[|kids| - 1].value, true), more)
             else more == []
    ensures KidNames(kids, ns + Below(|kids| - 1, more))
  {
    hide Images, ImageAt, Below, KidImages;
    var (n, all) := (|kids| - 1, ns + Below(|kids| - 1, more));
    KidImagesSplit(kids);
    var init := kids[..n];
    forall i | 0 <= i < |all| ensures all[i].path != [] && KidImageAt(kids, all[i]) == Some(KidImages(kids)[i]) {
      if i < |ns| {
        assert all[i] == ns[i] && KidImageAt(init, ns[i]) == Some(KidImages(init)[i]);
      } else {
        assert all[i].path == [n] + more[i - |ns|].path && all[i].path[1..] == more[i - |ns|].path;
      }
    }
    forall i, j | 0 <= i < j < |all| ensures all[i] != all[j] {
      if j >= |ns| {
        assert all[j].path == [n] + more[j - |ns|].path && all[j].path[1..] == more[j - |ns|].path;
        if i >= |ns| {
          assert all[i].path == [n] + more[i - |ns|].path && all[i].path[1..] == more[i - |ns|].path;
          assert more[i - |ns|] != more[j - |ns|];
        } else {
          assert all[i] == ns[i];
        }
      }
    }
  }

  lemma {:induction false} KidImagesSplit(kids: seq<Option<Tree>>)
    requires kids != []
    ensures var kid := kids[|kids| - 1];
            KidImages(kids) == KidImages(kids[..|kids| - 1]) + if kid.Some? then Images(kid.value, true) else []
  {
    hide Images;
  }

  /** No two modules or memories of a tree share an address. */
  ghost predicate ApartByName(t: Tree) {
    forall a: Name, b: Name :: a != b ==> ApartAt(ImageAt(t, a.path, a.mem), ImageAt(t, b.path, b.mem))
  }

  predicate ApartAt(a: Option<Region>, b: Option<Region>) {
    a.None? || b.None? || a.value.End() <= b.value.start || b.value.End() <= a.value.start
  }

  /** The list has each image once: images apart by name are apart in the list. */
  lemma {:induction false} ApartInList(t: Tree)
    requires ApartByName(t)
    ensures Apart(Images(t, true))
  {
    hide Images, ImageAt;
    var ns := NameAll(t);
    forall i, j | 0 <= i < j < |ns| ensures ApartAt(Some(Images(t, true)[i]), Some(Images(t, true)[j])) {
      assert ns[i] != ns[j];
    }
  }

  // ------------------------------------------------------------------ byte maps of image lists

  lemma {:induction false} ContentsAppend(a: seq<Region>, b: seq<Region>)
    ensures Contents(a + b) == Contents(a) + Contents(b)
    decreases |b|
  {
    hide Written;
    if b == [] {
      assert a + b == a;
      assert Contents(a) + map[] == Contents(a);
    } else {
      var (init, last) := (b[..|b| - 1], b[|b| - 1]);
      assert (a + b)[..|a + b| - 1] == a + init;
      ContentsAppend(a, init);
      OverrideTwice(Contents(a), Contents(init), Written(last.start, last.data));
    }
  }

  /** Later images that share no address leave an image as it is. */
  lemma {:induction false} ImageSurvives(images: seq<Region>, i: nat)
    requires Apart(images) && i < |images|
    ensures Covers(Contents(images), images[i].start, |images[i].data|)
    ensures Slice(Contents(images), images[i].start, |images[i].data|) == images[i].data
    decreases |images|
  {
    hide Contents, Covers, Slice, Written;
    var (init, last) := (images[..|images| - 1], images[|images| - 1]);
    OneOnTop(images);
    if i < |images| - 1 {
      assert Apart(init);
      ImageSurvives(init, i);
      KeptBelow(Contents(init), last, images[i]);
    } else {
      TopSurvives(Contents(init), last);
    }
  }

  lemma {:induction false} OneOnTop(images: seq<Region>)
    requires images != []
    ensures var (init, last) := (images[..|images| - 1], images[|images| - 1]);
            Contents(images) == Contents(init) + Written(last.start, last.data)
  {
    hide Written;
  }

  lemma {:induction false} TopSurvives(m: ByteMap, im: Region)
    ensures Covers(m + Written(im.start, im.data), im.start, |im.data|)
    ensures Slice(m + Written(im.start, im.data), im.start, |im.data|) == im.data
  {
    var m' := m + Written(im.start, im.data);
    forall k | 0 <= k < |im.data| ensures im.start + k in m' && m'[im.start + k] == im.data[k] {
    }
  }

  lemma {:induction false} KeptBelow(m: ByteMap, top: Region, im: Region)
    requires im.End() <= top.start || top.End() <= im.start
    requires Covers(m, im.start, |im.data|) && Slice(m, im.start, |im.data|) == im.data
    ensures Covers(m + Written(top.start, top.data), im.start, |im.data|)
    ensures Slice(m + Written(top.start, top.data), im.start, |im.data|) == im.data
  {
    var m' := m + Written(top.start, top.data);
    forall k | 0 <= k < |im.data| ensures im.start + k in m' && m'[im.start + k] == im.data[k] {
      assert Slice(m, im.start, |im.data|)[k] == m[im.start + k];
    }
  }

  // ------------------------------------------------------------------ writing a tree

  /** Writing two lists one after the other is writing their concatenation. */
  lemma {:induction false} Appended(was: ByteMap, a: seq<Region>, b: seq<Region>)
    ensures was + Contents(a) + Contents(b) == was + Contents(a + b)
    ensures AllInRange(a + b) <==> AllInRange(a) && AllInRange(b)
  {
    hide Contents, InRange;
    ContentsAppend(a, b);
    OverrideTwice(was, Contents(a), Contents(b));
    if AllInRange(a + b) {
      forall i | 0 <= i < |a| ensures InRange(a[i].start, |a[i].data|) { assert (a + b)[i] == a[i]; }
      forall i | 0 <= i < |b| ensures InRange(b[i].start, |b[i].data|) { assert (a + b)[|a| + i] == b[i]; }
    }
  }

  lemma {:induction false} FewImages(was: ByteMap, im: Region)
    ensures was + Contents([]) == was && AllInRange([])
    ensures Contents([im]) == Written(im.start, im.data) && (AllInRange([im]) <==> InRange(im.start, |im.data|))
  {
    assert [im][..0] == [];
    assert map[] + Written(im.start, im.data) == Written(im.start, im.data);
    if AllInRange([im]) {
      assert InRange([im][0].start, |[im][0].data|);
    }
  }

  lemma {:induction false} MemPrefix(mems: seq<Option<Region>>, i: nat)
    requires i <= |mems|
    ensures AllInRange(MemImages(mems)) ==> AllInRange(MemImages(mems[..i]))
    ensures i > 0 ==> MemImages(mems[..i]) ==
                        MemImages(mems[..i - 1]) + if mems[i - 1].Some? then [mems[i - 1].value] else []
    decreases |mems| - i
  {
    hide AllInRange;
    if i > 0 {
      assert mems[..i][..i - 1] == mems[..i - 1];
    }
    if i == |mems| {
      assert mems[..i] == mems;
    } else {
      MemPrefix(mems, i + 1);
      assert mems[..i + 1][..i] == mems[..i];
      Appended(map[], MemImages(mems[..i]), if mems[i].Some? then [mems[i].value] else []);
    }
  }

  lemma {:induction false} KidPrefix(kids: seq<Option<Tree>>, i: nat)
    requires i <= |kids|
    ensures AllInRange(KidImages(kids)) ==> AllInRange(KidImages(kids[..i]))
    ensures i > 0 ==> KidImages(kids[..i]) == KidImages(kids[..i - 1]) + KidImage(kids[i - 1])
    decreases |kids| - i
  {
    hide AllInRange, KidImage;
    if i > 0 {
      assert kids[..i][..i - 1] == kids[..i - 1];
    }
    if i == |kids| {
      assert kids[..i] == kids;
    } else {
      KidPrefix(kids, i + 1);
      assert kids[..i + 1][..i] == kids[..i];
      Appended(map[], KidImages(kids[..i]), KidImage(kids[i]));
    }
  }

  /** Writes the images of a module and of all below it, in order, until one is out of range. */
  method WriteCacheToRegioCacheTree(t: Tree, cache: Cache, includeMem: bool) returns (r: Result<(), RegioCache.Error>)
    requires cache.Valid() && Canonical(cache.regions)
    modifies cache
    ensures cache.Valid() && Canonical(cache.regions)
    ensures r.Ok? <==> AllInRange(Images(t, includeMem))
    ensures r.Ok? ==> cache.Map() == old(cache.Map()) + Contents(Images(t, includeMem))
    decreases t, 1
  {
    hide Contents, Canonical, InRange, MemImages, KidImages, AllInRange;
    ghost var was := cache.Map();
    ghost var mems := if includeMem then MemImages(t.mems) else [];
    FewImages(was, t.image);
    Appended(was, [t.image], mems);
    Appended(was, [t.image] + mems, KidImages(t.kids));
    FewImages(was + Contents([t.image]), t.image);
    var _ :- cache.CacheWrite(t.image.start, t.image.data);
    if includeMem {
      var _ :- WriteMems(t.mems, cache);
    }
    var _ :- WriteKids(t, cache);
    return Ok(());
  }

  method WriteMems(mems: seq<Option<Region>>, cache: Cache) returns (r: Result<(), RegioCache.Error>)
    requires cache.Valid() && Canonical(cache.regions)
    modifies cache
    ensures cache.Valid() && Canonical(cache.regions)
    ensures r.Ok? <==> AllInRange(MemImages(mems))
    ensures r.Ok? ==> cache.Map() == old(cache.Map()) + Contents(MemImages(mems))
  {
    hide Contents, Canonical, InRange, AllInRange, Written;
    ghost var was := cache.Map();
    FewImages(was, Region(0, []));
    for i := 0 to |mems|
      invariant cache.Valid() && Canonical(cache.regions)
      invariant AllInRange(MemImages(mems[..i]))
      invariant cache.Map() == was + Contents(MemImages(mems[..i]))
    {
      MemPrefix(mems, i + 1);
      if mems[i].Some? {
        FewImages(was, mems[i].value);
        Appended(was, MemImages(mems[..i]), [mems[i].value]);
        var _ :- cache.CacheWrite(mems[i].value.start, mems[i].value.data);
      } else {
        assert MemImages(mems[..i]) + [] == MemImages(mems[..i]);
      }
    }
    assert mems[..|mems|] == mems;
    return Ok(());
  }

  method WriteKids(t: Tree, cache: Cache) returns (r: Result<(), RegioCache.Error>)
    requires cache.Valid() && Canonical(cache.regions)
    modifies cache
    ensures cache.Valid() && Canonical(cache.regions)
    ensures r.Ok? <==> AllInRange(KidImages(t.kids))
    ensures r.Ok? ==> cache.Map() == old(cache.Map()) + Contents(KidImages(t.kids))
    decreases t, 0
  {
    hide Contents, Canonical, InRange, AllInRange, Images;
    ghost var was := cache.Map();
    FewImages(was, Region(0, []));
    for i := 0 to |t.kids|
      invariant cache.Valid() && Canonical(cache.regions)
      invariant AllInRange(KidImages(t.kids[..i]))
      invariant cache.Map() == was + Contents(KidImages(t.kids[..i]))
    {
      KidPrefix(t.kids, i + 1);
      Appended(was, KidImages(t.kids[..i]), KidImage(t.kids[i]));
      if t.kids[i].Some? {
        var _ :- WriteCacheToRegioCacheTree(t.kids[i].value, cache, true);
      } else {
        assert KidImages(t.kids[..i]) + [] == KidImages(t.kids[..i]);
      }
    }
    assert t.kids[..|t.kids|] == t.kids;
    return Ok(());
  }

  // ------------------------------------------------------------------ the file and back

  datatype SaveError = OutOfRange | TooLarge

  /** rs is the canonical region list of the images, and has a file. */
  ghost predicate SavedAs(images: seq<Region>, rs: seq<Region>) {
    Canonical(rs) && Contents(rs) == Contents(images) && CacheFile.Saveable(rs)
  }

  const SPACE: nat := 0x1_0000_0000

  /** Saves a tree. It fails exactly when an image leaves the 32-bit space or the images fill all of
      it, whose one region is too large for a size word; the file is that of the canonical
      regions of the images. */
  method WriteCacheTreeToFile(t: Tree) returns (r: Result<seq<Byte>, SaveError>)
    ensures r.Ok? ==> exists rs :: SavedAs(Images(t, true), rs) && r.value == CacheFile.Encode(rs)
    ensures r.Ok? <==> AllInRange(Images(t, true)) && !Covers(Contents(Images(t, true)), 0, SPACE)
    ensures r == Err(OutOfRange) <==> !AllInRange(Images(t, true))
  {
    hide Contents, Images, CacheFile.Encode, Covers;
    var cache := new Cache();
    var written := WriteCacheToRegioCacheTree(t, cache, true);
    if written.Err? {
      return Err(OutOfRange);
    }
    assert cache.Map() == Contents(Images(t, true)) by { NothingBelow(Contents(Images(t, true))); }
    var file := cache.SaveToFile();
    SaveableIff(cache.regions, Images(t, true));
    if file.Err? {
      return Err(TooLarge);
    }
    assert SavedAs(Images(t, true), cache.regions);
    return Ok(file.value);
  }

  /** Regions inside the 32-bit space have a file unless they are one region of all of it. */
  lemma {:induction false} SaveableIff(rs: seq<Region>, images: seq<Region>)
    requires Canonical(rs) && AllInRange(images) && Contents(rs) == Contents(images)
    ensures CacheFile.Saveable(rs) <==> !Covers(Contents(images), 0, SPACE)
  {
    hide Contents, Covers;
    if Covers(Contents(rs), 0, SPACE) {
      var i := FillsSpace(rs);
      assert |rs[i].data| > UINT32_MAX;
    }
    if !CacheFile.Saveable(rs) {
      var i :| 0 <= i < |rs| && (rs[i].start > UINT32_MAX || |rs[i].data| > UINT32_MAX);
      RegionInSpace(rs, images, i);
      WholeSpace(rs, i);
    }
  }

  lemma {:induction false} RegionInSpace(rs: seq<Region>, images: seq<Region>, i: nat)
    requires Canonical(rs) && AllInRange(images) && Contents(rs) == Contents(images) && i < |rs|
    ensures rs[i].End() <= SPACE && rs[i].start <= UINT32_MAX
  {
    hide Contents;
    var last := rs[i].End() - 1;
    assert rs[i].data != [];
    ContentsAt(rs, rs[i], last);
    var im := ContentsFrom(images, last);
    var j :| 0 <= j < |images| && images[j] == im;
    assert InRange(images[j].start, |images[j].data|);
  }

  lemma {:induction false} WholeSpace(rs: seq<Region>, i: nat)
    requires Gapped(rs) && i < |rs| && rs[i].End() <= SPACE && |rs[i].data| > UINT32_MAX
    ensures Covers(Contents(rs), 0, SPACE)
  {
    hide Contents;
    forall a | 0 <= a < SPACE ensures a in Contents(rs) {
      ContentsAt(rs, rs[i], a);
    }
  }

  lemma {:induction false} FillsSpace(rs: seq<Region>) returns (i: nat)
    requires Canonical(rs) && Covers(Contents(rs), 0, SPACE)
    ensures i < |rs| && rs[i].start == 0 && rs[i].End() >= SPACE
  {
    hide Contents;
    var r := ContentsFrom(rs, 0);
    i :| 0 <= i < |rs| && rs[i] == r;
    if rs[i].End() < SPACE {
      HoleBehind(rs, i, rs[i].End());
    }
  }

  lemma {:induction false} NothingBelow(m: ByteMap)
    ensures map[] + m == m
  {
  }

  /** Main result: whatever adjacent images were merged into one region, the regions loaded from
      the file of a tree give every image of it back, byte for byte. */
  lemma {:induction false} SnapshotIsFaithful(t: Tree, rs: seq<Region>, loaded: seq<Region>, i: nat)
    requires Apart(Images(t, true)) && SavedAs(Images(t, true), rs) && i < |Images(t, true)|
    requires CacheFile.Decode(CacheFile.Encode(rs)) == Ok(loaded)
    ensures var im := Images(t, true)[i];
            Canonical(loaded) && Covers(Contents(loaded), im.start, |im.data|) &&
            Slice(Contents(loaded), im.start, |im.data|) == im.data
  {
    hide Contents, Images, CacheFile.Encode, CacheFile.Decode, Canonical, Covers, Slice;
    CacheFile.DecodeIffEncoded(CacheFile.Encode(rs), rs);
    ImageSurvives(Images(t, true), i);
  }

  /** A read of the cache through the MTU splitting it inherits. */
  method ReadSplit(cache: Cache, addr: nat, size: nat, mtu: nat) returns (r: Result<seq<Byte>, RegioCache.Error>)
    requires cache.Valid() && mtu > 0 && InRange(addr, size)
    ensures r.Ok? <==> Covers(cache.Map(), addr, size)
    ensures r.Ok? ==> r.value == Slice(cache.Map(), addr, size)
  {
    hide Contents, Covers, Slice, Regio.FirstChunkSize;
    var collected := [];
    var chunkSize := Regio.FirstChunkSize(addr, mtu);
    var done := 0;
    Regio.ReadStart(cache.Map(), addr);
    while done < size
      invariant done <= size && chunkSize > 0
      invariant Covers(cache.Map(), addr, done) && collected == Slice(cache.Map(), addr, done)
    {
      chunkSize := Regio.Min(chunkSize, size - done);
      Regio.AdjoiningReads(cache.Map(), addr, done, chunkSize);
      Regio.AdjoiningReads(cache.Map(), addr, done + chunkSize, size - done - chunkSize);
      var chunk :- cache.CacheRead(addr + done, chunkSize);
      collected := collected + chunk;
      done := done + chunkSize;
      chunkSize := mtu;
    }
    return Ok(collected);
  }

  /** Main result, as a whole run: save a tree, load the file into a new cache in place of its
      regions, and read the range of any of its images in MTU chunks - the image comes back. */
  method SaveReloadRead(t: Tree, i: nat, mtu: nat) returns (r: Result<seq<Byte>, SaveError>)
    requires Apart(Images(t, true)) && i < |Images(t, true)| && mtu > 0
    ensures r.Ok? ==> r.value == Images(t, true)[i].data
    ensures r.Ok? <==> AllInRange(Images(t, true)) && !Covers(Contents(Images(t, true)), 0, SPACE)
  {
    hide Contents, Images, CacheFile.Encode, CacheFile.Decode, Covers, Slice, SavedAs;
    var file :- WriteCacheTreeToFile(t);
    ghost var rs :| SavedAs(Images(t, true), rs) && file == CacheFile.Encode(rs);
    SavedLoads(Images(t, true), rs);
    SnapshotIsFaithful(t, rs, CacheFile.Decode(file).value, i);
    var cache := new Cache();
    var loaded := cache.LoadFromFile(file, true);
    var im := Images(t, true)[i];
    assert InRange(im.start, |im.data|);
    var back := ReadSplit(cache, im.start, |im.data|, mtu);
    return Ok(back.value);
  }

  /** Main result, by name: save a tree, load the file into a new cache, and read the range of the
      module at a path, or of one of its cached memories - its bytes come back. */
  method SaveReloadReadAt(t: Tree, path: seq<nat>, mem: Option<nat>, mtu: nat) returns (r: Result<seq<Byte>, SaveError>)
    requires ApartByName(t) && ImageAt(t, path, mem).Some? && mtu > 0
    ensures r.Ok? ==> r.value == ImageAt(t, path, mem).value.data
    ensures r.Ok? <==> AllInRange(Images(t, true)) && !Covers(Contents(Images(t, true)), 0, SPACE)
  {
    hide *;
    ApartInList(t);
    PathHasImage(t, path, mem);
    var im := ImageAt(t, path, mem).value;
    var i :| 0 <= i < |Images(t, true)| && Images(t, true)[i] == im;
    r := SaveReloadRead(t, i, mtu);
  }

  lemma {:induction false} SavedLoads(images: seq<Region>, rs: seq<Region>)
    requires SavedAs(images, rs)
    ensures CacheFile.Decode(CacheFile.Encode(rs)) == Ok(rs) && Gapped(rs)
  {
    CacheFile.DecodeIffEncoded(CacheFile.Encode(rs), rs);
  }
}
