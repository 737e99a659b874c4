# Register maps, their transport and their recipe expressions

hdlskel describes the register maps of FPGA modules in recipe files, generates code for them, and
reaches the registers over a byte transport. This project models the algorithms behind that and
proves what each promises:

- **Recipe expressions** (`RecipeTree`, `RecipeGrammar`, `RecipeText`, `RecipeParser`,
  `RecipePrecedence`, `RecipeRoundTrip`): tokenizer, precedence-climbing parser with constant
  folding, and printer. The parser accepts exactly a declarative grammar, binds operators as a
  table written out in the theorem says, folding never changes a value, and printing and parsing
  undo each other - with the exact exception.
- **Value conversions** (`Rational`, `RecipeInverse`, `RecipeVerify`): the affine analysis and the
  symbolic inverter, over exact fractions, and what the six samples of the inverse check say
  about all register values.
- **Sparse memory cache** (`Regions`, `RegioCache`, `CacheFile`): merge on write, binary-search
  reads and the file format, against a partial map from address to byte.
- **Transport** (`Regio`, `TcpWire`, `TcpServerMulti`, `TcpServerSingle`, `TcpEndToEnd`,
  `Ramface`): MTU splitting, stream framing, a server of many clients, a locked client, and the
  testbench driver of a pipelined word bus; each is reading and writing a flat memory.
- **Registers** (`Widths`, `Layout`, `RegModule`, `RegCodec`, `Registers`, `Flags`,
  `ExternalMem`): slot allocation, padded device accesses through a write-through image, and the
  encoding of scalar, vector and flag registers.
- **Snapshots** (`Snapshot`): a tree of modules saved to a cache file and read back from it.

`Wrappers`, `Bytes`, `Bits` and `Division` hold what these share.

Code that works step by step is a class or a method with loops (`RecipeExprParser`, `Cache`,
`Regio`, `RegioTcpServer`, `Socket`, `RamfaceCtrl`, `Module`, `Reg`, `RegVec`, `RFlag`,
`ExternalMemCached`); each method is proved against a function of the old state, and the
properties are proved about that function. Exceptions and failed assertions are `Result` or
`Option` values. A function that a method and its theorem share is fixed by theorems of its own that do not
use it: byte layouts byte by byte, roundings by their remainder, alignments as the least number
with the property, sets of things by membership.

Five natural statements are false of the code, and are replaced by their exact conditions:

- A printed tree parses back to itself exactly when no negative number in it is raised to a power
  (`RoundTripIff`); the text of a negative base reads as a negated power.
- The sample check settles all register values of a rising conversion only; a falling one can
  pass and lose a value (`EveryRawComesBackIff`, `FallingExample`, and for a conversion given by
  its read side `EveryRawReadComesBackIff`, `ReadFallingExample`).
- A whole-list read of a vector agrees with the element reads exactly when the value is narrower
  than its element or the padding bytes are zero; a signed one also when they read as 1 behind a
  non-negative element (`ListReadAgreesIff`, `SignedListReadAgreesIff`). A device read can leave
  other padding in the image (`PaddingFromDevice`).
- A signed element of an external memory reads back exactly when its width fills its storage or
  the value is non-negative in its width (`SignedElemReadsBackIff`): the read extends the sign
  without masking.
- A derived conversion is an inverse exactly when its coefficient and offset resolve to the slope
  of the conversion and its value at 0; a quotient of numbers is rounded up by the resolver
  (`InverseIsTwoSidedIff`, `ClosedOperandExample`, `RoundedDivisorExample`).

Smaller findings are part of the contracts: an empty list written at an unaligned bus address
drives a read whose reply disturbs the next read (`WriteList`, `ReadList`), the Python and C++
widths of a zero-width value differ (`PromotesAgreeIff`), and reading a whole variable area fails
when the area does not start on the byte alignment of the module, and can make the image longer
than the module when the module base is off it (`ReadAll`, `UnalignedArea`).

Division: `/` on ints is floor division where trees are folded and in generated Python, and
ceiling division where the recipe parser resolves or samples a tree; each theorem says which.
The inverse theorems are over exact rationals.

## Model

| member | source | states |
|---|---|---|
| RecipeTree.FoldKeepsValue | pip/skmap/src/skmap/code_generator_parse_resolvable.py:165-192 | Constant folding keeps the value an operation has in generated Python (floor division), and keeps an undefined value undefined, for every value of `v` and of the names |
| RecipeTree.RefusedFoldHasNoValue | pip/skmap/src/skmap/code_generator_parse_resolvable.py:165-192 | Where folding raises, the operation has no int value at all |
| RecipeTree.FoldIsNormal | pip/skmap/src/skmap/code_generator_parse_resolvable.py:165-192 | One folding pass is enough: folding normal operands, including the (x + c1) + c2 rewrite, gives a tree that folds no further |
| RecipeTree.FoldsExactly | pip/skmap/src/skmap/code_generator_parse_resolvable.py:165-192 | What is folded, without the folding function: + - * / ** of two ints, to the value generated Python gives, refused for a zero divisor and a negative exponent only; a constant added to a sum that ends in one; nothing else |
| RecipeTree.PowLaws | pip/skmap/src/skmap/code_generator_parse_resolvable.py:185-185 | Powers: b**0 is 1, b**1 is b, and exponents add up |
| RecipeTree.ComparisonLaws | pip/skmap/src/skmap/code_generator_py.py:32-45 | Comparisons give 0 or 1, each as the order of the ints says |
| RecipeTree.LogicLaws | pip/skmap/src/skmap/code_generator_py.py:32-50 | The logic operators give the operand that decides, and look at the right one only when the left one does not |
| RecipeTree.ZeroDivides | pip/skmap/src/skmap/code_generator_py.py:32-43 | Division and remainder by zero have no value |
| RecipeTree.EvalAllAt | pip/skmap/src/skmap/code_generator_py.py:79-81 | Arguments are evaluated one by one, in order |
| RecipeTree.DivisionLaws | pip/skmap/src/skmap/code_generator_py.py:32-43 | `/` and `%` of generated Python: the quotient and the remainder between 0 and the divisor |
| RecipeGrammar.DenoteKeepsValue | pip/skmap/src/skmap/code_generator_py.py:32-43 | The folded tree of a text has the value of the unfolded text under the operators of generated Python |
| RecipeGrammar.DenoteIsNormal | pip/skmap/src/skmap/code_generator_parse_resolvable.py:165-192 | What a text denotes is in normal form |
| RecipeText.LexSpelled | pip/skmap/src/skmap/code_generator_parse_resolvable.py:195-219 | Every token the tokenizer makes has the spelling of its kind |
| RecipePrecedence.SymbolsLex | pip/skmap/src/skmap/code_generator_parse_resolvable.py:195-219 | Each of the symbols, written out, is read as its token, two-character ones whole |
| RecipePrecedence.WordsLex | pip/skmap/src/skmap/code_generator_parse_resolvable.py:195-219 | Letters, digits and underscores that start with no digit are one name, with a `$` in front one function, digits one number, blanks, tabs and line ends nothing |
| RecipePrecedence.WordsEnd | pip/skmap/src/skmap/code_generator_parse_resolvable.py:195-219 | A name ends at the first other character, a number at the first that is no digit and no point |
| RecipePrecedence.FloatsLex | pip/skmap/src/skmap/code_generator_parse_resolvable.py:198-198 | Digits with a point among, before or behind them are one float |
| RecipePrecedence.StrayCharacters | pip/skmap/src/skmap/code_generator_parse_resolvable.py:241-250 | Every other character is refused; `=`, `&` and the bar need their double |
| RecipeText.LexTurn | pip/skmap/src/skmap/code_generator_parse_resolvable.py:241-250 | A token depends only on the text from its start; skipped text adds none |
| RecipeText.Tokenize | pip/skmap/src/skmap/code_generator_parse_resolvable.py:241-250 | The tokenizer loop computes the token list, and raises exactly at a character no token starts with |
| RecipeParser.RecipeExprParser.constructor | pip/skmap/src/skmap/code_generator_parse_resolvable.py:254-256 | A parser starts with all tokens left |
| RecipeParser.RecipeExprParser.Peek | pip/skmap/src/skmap/code_generator_parse_resolvable.py:258-259 | The next token, none at the end |
| RecipeParser.RecipeExprParser.Advance | pip/skmap/src/skmap/code_generator_parse_resolvable.py:261-262 | Takes exactly the next token |
| RecipeParser.RecipeExprParser.ExpectKind | pip/skmap/src/skmap/code_generator_parse_resolvable.py:264-268 | Takes the next token if it has the kind, raises otherwise |
| RecipeParser.RecipeExprParser.ParseAll | pip/skmap/src/skmap/code_generator_parse_resolvable.py:270-275 | The parser accepts a whole token list only; its result is that of the specification the grammar theorem is about |
| RecipeParser.RecipeExprParser.ParseBinary | pip/skmap/src/skmap/code_generator_parse_resolvable.py:277-300 | The loop of a precedence level gives the specified parse of that level; which operators that level holds is `SplitsAtLastLoosest` |
| RecipeParser.RecipeExprParser.ParseSigned | pip/skmap/src/skmap/code_generator_parse_resolvable.py:302-313 | Prefix operators, with the minus folded into 0 - x |
| RecipeParser.RecipeExprParser.ParseRaised | pip/skmap/src/skmap/code_generator_parse_resolvable.py:315-321 | `**` binds tighter than a prefix on its left and takes a prefixed operand on its right |
| RecipeParser.RecipeExprParser.ParseOperand | pip/skmap/src/skmap/code_generator_parse_resolvable.py:323-369 | Numbers, names, calls and parentheses |
| RecipeParser.RecipeExprParser.ParseCall | pip/skmap/src/skmap/code_generator_parse_resolvable.py:352-367 | A call of a built-in function with its arguments |
| RecipeParser.RecipeExprParser.ParseParams | pip/skmap/src/skmap/code_generator_parse_resolvable.py:359-363 | The comma separated arguments of a call |
| RecipeText.ParseResolvable | pip/skmap/src/skmap/code_generator_parse_resolvable.py:372-382 | Tokenizer and parser objects together give the specified parse of the text; `SplitsAtLastLoosest`, `SignsBind`, `PowersBind`, `CallsParse` and the tokenizer rows say without the tables of the parser which one that is |
| RecipeParser.ParseIffDerivable | pip/skmap/src/skmap/code_generator_parse_resolvable.py:270-369 | The parser accepts exactly the token lists of a declarative precedence grammar, with exactly the trees the grammar gives them; the operator table the grammar shares with the parser is fixed by the rows of `RecipePrecedence` |
| RecipePrecedence.SplitsAtLastLoosest | pip/skmap/src/skmap/code_generator_parse_resolvable.py:276-300 | In every chain of operands the last of the loosest operators is applied last, with the six groups and the operator of each token written out in the statement |
| RecipePrecedence.TwoOperands | pip/skmap/src/skmap/code_generator_parse_resolvable.py:276-300 | Two operands give the operation of the token between them |
| RecipePrecedence.ThreeOperands | pip/skmap/src/skmap/code_generator_parse_resolvable.py:276-300 | Of two operators the left one is applied first when it is in the same or a tighter group, else the right one |
| RecipePrecedence.SignsBind | pip/skmap/src/skmap/code_generator_parse_resolvable.py:302-321 | A minus takes a whole power and less than a product, also in an exponent or a right factor; a plus changes nothing |
| RecipePrecedence.PowersBind | pip/skmap/src/skmap/code_generator_parse_resolvable.py:315-321 | Powers group to the right and bind tighter than products on either side |
| RecipePrecedence.NotReads | pip/skmap/src/skmap/code_generator_parse_resolvable.py:310-312 | `!` takes less than a comparison |
| RecipePrecedence.ParensKeep | pip/skmap/src/skmap/code_generator_parse_resolvable.py:346-350 | Parentheses leave the tree of what they enclose as it is |
| RecipePrecedence.CallsParse | pip/skmap/src/skmap/code_generator_parse_resolvable.py:352-367 | The six built-in functions by name, one argument each and two in order for `$cdiv`; any other number is refused |
| RecipePrecedence.OtherFunctions | pip/skmap/src/skmap/code_generator_parse_resolvable.py:355-356 | Any other function name is refused |
| RecipePrecedence.DecimalDigits | pip/skmap/src/skmap/code_generator_parse_resolvable.py:328-329 | A decimal literal has the value of its digits |
| RecipePrecedence.NamesLookUp | pip/skmap/src/skmap/code_generator_parse_resolvable.py:334-344 | A name is the register value, else its entry in the table, else refused |
| RecipePrecedence.ValueComesFirst | pip/skmap/src/skmap/code_generator_parse_resolvable.py:334-344 | `v` is the register value wherever there is one, whatever the table has under that name |
| RecipePrecedence.SumOfProduct | pip/skmap/src/skmap/code_generator_parse_resolvable.py:372-382 | The text 1+2*v is 1 plus a product |
| RecipeParser.ParseKeepsValue | pip/skmap/src/skmap/code_generator_parse_resolvable.py:270-369 | A parsed tree has the value of the text, for every `v` and every assignment of the names |
| RecipeParser.ParseIsNormal | pip/skmap/src/skmap/code_generator_parse_resolvable.py:165-192 | What the parser returns never folds further |
| RecipeText.PrintLexes | pip/skmap/src/skmap/code_generator_parse_resolvable.py:593-634 | Printed text tokenizes to the tokens of its concrete syntax, whatever follows it |
| RecipeText.PrintedTextParses | pip/skmap/src/skmap/code_generator_parse_resolvable.py:593-634 | Printed text is grammatical and is read as that concrete syntax, every precedence level falling through |
| RecipeText.ReadsBack | pip/skmap/src/skmap/code_generator_parse_resolvable.py:593-634 | A printed tree without a negative number as the base of a power parses back to itself |
| RecipeRoundTrip.RoundTripIff | pip/skmap/src/skmap/code_generator_parse_resolvable.py:593-634 | ... and exactly these trees do |
| RecipeRoundTrip.NegativeBaseIsLost | pip/skmap/src/skmap/code_generator_parse_resolvable.py:593-634 | A tree with a negative base anywhere in it is never read back |
| RecipeRoundTrip.ReparseIff | pip/skmap/src/skmap/code_generator_parse_resolvable.py:372-382 | For every text the parser accepts: printing its tree and parsing again gives the tree back exactly when no negative number in it is raised to a power |
| RecipeRoundTrip.NegativeBaseExample | pip/skmap/src/skmap/code_generator_parse_resolvable.py:593-634 | The exception is real: the text `(-2)**v` parses to a tree whose printed text reads as -(2**v), with another value |
| Rational.ReduceIsLowest | pip/skmap/src/skmap/code_generator_parse_resolvable.py:655-672 | A fraction is kept in lowest terms with a positive denominator |
| Rational.AddIsSum | pip/skmap/src/skmap/code_generator_parse_resolvable.py:698-704 | Exact fraction addition is real addition |
| Rational.MulIsProduct | pip/skmap/src/skmap/code_generator_parse_resolvable.py:713-718 | Exact fraction multiplication is real multiplication |
| Rational.DivIsQuotient | pip/skmap/src/skmap/code_generator_parse_resolvable.py:720-731 | Exact fraction division is real division |
| RecipeInverse.AffineSound | pip/skmap/src/skmap/code_generator_parse_resolvable.py:733-766 | For every tree the affine analysis accepts whose divisors resolve to their exact values: if its divisors are non-zero for one `v` they are for all, and its value is coef * v + offset |
| RecipeInverse.ScaledIsReduced | pip/skmap/src/skmap/code_generator_parse_resolvable.py:783-809 | The whole coefficients of a derived conversion have no common factor, a positive divisor, and the proportion of the unreduced ones |
| RecipeInverse.InverseAffineValue | pip/skmap/src/skmap/code_generator_parse_resolvable.py:770-813 | Whichever branch builds it, the derived tree computes (v - offset) / coef with the values coefficient and offset resolve to |
| RecipeInverse.InverseIsTwoSided | pip/skmap/src/skmap/code_generator_parse_resolvable.py:816-833 | The derived conversion is a two-sided inverse over the exact rationals, for every `v` and every assignment of the names that keeps divisors and slope non-zero |
| RecipeInverse.TrueLine | pip/skmap/src/skmap/code_generator_parse_resolvable.py:733-766 | Every tree the affine analysis accepts is a line in `v`, whatever the resolver makes of its divisors, as long as its factors and divisors do not depend on `v` |
| RecipeInverse.KeptInverseIff | pip/skmap/src/skmap/code_generator_parse_resolvable.py:674-682 | Where the divisors resolve to their exact values: the derived conversion is a two-sided inverse everywhere exactly when resolving keeps the exact values of coefficient and offset |
| RecipeInverse.InverseIsTwoSidedIff | pip/skmap/src/skmap/code_generator_parse_resolvable.py:674-766 | Whatever the resolver rounds, divisors included: the derived conversion is a two-sided inverse everywhere exactly when coefficient and offset resolve to the slope of the conversion and its value at 0 |
| RecipeInverse.RoundedDivisorExample | pip/skmap/src/skmap/code_generator_parse_resolvable.py:674-682 | v / ($cdiv(7, 2) / 3) derives v * 2, because the divisor 4/3 resolves to its ceiling: no inverse |
| RecipeInverse.ClosedOperandExample | pip/skmap/src/skmap/code_generator_parse_resolvable.py:674-682 | (v * $cdiv(7, 2)) / 3 derives v / 2, because 4/3 resolves to its ceiling: no inverse |
| RecipeInverse.WrappedConversionReturns | pip/skmap/src/skmap/code_generator_parse_resolvable.py:816-833 | Dropping an outer rounding call is harmless: converting the derived value of a register value back and rounding it gives that register value |
| RecipeInverse.InverseHasNoFraction | pip/skmap/src/skmap/code_generator_parse_resolvable.py:685-695 | A derived tree holds no fraction, so it can be printed and generated |
| RecipeInverse.LinearIsAccepted | pip/skmap/src/skmap/code_generator_parse_resolvable.py:733-766 | The affine analysis accepts every tree of sums and differences, products with and quotients by operands without `v`, the divisors not zero |
| RecipeInverse.OthersAreRefused | pip/skmap/src/skmap/code_generator_parse_resolvable.py:733-766 | It refuses every other operation on `v`, a constant times or over `v`, and the inverter a conversion without `v` |
| RecipeInverse.RoundingIsDropped | pip/skmap/src/skmap/code_generator_parse_resolvable.py:816-833 | Exactly one outer `$round`, `$ceil`, `$floor` or `$float` is dropped; a call under it and the other calls are refused |
| RecipeInverse.RoundRealIs | pip/skmap/src/skmap/code_generator_parse_resolvable.py:836-841 | The roundings of an exact value: down, up, and to the nearest int with halves away from zero |
| RecipeInverse.ContainsVIff | pip/skmap/src/skmap/code_generator_parse_resolvable.py:509-518 | A tree uses `v` exactly when putting another tree in its place changes it |
| RecipeInverse.WithoutVSameValue | pip/skmap/src/skmap/code_generator_parse_resolvable.py:509-518 | ... and otherwise its value does not depend on `v` |
| RecipeInverse.TryIntIff | pip/skmap/src/skmap/code_generator_parse_resolvable.py:674-683 | Exactly the trees with a number are replaced, by that number |
| RecipeInverse.ResolveIsPython | pip/skmap/src/skmap/code_generator_parse_resolvable.py:538-590 | On ints the resolver agrees with generated Python in every operator but `/`, and in `&&` and the or-operator up to the truth of the result |
| RecipeInverse.ResolveRoundsUp | pip/skmap/src/skmap/code_generator_parse_resolvable.py:534-536 | Its quotient, and `$cdiv` of resolver and generated Python, is the least int not below the exact one |
| RecipeInverse.Clog2IsLeast | pip/skmap/src/skmap/code_generator_parse_resolvable.py:551-556 | `$clog2` is the least k with x <= 2^k, in the resolver and for positive x in generated Python, where `$clog2(0)` is 1 |
| RecipeInverse.RoundingCalls | pip/skmap/src/skmap/code_generator_parse_resolvable.py:559-566 | On ints `$round`, `$ceil` and `$floor` change nothing and `$float` leaves the ints |
| RecipeInverse.ResolveNot | pip/skmap/src/skmap/code_generator_parse_resolvable.py:586-586 | `!` gives 1 for zero and 0 for any other int |
| RecipeInverse.ResolveAllAt | pip/skmap/src/skmap/code_generator_parse_resolvable.py:552-552 | Arguments are resolved one by one, in order |
| RecipeInverse.ResolveFractions | pip/skmap/src/skmap/code_generator_parse_resolvable.py:568-575 | With a fraction the resolver computes + - * / exactly |
| RecipeVerify.VerifyInverse | pip/skmap/src/skmap/code_generator_parse_resolvable.py:843-863 | The sample loop refuses a conversion exactly when one of the samples 0, 1, 3, -3, 100, -100 can be evaluated and comes back as another value while all before it came back right; a sample that cannot be evaluated ends it with acceptance |
| RecipeVerify.PassesIff | pip/skmap/src/skmap/code_generator_parse_resolvable.py:851-863 | The same of any list of samples |
| RecipeVerify.NameRaises | pip/skmap/src/skmap/code_generator_parse_resolvable.py:851-859 | A tree with a run-time name cannot be evaluated |
| RecipeVerify.NamesAreTakenAsGiven | pip/skmap/src/skmap/code_generator_parse_resolvable.py:851-859 | A conversion with a run-time name on either side is never refused |
| RecipeVerify.NameExample | pip/skmap/src/skmap/code_generator_parse_resolvable.py:851-859 | v * g with a run-time g derives v / g and is accepted |
| RecipeVerify.SamplerIsPython | pip/skmap/src/skmap/code_generator_parse_resolvable.py:866-886 | On + - * / ** % the sampler computes what generated Python does but for its `/`, and constants as the resolver does |
| RecipeVerify.SamplerRaises | pip/skmap/src/skmap/code_generator_parse_resolvable.py:882-889 | Comparisons, logic operators and `!` of sampled values raise; a call gets the sampled value of an argument with `v` in it |
| RecipeVerify.BindAllAt | pip/skmap/src/skmap/code_generator_parse_resolvable.py:884-889 | Arguments are bound one by one, in order: sampled where `v` is in them, resolved elsewhere |
| RecipeVerify.RoundingsAre | pip/skmap/src/skmap/code_generator_parse_resolvable.py:534-536 | The three roundings of `/` by the remainder they leave |
| RecipeVerify.DerivedSide | pip/skmap/src/skmap/code_generator_parse_resolvable.py:796-809 | The derived side of (p*v + q)/r computes (raw*lhs - off)/rhs under every rounding of `/` |
| RecipeVerify.BackMoves | pip/skmap/src/skmap/code_generator_parse_resolvable.py:866-885 | A register value comes back moved by its rounding error, rounded up |
| RecipeVerify.EveryRawComesBackIff | pip/skmap/src/skmap/code_generator_parse_resolvable.py:843-885 | Every register value comes back exactly when the conversion rises and p divides q and r, or falls and is no steeper than one step |
| RecipeVerify.SamplesDecideRising | pip/skmap/src/skmap/code_generator_parse_resolvable.py:843-863 | For a rising conversion passing the six samples, or only 0 and 1, is the same as every register value coming back |
| RecipeVerify.CheckedConversionIgnoresRounding | pip/skmap/src/skmap/code_generator_parse_resolvable.py:534-536 | ... and then ceiling, floor and truncating division derive the same user value and bring every register value back |
| RecipeVerify.FallingExample | pip/skmap/src/skmap/code_generator_parse_resolvable.py:843-863 | The rising slope is needed: (v*-1001 + 2)/1000 passes all six samples and turns the register value -1 into -2 |
| RecipeVerify.ReadBackMoves | pip/skmap/src/skmap/code_generator_parse_resolvable.py:443-463 | Given by its read side (p*v + q)/r, a register value comes back moved by the rounding of the read side, in steps of p |
| RecipeVerify.EveryRawReadComesBackIff | pip/skmap/src/skmap/code_generator_parse_resolvable.py:443-463 | Read and written back every register value comes back exactly when the conversion rises and r divides p and q, or falls and is at least one step steep |
| RecipeVerify.ReadSamplesDecideRising | pip/skmap/src/skmap/code_generator_parse_resolvable.py:843-863 | For a rising read side passing the six samples, or only 0 and 1, is the same as every register value coming back, and then it does under every rounding of `/` |
| RecipeVerify.ReadFallingExample | pip/skmap/src/skmap/code_generator_parse_resolvable.py:843-863 | Read by (v*1000 - 2)/-1001 all six samples come back and the register value -1 is written back as -2 |
| Regions.CanonicalUnique | pip/regio/src/regio/cache.py:40-50 | Sorted, non-empty regions with a hole between any two are determined by their byte map |
| Regions.CoversAddresses | pip/regio/src/regio/cache.py:78-110 | A range is covered exactly when all its addresses are mapped |
| RegioCache.InRangeIff | pip/regio/src/regio/cache.py:150-158 | Accepted are exactly the ranges whose every byte lies at an address from 0 to 2^32 - 1, and empty ones that start there |
| RegioCache.NoZeroFillLeft | pip/regio/src/regio/cache.py:112-148 | Every byte of a merged region is new or from a region it absorbed: no zero of the merge buffer survives |
| RegioCache.MergeOverrides | pip/regio/src/regio/cache.py:112-148 | A merge gives the old byte map overridden by the write, as a sorted list of regions with holes between |
| RegioCache.CoveredInOne | pip/regio/src/regio/cache.py:78-110 | A range is fully mapped exactly when it lies in the last region that starts no later |
| RegioCache.Cache.constructor | pip/regio/src/regio/cache.py:52-53 | A new cache is empty |
| RegioCache.Cache.Clear | pip/regio/src/regio/cache.py:162-164 | Clearing empties the map |
| RegioCache.Cache.CacheWrite | pip/regio/src/regio/cache.py:70-76 | A write overrides the map and keeps the canonical form; outside the 32-bit space it raises and changes nothing |
| RegioCache.Cache.MergeWrite | pip/regio/src/regio/cache.py:112-148 | The merge as one map override |
| RegioCache.Cache.SplitRegions | pip/regio/src/regio/cache.py:118-132 | Splits the regions into those the new range touches and the rest, in order, and finds the merged range |
| RegioCache.BuildRegion | pip/regio/src/regio/cache.py:134-144 | The merge buffer holds the old regions with the new bytes on top |
| RegioCache.InsertRegion | pip/regio/src/regio/cache.py:146-148 | The merged region ends up in its place by address |
| RegioCache.Cache.CacheRead | pip/regio/src/regio/cache.py:78-110 | A read succeeds exactly inside the 32-bit space when every byte was written, and returns those bytes |
| RegioCache.Cache.BisectLeft | pip/regio/src/regio/cache.py:93-96 | The first region that does not start before the address |
| RegioCache.Cache.SaveToFile | pip/regio/src/regio/cache.py:176-185 | The file is the encoding of the regions; fails exactly for a region whose words do not fit 32 bits |
| RegioCache.Cache.LoadFromFile | pip/regio/src/regio/cache.py:187-218 | Replacing takes the regions of the file; merging overrides the map by them in file order; a bad file changes nothing |
| RegioCache.ReadRegions | pip/regio/src/regio/cache.py:187-212 | The loading loop decodes the file, or fails exactly where decoding does |
| CacheFile.DecodeIffEncoded | pip/regio/src/regio/cache.py:176-218 | The loader accepts exactly the files the saver writes, and reads back exactly the regions |
| CacheFile.PrefixLoadsIff | pip/regio/src/regio/cache.py:187-212 | Of the prefixes of a saved file exactly those that end on a record boundary load, with the regions before it |
| CacheFile.RecordBytes | pip/regio/src/regio/cache.py:37-37 | A record, byte by byte: the address in four bytes and the size in four, low bytes first, then the data |
| CacheFile.HeaderText | pip/regio/src/regio/cache.py:33-33 | The header spells skelregi |
| CacheFile.FileExample | pip/regio/src/regio/cache.py:187-212 | One file of plain bytes loads as the one region it spells |
| Regio.ChunksTile | pip/regio/src/regio/regio.py:45-61 | The chunks cover the range once and in order, none crosses an MTU boundary, and there is one per MTU block the range meets |
| Regio.RestIsAligned | pip/regio/src/regio/regio.py:45-61 | After the first chunk the loops may go on with whole MTUs |
| Regio.SplitWriteIsChunks | pip/regio/src/regio/regio.py:52-61 | The operations of a write are its chunks with the bytes that belong to them |
| Regio.AdjoiningWrites | pip/regio/src/regio/regio.py:52-61 | Two adjoining writes are one |
| Regio.AdjoiningReads | pip/regio/src/regio/regio.py:63-75 | A range can be read exactly when its parts can, with the bytes of the parts joined |
| Regio.Regio.Write | pip/regio/src/regio/regio.py:52-61 | The net effect on a flat memory is one unsplit write, done as exactly the chunk operations |
| Regio.Regio.Read | pip/regio/src/regio/regio.py:63-75 | Returns the flat range, or fails exactly when some byte cannot be read |
| Regio.Regio.WriteFromReadFile | pip/regio/src/regio/regio.py:94-112 | Makes the identical operations as a write of the file bytes, also for a short file, which it then reports |
| Regio.Regio.ReadToWriteFile | pip/regio/src/regio/regio.py:114-127 | The file gets the bytes of the flat range, read in the same chunks |
| TcpWire.UnpackIffPacked | pip/regio/src/regio/tcp.py:49-65 | Exactly the packed headers unpack, each to the header it was packed from; the layout itself is `HeadBytes` |
| TcpWire.HeadBytes | pip/regio/src/regio/tcp.py:9-14 | A header, byte by byte: sync, flag, the size in bytes 2 and 3, the address in bytes 4 to 7, low bytes first |
| TcpWire.RequestBytes | pip/regio/src/regio/tcp.py:49-53 | What the servers make of plain bytes at the head of a buffer: incomplete, malformed unless byte 0 is 0x9A, or the read or write its flag, size and address bytes say |
| TcpWire.ReplyBytes | pip/regio/src/regio/tcp.py:55-65 | What a server sends back, byte by byte, from the sync byte 0x9B on; nothing for a write, no data for a read of the wrong length |
| TcpWire.ByteExamples | pip/regio/src/regio/tcp.py:9-65 | A concrete read, a concrete write and a concrete reply as plain bytes |
| TcpWire.ServeUntilRaise | pip/regio/src/regio/tcp_server_single.py:58-110 | A client alone: the requests reach the device in order, all of them or up to the first that raises |
| TcpWire.RepliesGrow | pip/regio/src/regio/tcp_server_single.py:58-110 | What was done and sent stays so when more requests come |
| TcpWire.NextExtends | pip/regio/src/regio/tcp.py:22-33 | A complete or malformed request at the head of a buffer stays so when more bytes arrive |
| TcpWire.DecodeInParts | pip/regio/src/regio/tcp_server_async_multi.py:192-230 | How a stream is cut into received chunks does not matter: keeping the left-over bytes and decoding on gives the decoding of the whole, and a malformed header ends it in both |
| TcpWire.RestIsIncomplete | pip/regio/src/regio/tcp_server_async_multi.py:192-200 | No complete request is ever left in the buffer |
| TcpWire.DecodeEncoded | pip/regio/src/regio/tcp_client.py:58-92 | A server decodes exactly the requests a client sent |
| TcpServerMulti.RegioTcpServer.constructor | pip/regio/src/regio/tcp_server_async_multi.py:91-103 | A new server waits in select with no client |
| TcpServerMulti.RegioTcpServer.AcceptConn | pip/regio/src/regio/tcp_server_async_multi.py:134-142 | A new connection starts with an empty buffer; the others are untouched |
| TcpServerMulti.RegioTcpServer.OnData | pip/regio/src/regio/tcp_server_async_multi.py:144-165 | Received bytes are appended to the buffer; an end of stream drops the client |
| TcpServerMulti.RegioTcpServer.DropClient | pip/regio/src/regio/tcp_server_async_multi.py:167-180 | Removes one client and its buffer only |
| TcpServerMulti.RegioTcpServer.ProcessRequests | pip/regio/src/regio/tcp_server_async_multi.py:182-231 | Serves every complete request of one client and leaves none in its buffer; the client stays unless a header was malformed or the device raised, and nothing of the others changes |
| TcpServerMulti.RegioTcpServer.Perform | pip/regio/src/regio/tcp_server_async_multi.py:203-230 | One operation goes to the device, is answered, and is replied to before the next; a raising device drops the client |
| TcpServerMulti.RegioTcpServer.Turn | pip/regio/src/regio/tcp_server_async_multi.py:104-125 | Each event reaches its own connection and no other, then only requests are served; a client stays connected unless its peer closed, a header was malformed or the device raised; clients are served one after the other in the order they were accepted; whatever the events, the loop comes back to the state every select point has |
| TcpServerMulti.RegioTcpServer.AtSelect | pip/regio/src/regio/tcp_server_async_multi.py:104-125 | At every select point: the operations of a client are the in-order decoding of the bytes received from it (all of it, or up to a device failure), its replies are those operations answered in the one device order, and its buffer holds no complete request |
| TcpServerMulti.RunTurns | pip/regio/src/regio/tcp_server_async_multi.py:91-131 | In every run from the start, for any events: each client has the whole stream its peer sent served in order, however it was cut up and whatever the others sent, stopping only at a malformed header or a raise; it is connected until its peer closes or one of these ends it; a client that is alone is served as by the blocking server |
| TcpServerMulti.BothServers | pip/regio/src/regio/tcp_server_single.py:58-110 | On every byte stream, cut into any non-empty chunks, the buffered server and the blocking server do the same operations and send the same replies |
| TcpServerMulti.ClosingLosesNothing | pip/regio/src/regio/tcp_server_async_multi.py:144-180 | Closing a connection at a select point loses no complete request |
| TcpServerMulti.RegioTcpServer.SameAsSingleClient | pip/regio/src/regio/tcp_server_single.py:58-110 | With one client the buffered server does to the device, and sends back, what the blocking server does on the bytes received, and on the rest of the stream too once a malformed header or the device ended the connection |
| TcpServerSingle.RecvExact | pip/regio/src/regio/tcp_server_single.py:48-56 | Exactly n bytes however they arrive, none when the stream ends first |
| TcpServerSingle.HandleClient | pip/regio/src/regio/tcp_server_single.py:58-110 | The operations and replies are those of the decoded stream, however the network cuts it, also when it ends inside a request or has a malformed header |
| TcpEndToEnd.NextIsNextIssued | pip/regio/src/regio/tcp_server_single.py:58-110 | The server can only take the next request that was issued and is not served yet |
| TcpEndToEnd.StepKeepsInvariant | pip/regio/src/regio/tcp_client.py:58-113 | Every step of client, channel and server keeps: no reply is under way unless a reader waits, and then it is the one to its own request |
| TcpEndToEnd.RunKeepsInvariant | pip/regio/src/regio/tcp_client.py:58-113 | ... so every run from the start does |
| TcpEndToEnd.EveryReadIsOfFlatMemory | pip/regio/src/regio/tcp_client.py:58-113 | In every run no client sees an error or a foreign reply, and the finished reads returned what one flat memory gives for the issued requests in order, although writes are never acknowledged |
| TcpEndToEnd.LastWriteWins | pip/regio/src/regio/tcp_client.py:58-82 | What the flat memory holds: at each address what the last write over it put there, or what it held at the start |
| TcpEndToEnd.StartsIff | pip/regio/src/regio/tcp_client.py:49-57 | Exactly the transfers of 1 to 65535 bytes at a 32-bit address can be started, by a client that waits for no reply |
| TcpEndToEnd.HeadIsTaken | pip/regio/src/regio/tcp_client.py:84-113 | A waiting reader takes exactly a reply header with the sync byte 0x9B, no error flag and its own size; any other one breaks it |
| TcpEndToEnd.NeverStuck | pip/regio/src/regio/tcp_client.py:58-113 | In every run a waiting reader can go on, or the server can serve a request or receive bytes: no deadlock |
| Bits.OrAbove | fw/pip/tbskel/src/tbskel/ramface.py:42-45 | Or-ing in an item above all bits of the word adds it |
| Bits.MaskBits | fw/pip/tbskel/src/tbskel/ramface.py:49-49 | The bits of the byte-enable mask are exactly the lanes transferred |
| Bits.FieldAbove | fw/pip/tbskel/src/tbskel/ramface.py:100-104 | Putting an item above the others keeps their lanes and makes the item the next one |
| Ramface.PackWord | fw/pip/tbskel/src/tbskel/ramface.py:39-45 | The packed data word holds each item on its lane |
| Ramface.DoneAll | fw/pip/tbskel/src/tbskel/ramface.py:29-31 | The computed number of cycles transfers the whole list, and no cycle of a non-empty list is empty |
| Ramface.EdgeWrites | fw/pip/tbskel/src/tbskel/ramface.py:46-57 | One clock edge extends the flat write by the items of its cycle and touches no other lane |
| Ramface.RamfaceCtrl.WriteList | fw/pip/tbskel/src/tbskel/ramface.py:25-57 | For any address and list the bus cycles are one flat write with all other lanes unchanged; no reply is left under way, unless an empty list at an unaligned address meets a latency |
| Ramface.FlowStep | fw/pip/tbskel/src/tbskel/ramface.py:70-93 | The replies under way stay paired with their requests, latency + 1 cycles later |
| Ramface.JoinedLane | fw/pip/tbskel/src/tbskel/ramface.py:100-106 | Every lane of a reply word can be cut out of it |
| Ramface.RamfaceCtrl.ReadList | fw/pip/tbskel/src/tbskel/ramface.py:59-117 | For any latency the read returns exactly the addressed lanes; its assertions hold exactly when no reply was still to come when it started |
| Widths.CeilMultipleIsLeast | pip/skmap/src/skmap/basic.py:10-11 | The least multiple that is not below |
| Widths.PromoteIsLeast | pip/skmap/src/skmap/basic.py:16-17 | The software width is the least power of two that is at least 8 and the value width |
| Widths.CeilLog2Cpp | sw/lib/cpp/skmap/include/hdlskel/skmap/basic_types.hpp:54-63 | The C++ loop computes the ceiling of the logarithm |
| Widths.PromoteToSwWCpp | sw/lib/cpp/skmap/include/hdlskel/skmap/basic_types.hpp:69-72 | The C++ width, without overflow up to 2^30 |
| Widths.PromotesAgreeIff | sw/lib/cpp/skmap/include/hdlskel/skmap/basic_types.hpp:64-72 | Up to 2^30 the C++ and the Python width agree exactly for non-zero value widths |
| Widths.SignedReadsBack | pip/skmap/src/skmap/basic.py:49-53 | Mask then sign-extend inverts two's complement packing for every value that fits, in storage of any larger width |
| Widths.SignExtendsAgree | sw/lib/cpp/skmap/include/hdlskel/skmap/basic_types.hpp:81-88 | The C++ sign extension of any 64-bit value is the Python one of its low bits, for every width from 1 to 64 |
| Layout.ElemSizes | pip/skmap/src/skmap/reg.py:107-107 | An element is a power of two of bytes and wide enough; vector elements are as far apart as one element is aligned |
| Layout.AlignDivides | pip/skmap/src/skmap/module.py:250-253 | The alignment of a value is a multiple of the byte alignment and of the value size; `AlignIsLeast` says it is no larger than needed |
| Layout.AlignIsLeast | pip/skmap/src/skmap/module.py:250-253 | No number that the byte alignment and the value size both divide is below the alignment of a value, which is also the distance of vector elements |
| Layout.AlignedIff | pip/skmap/src/skmap/module.py:250-253 | An index is aligned for a value exactly when the byte alignment and the value size both divide it |
| Layout.ElemSizeIsLeast | pip/skmap/src/skmap/reg.py:107-107 | A value takes the least power of two of bytes that holds it |
| Layout.PlacedTight | pip/skmap/src/skmap/module.py:274-285 | Without the alignment function: a register is put at the first free index that byte alignment and value size both divide, and the next free index is the first such one not below its end, so there is no gap |
| Layout.BytesApart | pip/skmap/src/skmap/module.py:274-285 | Two 8-bit registers under byte alignment 1 lie one byte apart |
| Layout.PlacedSlot | pip/skmap/src/skmap/module.py:274-285 | A register is placed aligned, and the next free index is behind its padded end |
| Layout.PlacedFirst | pip/skmap/src/skmap/module.py:255-259 | ... at the first free aligned index |
| Layout.AppendKeepsLaid | pip/skmap/src/skmap/module.py:274-285 | Placing one more register keeps the slots in order, aligned, and apart even when padded |
| Layout.WholeAccess | pip/skmap/src/skmap/module.py:205-226 | A padded access to a whole register stays in its slot, and meets the alignment assertion exactly when the module base does |
| Layout.ElemAccess | pip/skmap/src/skmap/reg.py:506-520 | A padded access to one vector element stays inside that element's own part of the slot |
| Layout.AreaIsAligned | pip/skmap/src/skmap/module.py:90-108 | An area that starts aligned ends aligned, also rounded up to words |
| RegModule.Module.AddRegK | pip/skmap/src/skmap/module.py:261-272 | A constant gets the next aligned slot, which `PlacedTight` fixes without the alignment function |
| RegModule.Module.AddRegVar | pip/skmap/src/skmap/module.py:274-285 | A variable gets the next aligned slot, which `PlacedTight` fixes without the alignment function |
| RegModule.Module.InitRegMapK | pip/skmap/src/skmap/module.py:261-272 | All constants in order, aligned and apart |
| RegModule.Module.InitRegMapVar | pip/skmap/src/skmap/module.py:274-285 | All variables in order, aligned and apart under the module byte alignment |
| RegModule.Module.InitRegMap | pip/skmap/src/skmap/module.py:90-110 | Succeeds exactly when both areas end where the word counts say; then, in an image of that many words, every padded access to a register or vector element lies inside the image |
| RegModule.Module.LaidInImage | pip/skmap/src/skmap/module.py:205-226 | Slots laid out inside the image: every padded access to a whole register or to one element lies in the image |
| RegModule.Module.ReadCached | pip/skmap/src/skmap/module.py:195-199 | Where nothing is stale a cached read returns the bytes the device holds |
| RegModule.Module.WriteBytesCached | pip/skmap/src/skmap/module.py:201-203 | Only the written bytes change, and at most they come to differ from the device |
| RegModule.Module.ReadBytes | pip/skmap/src/skmap/module.py:210-218 | Inside the image the padded range, and nothing else, is fresh after a device read; behind it the image grows as a Python slice assignment makes it; fails exactly when unaligned or unreadable, and then nothing changes |
| RegModule.Module.WriteBytes | pip/skmap/src/skmap/module.py:220-225 | The device gets the image bytes of the padded range; inside the image that range is fresh and no other byte becomes stale, and where image and device agreed before the padding changes no other device byte |
| RegModule.Module.ReadAll | pip/skmap/src/skmap/module.py:228-235 | After reading all variables of a laid out module image and device agree on them; fails exactly when the area is unaligned or unreadable |
| RegModule.Module.WriteCache | pip/skmap/src/skmap/module.py:242-245 | Flushes what cached-only writes made stale |
| RegModule.AccessOnce | pip/skmap/src/skmap/module.py:195-225 | What one access leaves stale, and when it fails |
| RegModule.RunAccesses | pip/skmap/src/skmap/module.py:195-225 | In every run of reads, writes and cached writes image and device differ at most where a write stayed in the image and no device access came over it since; device accesses alone never make them differ more |
| RegModule.StaleIff | pip/skmap/src/skmap/module.py:195-225 | Over a run an address is in the stale bound exactly when it was before and no device access came over it, or some write left it in the image and no device access came over it since |
| RegModule.SliceLaws | pip/skmap/src/skmap/module.py:195-203 | The image as a Python slice: what was written reads back, bytes around it stay, a write behind the end makes it longer |
| RegModule.UnalignedArea | pip/skmap/src/skmap/module.py:228-235 | A layout that is accepted and whose whole variable area starts off the alignment: reading it fails for every module base but those 4 above a multiple of 8, and there the read makes the image longer than the module |
| RegModule.FreshIsStored | pip/skmap/src/skmap/module.py:195-199 | Where nothing is stale the device holds the image bytes |
| RegModule.PaddedWrite | pip/skmap/src/skmap/module.py:220-225 | A padded write of the image refreshes exactly the padded range |
| RegCodec.StoredReadsBack | pip/skmap/src/skmap/reg.py:191-205 | Every value that fits and can be stored reads back, written signed or unsigned |
| RegCodec.CanBeStoredIff | pip/skmap/src/skmap/reg.py:385-401 | Exactly which fitting values the unsigned and the signed write can store |
| RegCodec.FitsIff | pip/skmap/src/skmap/reg.py:274-289 | A value passes the fit check exactly when some stored bytes are read as it |
| RegCodec.DecodedFits | pip/skmap/src/skmap/reg.py:191-205 | Whatever is stored is read as a value that fits |
| RegCodec.FitsRange | pip/skmap/src/skmap/reg.py:274-289 | For 8 bits: 0 to 255, and -128 to 127 when signed |
| RegCodec.PatchElem | pip/skmap/src/skmap/reg.py:506-527 | Writing element i changes the bytes of element i only, for every stride of at least the element size |
| RegCodec.ListReadAgreesIff | pip/skmap/src/skmap/reg.py:463-470 | An unsigned whole-list read gives what an element read gives exactly when the value is masked or the padding is zero |
| RegCodec.SignedListReadAgreesIff | pip/skmap/src/skmap/reg.py:472-476 | ... and a signed one exactly when the value is masked, or the padding is zero, or 1 behind a non-negative element |
| RegCodec.PaddingExample | pip/skmap/src/skmap/reg.py:463-476 | Chunks where list and element reads differ, unsigned and signed |
| Registers.PaddingFromDevice | pip/skmap/src/skmap/reg.py:463-492 | A device read can leave such padding in the image |
| Registers.CheckedIff | pip/skmap/src/skmap/reg.py:274-289 | A write passes all its checks exactly for the values the register can take |
| Registers.AccessRights | pip/skmap/src/skmap/reg.py:373-379 | `rw` and `wt` registers take any bytes, `rc` zeros only, `k`, `ro` and `na` none |
| Registers.Reg.constructor | pip/skmap/src/skmap/reg.py:99-117 | A register in a laid out slot is inside the image, with its padded device access |
| Registers.Reg.ReadUintCached | pip/skmap/src/skmap/reg.py:191-197 | The low bits of the stored bytes; no mask is needed at full width |
| Registers.Reg.ReadSintCached | pip/skmap/src/skmap/reg.py:203-205 | ... sign-extended |
| Registers.Reg.WriteIntCached | pip/skmap/src/skmap/reg.py:385-401 | Goes through exactly when the register can take the value, which then reads back; a rejected write changes nothing, no write changes another byte |
| Registers.Reg.WriteBytesCached | pip/skmap/src/skmap/reg.py:373-379 | The access and length assertions, before any change |
| Registers.Reg.WriteCache | pip/skmap/src/skmap/reg.py:367-371 | The device gets the image bytes of the register, padded; the image stays |
| Registers.Reg.WriteInt | pip/skmap/src/skmap/reg.py:393-405 | After a whole write the device holds the value too, and where image and device agreed before only this register changed on the device; in the image no other byte changes, and none at all when the value is refused |
| Registers.Reg.ReadInt | pip/skmap/src/skmap/reg.py:199-209 | A read returns the value the device holds; a constant is read from the image |
| Registers.ListIntToBytes | pip/skmap/src/skmap/reg.py:635-645 | Elements on their stride, everything else zero; a list that is too long overruns the buffer |
| Registers.ListWritableIff | pip/skmap/src/skmap/reg.py:691-707 | Exactly which lists a register takes |
| Registers.PackedValues | pip/skmap/src/skmap/reg.py:635-645 | A packed list reads back, followed by zeros, with zero padding |
| Registers.RegVec.constructor | pip/skmap/src/skmap/reg.py:457-461 | A vector in a laid out slot is inside the image, with the padded device access to every element |
| Registers.ElemOffIs | pip/skmap/src/skmap/reg.py:506-520 | Elements lie at the index times their distance, also for negative indices |
| Registers.RegVec.ReadIdxUintCached | pip/skmap/src/skmap/reg.py:533-539 | The value of one element; an index that is none gives what the bytes there hold |
| Registers.RegVec.ReadIdxSintCached | pip/skmap/src/skmap/reg.py:545-547 | ... signed |
| Registers.RegVec.WriteIdxIntCached | pip/skmap/src/skmap/reg.py:576-591 | Element i gets the new value, every other element and all padding keep theirs; exactly the writable values go through, a rejected one changes nothing; an index that is no element, negative ones included, is not refused and writes around the register, or makes the image longer |
| Registers.RegVec.WriteIdxCache | pip/skmap/src/skmap/reg.py:518-520 | The device gets the image bytes of one element, padded |
| Registers.RegVec.WriteIdxInt | pip/skmap/src/skmap/reg.py:583-595 | After a whole element write image and device agree there, only this element changed on a device that agreed before, and in the image nothing else changes |
| Registers.RegVec.ReadListUintCached | pip/skmap/src/skmap/reg.py:463-484 | The element values exactly when values are masked or the padding is zero |
| Registers.RegVec.ReadListSintCached | pip/skmap/src/skmap/reg.py:472-492 | The signed element values exactly when values are masked, or the padding is zero, or 1 behind a non-negative element |
| Registers.RegVec.WriteListIntCached | pip/skmap/src/skmap/reg.py:691-707 | The list reads back followed by zeros, with zero padding; a list rejected for any element leaves the cache untouched |
| Flags.ByteBits | pip/skmap/src/skmap/reg.py:879-885 | Bit i of the little-endian integer is bit i % 8 of byte i / 8 |
| Flags.SetBitsBits | pip/skmap/src/skmap/basic.py:27-31 | The mask selects the new bits, elsewhere the old ones stay |
| Flags.ByteSetIsIntegerSet | pip/skmap/src/skmap/reg.py:879-885 | Setting a flag in its byte is setting it in the integer |
| Flags.NewFlags | pip/skmap/src/skmap/reg.py:903-912 | The integer of a list write has the new flags and otherwise the old ones, inside the register width |
| Flags.FlagsSplit | pip/skmap/src/skmap/reg.py:903-912 | ... that is: flag k of the vector is value k, every other bit inside the width is the old one |
| Flags.RFlag.ReadBoolCached | pip/skmap/src/skmap/reg.py:869-871 | The flag |
| Flags.RFlag.ReadListBoolCached | pip/skmap/src/skmap/reg.py:891-897 | The flags of a vector |
| Flags.RFlag.WriteBoolCached | pip/skmap/src/skmap/reg.py:879-885 | Exactly this flag changes, and no byte outside the register |
| Flags.RFlag.WriteListBoolCached | pip/skmap/src/skmap/reg.py:903-912 | Exactly the flags of the vector change, bits behind the register width are cleared, and no byte outside the register changes |
| ExternalMem.SignedElemReadsBackIff | pip/skmap/src/skmap/external_mem.py:129-132 | A signed element of an external memory reads back exactly when its width fills the storage or the value is non-negative in its width |
| ExternalMem.NarrowSignExample | pip/skmap/src/skmap/external_mem.py:129-132 | -1 in a 12-bit element reads as 61439 |
| ExternalMem.UnsignedElemReadsBack | pip/skmap/src/skmap/external_mem.py:121-123 | An unsigned element always reads back |
| ExternalMem.ExternalMemCached.constructor | pip/skmap/src/skmap/external_mem.py:73-76 | The cache starts with zeros |
| ExternalMem.ExternalMemCached.WriteCached | pip/skmap/src/skmap/external_mem.py:82-86 | Only the written bytes change, and at most they come to differ from the device |
| ExternalMem.ExternalMemCached.ReadCached | pip/skmap/src/skmap/external_mem.py:88-90 | Where nothing is stale a cached read returns the bytes the device holds; outside the memory it fails |
| ExternalMem.ExternalMemCached.DevWrite | pip/skmap/src/skmap/external_mem.py:92-94 | Device and cache change together: the range is fresh, nothing becomes stale |
| ExternalMem.ExternalMemCached.DevRead | pip/skmap/src/skmap/external_mem.py:96-99 | The range read is fresh, nothing becomes stale |
| ExternalMem.MemAccess | pip/skmap/src/skmap/external_mem.py:82-99 | What one access leaves stale, and when it fails; a failed one changes nothing |
| ExternalMem.RunMemAccesses | pip/skmap/src/skmap/external_mem.py:82-99 | In every run of reads, writes and cached writes cache and device differ at most where a write stayed in the cache and no device access came over it since; without such writes they never differ more than before |
| ExternalMem.MemStaleIff | pip/skmap/src/skmap/external_mem.py:82-99 | Over a run an address is in the stale bound exactly when it was before and no device access came over it, or some write left it in the cache and no device access came over it since |
| ExternalMem.ExternalMemVec.ReadIdxCached | pip/skmap/src/skmap/external_mem.py:113-145 | The stored element, unsigned or sign-extended; an index behind the last element is refused |
| ExternalMem.ExternalMemVec.WriteIdxCached | pip/skmap/src/skmap/external_mem.py:170-189 | Exactly one element changes, for exactly the values that can be stored and the elements there are |
| Snapshot.ImageSurvives | pip/skmap/src/skmap/module.py:440-465 | An image that shares no address with another is in the combined map unchanged |
| Snapshot.WriteCacheToRegioCacheTree | pip/skmap/src/skmap/module.py:456-465 | Writes the images of a tree in order; succeeds exactly when all lie in the 32-bit space; which images these are is `ImagesAre` and `ImagesWithoutMem` |
| Snapshot.ImagesAre | pip/skmap/src/skmap/module.py:440-465 | The images written for a tree are exactly those of the modules a path of initialised kids leads to and of all their cached memories |
| Snapshot.ImagesInOrder | pip/skmap/src/skmap/module.py:440-465 | Their order, which decides where they overlap: a module, its memories, then each kid with all below it |
| Snapshot.ImagesWithoutMem | pip/skmap/src/skmap/module.py:440-465 | Without the memories of the root exactly these are missing; every kid brings its memories |
| Snapshot.ApartInList | pip/skmap/src/skmap/module.py:440-465 | Every module and memory is in the list once: modules and memories apart by name are apart in the list |
| Snapshot.WriteMems | pip/skmap/src/skmap/module.py:443-454 | Writes the cached memories of a module |
| Snapshot.WriteKids | pip/skmap/src/skmap/module.py:459-465 | Writes the kids that are initialised, each with its memories |
| Snapshot.WriteCacheTreeToFile | pip/skmap/src/skmap/module.py:467-470 | The file is that of the canonical regions of all images; fails exactly when an image is out of the 32-bit space or the images fill all of it |
| Snapshot.SaveableIff | pip/regio/src/regio/cache.py:176-185 | Regions in the 32-bit space have a file unless they are one region of all of it |
| Snapshot.SnapshotIsFaithful | pip/skmap/src/skmap/module.py:467-470 | From the file of a tree with disjoint images every image comes back byte for byte, whatever was merged |
| Snapshot.ReadSplit | pip/regio/src/regio/regio.py:63-75 | Reading a cache in MTU chunks is one read |
| Snapshot.SaveReloadRead | pip/regio/src/regio/cache.py:176-218 | The whole run: save, load into a new cache, read any image in MTU chunks - the image comes back |
| Snapshot.SaveReloadReadAt | pip/skmap/src/skmap/module.py:440-470 | The same by name: the range of the module at a path of kids, or of one of its memories, comes back with the bytes of that module or memory |

## Left out

- Float literals, the float branch of the inverter and `$float`: a float is an error of the model; all arithmetic is exact.
- Names that resolve to recipe objects are ints in the scope table; the register constants that stay symbolic are the names of the tree. The value type that a `v` carries is not modelled.
- Tokens carry no position; digits and names are ASCII, where the regular expressions also take other Unicode digits.
- InverseIsTwoSided: operands without `v` are numbers or trees with an unresolved name in them; for operands the resolver computes, like NAME/16 of a name it knows, InverseIsTwoSidedIff gives the exact condition.
- InverseIsTwoSidedIff: factors and divisors do not depend on `v`; one with a `v` in it is accepted by the source when its coefficient cancels, and only differs from a constant when the resolver rounded a divisor inside it - such a conversion is no line, and its derived side is not characterised.
- EveryRawComesBackIff: one outermost division of an integer affine form; other shapes of conversion are only sampled by the source and get no theorem.
- Sockets, selectors, asyncio and timeouts are byte channels and atomic steps; connection numbers are fresh where file descriptors are reused; waiting for a device answer is one step, and a reply can always be sent.
- The reply with an error flag and a proxy that fails: a device that raises drops the client.
- The stop switch, callbacks, logging, the reconnecting of a client.
- A request flag byte other than 0 and 1 announces flag times size payload bytes; the decoders model that, the client sends 0 and 1.
- RegioCache.Cache.LoadFromFile: replacing takes the regions of any file as they are, sorted or not, so only files the saver wrote keep the cache canonical; merging zero-length regions keeps order and holes, but not that regions are non-empty.
- Sorting the region list after appending one region is modelled as inserting it.
- Ramface.RamfaceCtrl.WriteList: items fit the word width, which bytes always do; addresses wider than the bus and a device that replies with a failure are not modelled, and the device answers a fixed number of edges after a read.
- RegModule.Module.ReadBytes: addresses not below the module base, where every register lies; a Python slice below it would count from the end of the image.
- RegModule.Module.WriteBytes: addresses not below the module base, as for reads.
- Registers.RegVec.WriteIdxIntCached: an index whose element starts not below the module base; the source does not check it, and further down a Python slice counts from the end of the image.
- Registers.RegVec.ReadIdxUintCached: an index whose element starts not below the module base, as for writes.
- Registers.RegVec.ReadIdxSintCached: an index whose element starts not below the module base, as for writes.
- Registers.RegVec.WriteIdxInt: an element whose padded device access lies in the image, as it does for every element of a laid out vector.
- Registers.RegVec.WriteIdxCache: an element whose padded device access lies in the image, as for whole element writes.
- Parsing of module heads, kid addresses and sub heads; registers of width 0; external memories too large to cache; whether a memory cache was loaded.
- Value conversions in converted reads and writes, and limit checks that only warn: the limit check is a predicate on register values.
- ExternalMem.ExternalMemVec.WriteIdxCached: the cached element only; the device write behind it is the split write of `Regio`.
- Characters, strings and rich text of register values.
- The C++ runtime classes for registers, modules and the cache file: the same algorithms again, with some checks in another order.
- User interfaces, plotting, tables, code generation to Python, C++ and VHDL, recipe file loading and checksums.
