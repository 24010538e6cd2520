# Kynos: a verified model of its hard algorithms

Kynos is a Rust framework for REST services described by OpenAPI. Between its glue
it holds a handful of self-contained algorithms whose correctness nobody can see by
reading one function. This project states in Dafny what each of them does and proves
what each of them is for. Six groups, each in the form the source has: imperative
code is a class or a method with loops, proved against functions; the properties are
lemmas about those functions.

**The pattern translator** (`pattern_*.dfy`). OpenAPI writes patterns in ECMA-262's
dialect and the framework compiles them with Rust's `regex`. The translator walks
the parsed tree, refuses constructs ECMA-262 has not, collects replacements for
those with two meanings, and splices these into the pattern's text. Both dialects
are modelled as relations between the positions a tree matches from and to (sections
22.2.1 and 22.2.2 of ECMA-262's 15th edition; `RepeatMatcher`'s refusal of empty
iterations included), and each reads the text of a class and of a count for itself:
which `-` of a class is a range is judged by the engine's rules and by ECMA-262's.
The main results: the text that comes out is the rewritten tree as it is written,
and a tree the engine's parser builds; a pattern is accepted exactly when every part
is spelled as ECMA-262 spells it (and the engine compiles the result); the patterns
among these that ECMA-262 reads as the tree they were parsed as are exactly those
that hold no space in a count and no class that opens in a hyphen range; and of
those, on every input, the rewritten tree matches under the engine exactly the
position pairs the source matches under ECMA-262. Such a text is one of ECMA-262's
grammar, which is written down beside the engine's trees for that
(`pattern_grammar.dfy`), and a refusal names the pattern's first fault. What becomes
of the other patterns is said below.

**The token bucket** (`token_bucket.dfy`). A per-key limiter that refills
continuously and forgets idle buckets in an amortised sweep. The main results, over
every run: answers are those of one never-evicted bucket per key, so the sweep and
other keys are invisible; memory is bounded by recency; tokens are conserved, which
bounds the grants in every window; and a refusal's wait, the reset and the remaining
count are exact.

**The document walk and JSON Pointers** (`document_walk.dfy`,
`document_visitor.dfy`, `document_resolution.dfy`, `json_pointer.dfy`; RFC 6901,
sections 3 and 4). The mutually recursive walk calls, at every location, exactly the
hooks of the object written there, once, well nested, pruned exactly below a
declined Path Item. What is written at a location is judged by evaluating the
pointer over the document's own field names, as RFC 6901 does (`document_calls.dfy`,
`document_order.dfy`): the hooks called there, one by one, and in which order.
Distinct objects of one kind get distinct pointers, and a pointer's length is
computed exactly before it is written.

**The containment gate's scanners** (`rust_scanner.dfy`, `rust_pieces.dfy`,
`test_modules.dfy`, `cfg_gate.dfy`, `cfg_lexemes.dfy`, `use_tree.dfy`). A Rust
source scanner with three aligned buffers, a `cfg` predicate walker with a parity
stack and a `use`-tree parser. Each is proved to read back what was written: pieces
of source with comments nested to any depth, test modules with blocks of nested
braces (`test_blocks.dfy`), predicates as trees of groups (`cfg_trees.dfy`), and use
trees, from their text on (`use_tokens.dfy`).

**The fuzz targets' reference readers** (`http_date.dfy`, `byte_range.dfy`,
`range_field.dfy`, `form_pairs.dfy`, `json_framing.dfy`). The calendar inverts the
closed-form day count, and its dates are read back; the `Range` reader inverts
printing and selects what an unbounded reading selects (RFC 9110, sections 14.1.1
and 14.1.2); form decoding round-trips with the URL Standard's serialiser (sections
5.1 and 5.2); and record framing is compositional (RFC 7464, section 2, and NDJSON).

**The measurement readers** (`callgrind_costs.dfy`, `cost_tables.dfy`,
`release_gate.dfy`, `run_agreement.dfy`, `run_baselines.dfy`). Instruction totals
are conserved and do not depend on name compression; baselines read back as they
were written; and the release gate and the exactness check pass exactly when the
numbers agree, under conditions stated below.

`sequences.dfy`, `splitting.dfy`, `options.dfy`, `numerals.dfy`, `dictionaries.dfy`
and `octet_strings.dfy` hold what several of these share.

## Where the code does less than it says

Each of these is proved at a concrete input, and with the exact condition.

- **Hyphens a class opens with.** The engine takes every `-` right behind the
  opening bracket as itself; ECMA-262 reads two of them and a member as a range. The
  translator accepts `[--0]`, which to ECMA-262 matches `.` and to the engine does
  not (`HyphenRangeIsMissed`), and `[--,]` and `[--\d]`, which ECMA-262 refuses
  (`HyphenRangeIsNoRange`). `ClassAgreesIff`: the two read a class alike exactly
  when it does not open with two hyphens, or a multiple of three more, and a member
  behind them. `HyphenRangeIff`: where `[--` is followed by one character, ECMA-262
  refuses the class exactly below `-`, and has it hold the same characters exactly
  when that is `-` or `.`.
- **Spaces in a count.** The engine allows them, ECMA-262 does not, and the
  translator accepts `a{ 2}`: `SpacedCountIsAccepted`, and `CountAgreesIff`. Of
  whole patterns, `AdmittedIff` states both conditions together.
- **Clock readings out of order.** `spend` reads the clock before it takes the lock,
  so readings may reach a bucket out of order. An older one moves the bucket's
  instant back, and what accrued in between accrues again: `LateReadingMintsAToken`
  has one bucket of one token grant two requests at one instant.
  `RefusalIsHarmlessIff`: a refused attempt changes no later level exactly when its
  reading is no older than the bucket's; `GrantTakesOneIff`: a granted one takes one
  token from every later level exactly then. The results over runs are therefore
  about readings that never step back in the order the lock is taken.
- **A bucket of no capacity** names a wait like any other and never keeps it:
  `NoCapacityKeepsNoWait`; a wait is kept exactly from a capacity of one on,
  `WaitIsKeptIff`.
- **Saturated positions.** Two positions past 64 bits in the wrong order saturate to
  the same number, so an invalid range is read as a valid one:
  `SaturationHidesInvalid`, and exactly there, `SaturationKeepsValidityIff`.
- **The release gate** promises to be empty exactly when recording would change no
  number. It does not see a column that is recorded and no longer measured:
  `DroppedColumnIsNotSeen`; it is exact where no recorded column went unmeasured,
  `GateIsExactIff`.
- **`inexact`** promises that a benchmark missing from a run is a difference. A run
  that names the benchmark twice hides one that lacks it: `RepetitionHidesMissing`;
  it keeps the promise exactly where no run repeats a benchmark,
  `ExactIsAgreementIff`.
- **`read_baseline`** skips every line that starts as a comment or as the line of
  columns, so a benchmark named `benchmark_x` is written and not read:
  `RowIsNotRead`. Of all names, `BaselineIsReadIff`: the rows are read back exactly
  when every name holds no tab and no line break and starts with neither `#` nor
  `benchmark`. A name that starts with `# trend:` is taken for the line of groups
  where there is none: `NoTrendIsReadIff`.

## Model

| member | source | states |
|---|---|---|
| PatternTranslator.Translate | crates/kynos-openapi/src/pattern.rs:106-136 | accepted exactly when the pattern parses, every part of it is spelled as ECMA-262 spells it and the engine compiles the result, which is the rewritten tree as written and one the engine's parser builds; where no count holds a space and no class opens in a hyphen range, which is exactly where ECMA-262 reads an accepted pattern as this tree, acceptance is ECMA-262's and the result finds a match in exactly the inputs ECMA-262's reading does; a pattern is refused as unreadable, for its first fault, or as one the engine does not compile |
| PatternGrammar.AcceptedIsInGrammar | crates/kynos-openapi/src/pattern.rs:106-136 | what is accepted and read alike is, as it is written, a pattern of ECMA-262's grammar: no group opens but with `(`, `(?:` or `(?<` and an identifier, and nothing but an atom is repeated |
| PatternGrammar.GroupIsAcceptedIff | crates/kynos-openapi/src/pattern.rs:228-245 | a group is accepted exactly when what it holds is and it is written with one of those three openings |
| PatternGrammar.NodeIsAcceptedIff | crates/kynos-openapi/src/pattern.rs:192-226 | a repetition is accepted exactly of what is no repetition and no assertion, an assertion exactly when written `^`, `$`, `\b` or `\B`, a property exactly when ECMA-262 names it, and flags never |
| PatternTranslator.NoFaultIff | crates/kynos-openapi/src/pattern.rs:192-247 | a tree has no fault exactly when ECMA-262 spells it, part by part |
| PatternTranslator.BackreferenceIsTold | crates/kynos-openapi/src/pattern.rs:287-305 | behind what is accepted, an octal escape that starts with a zero is no pattern of ECMA-262's, and any other a backreference |
| PatternSpellings.PlainCharactersAre | crates/kynos-openapi/src/pattern.rs:349-366 | which characters stand for themselves, in and out of a class |
| PatternSpellings.EscapesAre | crates/kynos-openapi/src/pattern.rs:367-399 | which character follows a backslash as which, in and out of a class |
| PatternSpellings.TwoHexDigitsAre | crates/kynos-openapi/src/pattern.rs:376-377 | `\xHH` is the character of that number |
| PatternSpellings.FourHexDigitsAre | crates/kynos-openapi/src/pattern.rs:376-377 | and `\uHHHH`, but for the surrogates |
| PatternSpellings.SpaceTextsAre | crates/kynos-openapi/src/pattern.rs:45-47 | the replacements of `\s` and `\S`, to the character |
| PatternSpellings.DigitTextsAre | crates/kynos-openapi/src/pattern.rs:39-41 | those of `\d` and `\D` |
| PatternSpellings.WordTextsAre | crates/kynos-openapi/src/pattern.rs:42-44 | those of `\w` and `\W` |
| PatternSpellings.DotTextIs | crates/kynos-openapi/src/pattern.rs:48-49 | that of `.` |
| PatternSpellings.OtherTextsAre | crates/kynos-openapi/src/pattern.rs:50-54 | those of the word boundaries and of NUL |
| PatternAgreement.AdmittedIff | crates/kynos-openapi/src/pattern.rs:106-136 | of what ECMA-262 spells part by part, it reads as the engine's tree exactly the patterns with no space in a count and no class that opens in a hyphen range |
| PatternAgreement.ClassAgreesIff | crates/kynos-openapi/src/pattern.rs:249-277 | a class is read without an early error as the engine's members exactly when it does not open with hyphens two more than a multiple of three and a member behind them |
| PatternAgreement.CountAgreesIff | crates/kynos-openapi/src/pattern.rs:195-206 | a count is one of ECMA-262's, saying the same, exactly when it holds no space |
| PatternClasses.SameMembersIff | crates/kynos-openapi/src/pattern.rs:249-277 | the members ECMA-262 reads a class's atoms as, from left to right, are the engine's exactly under that condition, opening hyphens aside |
| PatternClasses.SameCharacters | crates/kynos-openapi/src/pattern.rs:249-277 | members read alike hold the same characters, though ECMA-262 pairs the opening hyphens in ranges |
| PatternClasses.AtomsPrint | crates/kynos-openapi/src/pattern.rs:249-277 | the atoms both readings start from are the class's text |
| PatternDifferences.HyphenRangeIsMissed | crates/kynos-openapi/src/pattern.rs:249-277 | `[--0]` is accepted, and to ECMA-262 it is found in `.`, to the engine not |
| PatternDifferences.HyphenRangeIsNoRange | crates/kynos-openapi/src/pattern.rs:249-277 | `[--,]` and `[--\d]` are accepted, and ECMA-262's early errors refuse them |
| PatternDifferences.HyphenRangeIff | crates/kynos-openapi/src/pattern.rs:249-277 | of `[--` and one character, ECMA-262 refuses exactly those below the hyphen, and has `-` and `.` alone hold what the engine does |
| PatternDifferences.HyphensOpenARange | crates/kynos-openapi/src/pattern.rs:249-277 | the engine's parser builds such a class as three members, and to ECMA-262 it is one range |
| PatternDifferences.SpacedCountIsAccepted | crates/kynos-openapi/src/pattern.rs:195-206 | `a{ 2}` is accepted and is no pattern of ECMA-262's |
| PatternMeaning.MeaningIsPreserved | crates/kynos-openapi/src/pattern.rs:192-343 | for every tree ECMA-262 also reads the text as, and every input, the rewritten tree matches under the engine exactly the position pairs the source tree matches under ECMA-262 |
| PatternMeaning.SearchIsPreserved | crates/kynos-openapi/src/pattern.rs:95-103 | an unanchored search succeeds on the same inputs |
| PatternMeaning.RewriteStaysSpelled | crates/kynos-openapi/src/pattern.rs:124-136 | the rewritten tree is as the engine's parser builds them: literals spelled as their characters, counts and classes what the parser reads them as, bindings unchanged |
| PatternMeaning.RepetitionMatches | crates/kynos-openapi/src/pattern.rs:197-206 | a repetition matches alike in both dialects once its body does |
| PatternMeaning.RepeatHasCount | crates/kynos-openapi/src/pattern.rs:195-206 | what ECMA-262's RepeatMatcher accepts is some number of the engine's iterations between the bounds |
| PatternMeaning.CountHasRepeat | crates/kynos-openapi/src/pattern.rs:195-206 | conversely, though RepeatMatcher refuses iterations that consume nothing |
| PatternMeaning.AssertionMatches | crates/kynos-openapi/src/pattern.rs:320-343 | `^`, `$` and the rewritten `\b`, `\B` hold at the same positions |
| PatternMeaning.ClassHolds | crates/kynos-openapi/src/pattern.rs:249-278 | a class both read as the same members, its `\d \w \s` now nested classes, holds the same characters under the engine as under ECMA-262, negated or not, however many hyphens it opens with |
| PatternMeaning.MemberMeansItself | crates/kynos-openapi/src/pattern.rs:249-271 | a member holds, rewritten and read by the engine, what ECMA-262 has it hold |
| PatternMeaning.ClassStaysSpelled | crates/kynos-openapi/src/pattern.rs:249-278 | the engine's parser reads the rewritten class as the rewritten members |
| PatternMeaning.PerlClassHolds | crates/kynos-openapi/src/pattern.rs:39-47 | the replacement classes are exactly ECMA-262's `\d`, `\w`, `\s` and their complements, with or without the engine's Unicode mode |
| PatternMeaning.DotClassHolds | crates/kynos-openapi/src/pattern.rs:49-49 | the replacement of `.` holds everything but ECMA-262's line terminators |
| PatternMeaning.LiteralMeansItself | crates/kynos-openapi/src/pattern.rs:283-306 | a literal ECMA-262 reads stands, rewritten, for the character ECMA-262 reads |
| PatternMeaning.OctalIsNul | crates/kynos-openapi/src/pattern.rs:287-305 | of the octal escapes ECMA-262 reads exactly `\0`, as NUL |
| PatternRewrite.PerlClassPrints | crates/kynos-openapi/src/pattern.rs:39-47 | each Perl class's replacement text is how its tree is written |
| PatternRewrite.DotClassPrints | crates/kynos-openapi/src/pattern.rs:49-49 | and so is that of `.` |
| PatternRewrite.AsciiBoundaryPrints | crates/kynos-openapi/src/pattern.rs:51-52 | and those of the word boundaries |
| PatternSplice.SpliceIsRewrite | crates/kynos-openapi/src/pattern.rs:115-131 | the replacements lie in bounds, in order and apart, and splicing them yields the rewritten tree as written |
| PatternSplice.SplicesConcat | crates/kynos-openapi/src/pattern.rs:124-131 | splices of neighbouring stretches join into a splice of both |
| PatternTranslator.SortMovesNothing | crates/kynos-openapi/src/pattern.rs:122-122 | the replacements are already in source order |
| PatternTranslator.SortSorts | crates/kynos-openapi/src/pattern.rs:122-122 | the sort puts any replacements in order and keeps each of them |
| PatternTranslator.Spliced | crates/kynos-openapi/src/pattern.rs:124-131 | the copying loop computes the splice |
| PatternTranslator.Translator.constructor | crates/kynos-openapi/src/pattern.rs:115-121 | the walk starts with nothing to replace |
| PatternTranslator.Translator.Visit | crates/kynos-openapi/src/pattern.rs:115-121 | the walk refuses a tree for its first fault, and collects the replacements of one without |
| PatternTranslator.Translator.VisitAll | crates/kynos-openapi/src/pattern.rs:115-121 | the same of a sequence, whose parts see what follows them |
| PatternTranslator.Translator.VisitAlternatives | crates/kynos-openapi/src/pattern.rs:115-121 | the same of alternatives |
| PatternTranslator.Translator.VisitMore | crates/kynos-openapi/src/pattern.rs:115-121 | the same of the alternatives behind a `\|` |
| PatternTranslator.Translator.VisitPre | crates/kynos-openapi/src/pattern.rs:192-247 | one node is accepted exactly when ECMA-262 spells it so, its children aside, and refused as a backreference or as none of ECMA-262's |
| PatternTranslator.Translator.VisitBracketed | crates/kynos-openapi/src/pattern.rs:249-277 | a class is accepted exactly when ECMA-262 spells every member of it so; a set operation never |
| PatternTranslator.Translator.VisitItem | crates/kynos-openapi/src/pattern.rs:249-271 | a class member is accepted exactly when ECMA-262 spells it so |
| PatternTranslator.Translator.VisitItems | crates/kynos-openapi/src/pattern.rs:249-251 | the same of the members of a union, each before what follows it |
| PatternTranslator.Translator.VisitRange | crates/kynos-openapi/src/pattern.rs:253-256 | a range is accepted exactly when both its ends are |
| PatternTranslator.Translator.VisitLiteral | crates/kynos-openapi/src/pattern.rs:283-306 | a literal is accepted exactly when ECMA-262 reads it as its character, before what follows it; what is refused is a backreference exactly where it is an octal escape outside a class that does not start with a zero |
| PatternSplice.PerlSplices | crates/kynos-openapi/src/pattern.rs:308-318 | the replacement collected for a Perl class, spliced in at its own span, writes the class that means what ECMA-262 does |
| PatternTranslator.Translator.VisitAssertion | crates/kynos-openapi/src/pattern.rs:320-343 | an assertion is accepted exactly when ECMA-262 has it |
| PatternTranslator.LiteralEscapeIsEcma | crates/kynos-openapi/src/pattern.rs:349-399 | a literal's spelling is accepted exactly when ECMA-262 reads it as the engine does; what is refused ECMA-262 does not read at all |
| PatternTranslator.UnicodeVerdictIsEcma | crates/kynos-openapi/src/pattern.rs:406-446 | a property is accepted exactly when ECMA-262 spells it so |
| TokenBucket.TokenBucket.constructor | crates/kynos/examples/token_bucket.rs:162-189 | a new limiter holds no bucket and was swept at its first reading |
| TokenBucket.TokenBucket.SpendOne | crates/kynos/examples/token_bucket.rs:216-269 | the answer and the whole new state, as functions of the state before |
| TokenBucket.TokenBucket.Check | crates/kynos/examples/token_bucket.rs:279-306 | an exempt operation, or a request with no key, changes no bucket and reports a full one; any other spends |
| TokenBucket.EvictionIsInvisible | crates/kynos/examples/token_bucket.rs:216-269 | over every run, each answer is that of a bucket of the key's own, never evicted |
| TokenBucket.RunRefinesLevels | crates/kynos/examples/token_bucket.rs:216-269 | every key's level is that of the simple model fed the key's own requests |
| TokenBucket.SweepKeepsLevels | crates/kynos/examples/token_bucket.rs:229-235 | a swept bucket is full, so dropping it changes no level |
| TokenBucket.SweepDropsIff | crates/kynos/examples/token_bucket.rs:229-235 | a sweep is due after one fill time, and drops exactly the buckets idle for two |
| TokenBucket.SpendAnswers | crates/kynos/examples/token_bucket.rs:237-268 | a spend answers from its key's level, granting exactly when a token is there |
| TokenBucket.LimitsAreReported | crates/kynos/examples/token_bucket.rs:246-268 | an answer reports the capacity, and a refusal nothing left and the wait as its reset |
| TokenBucket.SpendTakes | crates/kynos/examples/token_bucket.rs:237-268 | a spend takes a token when it grants and changes no other key's level, now or later |
| TokenBucket.RunStaysSound | crates/kynos/examples/token_bucket.rs:216-269 | every run keeps levels between zero and capacity and no instant ahead of the clock |
| TokenBucket.SpendStaysSound | crates/kynos/examples/token_bucket.rs:216-269 | and so does each spend |
| TokenBucket.LevelsAreBounded | crates/kynos/examples/token_bucket.rs:237-241 | a level lies between zero and capacity |
| TokenBucket.MemoryIsBounded | crates/kynos/examples/token_bucket.rs:220-240 | after any run each bucket held was last used, by a request for its key, under three fill times ago |
| TokenBucket.SpendStaysRecent | crates/kynos/examples/token_bucket.rs:220-240 | one spend restores that bound |
| TokenBucket.TokensAreConserved | crates/kynos/examples/token_bucket.rs:237-268 | what is left, granted and overflowed is what was there and what accrued |
| TokenBucket.SpendKeepsTokens | crates/kynos/examples/token_bucket.rs:246-268 | at its instant, a spend lowers a level by exactly what it grants |
| TokenBucket.LevelAccrues | crates/kynos/examples/token_bucket.rs:237-241 | between instants a level rises by what accrues, or to capacity |
| TokenBucket.GrantsAreBounded | crates/kynos/examples/token_bucket.rs:237-268 | in every window of every run a key is granted at most capacity plus what accrues over the window |
| TokenBucket.WaitIsExact | crates/kynos/examples/token_bucket.rs:251-257 | after a refusal, a spend is granted exactly from the end of the wait on, whatever was refused in between |
| TokenBucket.LevelIsLeft | crates/kynos/examples/token_bucket.rs:251-257 | attempts before the wait is over leave the level as if none were made |
| TokenBucket.RefusalChangesNothing | crates/kynos/examples/token_bucket.rs:251-257 | a refused attempt changes no later level of any key |
| TokenBucket.WaitIsKeptIff | crates/kynos/examples/token_bucket.rs:251-257 | the wait is kept exactly when the bucket can hold a token |
| TokenBucket.NoCapacityKeepsNoWait | crates/kynos/examples/token_bucket.rs:251-257 | a bucket of no capacity refuses again at the end of the wait it named |
| TokenBucket.ResetIsExact | crates/kynos/examples/token_bucket.rs:259-268 | left alone, the bucket is full exactly from the reset on |
| TokenBucket.RemainingIsExact | crates/kynos/examples/token_bucket.rs:259-268 | at the same instant exactly that many more spends are granted |
| TokenBucket.BurstTakes | crates/kynos/examples/token_bucket.rs:259-268 | a burst takes a token a request while there is one |
| TokenBucket.ReachesGoal | crates/kynos/examples/token_bucket.rs:237-256 | the instant a level reaches a goal, solved |
| TokenBucket.RefusalIsHarmlessIff | crates/kynos/examples/token_bucket.rs:217-242 | a refused attempt leaves later levels alone exactly when its reading is not older than the bucket's |
| TokenBucket.GrantTakesOneIff | crates/kynos/examples/token_bucket.rs:217-268 | a granted attempt takes one token from every later level exactly when its reading is not older than the bucket's |
| TokenBucket.LateReadingMintsAToken | crates/kynos/examples/token_bucket.rs:217-242 | a late reading lets one token be granted twice at one instant |
| JsonPointer.PushEscaped | crates/kynos-openapi/src/pointer.rs:25-33 | appends the escaped key |
| JsonPointer.EscapedLenIsExact | crates/kynos-openapi/src/pointer.rs:16-21 | the pre-computed length is the number of bytes the escaped key takes |
| JsonPointer.DigitsIsExact | crates/kynos-openapi/src/pointer.rs:111-113 | and that of an index is its number of decimal digits |
| JsonPointer.LenIsExact | crates/kynos-openapi/src/pointer.rs:83-89 | for every chain, the pre-computed length is the number of bytes rendered |
| JsonPointer.Render | crates/kynos-openapi/src/pointer.rs:92-107 | rendering appends the pointer of the chain's token texts |
| JsonPointer.UnescapeInverts | crates/kynos-openapi/src/pointer.rs:25-33 | unescaping in RFC 6901's order undoes escaping |
| JsonPointer.ReadInvertsPointer | crates/kynos-openapi/src/pointer.rs:76-107 | splitting at `/` and unescaping recovers the token texts |
| JsonPointer.PointersTellApart | crates/kynos-openapi/src/pointer.rs:76-107 | two pointers are equal exactly when their token texts are |
| JsonPointer.SlashAndTildeAreEscaped | crates/kynos-openapi/src/pointer.rs:25-33 | the pointer to the key `/a~b` of `paths`, to the character |
| JsonPointer.BytesHoldTheCharacter | crates/kynos-openapi/src/pointer.rs:16-21 | the bytes lengths are counted in are RFC 3629's |
| DocumentWalk.DocumentIsVisitedOnce | crates/kynos-openapi/src/visit.rs:59-166 | at every location, exactly the hooks of the object written there are called, once and in order, or none behind a declined Path Item or a reference |
| DocumentCalls.CallsAt | crates/kynos-openapi/src/visit.rs:28-166 | at every location, the calls one by one: a Path Item with its `paths` key or none, an operation twice, with the Path Item holding it, an inline callback, an entry before what it holds, a reference with its target; elsewhere none |
| DocumentCalls.CalledIff | crates/kynos-openapi/src/visit.rs:28-166 | a hook is called with an object at a location exactly where the location points at that object |
| DocumentCalls.PassedOverIff | crates/kynos-openapi/src/visit.rs:129-137 | a location is passed over exactly when a Path Item on the way to it is declined |
| DocumentCalls.HolderIsAbove | crates/kynos-openapi/src/visit.rs:139-149 | the Path Item an operation comes with is the one its location is in |
| DocumentCalls.DocumentFields | crates/kynos-openapi/src/visit.rs:59-83 | the names locations under the document are made of, and what each holds |
| DocumentCalls.ItemFields | crates/kynos-openapi/src/visit.rs:139-149 | those under a Path Item: the nine methods' and the additional operations' |
| DocumentCalls.CallbackFields | crates/kynos-openapi/src/visit.rs:91-166 | those under an operation and a callback |
| DocumentOrder.DocumentIsInOrder | crates/kynos-openapi/src/visit.rs:59-83 | everything under an earlier place is called before everything under a later one: paths, webhooks, then the two kinds of component, each in its own order |
| DocumentOrder.ItemIsInOrder | crates/kynos-openapi/src/visit.rs:139-149 | the same of a Path Item's operations, the methods in their order and then the additional ones |
| DocumentOrder.CallbacksAreInOrder | crates/kynos-openapi/src/visit.rs:91-166 | and of callbacks and their entries |
| DocumentResolution.WalkIsResolved | crates/kynos-openapi/src/visit.rs:59-166 | the same by the document alone: at every location, exactly the hooks of the object the pointer resolves to by the document's field names and keys, and none where it resolves to no such object or comes by a declined Path Item |
| DocumentResolution.LocationsResolve | crates/kynos-openapi/src/visit.rs:59-166 | the location of every call resolves to the object handed over |
| DocumentResolution.ReachIsFound | crates/kynos-openapi/src/visit.rs:86-166 | what the walk reaches below a node is what evaluating the rest of the pointer finds |
| DocumentResolution.NodeLeads | crates/kynos-openapi/src/visit.rs:129-166 | what is walked below a node is what its own members lead to, and no other object is |
| DocumentResolution.DocumentLeads | crates/kynos-openapi/src/visit.rs:59-83 | and so it is of the document |
| DocumentWalk.WalkVisitsOnce | crates/kynos-openapi/src/visit.rs:86-166 | the same below any Path Item, operation or callback |
| DocumentWalk.PointersAreDistinct | crates/kynos-openapi/src/visit.rs:59-166 | no two objects of one kind are handed over at one pointer |
| DocumentWalk.WalkIsNested | crates/kynos-openapi/src/visit.rs:152-166 | to any depth of callbacks, an operation's two hooks bracket exactly what is below it |
| DocumentWalk.WalkStaysBelow | crates/kynos-openapi/src/visit.rs:86-166 | whatever a walk calls is at or below where it started |
| DocumentWalk.OperationsAreInOrder | crates/kynos-openapi/src/visit.rs:139-141 | the fixed operations come in method order, each declared one once |
| DocumentWalk.ChildrenAreSmaller | crates/kynos-openapi/src/visit.rs:91-166 | the recursion terminates |
| DocumentVisitor.Visitor.constructor | crates/kynos-openapi/src/visit.rs:28-56 | a visitor that has seen nothing |
| DocumentVisitor.Visitor.WalkDocument | crates/kynos-openapi/src/visit.rs:59-71 | the loops call exactly the walk's hooks, in its order |
| DocumentVisitor.Visitor.WalkRoutes | crates/kynos-openapi/src/visit.rs:74-83 | the same of `paths`, then `webhooks` |
| DocumentVisitor.Visitor.WalkPathItem | crates/kynos-openapi/src/visit.rs:129-150 | the same of a Path Item, pruned where the hook declines it |
| DocumentVisitor.Visitor.WalkOperation | crates/kynos-openapi/src/visit.rs:152-166 | the same of an operation |
| DocumentVisitor.Visitor.WalkCallbackOrReference | crates/kynos-openapi/src/visit.rs:118-127 | the same of a callback; a reference is reported and not followed |
| DocumentVisitor.Visitor.WalkCallback | crates/kynos-openapi/src/visit.rs:91-101 | the same of a callback's entries |
| RustScanner.Find | scripts/containment.py:69-122 | the first place, if any, where a text stands |
| RustScanner.BlankedAlikeIff | scripts/containment.py:52-57 | two texts are blanked to one exactly when their lines have the same lengths |
| RustScanner.BlankKeepsLines | scripts/containment.py:52-57 | a blanked text has the lines of the text, and blanking it again changes nothing |
| RustScanner.LiteralEndOf | scripts/containment.py:60-77 | the loops compute where a literal ends |
| RustScanner.SkipComment | scripts/containment.py:123-135 | the inner loop stops where the comment's depth returns to zero |
| RustScanner.ScanAll | scripts/containment.py:116-148 | the scan's three buffers are one length, their newlines at the same offsets, apart only where a literal is blanked |
| RustScanner.StepIsAligned | scripts/containment.py:120-147 | every step appends aligned text to the three |
| RustPieces.SourceScansToItsPieces | scripts/containment.py:106-148 | a source written in pieces is scanned to exactly what its pieces leave |
| RustPieces.StepReadsPiece | scripts/containment.py:119-147 | one step reads one piece |
| RustPieces.CommentEndsAtItsClose | scripts/containment.py:123-135 | a block comment ends at the matching close, for any nesting |
| RustPieces.LiteralEnds | scripts/containment.py:60-77 | a raw string, string or character literal ends where it is written to, and opens no comment |
| RustPieces.RawEnds | scripts/containment.py:66-69 | a raw string ends at the first quote with its number of `#` |
| RustPieces.CommentsLeave | scripts/containment.py:119-135 | a line comment leaves nothing and stops before its newline; a block comment leaves one space |
| RustPieces.LiteralStartsIff | scripts/containment.py:60-77 | a literal starts at a quote, a character literal or a raw string's opening, and nowhere else |
| RustPieces.OnlyCharLiteralsAreRead | scripts/containment.py:40-40 | what is read as a character literal is a character or an escape in quotes |
| RustScanner.PathKeyIsInReach | scripts/containment.py:139-145 | a literal is kept as a path exactly when the key is found in the 64 characters before it |
| TestModules.BlockEnd | scripts/containment.py:95-102 | the first place the braces balance, or the end |
| TestModules.ModuleSpans | scripts/containment.py:80-103 | the spans are in bounds, apart and in order, each one match's, and every match starts in one |
| TestModules.BetweenIsOutside | scripts/containment.py:150-154 | the stretches between the spans are the characters outside them |
| TestModules.Cut | scripts/containment.py:150-154 | cutting right to left leaves exactly the characters outside every span, in order |
| TestModules.Strip | scripts/containment.py:106-154 | `strip` returns the chosen buffer outside the test modules found in the masked one |
| TestBlocks.BlockEndsAtItsClose | scripts/containment.py:95-102 | a block of nested braces ends at its own closing brace, whatever follows |
| TestBlocks.UnclosedBlockTakesAll | scripts/containment.py:95-103 | a block never closed takes the rest of the text |
| TestBlocks.ModulesAreCut | scripts/containment.py:80-154 | of a source written with test modules, the spans found cut exactly the modules |
| TestBlocks.StripLeavesTheRest | scripts/containment.py:106-154 | and what `strip` returns is the rest, from the buffer asked for |
| CfgGate.Names | scripts/containment.py:571-606 | the loop computes the walk |
| CfgGate.PolarityIsDecided | scripts/containment.py:571-606 | asked for the flag, yes exactly when some occurrence of it, in the predicate and before a `cfg_attr`'s first comma, is under an even number of enclosing `not(`; asked for its negation, an odd number; for either, any |
| CfgGate.WalkFinds | scripts/containment.py:585-606 | from any point on, the walk finds exactly the occurrences still ahead |
| CfgGate.StackAdvances | scripts/containment.py:586-600 | the stack is always the parity of the enclosing negations, level by level |
| CfgLexemes.GateDecidesPolarity | scripts/containment.py:571-606 | the same over the characters of a predicate written in lexemes |
| CfgTrees.TreeIsDecided | scripts/containment.py:571-606 | the same of a predicate written as a tree of groups, whatever is behind it: the flag's polarity is read off the tree |
| CfgLexemes.LexemesAreWalked | scripts/containment.py:585-606 | the characters of a predicate are walked as its lexemes |
| CfgLexemes.LexemeIsWalked | scripts/containment.py:586-604 | one lexeme at a time |
| UseTree.UsePathsAreLeaves | scripts/containment.py:983-1013 | the paths read off a use tree's text, however it is spaced, are its leaves in order, and hold between their `::` the segments on the way to each |
| UseTree.JoinIsRead | scripts/containment.py:983-1011 | a path joined is read back, between its `::`, as its segments |
| UseTree.SelfAndAliasAreRead | scripts/containment.py:983-1011 | `tokio::io::{self, AsyncRead as Read}` imports `tokio::io` and `tokio::io::AsyncRead` |
| UseTokens.TokensAreFound | scripts/containment.py:980-980 | the tokens written are the tokens found, whatever is passed over between |
| UseTree.BranchReadsTree | scripts/containment.py:999-1011 | a branch reads one tree and stops behind it |
| UseTree.GroupReadsList | scripts/containment.py:990-997 | a group reads its list, a trailing comma or none, and stops behind its brace |
| UseTree.Group | scripts/containment.py:990-997 | the loop computes the paths and the place, on every token list |
| UseTree.Branch | scripts/containment.py:999-1011 | and so does a branch's |
| UseTree.UsePaths | scripts/containment.py:983-1013 | the two together, of a text's tokens from the first |
| UseTree.GroupOf | scripts/containment.py:990-997 | a group always moves on |
| UseTree.BranchOf | scripts/containment.py:999-1011 | a branch never moves back, and moves on unless it is at its end |
| HttpDate.Calendar | fuzz/fuzz_targets/date.rs:51-85 | the valid date with that second count, never past December, as text |
| HttpDate.DatesAreUnique | fuzz/fuzz_targets/date.rs:51-85 | it is the only one |
| HttpDate.OrderIsKept | fuzz/fuzz_targets/date.rs:51-85 | the order of dates is the order of second counts |
| HttpDate.FourDigitYears | fuzz/fuzz_targets/date.rs:16-17 | the year has four digits exactly below the bound |
| HttpDate.FixdateLength | fuzz/fuzz_targets/date.rs:16-85 | the text has IMF-fixdate's 29 characters exactly below the bound |
| HttpDate.FixdateIsRead | fuzz/fuzz_targets/date.rs:16-85 | below the bound, what is rendered is read back, field by field and by name, as the date |
| HttpDate.ExampleIsASunday | fuzz/fuzz_targets/date.rs:51-85 | the second count of RFC 9110's example date is that Sunday |
| HttpDate.YearSteps | fuzz/fuzz_targets/date.rs:60-68 | the closed form advances by the length of the year |
| HttpDate.MonthSteps | fuzz/fuzz_targets/date.rs:69-76 | and within a year by the length of the month |
| ByteRange.ReadDigits | fuzz/fuzz_targets/range.rs:164-172 | saturating at every digit yields the least of the decimal value and 2^64-1, for numerals of any length |
| ByteRange.ReadRangeSpec | fuzz/fuzz_targets/range.rs:143-160 | the reader computes the range-spec |
| ByteRange.RangeSpecReads | fuzz/fuzz_targets/range.rs:143-160 | what a range-spec writes is read as what it says, saturated, unless that is invalid |
| ByteRange.OnlyRangeSpecsRead | fuzz/fuzz_targets/range.rs:143-160 | and nothing else is read |
| ByteRange.SatisfiedIsAsked | fuzz/fuzz_targets/range.rs:176-186 | the part selected is exactly the octets asked for, with first <= last < length, and there is one exactly when there are any |
| ByteRange.FirstSatisfiedIsFirst | fuzz/fuzz_targets/range.rs:48-73 | the part is that of the first spec that can be satisfied |
| ByteRange.SelectionIsAsked | fuzz/fuzz_targets/range.rs:48-73 | a field's selection is what its first spec that asks for any octet asks for, unsatisfiable where none does, and whole for an empty representation or an ignored field |
| ByteRange.PositionsHave64Bits | fuzz/fuzz_targets/range.rs:164-172 | a numeral is read as its value or as 2^64-1 |
| ByteRange.SaturationIsInvisible | fuzz/fuzz_targets/range.rs:48-73 | saturated specs select what unbounded ones do |
| ByteRange.SaturationKeepsValidityIff | fuzz/fuzz_targets/range.rs:143-172 | saturation keeps validity exactly where the positions are not both past 64 bits in the wrong order |
| ByteRange.SaturationHidesInvalid | fuzz/fuzz_targets/range.rs:143-172 | a spec that only saturation makes valid |
| RangeField.Recognise | fuzz/fuzz_targets/range.rs:105-139 | the loops compute the reading, refusing in the source's order |
| RangeField.Elements | fuzz/fuzz_targets/range.rs:115-127 | the list's elements, trimmed, the empty ones dropped |
| RangeField.RecogniseInvertsPrinting | fuzz/fuzz_targets/range.rs:105-139 | a list of range-specs, under any OWS, any case of the unit and with empty elements anywhere, is malformed if it names none, refused if it names more than eight, and otherwise read back, saturated, or malformed if one then is invalid |
| RangeField.OtherUnitsAreUnknown | fuzz/fuzz_targets/range.rs:105-113 | another unit is refused before its set is looked at |
| RangeField.UnitIsBytesIff | fuzz/fuzz_targets/range.rs:110-113 | the unit is `bytes` in any ASCII case, and no other |
| RangeField.NoEqualsIsMalformed | fuzz/fuzz_targets/range.rs:106-109 | a field with no `=` is malformed |
| RangeField.StrayElementIsMalformed | fuzz/fuzz_targets/range.rs:129-139 | one element that is no range-spec makes the field malformed |
| RangeField.TwoSpecsAreRead | fuzz/fuzz_targets/range.rs:105-139 | `bytes=0-4, \t-500`, as two specs |
| RangeField.FieldSelectsUnbounded | fuzz/fuzz_targets/range.rs:48-73 | from field to selection, saturation shows nowhere when the unbounded reading calls no spec invalid |
| FormPairs.Decode | fuzz/fuzz_targets/query.rs:54-74 | the loop computes the decoding, which is never longer than its input |
| FormPairs.DecodingReadsUnits | fuzz/fuzz_targets/query.rs:53-80 | every octet is read however it was written, two octets shorter for each escape |
| FormPairs.EveryTextIsUnits | fuzz/fuzz_targets/query.rs:53-80 | and every text is written in such units, a `%` without two hex digits standing for itself |
| FormPairs.HexDigitsAre | fuzz/fuzz_targets/query.rs:76-80 | the hex digits, either case of a letter with one value |
| FormPairs.EscapesAreDecoded | fuzz/fuzz_targets/query.rs:53-74 | `%2f+%2F%`, in octets |
| FormPairs.FirstEqualsEndsName | fuzz/fuzz_targets/query.rs:30-33 | the first `=` of a piece ends its name, and one without has no value |
| FormPairs.EmptyPiecesAreNoPairs | fuzz/fuzz_targets/query.rs:27-29 | empty pieces are no pairs |
| FormPairs.PairsAreRead | fuzz/fuzz_targets/query.rs:27-34 | every list of pairs of octet strings is read back from what it serialises to |
| FormPairs.PairIsRead | fuzz/fuzz_targets/query.rs:31-33 | and so is one pair |
| FormPairs.QueriesReadInTurn | fuzz/fuzz_targets/query.rs:27-34 | queries joined by `&` are read one after the other |
| JsonFraming.Chunks | fuzz/fuzz_targets/json_lines.rs:48-55 | the chunks are the body, each no longer than stated, and short only at its end |
| JsonFraming.Whole | fuzz/fuzz_targets/json_lines.rs:76-113 | the loop with its early breaks computes the reading |
| JsonFraming.LinesReadOn | fuzz/fuzz_targets/json_lines.rs:87-112 | NDJSON is compositional at every newline, indices moved on by the records before |
| JsonFraming.SequencesReadOn | fuzz/fuzz_targets/json_lines.rs:78-112 | and a sequence at every separator |
| JsonFraming.RecordsReadInTurn | fuzz/fuzz_targets/json_lines.rs:91-112 | records read on from the index the ones before reached, one for each not blank, unless those ended the stream |
| JsonFraming.FramedIsInPlace | fuzz/fuzz_targets/json_lines.rs:91-112 | only the last entry ends the stream, and a schema failure's index is its place |
| JsonFraming.FramesAreRead | fuzz/fuzz_targets/json_lines.rs:76-113 | sound records, framed either way, are read back in order |
| JsonFraming.LoneRecordIsRead | fuzz/fuzz_targets/json_lines.rs:91-112 | a lone record, in each case the reader tells apart, its length judged before it is trimmed |
| JsonFraming.UnopenedIsRefused | fuzz/fuzz_targets/json_lines.rs:78-86 | a sequence that does not open with its separator is refused |
| JsonFraming.TrimIsTight | fuzz/fuzz_targets/json_lines.rs:96-99 | no ASCII whitespace is left at either end of a record |
| JsonFraming.TrimTakesBlanks | fuzz/fuzz_targets/json_lines.rs:96-99 | and nothing but that is taken |
| CallgrindCosts.SplitByObject | scripts/profile_report.py:117-178 | the loop over the lines computes the reader's final state and answer |
| CallgrindCosts.TotalsAreSelfCosts | scripts/profile_report.py:138-178 | the program's count is the self costs its object owns, the other count those of every other owner, and the two are every self cost |
| CallgrindCosts.ReadIffHeaders | scripts/profile_report.py:168-174 | a file is read exactly when the last line of events states `Ir` first and the last of positions, if there is one, `line` alone |
| CallgrindCosts.CompressionIsInvisible | scripts/profile_report.py:154-161 | lines with every name spelled out are read alike |
| CallgrindCosts.CallsCountNothing | scripts/profile_report.py:162-169 | a call and its inclusive cost count for nothing |
| CallgrindCosts.RunDescribes | scripts/profile_report.py:138-170 | at every line the state says what the lines before it do |
| CostTables.ParseRecorded | scripts/cost_features.py:536-560 | the loop over the lines computes the table, `None` or the exception |
| CostTables.ParseInvertsWriting | scripts/cost_features.py:536-606 | a table with a row is read back as written, under the provenance its header states; one without is `None` |
| CostTables.OneRowIsWritten | scripts/cost_features.py:599-606 | a table of one row and column, to the character |
| CostTables.RaggedIsAbsent | scripts/cost_features.py:548-549 | a body with a row longer or shorter than the names is no baseline |
| CostTables.LaterStatementHolds | scripts/cost_features.py:536-545 | of two lines that state one thing the later holds |
| CostTables.ProvenanceIsRead | scripts/cost_features.py:89-91 | the two provenance lines are read as what they state |
| CostTables.LinesAreSplit | scripts/cost_features.py:539-539 | the lines written are the lines read |
| ReleaseGate.Unrecorded | scripts/cost_features.py:766-804 | the loops compute the reasons, in order |
| ReleaseGate.GatePassesIff | scripts/cost_features.py:766-804 | empty exactly when there is a baseline, its toolchain and host are this run's, rows agree and every measured number is the recorded one |
| ReleaseGate.ReasonIsGivenIff | scripts/cost_features.py:766-804 | each reason exactly when it is given: no baseline, another compiler or host, a new row, a number that differs or is not recorded, a row not measured |
| ReleaseGate.GateIsExactIff | scripts/cost_features.py:766-804 | an empty answer means equal tables exactly when no recorded column went unmeasured |
| ReleaseGate.SameTablePasses | scripts/cost_features.py:766-804 | equal tables always pass |
| ReleaseGate.DroppedColumnIsNotSeen | scripts/cost_features.py:769-772 | a column no longer measured is not seen |
| ReleaseGate.RecordingClearsIff | scripts/cost_features.py:599-804 | after recording, a run over the same columns passes exactly when compiler, host and every number are those recorded |
| RunAgreement.Inexact | scripts/profile_report.py:345-364 | the benchmarks reported are exactly those outside the trend that are not counted once a run, all alike, each with what was counted |
| RunAgreement.ReportedIff | scripts/profile_report.py:345-364 | a benchmark is reported exactly when its group is in no trend, some row names it, and the rows that do are not as many as the runs or do not all count the same |
| RunAgreement.GroupEndsAtFirstDot | scripts/profile_report.py:336-337 | a group is what stands before the first dot, or the whole name |
| RunAgreement.AgreementIsExact | scripts/profile_report.py:345-364 | runs that agree raise no problem |
| RunAgreement.ExactIsAgreementIff | scripts/profile_report.py:345-364 | no problem means agreement exactly when no run repeats the benchmark |
| RunAgreement.RepetitionHidesMissing | scripts/profile_report.py:348-349 | a repeated benchmark hides a missing one |
| RunBaselines.ReadBaseline | scripts/profile_report.py:296-308 | the loop computes the rows and the host, or fails to unpack |
| RunBaselines.BaselineIsRead | scripts/profile_report.py:296-333 | of names that are one cell of one line, the rows read are those not taken for a comment or the line of columns, and the host is the header's unless a row is taken for a line of it |
| RunBaselines.BaselineIsReadIff | scripts/profile_report.py:296-333 | of all names, the rows written are the rows read, and the host with them, exactly when every name is one cell of one line and starts neither as a comment nor as the line of columns |
| RunBaselines.RowIsNotRead | scripts/profile_report.py:305-306 | a baseline of one row, named `benchmark_x`, is read back empty |
| RunBaselines.BaselineIsWritten | scripts/profile_report.py:319-333 | a baseline of one row, to the character |
| RunBaselines.TrendIsRead | scripts/profile_report.py:311-333 | the groups never compared are carried over, whatever the rows are named |
| RunBaselines.NoTrendIsReadIff | scripts/profile_report.py:311-333 | where there are none, none are read exactly when no row's name starts as their line does |

## Left out

- The internals of the `regex` and `regex-syntax` parsers: a pattern comes as its tree, with each leaf's span and spelling; what spellings it reads as which literal and which count, and what it makes of the hyphens and brackets of a class, is part of the model. The operands of a set operation, which is always refused, are told apart no further.
- Diagnostic messages of the translator: a refusal is one of two kinds, without its prose; `unreadable` (pattern.rs:140-174) is prose only.
- The engine's flags `i`, `x`, `U` and `R`, and a bare flag group such as `(?i)`: no translation holds one.
- The Unicode tables: properties are one uninterpreted predicate shared by both dialects, and the spelled names are sets given as parameters.
- Offsets count characters where the source's count bytes; nothing depends on which.
- Floating-point rounding and conversion to `Duration` in the token bucket: tokens and instants are reals. The lock, the clock and the async shell are left out; a reading is a parameter of each spend.
- Hooks with state of their own that changes their answers: `path_item`'s answer is a function of what it is called with. `inline_items` (visit.rs:106-116) would add only an easy member.
- What `TEST_MODULE`, `PREDICATE` and `PATH_VALUED` match in `containment.py` are parameters, and so are `\s` and `\w`. `Gate.search`'s loop over matches is left out.
- The readers of the framework's own that the fuzz targets compare these reference readers with are not part of this model.
- The regular expression that tells a Callgrind file's lines apart, and `int` raising on a cost that is no number: lines come told apart.
- `int` of a cell and whitespace in the measurement readers are parameters; of `int` only that it reads decimal numerals is relied on.
- The order of the problems `inexact` reports, and all wording of reports.
- The schema index of a framing failure is a number, not the pointer text `/N`.
- `allocation_sites`, `table`, `marginal` and `movers`: ranking and report tables, which would add easy members.
- Sockets, TLS, signals, subprocess calls and the rest of the framework's I/O.
