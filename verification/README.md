# A model of Google Test 1.7.0

The repository vendors Google Test 1.7.0; its logic is modelled here and its promises are proved.
Code that updates state step by step is written as classes and methods with loops, each proved
against a function or property of its inputs; recursion and expressions are functions and lemmas.
What code and specification share (character classes, escapes, flag names, constants) is fixed by
lemmas with the texts and characters written out; most are named `...ByText` or `...InFull`.

| file | what it models |
|---|---|
| `CStrings.dfy`, `Numbers.dfy`, `OutStreams.dfy` | NUL-terminated strings and fields, decimal numerals and `strtol`, output streams |
| `SimpleRegex.dfy` | the simple regular expressions: grammar, meaning, validator, matcher, full-match patterns |
| `TestFilter.dfy` | glob patterns, filters and test selection by name |
| `Shuffling.dfy`, `Sharding.dfy`, `RunOrder.dfy`, `UnitTest.dfy` | the test scheduler: random numbers, Fisher-Yates, shards, the order of an iteration, registration, filtering and the repeat loop |
| `StringPrinter.dfy`, `XmlOutput.dfy`, `Utf8.dfy` | printers, each with a reader for what it writes |
| `DeathTestProtocol.dfy`, `DeathTests.dfy` | parent and child of a death test as a step system; outcomes, the child's flag and the factory |
| `CommandLine.dfy`, `ChildProcess.dfy` | flags on the command line and their removal in place; the command line of a death test child from end to end |
| `Pump.dfy`, `PumpGrammar.dfy`, `PumpElif.dfy` | the parser of the Pump template language, a printer for its trees, and its documented grammar |
| `Primes.dfy` | the prime tables of the samples |
| `HeaderFuser.dfy` | fusing gtest.h and its headers into one file |

`dafny verify dfyconfig.toml` checks everything.

## Where code and documentation differ

The model follows the code. Each difference has its exact condition as a lemma or in a contract, and a lemma at a failing input.

- A pattern that ends in the escape `\$` gets no end anchor for a full match, because `Init` looks at the last byte only (`SimpleRegex.FullMatchExactIff`; `SimpleRegex.EscapedDollarMatchesMore`).
- A NUL is printed as `\0` and not told apart from a following octal digit (`StringPrinter.RoundTripIff`; `StringPrinter.NulAndDigitMerge`).
- The Invalid Unicode message is promised for all values outside U+0 to U+10FFFF but given only above U+1FFFFF (`Utf8.MessageIff`; `Utf8.NoMessageFor110000`).
- A "natural number" in the death test flag may be one of the topmost 2^31 values of 64 bits and then comes out negative (`DeathTests.ParseNumberExact`; `DeathTests.LargestNumberIsMinusOne`).
- An Int32 flag with an empty value is accepted as 0 (`Numbers.ParseInt32Iff`; `Numbers.EmptyTextIsZero`).
- The const accessor for the i-th test case ignores the shuffle (`UnitTest.UnitTestImpl.AccessorsAgreeIff`; `UnitTest.UnitTestImpl.AccessorsDifferWhenSwapped` with `RunOrder.SeedOneSwapsTwoCases`).
- "The smallest prime greater than p" is found for p of at least 0 only (`Primes.OnTheFlyPrimeTable.GetNextPrime`; `Primes.TwoFollowsNegatives`).
- Where `char` is signed, all bytes from 0x80 on count as invalid in XML, and are dropped; signedness is a parameter (`XmlOutput.EscapedTextExactIff`, `XmlOutput.EscapedAttributeExactIff`; `XmlOutput.HighByteDroppedWhenSigned`).

## Model

| member | source | states |
|---|---|---|
| `SimpleRegex.PunctuationListed` | gtest-1.7.0/src/gtest-port.cc:211-213 | the four ranges that escapes test are exactly the 32 characters of the list |
| `SimpleRegex.ParseIffRender` | gtest-1.7.0/src/gtest-port.cc:257-311 | reading a pattern inverts writing it: the grammar (optional ^, atoms with at most one repeat mark each, optional $) is unambiguous |
| `SimpleRegex.NoErrorIffInGrammar` | gtest-1.7.0/src/gtest-port.cc:274-308 | the conditions the loop checks character by character, with what it remembers of the character before, hold exactly for the sentences of the grammar |
| `SimpleRegex.TailIffAcceptedWithoutCaret` | gtest-1.7.0/src/gtest-port.cc:342-373 | what the matcher keeps of every text it recurses into is exactly this: it is accepted and has no leading ^ |
| `SimpleRegex.ValidateRegex` | gtest-1.7.0/src/gtest-port.cc:257-311 | accepts exactly the grammar and rejects NULL; never reads past the terminator |
| `SimpleRegex.AcceptedIffAllowed` | gtest-1.7.0/src/gtest-port.cc:257-311 | a pattern is accepted exactly when each of its characters may stand where it does: an escape names a mark or one of eleven letters; outside escapes there is no bracket or bar, ^ stands first, $ last, and a repeat mark after an escape or a character without a role |
| `SimpleRegex.MatchesPrefixStep` | gtest-1.7.0/src/gtest-port.cc:347-373 | some prefix lies in the language of a pattern exactly when a piece at the front lies in that of its first token and a prefix of the rest in that of the remaining pattern |
| `SimpleRegex.MatchRepetitionAndRegexAtHead` | gtest-1.7.0/src/gtest-port.cc:320-340 | for every accepted rest of a pattern without a leading ^: true exactly when some prefix of the subject lies in the language of the repeated atom followed by that rest |
| `SimpleRegex.MatchRegexAtHead` | gtest-1.7.0/src/gtest-port.cc:347-373 | for every accepted pattern without a leading ^: true exactly when some prefix of the subject (all of it under a final $) lies in the language of the pattern; recursion ends because the pattern shrinks |
| `SimpleRegex.MatchesSomewhereIff` | gtest-1.7.0/src/gtest-port.cc:383-396 | a substring under the anchors is a prefix of a suffix, of the whole subject under ^ |
| `SimpleRegex.MatchRegexAnywhere` | gtest-1.7.0/src/gtest-port.cc:383-396 | true exactly when some substring of the subject matches under the anchors; false on NULL |
| `SimpleRegex.FullPatternAccepted` | gtest-1.7.0/src/gtest-port.cc:429-447 | the full pattern derived from an accepted pattern is accepted, keeps its tokens, is anchored at the start, is anchored at the end unless the pattern ends in the escape \$, and fits in len + 3 bytes |
| `SimpleRegex.BuildFullPattern` | gtest-1.7.0/src/gtest-port.cc:433-447 | the bytes written through the moving pointer are the full pattern with its terminator, all inside the block allocated |
| `SimpleRegex.FullMatchesIff` | gtest-1.7.0/src/gtest-port.cc:406-410 | what the derived pattern matches, told by the tokens of the original one |
| `SimpleRegex.FullImpliesPartial` | gtest-1.7.0/src/gtest-port.cc:406-414 | a full match is always a partial match |
| `SimpleRegex.FullMatchExactIff` | gtest-1.7.0/src/gtest-port.cc:444-445 | a full match tests the whole subject, for all subjects, if and only if the pattern does not end in the escape \$ |
| `SimpleRegex.EscapedDollarMatchesMore` | gtest-1.7.0/src/gtest-port.cc:444-445 | the pattern that is just the escape \$ fully matches $a, which is not in its language |
| `SimpleRegex.PartialMatchByText` | gtest-1.7.0/src/gtest-port.cc:383-396 | told by the text of the pattern: some substring is in the language of what stands between the anchors, from the start under ^ and to the end under $ |
| `SimpleRegex.FullMatchByText` | gtest-1.7.0/src/gtest-port.cc:429-447 | the whole subject is in that language, with or without anchors; where it ends in the escape \$ with no anchor after it, some prefix is |
| `SimpleRegex.EmptyBody` | gtest-1.7.0/src/gtest-port.cc:347-350 | the empty pattern stands for the empty text |
| `SimpleRegex.ConcatByText` | gtest-1.7.0/src/gtest-port.cc:347-373 | accepted texts without anchors concatenate to one whose language is the concatenation of theirs |
| `SimpleRegex.RepeatByText` | gtest-1.7.0/src/gtest-port.cc:320-340 | an atom stands for one character; under ? for at most one, under + for at least one and under * for any number of those it stands for |
| `SimpleRegex.EscapesByText` | gtest-1.7.0/src/gtest-port.cc:228-244 | against a subject of one character, each of \d \D \f \n \r \s \S \t \v \w \W answers by its set of characters, in partial and in full matches |
| `SimpleRegex.CharactersByText` | gtest-1.7.0/src/gtest-port.cc:243-248 | likewise an escaped mark stands for itself, a dot for all but newline, any other character without a role for itself |
| `SimpleRegex.RE.Init` | gtest-1.7.0/src/gtest-port.cc:417-448 | validity is grammaticality, and a valid object holds the full pattern |
| `SimpleRegex.RE.FullMatch` | gtest-1.7.0/src/gtest-port.cc:406-410 | false for an invalid object, else the whole subject matches up to the escape \$ exception |
| `SimpleRegex.RE.PartialMatch` | gtest-1.7.0/src/gtest-port.cc:412-414 | false for an invalid object, else some substring matches under the anchors |
| `TestFilter.PatternMatchesIffInGlob` | gtest-1.7.0/src/gtest.cc:440-455 | matching is membership in the glob language of the pattern up to its first colon; ends because pattern and text together shrink |
| `TestFilter.GlobConcat` | gtest-1.7.0/src/gtest.cc:440-455 | globs one after the other match texts one after the other |
| `TestFilter.GlobWithoutStar` | gtest-1.7.0/src/gtest.cc:440-455 | without a star a glob matches exactly the texts of its length that differ from it under question marks only |
| `TestFilter.StarMatchesAll` | gtest-1.7.0/src/gtest.cc:447-449 | a star matches every text |
| `TestFilter.MatchesFilter` | gtest-1.7.0/src/gtest.cc:457-478 | true exactly when some colon-separated segment of the filter matches |
| `TestFilter.FilterUnion` | gtest-1.7.0/src/gtest.cc:457-478 | joining two filters by a colon is union |
| `TestFilter.OnePattern` | gtest-1.7.0/src/gtest.cc:457-478 | a filter without a colon is one pattern |
| `TestFilter.FilterMatchesTest` | gtest-1.7.0/src/gtest.cc:480-506 | of the case name, a dot and the test name: positive and not negative, split at the first dash; no positive part means all |
| `TestFilter.SelectsByText` | gtest-1.7.0/src/gtest.cc:485-505 | what a flag selects, told by its text before and after the first dash |
| `TestFilter.NegativePartExcludes` | gtest-1.7.0/src/gtest.cc:485-505 | a negative part takes away exactly what it matches, an empty one nothing |
| `TestFilter.DeathTestCaseNames` | gtest-1.7.0/src/gtest.cc:158 | the built-in filter for death test cases picks the names that end in DeathTest or contain DeathTest/ |
| `TestFilter.DisabledNames` | gtest-1.7.0/src/gtest.cc:153 | the built-in filter for disabled names picks those that start with DISABLED_ or contain /DISABLED_ |
| `Shuffling.Random.Generate` | gtest-1.7.0/src/gtest.cc:291-305 | the state steps by 1103515245 x + 12345 modulo 2^31, whatever the first wrap-around at 2^32 does, and the number is its remainder by the range |
| `Shuffling.NextStateIs` | gtest-1.7.0/src/gtest.cc:291-301 | the states after a seed follow that recurrence |
| `Shuffling.DrawsAre` | gtest-1.7.0/src/gtest-internal-inl.h:316-328 | a shuffle of n elements takes n - 1 steps of the generator, and its k-th number is the state after k + 1 of them modulo n - k |
| `Shuffling.ShuffleRange` | gtest-1.7.0/src/gtest-internal-inl.h:310-328 | the vector becomes the Fisher-Yates arrangement of the numbers drawn, and the generator has taken as many steps |
| `Shuffling.FisherYatesPermutes` | gtest-1.7.0/src/gtest-internal-inl.h:323-327 | whatever numbers are drawn within bounds, the range keeps its elements and the rest is untouched |
| `Shuffling.FirstChoiceIsLast` | gtest-1.7.0/src/gtest-internal-inl.h:323-327 | the element drawn first ends up last in the range |
| `Shuffling.FisherYatesInjective` | gtest-1.7.0/src/gtest-internal-inl.h:323-327 | over distinct elements, different draws give different orders |
| `Shuffling.FisherYatesSurjective` | gtest-1.7.0/src/gtest-internal-inl.h:323-327 | every rearrangement of the range comes from some draws |
| `Sharding.SelectedCount` | gtest-1.7.0/src/gtest.cc:4455-4506 | the number of tests selected over all cases is how many of the numbers below the runnable count the shard is dealt |
| `Sharding.NumberedInOrder` | gtest-1.7.0/src/gtest.cc:4440-4506 | runnable tests are numbered from 0 in order across the cases, and a shard takes those whose number leaves its index when divided by the total |
| `Sharding.DealtClosedForm` | gtest-1.7.0/src/gtest.cc:4444-4446 | a shard is dealt n / t tests, the first n mod t shards one more |
| `Sharding.EachTestOnOneShard` | gtest-1.7.0/src/gtest.cc:4440-4506 | one run per shard index selects each runnable test on exactly one shard and no other test on any |
| `Sharding.ShardsBalanced` | gtest-1.7.0/src/gtest.cc:4440-4506 | the sizes of any two shards differ by at most one |
| `Sharding.ShardsSumUp` | gtest-1.7.0/src/gtest.cc:4440-4506 | the sizes of all shards add up to the number of runnable tests |
| `Sharding.ShouldShard` | gtest-1.7.0/src/gtest.cc:4381-4422 | sharding is on exactly for an index below a total above one outside a death test child, and exactly the inconsistent values end the program |
| `RunOrder.ShuffledCasesPermute` | gtest-1.7.0/src/gtest.cc:4601-4613 | shuffling the cases permutes their indices and keeps all death cases ahead of the rest |
| `RunOrder.CaseOrderPermutes` | gtest-1.7.0/src/gtest.cc:4601-4613 | the same for the order an iteration uses, with or without a seed |
| `RunOrder.SeedOneSwapsTwoCases` | gtest-1.7.0/src/gtest.cc:4601-4613 | seed 1 swaps the two cases of a program without death cases |
| `RunOrder.TestOrderPermutes` | gtest-1.7.0/src/gtest.cc:2463-2465 | the order of the tests in a case is a permutation |
| `RunOrder.OrdersBySeed` | gtest-1.7.0/src/gtest.cc:4601-4613 | one sequence of numbers from the seed shuffles the death cases, then the other cases, then the tests of one case after the other in registration order |
| `RunOrder.LastPlaces` | gtest-1.7.0/src/gtest.cc:4601-4613 | so the last place of a shuffled case, and of each of the two groups of cases, goes to the element whose number is drawn first for it |
| `RunOrder.SeedTwoRunsThree` | gtest-1.7.0/src/gtest.cc:4601-4613 | seed 2 runs three tests in the order third, first, second |
| `RunOrder.IterationInOrder` | gtest-1.7.0/src/gtest.cc:2429-2454 | of two tests that an iteration executes, the case of the earlier stands before that of the later in the order of the cases, or it is the same case and the earlier stands before the later in the order of its tests |
| `RunOrder.UnshuffledInOrder` | gtest-1.7.0/src/gtest.cc:2429-2454 | without a shuffle, tests run by case and within a case by test, in registration order |
| `RunOrder.IterationRunsEachSelectedOnce` | gtest-1.7.0/src/gtest.cc:4284-4317 | an iteration executes every selected test exactly once and nothing else, whatever the seed |
| `RunOrder.IterationLength` | gtest-1.7.0/src/gtest.cc:4284-4317 | an iteration executes as many tests as are selected |
| `RunOrder.IterationRunsDeathsFirst` | gtest-1.7.0/src/gtest.cc:4173-4206 | no test of a death case runs after a test of another case, shuffled or not |
| `RunOrder.GetRandomSeedFromFlag` | gtest-1.7.0/src/gtest-internal-inl.h:135-146 | the seed lies in 1 to 99999 for every flag value and clock; see SeedFromFlagExact |
| `RunOrder.SeedFromFlagExact` | gtest-1.7.0/src/gtest-internal-inl.h:135-146 | a positive flag counts round the range from 1, a negative one as the unsigned number of its bits, 0 stands for the clock |
| `RunOrder.GetNextRandomSeed` | gtest-1.7.0/src/gtest-internal-inl.h:151-157 | the next seed lies in the same range |
| `RunOrder.SeedAtClosedForm` | gtest-1.7.0/src/gtest-internal-inl.h:148-157 | iteration N has seed ((s0 - 1 + N) mod 99999) + 1 |
| `RunOrder.SeedFlagIsIdentity` | gtest-1.7.0/src/gtest-internal-inl.h:135-146 | a seed in range given as the flag is used as it is |
| `RunOrder.ReplayIteration` | gtest-1.7.0/src/gtest.cc:4268-4348 | of the runs that RunAllTests is proved to make: a fresh run given the seed of iteration N executes its first iteration in exactly the order of iteration N |
| `RunOrder.RunInOrder` | gtest-1.7.0/src/gtest.cc:4268-4348 | iteration k of the runs that RunAllTests is proved to make goes by registration order without a shuffle, and by the orders of the k-th seed with one |
| `UnitTest.RegistrationStep` | gtest-1.7.0/src/gtest.cc:4189-4202 | a new death case goes right after the death cases so far, any other new case to the end, a known case nowhere |
| `UnitTest.CasesDistinct` | gtest-1.7.0/src/gtest.cc:4177-4183 | no case is listed twice |
| `UnitTest.DeathCasesLead` | gtest-1.7.0/src/gtest.cc:4189-4202 | after any registrations, the death cases are exactly the first ones, as many as counted |
| `UnitTest.ViewOfKnownCase` | gtest-1.7.0/src/gtest.cc:2423-2426 | a registration under a known case name appends the test to that case and changes nothing else |
| `UnitTest.ViewOfNewCase` | gtest-1.7.0/src/gtest.cc:4185-4202 | a registration under a new case name inserts a case with that test and changes nothing else |
| `UnitTest.DeathCaseByText` | gtest-1.7.0/src/gtest.cc:4189-4190 | a case is a death case exactly when it is named ...DeathTest or ...DeathTest/... |
| `UnitTest.RunnableByText` | gtest-1.7.0/src/gtest.cc:4471-4491 | a test is runnable exactly when neither its case nor itself has a name that starts with DISABLED_ or contains /DISABLED_, or disabled tests are asked for, and the filter selects case, dot and test name |
| `UnitTest.Classify` | gtest-1.7.0/src/gtest.cc:4471-4491 | the three flags of a test by its names and the flags of the program |
| `UnitTest.TestCase.ShuffleTests` | gtest-1.7.0/src/gtest.cc:2463-2465 | the indices become their Fisher-Yates arrangement by the numbers drawn |
| `UnitTest.TestCase.UnshuffleTests` | gtest-1.7.0/src/gtest.cc:2468-2472 | the indices become the identity, whatever they were |
| `UnitTest.TestCase.Filter` | gtest-1.7.0/src/gtest.cc:4466-4503 | every test of the case gets its disabled, matching and selected flags, and the case runs exactly when one of its tests is selected |
| `UnitTest.TestCase.Run` | gtest-1.7.0/src/gtest.cc:2429-2454 | executes exactly the selected tests, in index order (RunOrder.IterationInOrder says what that means for a whole iteration) |
| `UnitTest.UnitTestImpl.FindTestCase` | gtest-1.7.0/src/gtest.cc:4177-4183 | finds the first case of that name |
| `UnitTest.UnitTestImpl.CreateTestCase` | gtest-1.7.0/src/gtest.cc:4185-4205 | inserts a fresh case after the last death case or at the end and extends the index list |
| `UnitTest.UnitTestImpl.GetTestCase` | gtest-1.7.0/src/gtest.cc:4173-4206 | finds the case or inserts one; keeps all objects apart and the indices the identity |
| `UnitTest.UnitTestImpl.AddTestInfo` | gtest-1.7.0/src/gtest-internal-inl.h:654-674 | after any sequence of registrations the cases are the stable partition of first-registration order with death cases first, each holding its tests in order, last_death_test_case_ + 1 counts the death cases, and all indices are the identity |
| `UnitTest.UnitTestImpl.FilterTests` | gtest-1.7.0/src/gtest.cc:4455-4506 | selects exactly the runnable tests dealt to the shard, marks the cases that have one, and returns their number |
| `UnitTest.UnitTestImpl.ShuffleTests` | gtest-1.7.0/src/gtest.cc:4601-4613 | death cases, other cases and the tests of each case are shuffled one after the other from one generator |
| `UnitTest.UnitTestImpl.UnshuffleTests` | gtest-1.7.0/src/gtest.cc:4616-4623 | restores the identity at both levels, whatever the indices were |
| `UnitTest.UnitTestImpl.AccessorsAgreeIff` | gtest-1.7.0/src/gtest-internal-inl.h:586-596 | the const accessor, which ignores the shuffle, and the mutable one agree on every index if and only if the case indices are the identity |
| `UnitTest.UnitTestImpl.AccessorsDifferWhenSwapped` | gtest-1.7.0/src/gtest-internal-inl.h:586-596 | with the indices 1, 0 of two cases the accessors differ |
| `UnitTest.UnitTestImpl.RunTestCases` | gtest-1.7.0/src/gtest.cc:4313-4316 | executes the cases in the order of the indices |
| `UnitTest.UnitTestImpl.RunIteration` | gtest-1.7.0/src/gtest.cc:4284-4347 | executes what the layout and the seed determine, and leaves everything unshuffled |
| `UnitTest.UnitTestImpl.RunAllTests` | gtest-1.7.0/src/gtest.cc:4252-4348 | every iteration executes what layout and seed determine; registration order is kept, and inconsistent shard variables end the run |
| `UnitTest.ProtocolByValues` | gtest-1.7.0/src/gtest.cc:4252-4256 | the shard variables count exactly for an index below a total above one outside a death test child |
| `UnitTest.ShardsRunEachTestOnce` | gtest-1.7.0/src/gtest.cc:4252-4506 | from the flags to what is executed: in every iteration the runs of all shards together execute each runnable test exactly once and no other test at all, whatever their clocks and seeds |
| `UnitTest.ShardRunsBalanced` | gtest-1.7.0/src/gtest.cc:4252-4506 | in every iteration the runs of all shards together execute as many tests as are runnable, and any two of them differ by at most one |
| `UnitTest.NothingSelected` | gtest-1.7.0/src/gtest.cc:4291-4317 | without a selected test the iteration that is skipped would have executed nothing |
| `StringPrinter.PrintCharsAsStringTo` | gtest-1.7.0/src/gtest-printers.cc:254-271 | appends the quoted text, reopened after a hex escape that a hex digit follows |
| `StringPrinter.SpecialCharactersPrinted` | gtest-1.7.0/src/gtest-printers.cc:142-183 | the printed form of each of the ten characters with an escape of their own |
| `StringPrinter.OtherCharactersPrinted` | gtest-1.7.0/src/gtest-printers.cc:174-180 | of the others, printable ASCII is printed as it is and the rest as a hex escape in capitals without a leading zero |
| `StringPrinter.PrintedCons` | gtest-1.7.0/src/gtest-printers.cc:254-271 | characters are printed one after the other; the literal is closed and reopened exactly between a hex escape and a hex digit |
| `StringPrinter.ReadPrinted` | gtest-1.7.0/src/gtest-printers.cc:254-271 | for every byte string, reading the output as adjacent C++ string literals gives the string in which each NUL has swallowed up to two octal digits after it |
| `StringPrinter.MergeShrinks` | gtest-1.7.0/src/gtest-printers.cc:144-146 | that string is the input itself, or shorter, according as no NUL is directly followed by an octal digit |
| `StringPrinter.RoundTripIff` | gtest-1.7.0/src/gtest-printers.cc:254-271 | reading the output gives back the input if and only if no NUL is directly followed by an octal digit |
| `StringPrinter.NulAndDigitMerge` | gtest-1.7.0/src/gtest-printers.cc:144-146 | NUL followed by the digit 1 reads back as the one character of octal code 1 |
| `StringPrinter.UniversalPrintCharArray` | gtest-1.7.0/src/gtest-printers.cc:275-296 | leaves out a last NUL and marks an array that has none |
| `StringPrinter.PrintedArrayInjective` | gtest-1.7.0/src/gtest-printers.cc:275-296 | the output tells apart any two arrays whose shown elements round-trip, last NUL included |
| `XmlOutput.EscapeXml` | gtest-1.7.0/src/gtest.cc:3139-3180 | the output is the concatenation of the escapes of the characters |
| `XmlOutput.RemoveInvalidXmlCharacters` | gtest-1.7.0/src/gtest.cc:3185-3194 | keeps exactly the valid characters, in order |
| `XmlOutput.RemovalByByte` | gtest-1.7.0/src/gtest.cc:3026-3028 | a single byte is kept exactly when it is 0x9, 0xA, 0xD or from 0x20 on, and below 0x80 where char is signed |
| `XmlOutput.RemovalOfConcat` | gtest-1.7.0/src/gtest.cc:3185-3194 | bytes are kept or removed one by one, in order |
| `XmlOutput.EscapedConcat` | gtest-1.7.0/src/gtest.cc:3139-3180 | characters are escaped one by one, in order |
| `XmlOutput.EscapesInFull` | gtest-1.7.0/src/gtest.cc:3145-3176 | the escape of every character in both modes |
| `XmlOutput.EscapeIsReference` | gtest-1.7.0/src/gtest.cc:3145-3176 | every escape is a reference to its character, or nothing if that is invalid, or the character, then not one that needs escaping |
| `XmlOutput.EscapedTextRoundTrip` | gtest-1.7.0/src/gtest.cc:3139-3180 | read as element content, escaped text is the input without the characters that count as invalid |
| `XmlOutput.EscapedAttributeRoundTrip` | gtest-1.7.0/src/gtest.cc:3139-3180 | read between quotes of either kind, escaped text has no raw quote and survives white space normalisation: it is the input without the characters that count as invalid |
| `XmlOutput.UnchangedIff` | gtest-1.7.0/src/gtest.cc:3139-3194 | a text comes through the removal, and back from the escaping in both modes, unchanged if and only if each of its bytes is 0x9, 0xA, 0xD or from 0x20 on, and below 0x80 where char is signed |
| `XmlOutput.NothingRemovedIff` | gtest-1.7.0/src/gtest.cc:3182-3194 | what is removed is only what XML does not allow, if and only if char is unsigned or the text is ASCII |
| `XmlOutput.EscapedTextExactIff` | gtest-1.7.0/src/gtest.cc:3139-3180 | escaping as text loses only what XML does not allow, if and only if char is unsigned or the text is ASCII |
| `XmlOutput.EscapedAttributeExactIff` | gtest-1.7.0/src/gtest.cc:3139-3180 | the same of attribute values, between quotes of either kind |
| `XmlOutput.HighByteDroppedWhenSigned` | gtest-1.7.0/src/gtest.cc:3026-3028 | a byte from 0x80 on is dropped where char is signed and kept where it is not |
| `XmlOutput.OutputXmlCDataSection` | gtest-1.7.0/src/gtest.cc:3246-3263 | appends the sections and the text between them |
| `XmlOutput.CDataInFull` | gtest-1.7.0/src/gtest.cc:3246-3263 | data without a closing mark is one section; each closing mark ends one, is written as escaped text and starts another |
| `XmlOutput.CDataRoundTrip` | gtest-1.7.0/src/gtest.cc:3246-3263 | read as CDATA sections and text, the output is the data, wherever it contains the closing mark or ends in brackets |
| `Utf8.DecodeEncoded` | gtest-1.7.0/src/gtest.cc:1404-1409 | decoding inverts encoding on all 21-bit values, whatever bytes follow |
| `Utf8.EncodeDecoded` | gtest-1.7.0/src/gtest.cc:1404-1409 | what decodes is the encoding of its value |
| `Utf8.DecodeEncodedAll` | gtest-1.7.0/src/gtest.cc:1500-1521 | concatenated encodings decode uniquely |
| `Utf8.EncodeDecodedAll` | gtest-1.7.0/src/gtest.cc:1500-1521 | each byte string is the encoding of at most one sequence of values |
| `Utf8.PrefixFree` | gtest-1.7.0/src/gtest.cc:1436-1462 | no encoding is a prefix of another, so encoding is injective |
| `Utf8.ShortestForm` | gtest-1.7.0/src/gtest.cc:1404-1409 | among all byte sequences with one of the four bit patterns and the bits of a value, over-long ones included, its encoding is one and the only shortest |
| `Utf8.EncodingByRange` | gtest-1.7.0/src/gtest.cc:1404-1409 | how many bytes a value takes, and in which ranges the first and the other bytes lie |
| `Utf8.SomeEncodings` | gtest-1.7.0/src/gtest.cc:1404-1409 | three values in UTF-8 and UTF-16 byte by byte |
| `Utf8.MessageIff` | gtest-1.7.0/src/gtest.cc:1431-1439 | the Invalid Unicode message stands exactly for values above 2^21 - 1, and the documented range agrees with that except on U+110000 to U+1FFFFF |
| `Utf8.NoMessageFor110000` | gtest-1.7.0/src/gtest.cc:1431-1439 | U+110000, which is no code point, is encoded instead of reported |
| `Utf8.CodePointToUtf8` | gtest-1.7.0/src/gtest.cc:1436-1462 | gives the shortest encoding, nothing for 0, and above the range the message, letter by letter |
| `Utf8.CodePointsOfUtf16` | gtest-1.7.0/src/gtest.cc:1466-1486 | reading well-formed UTF-16 gives the scalar values it encodes |
| `Utf8.ScalarsIffWellFormed` | gtest-1.7.0/src/gtest.cc:1493-1499 | all values read are scalar values if and only if the wide string is well-formed UTF-16 |
| `Utf8.WideStringToUtf8` | gtest-1.7.0/src/gtest.cc:1500-1521 | the output is the concatenated encodings of the values read, up to the first NUL and the given length; on the UTF-16 form of any scalar values it is their UTF-8 form, from which they can be decoded again |
| `Utf8.Utf16ToUtf8` | gtest-1.7.0/src/gtest.cc:1500-1521 | the UTF-16 form of any non-zero scalar values is a wide C string, and is read as those values |
| `Utf8.ShowWideCString` | gtest-1.7.0/src/gtest.cc:1525-1529 | a NULL gives (null), the UTF-16 form of any non-zero scalar values their UTF-8 form, from which they can be decoded again |
| `DeathTestProtocol.RunKeepsInv` | gtest-1.7.0/src/gtest-death-test.cc:425-488 | every reachable state of parent, child and pipe keeps the protocol invariant |
| `DeathTestProtocol.OutcomeExact` | gtest-1.7.0/src/gtest-death-test.cc:425-488 | in every interleaving the outcome is LIVED, THREW or RETURNED exactly when the child reported that reason, and DIED exactly when it is gone without a report |
| `DeathTestProtocol.OutcomeBySteps` | gtest-1.7.0/src/gtest-death-test.cc:425-488 | told by the steps of a run: LIVED, THREW or RETURNED exactly when the statement of the child ended that way and it wrote its status byte, DIED exactly when its process ended without writing it |
| `DeathTestProtocol.StatusBytes` | gtest-1.7.0/src/gtest-death-test.cc:230-233 | the status bytes are L, T and R, and no other byte is taken for an outcome |
| `DeathTestProtocol.FatalExact` | gtest-1.7.0/src/gtest-death-test.cc:446-461 | a parent that has read has given up exactly when the child reported an internal error |
| `DeathTestProtocol.FatalBySteps` | gtest-1.7.0/src/gtest-death-test.cc:446-461 | and exactly when the step of an internal error was taken |
| `DeathTestProtocol.NeverStuck` | gtest-1.7.0/src/gtest-death-test.cc:433-435 | until the parent is done, some step other than an interrupted read is possible |
| `DeathTestProtocol.RunsAreShort` | gtest-1.7.0/src/gtest-death-test.cc:433-435 | apart from interrupted reads, every run has at most six steps |
| `DeathTestProtocol.PassedExact` | gtest-1.7.0/src/gtest-death-test.cc:530-577 | a finished test has died with an accepted status exactly when the child never wrote its status byte and its process ended with such a status |
| `DeathTests.DeathTestImpl.ReadAndInterpretStatusByte` | gtest-1.7.0/src/gtest-death-test.cc:425-464 | the first uninterrupted read decides the outcome, by end of file or one of the bytes L, T and R, or ends the program |
| `DeathTests.DeathTestImpl.Abort` | gtest-1.7.0/src/gtest-death-test.cc:470-488 | the byte written is L, T or R by the reason, and is read as that reason |
| `DeathTests.DeathTestImpl.Wait` | gtest-1.7.0/src/gtest-death-test.cc:799-809 | records the outcome that the reads decide and the exit status; does nothing when nothing was spawned, and changes nothing when the reads end the program |
| `DeathTests.ReadsDecide` | gtest-1.7.0/src/gtest-death-test.cc:433-462 | in every run of the protocol, the results of the reads decide an outcome exactly when the parent has one, and the same |
| `DeathTests.DeathTestImpl.WaitOverRun` | gtest-1.7.0/src/gtest-death-test.cc:799-809 | given what the reads and the reaping of a finished run return, the object has the outcome and the status the run leads to |
| `DeathTests.DeathTestImpl.Passed` | gtest-1.7.0/src/gtest-death-test.cc:530-577 | true exactly for a spawned test with outcome DIED, an accepted status and a partial match of a valid regex |
| `DeathTests.SplitString` | gtest-1.7.0/src/gtest-death-test.cc:1208-1223 | the fields between the delimiters |
| `DeathTests.ParseNumberExact` | gtest-1.7.0/src/gtest-internal-inl.h:1002-1040 | exactly the texts of digits are read, leading zeros included: values that fit an int as themselves, the topmost 2^31 values of 64 bits as negative numbers, all others not at all |
| `DeathTests.LargestNumberIsMinusOne` | gtest-1.7.0/src/gtest-internal-inl.h:1002-1040 | the largest 64-bit number, with or without a leading zero, is read as -1 |
| `DeathTests.ParseInternalRunDeathTestFlag` | gtest-1.7.0/src/gtest-death-test.cc:1296-1338 | four fields, the last three natural numbers, or the flag is bad |
| `DeathTests.FlagByText` | gtest-1.7.0/src/gtest-death-test.cc:1296-1338 | a text of four fields, of which the last three are read as numbers, is a flag of those values; all other texts are bad |
| `DeathTests.FormatFlagFields` | gtest-1.7.0/src/gtest-death-test.cc:1121-1125 | the parent writes the path, line, number and descriptor as the last fields, in this order |
| `DeathTests.FlagRoundTripIff` | gtest-1.7.0/src/gtest-death-test.cc:1121-1125 | the child reads back what the parent wrote if and only if the source path has no vertical bar; otherwise it refuses the flag |
| `DeathTests.DefaultDeathTestFactory.Create` | gtest-1.7.0/src/gtest-death-test.cc:1153-1203 | counts the death test; threadsafe makes an exec-style one and fast one that is not, without a flag always, under one exactly at its place and number; refused are those after that number and an unknown style for one that would be made |
| `DeathTests.DefaultDeathTestFactory.Visit` | gtest-1.7.0/src/gtest-death-test.cc:1153-1203 | a test body replayed in the child goes through the answers up to the first that is not a skip |
| `DeathTests.ParentInstantiatesAll` | gtest-1.7.0/src/gtest-death-test.cc:1187-1199 | without a flag every death test is instantiated, in the style asked for |
| `DeathTests.InstantiatesExactly` | gtest-1.7.0/src/gtest-death-test.cc:1162-1176 | the child instantiates a death test, in the style asked for, exactly when its number and place are those of the flag, and refuses exactly those after it |
| `DeathTests.ChildRunsTheSameSite` | gtest-1.7.0/src/gtest-death-test.cc:1100-1176 | through the flag text, a child that replays the same death tests skips the first k-1 and instantiates exactly the k-th, in the style asked for, if and only if the source path has no vertical bar |
| `ChildProcess.ArgumentsByText` | gtest-1.7.0/src/gtest-death-test.cc:1118-1125 | the two arguments in full: --gtest_filter= with case, dot and test name, and --gtest_internal_run_death_test= with the flag text |
| `ChildProcess.NameSelectsItself` | gtest-1.7.0/src/gtest-death-test.cc:1118-1120 | a plain name (no wildcard, colon or dash), as the filter, selects that name and no other |
| `ChildProcess.SelectsOnlyItselfIff` | gtest-1.7.0/src/gtest-death-test.cc:1118-1120 | of the names without a dash, exactly the plain ones select themselves and nothing else |
| `ChildProcess.AddedArgumentsDecide` | gtest-1.7.0/src/gtest-death-test.cc:1126-1129 | the two arguments added last decide both flags whatever precedes them, and the child removes them |
| `ChildProcess.ChildRunsThisDeathTest` | gtest-1.7.0/src/gtest-death-test.cc:1100-1144 | end to end: the child started for the k-th death test takes the two flags whatever else is on the command line; its filter selects the current test and no other, for names without a dash if and only if the name is plain; and it instantiates the k-th death test and no other, if and only if the source path has no vertical bar |
| `Numbers.ParseInt32Iff` | gtest-1.7.0/src/gtest-port.cc:724-760 | a text is read as v exactly when it is a numeral for v (spaces, a sign or none, digits) within Int32 and strictly within long, or empty and v is 0 |
| `Numbers.EmptyTextIsZero` | gtest-1.7.0/src/gtest-port.cc:724-760 | the empty text is no numeral and is read as 0 |
| `Numbers.Int32RoundTripIff` | gtest-1.7.0/src/gtest-port.cc:724-760 | a printed Int32 reads back, except the two ends where long is no wider |
| `Numbers.LeadingDigit` | gtest-1.7.0/src/gtest-port.cc:724-760 | the first digit of a numeral counts for its value times ten to the number of digits after it |
| `Numbers.NoLeadingZero` | gtest-1.7.0/src/gtest-death-test.cc:1121-1125 | printed numbers have no leading zero |
| `CommandLine.ParseFlagValueIff` | gtest-1.7.0/src/gtest.cc:4677-4703 | a flag has a value exactly when written --gtest_flag=value, or --gtest_flag where the value is optional |
| `CommandLine.FlagsHaveGoodNames` | gtest-1.7.0/src/gtest-internal-inl.h:89-102 | the flags have different names, none with an equals sign |
| `CommandLine.RecognizeIff` | gtest-1.7.0/src/gtest.cc:4899-4923 | an argument sets a flag to a value exactly when some flag takes it so; the order of the tries does not matter |
| `CommandLine.RecognizeByText` | gtest-1.7.0/src/gtest.cc:4677-4923 | an argument is recognised as a setting exactly when it is a text that sets a flag of the list: --gtest_flag or --gtest_flag=text with text not starting with 0, f or F turns a bool flag on and any other text off, a numeral in range or the empty text sets an Int32 flag, any text a string flag |
| `CommandLine.BoolFlagSet` | gtest-1.7.0/src/gtest.cc:4715-4725 | a bool flag alone is set to true, with a value to false exactly if that starts with 0, f or F |
| `CommandLine.Int32FlagSet` | gtest-1.7.0/src/gtest.cc:4732-4742 | an Int32 flag is set to i by the numerals for i in range |
| `CommandLine.StringFlagSet` | gtest-1.7.0/src/gtest.cc:4749-4759 | a string flag is set to any text |
| `CommandLine.FlagsListed` | gtest-1.7.0/src/gtest-internal-inl.h:89-102 | the seventeen flags by name and kind |
| `CommandLine.SomeArguments` | gtest-1.7.0/src/gtest.cc:4899-4923 | four arguments in full, among them --gtest_shuffle and --gtest_shuffle=0 |
| `CommandLine.HasGoogleTestFlagPrefixIff` | gtest-1.7.0/src/gtest.cc:4767-4774 | true exactly when --, - or / is followed by gtest_ or gtest- but not by gtest_internal_ |
| `CommandLine.AsksForHelpIff` | gtest-1.7.0/src/gtest.cc:4940-4946 | help is asked for by --help, -h, -?, /? or such a prefix |
| `CommandLine.LastSettingWins` | gtest-1.7.0/src/gtest.cc:4889-4923 | a flag ends with the value of the last argument that sets it |
| `CommandLine.UnsetKeepsValue` | gtest-1.7.0/src/gtest.cc:4889-4923 | a flag that no argument sets keeps its value |
| `CommandLine.KeptUnrecognized` | gtest-1.7.0/src/gtest.cc:4899-4946 | what stays is exactly what no flag takes |
| `CommandLine.KeptInOrder` | gtest-1.7.0/src/gtest.cc:4889-4947 | arguments are kept or removed one by one, in order; a null one stays |
| `CommandLine.SecondParseIsIdle` | gtest-1.7.0/src/gtest.cc:4889-4947 | parsing what parsing has left removes nothing and sets nothing |
| `CommandLine.ShiftLeft` | gtest-1.7.0/src/gtest.cc:4926-4932 | the entries after i up to and including the terminating one move down by one |
| `CommandLine.FlagVariables.ParseGoogleTestFlagsOnly` | gtest-1.7.0/src/gtest.cc:4889-4947 | argv ends as its first entry, the unrecognised arguments in order, then NULL, with argc their number; flags and help flag follow from the arguments; ends although index and bound both move down |
| `Pump.ParsePrinted` | gtest-1.7.0/scripts/pump.py:475-574 | parsing the printed tokens of a tree with nothing or a closing bracket after them returns the tree and leaves exactly what is after them, for every tree without blank code right after an open $if, with or without $elif |
| `Pump.ParsedCode` | gtest-1.7.0/scripts/pump.py:475-574 | no tree the parser makes has blank code right after an else-less $if |
| `Pump.ReparseIsStable` | gtest-1.7.0/scripts/pump.py:475-574 | whatever the parser makes survives printing and parsing |
| `Pump.BlankByText` | gtest-1.7.0/scripts/pump.py:496 | blank are the texts of spaces and the control characters from tab to carriage return |
| `Pump.TokenList.PopToken` | gtest-1.7.0/scripts/pump.py:453-460 | takes the head if it has the type wanted, else fails |
| `Pump.TokenList.ParseElseNode` | gtest-1.7.0/scripts/pump.py:475-500 | consumes exactly what the parsing function does and returns its tree |
| `Pump.TokenList.ParseAtomicCodeNode` | gtest-1.7.0/scripts/pump.py:503-561 | the same, putting back a token that starts no node |
| `Pump.TokenList.ParseCodeNode` | gtest-1.7.0/scripts/pump.py:564-574 | the same, growing the list until a token that starts no node; ends on the number of tokens |
| `PumpGrammar.ParserSound` | gtest-1.7.0/scripts/pump.py:46-62 | whatever the parser accepts, it has read a sentence of the documented grammar for the tree it returns, up to the tokens it leaves; blank code ahead of an else part, or of none, may be dropped |
| `PumpGrammar.ParserComplete` | gtest-1.7.0/scripts/pump.py:46-62 | every sentence of the grammar that is followed by nothing or a closing bracket is accepted, and exactly what follows is left |
| `PumpGrammar.AcceptsExactly` | gtest-1.7.0/scripts/pump.py:475-574 | on tokens of which only code and expressions may be blank, as the tokeniser makes them, the parser takes all tokens if and only if they are a sentence of the grammar |
| `PumpGrammar.ParserResolves` | gtest-1.7.0/scripts/pump.py:475-574 | the only ambiguity of the grammar is blank code after an open $if: of a tree that has none there, every sentence is parsed to exactly that tree |
| `PumpGrammar.ParserTrims` | gtest-1.7.0/scripts/pump.py:475-574 | the tree made of a sentence is its tree without the blank code right after open $ifs, wherever that does not depend on the style of else branches |
| `PumpElif.SentenceShortest` | gtest-1.7.0/scripts/pump.py:46-62 | no sentence of a tree is shorter than its printed form with $elif |
| `PumpElif.RoundTripIff` | gtest-1.7.0/scripts/pump.py:475-574 | printing then parsing gives back a tree if and only if it has no blank code right after an open $if; exact with and without $elif |
| `Primes.PrimeIffNoSmallDivisor` | gtest-1.7.0/samples/prime_tables.h:58-67 | a number is prime exactly when nothing below a bound past its square root divides it |
| `Primes.PrimeAbove` | gtest-1.7.0/samples/prime_tables.h:69-75 | there is a prime above every natural number (Euclid) |
| `Primes.NextPrimeExists` | gtest-1.7.0/samples/prime_tables.h:69-75 | every natural number has a next prime |
| `Primes.TwoFollowsNegatives` | gtest-1.7.0/samples/prime_tables.h:50-52 | the next prime after any negative number is 2 |
| `Primes.IsPrime` | gtest-1.7.0/samples/sample1.cc:47-68 | odd trial division up to i > n / i decides primality for every int |
| `Primes.OnTheFlyPrimeTable.IsPrime` | gtest-1.7.0/samples/prime_tables.h:58-67 | trial division decides primality for every int |
| `Primes.OnTheFlyPrimeTable.GetNextPrime` | gtest-1.7.0/samples/prime_tables.h:69-75 | the least prime above p for p of at least 0, and -1 below |
| `Primes.PreCalculatedPrimeTable.CrossOutMultiples` | gtest-1.7.0/samples/prime_tables.h:109-112 | crosses out exactly the proper multiples |
| `Primes.PreCalculatedPrimeTable.CalculatePrimesUpTo` | gtest-1.7.0/samples/prime_tables.h:102-114 | the sieve marks exactly the primes up to max |
| `Primes.PreCalculatedPrimeTable.IsPrime` | gtest-1.7.0/samples/prime_tables.h:89-91 | true exactly for the primes up to max |
| `Primes.PreCalculatedPrimeTable.GetNextPrime` | gtest-1.7.0/samples/prime_tables.h:93-99 | the least prime above p if it is within the table, else -1 |
| `Primes.HybridPrimeTable.IsPrime` | gtest-1.7.0/samples/sample8_unittest.cc:62-67 | decides primality for every int, whichever table answers |
| `Primes.HybridPrimeTable.GetNextPrime` | gtest-1.7.0/samples/sample8_unittest.cc:69-75 | the least prime above p for p of at least 0, whichever table answers; below 0 the answer depends on the table |
| `HeaderFuser.VisitsReachable` | gtest-1.7.0/scripts/fuse_gtest_files.py:152-169 | the walk visits exactly the headers reachable from the seed, cyclic or not, and fails exactly when one of them is missing |
| `HeaderFuser.WritesReachableTextOnce` | gtest-1.7.0/scripts/fuse_gtest_files.py:152-169 | the output holds exactly the non-include lines of the reachable headers, each once and in the order of its file |
| `HeaderFuser.DeclaredBeforeUse` | gtest-1.7.0/scripts/fuse_gtest_files.py:160-169 | text of an included header comes before later text of its includer, unless the two include each other |
| `HeaderFuser.ReachedBeforeUse` | gtest-1.7.0/scripts/fuse_gtest_files.py:160-169 | the same through any number of further includes: text that an included header leads to comes before later text of the includer, unless that header leads back to the includer |
| `HeaderFuser.FusedIsFirstOccurrences` | gtest-1.7.0/scripts/fuse_gtest_files.py:152-169 | the whole order: the output is plain textual inclusion, in which only a header within itself is left out, with the first occurrence of each line kept |
| `HeaderFuser.HeaderWriter.ProcessFile` | gtest-1.7.0/scripts/fuse_gtest_files.py:152-169 | the processed set and the output grow as the walk says; ends on the headers not yet processed |
| `HeaderFuser.FuseGTestH` | gtest-1.7.0/scripts/fuse_gtest_files.py:146-172 | the fused header is the text of the walk from gtest.h, or the failure of a missing header |

## Left out

- meanie3D's own headers: they hold only includes, macros and empty namespaces.
- The regex branch that calls the POSIX functions, and the Windows and QNX variants of death tests.
- Real system calls (fork, clone, exec, waitpid, pipes, files, environment variables, clocks, stream capture): what they return is a parameter, and an interrupted read is a step that changes nothing.
- Machine overflow of `int` in indices, counters, `i*i` and the primes: integers are unbounded. The generator's state, random seeds, code points, hex digits and number parsing do have their widths.
- Subjects of SIZE_MAX characters or more, for which the repetition count of the matcher wraps around.
- Messages: texts of failures, warnings, help and the colours of the console.
- Listeners, environments, set-up and tear-down, exceptions, timing and the pass/fail result of a run: a run is the sequence of tests it executes. A fatal failure in global set-up, `--help` and `--gtest_list_tests`, after which no test runs, are left out too.
- UnitTest.UnitTestImpl.RunAllTests: a negative repeat count means no last iteration; the number of iterations is a parameter, so what is stated holds of the first iterations of such a run.
- Shuffling.ShuffleRange: works on the vector as a value that it returns, so aliasing of the vector with another object is not captured.
- UnitTest.UnitTestImpl.GetTestCase: identifies the case by its index instead of a pointer; type parameters and fixture functions are left out.
- Trigraphs and the wide-literal variant of the string printer; XML line-end normalisation; wide characters of four bytes.
- Which include lines of a header name gtest headers: the lines come classified. Fusing gtest-all.cc, the same walk with one more kind of line.
- Pump's regular-expression tokeniser, token positions, evaluation of expressions by Python and the beautifier. `IsBlank` takes white space to be the six ASCII characters.
- Typed and value-parameterised test generation, assertion macros, `CountIf`, `Counter`, `MyString`, `Factorial` as a sample and plain accessors: easy or repetitive.
- ChildProcess.ChildRunsThisDeathTest: does not say what the child's filter selects for names with a dash, which names made of C++ identifiers and slashes never have; the rest holds for every name.
- PumpGrammar.ParserTrims: does not fix the tree of a sentence with blank code after an $if that is open if its else branch was written $elif and closed if it was written $else, as the tree alone does not tell them apart.
