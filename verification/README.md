# Completion generators, verified

This project models the completion-generator library that Fastab bundles into its specs, and the
part of the engine that decides when a generator runs again and what is shown of its rows. It proves
what a user of the completion list relies on: when an old answer may stand in for a new one, that a
printed token is read back as it was meant, what a cache shared by all generators answers, that
accepting offers never produces a duplicate, and what the engine shows of rows it remembers.

The library is bundled, minified, into many specs; `bundle/specs/apt.js` is the copy cited here.
`airflow.js`, `ansible-playbook.js` and `asr.js` carry the same code under other variable names.

| file | what it models |
|---|---|
| `Seqs.dfy`, `Js.dfy` | array and string operations with JavaScript's results (`indexOf` of an absent character, `slice(0, -1)`, `split`, `join`, `trim`) |
| `Sessions.dfy` | a session for one argument: the last term seen, and the term a generator was last run for |
| `ShellExpand.dfy`, `ShellTemplates.dfy` | `shellExpand`: tilde, `$NAME`, `${NAME}`, `${NAME:-default}` |
| `Paths.dfy` | `getCurrentInsertedDirectory`, `filepaths.trigger` and reuse of a directory listing |
| `DirectorySort.dfy`, `FileListing.dfy` | `sortFilesAlphabetically` and the rest of `filepaths`: collecting, filtering and editing rows |
| `Suggestions.dfy`, `SuggestionCache.dfy`, `CacheOverlap.dfy` | suggestion rows, suffixes, the module-level cache, and overlapping requests to it |
| `ValueLists.dfy`, `KeyValues.dfy`, `KeyValueLists.dfy`, `KeyValueSessions.dfy` | `valueList`, `keyValue`, `keyValueList`, and editing sessions over them |
| `QueryMatching.dfy` | whether a name matches a query, by prefix or as a fuzzy subsequence |
| `EngineRows.dfy`, `EngineReuse.dfy` | the rows the engine remembers, filters again and deduplicates, and when that shows what a fresh computation would |
| `AptPackages.dfy` | the `apt` package generator |
| `BazelTargets.dfy` | the Bazel target scanner |

Where the code works step by step the model does too: the cache is a class over a mutable map keyed
by object identity, the extension filter is a loop that leaves at its end, and the row collector, the
fuzzy search, the engine's deduplication and the Bazel scanner are loops; each is proved against a
specification function. Everything else in the source is an expression and is a function here.

The reuse results about the library's generators compare what `custom` answers for the term it was
last run for and for the current term. What the engine then shows is a second question, answered in
`EngineRows` and `EngineReuse`: it keeps only the rows that matched the query at the time.

## Where the code does less than one would expect

Each of these has a concrete counterexample as a lemma, and a lemma that says exactly when the
expected property does hold.

- A directory listing reused across a bare `~` can be the wrong one (`BareTildeIsStale`,
  `BareTildeExact`), one reused across an expanding `$NAME` is right only if the expansions agree
  through their last slash (`TypedNameIsStale`, `ReuseExact`, `ReuseExactAnywhere`), and one reused
  after closing a default that spans a slash is right only if the variable is set and leads where the
  unfinished text led (`OpenDefaultIsStale`, `OpenDefaultExact`, and `ReuseExactOpen` for all tails).
- A plain variable whose value is itself a braced reference is expanded twice (`ValueIsRescanned`). A
  value is left alone in every environment exactly when no match of the second pass begins in it
  (`UnscannedIff`), and then expansion is evaluation (`ExpansionIsEvaluation`).
- The cache ignores the suffix, so an array shared by two generators keeps the suffix of the first
  (`SharedArrayKeepsFirstSuffix`, `ArrayAnswerExact`, `CacheInvisibleIff`). Overlapping requests for a
  function source keep the last result, not the first (`OverlapKeepsLastResult`,
  `OverlapAnswersExact`); all answers agree whatever is produced exactly when only one was computed
  (`AgreementIff`), which for finished runs means no overlap (`AgreementIffSerial`).
- Edits inside a token may leave rows for other items or another mode: in a value list replacing a
  committed item by one of the same length (`ReplacedItemIsStale`, `ListAdvanceExact`,
  `ListRunExact`), in a key/value list replacing a separator by a delimiter (`InnerEditIsStale`,
  `AdvanceViewExact`, `RunViewExact`).
- A string given for `equals` is read as the set of its characters (`EqualsStringIsCharacters`,
  `FilteredExact`).
- The offers depend on the text being typed, which does not trigger: a value typed in full stays on
  offer although recomputing drops it (`TypedValueStaysOffered`, `ReusedOffersExact`,
  `ReusedValuesExact`), and an unfinished key hides the key it is one character longer than
  (`LongerKeyHidesKey`, `OfferedKeysExact`, `ReusedKeysExact`).
- The engine's reuse can show too little: rows that did not match are not brought back when the query
  is deleted (`DeletedQueryLosesRows`), nor is a hidden row when its name is typed in full
  (`TypedHiddenRowIsLost`). It can show too much: a path refound by its last component
  (`TypedPathRowStays`, `SuchAPathRow`). `OrdinaryReuseIff`, `VisibleReuseIff` and `AnyReuseIff` say
  exactly when it shows neither, for three classes of rows, and `KeyValueRunExact` carries that over
  to whole runs.
- The package list is incomplete after pasting several characters and deleting some
  (`PasteThenDeleteIsIncomplete`, `CompleteIff`).
- A BUILD file without a final line feed can lose its last target and shift the next package
  (`UnterminatedTargetIsLost`, `UnterminatedDashShiftsPackage`, `GluedLineExact`).

## Model

| member | source | states |
|---|---|---|
| `Sessions.RunKeeps` | crates/fastab_engine/src/generate.rs:354-440 | over every run of keystrokes, any preorder that holds across each admitted keystroke that does not trigger holds between the term the generator was last run for and the current term |
| `Sessions.AlwaysIff` | crates/fastab_engine/src/generate.rs:354-440 | for an equivalence on terms, the answer is right throughout a run if and only if every keystroke of it triggers or replaces the term by an equivalent one |
| `Sessions.EndEditsExact` | crates/fastab_engine/src/generate.rs:354-440 | the edits at the end of the token, of any length and of one character, are exactly those that add text there or take it away |
| `Js.JoinSplit` | bundle/specs/apt.js:2 | joining undoes splitting, for every string |
| `Js.SplitJoin` | bundle/specs/apt.js:2 | splitting undoes joining, for every non-empty list of separator-free parts |
| `Js.TrimExact` | bundle/specs/apt.js:2 | trimming removes white space only, all of it, and only at the two ends |
| `Js.TrimUnique` | bundle/specs/apt.js:2 | conversely, text that begins and ends with other characters is what trimming leaves of it between white space |
| `Js.CharacterClasses` | bundle/specs/apt.js:2 | white space and the characters `.` does not match, by code point |
| `Js.LineBreakExact` | bundle/specs/apt.js:2-3 | a text has a line break exactly if it has one of those four characters |
| `ShellExpand.ExpandSplits` | bundle/specs/apt.js:1 | expansion of a directory part followed by a tail is the expansion of the one followed by the expansion of the other, through the tilde step and both substitution passes, unless the tail closes a brace the directory part left open or HOME copies the rest of the match |
| `ShellExpand.ExpandAnyTail` | bundle/specs/apt.js:1 | for every tail without exception: the directory part expands up to the first default it leaves open; a tail with a closing brace replaces the whole reference by the variable or the default, any other leaves it as written |
| `ShellExpand.ExpandKeepsTail` | bundle/specs/apt.js:1 | a tail without `$` and `}` comes through expansion unchanged after the expanded directory part, which still ends in a slash |
| `ShellExpand.ReplacementIsEvaluation` | bundle/specs/apt.js:1 | HOME is a replacement string: its `$$`, `$&` and the two patterns for the text before and after the match are read as JavaScript defines them, all other text literally |
| `ShellExpand.CopiesRestIff` | bundle/specs/apt.js:1 | the replacement depends on the text after the match if and only if it has the pattern that copies it, other patterns read first |
| `ShellExpand.PlainIsSeparable` | bundle/specs/apt.js:1 | a directory part without dollars, under a HOME without dollars, is separable from every tail |
| `ShellTemplates.EmptyDefaultStays` | bundle/specs/apt.js:1 | a reference with an empty default is no match and stays as written, set or not |
| `ShellExpand.WordCharacters` | bundle/specs/apt.js:1 | the characters of a variable's name, one by one |
| `ShellTemplates.ExpansionIsEvaluation` | bundle/specs/apt.js:1 | for every token printed from text, `$NAME`, `${NAME}` and `${NAME:-default}` segments that can be told apart, defaults themselves holding text and `$NAME`, the two passes compute the value of the segments: the variable, else the value of the default, else the reference as written; told apart means that no reference begins in text, no match of the second pass begins in the value of a plain variable, and the value of a default is not empty and has no closing brace |
| `ShellTemplates.ValueIsRescanned` | bundle/specs/apt.js:1 | without that condition it fails: a plain variable whose value is `${B}` expands to the value of B |
| `ShellTemplates.UnscannedIff` | bundle/specs/apt.js:1 | a value comes through the second pass unchanged in every environment if and only if no match of that pass begins in it |
| `ShellTemplates.TildeIsHome` | bundle/specs/apt.js:1 | when HOME is set and has no dollar, a token that starts with `~/` expands to the value of HOME, a slash and the value of the rest |
| `ShellTemplates.TildeStays` | bundle/specs/apt.js:1 | when HOME is not set, the tilde stays |
| `ShellTemplates.BareTildeIsHome` | bundle/specs/apt.js:1 | a tilde alone is the value of HOME, or itself; before anything but a slash it is text |
| `Paths.TriggerIffDirectoryPartChanged` | bundle/specs/apt.js:1 | `filepaths.trigger` fires exactly when the text through the last slash changes |
| `Paths.RunKeepsDirectoryPart` | bundle/specs/apt.js:1 | over every run of arbitrary edits the last answer was computed for a token with the current directory part |
| `Paths.PlainTokenDirectory` | bundle/specs/apt.js:1 | a token without variables means its own directory if absolute, the value of HOME and the rest after `~/` when HOME is set, itself below the working directory when relative, and otherwise the working directory followed by the text through the last slash, with exactly one slash between them |
| `Paths.NoWorkingDirectory` | bundle/specs/apt.js:1 | without a working directory every token means `/` |
| `Paths.ReuseIsSound` | bundle/specs/apt.js:1 | over every run of arbitrary edits the directory that was listed is the directory of the current token, when neither token is a bare `~` or has `$` or `}` after its last slash |
| `Paths.ReuseIsSoundForPlainHome` | bundle/specs/apt.js:1 | the same for every environment whose HOME has no dollar |
| `Paths.ReuseExact` | bundle/specs/apt.js:1 | for two tokens below the same directory part, reuse is right if and only if the expansions of their tails agree through the last slash |
| `Paths.ReuseExactAnywhere` | bundle/specs/apt.js:1 | for any two tokens, the directories agree if and only if the directory parts of their expansions are equal, or one is absolute and is where the other leads from the working directory; slash-free tokens never trigger |
| `Paths.ReuseExactOpen` | bundle/specs/apt.js:1 | the exact condition below a directory part that leaves a default open, for all tails, closing or not |
| `Paths.OpenDefaultExact` | bundle/specs/apt.js:1 | closing such a default after any text, with plain text around the brace, never triggers, and reuse is right if and only if the variable is set and leads where the unfinished text led; for an unset one never |
| `Paths.ClosedDefaultsAgree` | bundle/specs/apt.js:1 | two tokens that both close the default name the same directory |
| `Paths.OpenDefaultIsStale` | bundle/specs/apt.js:1 | for text and a default with a slash in it, as typed: closing the default never triggers; the directories before and after are given, and agree if and only if the variable is set and leads where the unfinished text led |
| `Paths.BareTildeExact` | bundle/specs/apt.js:1 | reuse between a bare `~` and another slash-free token, for every HOME and any variables, is right if and only if the parent of HOME and the expansion of the token name the same directory; for a token without variables, if and only if HOME has no slash or the working directory is its parent |
| `Paths.BareTildeIsStale` | bundle/specs/apt.js:1 | typing any plain text after a bare `~` is a run of one keystroke after which the remembered directory is not that of the token, unless the parent of HOME is the working directory |
| `Paths.TypedNameIsStale` | bundle/specs/apt.js:1 | typing, after `$`, the name of a variable whose relative value has a slash does not trigger, but leads below the working directory |
| `DirectorySort.SortListingConserves` | bundle/specs/apt.js:1 | the sorted listing is a permutation of the names not skipped, then `../`, with the sorted visible names before the sorted dot names |
| `DirectorySort.SortStable` | bundle/specs/apt.js:1 | names that compare equal keep their order |
| `DirectorySort.StableSortUnique` | bundle/specs/apt.js:1 | a sorted stable rearrangement is unique, so the result does not depend on the engine's sorting algorithm |
| `FileListing.MatchExtension` | bundle/specs/apt.js:1 | the loop ends and finds an extension if and only if what follows some dot of the name is in the extension set |
| `FileListing.AcceptEntry` | bundle/specs/apt.js:1 | a row passes if and only if it is an unfiltered folder, equals or matches a configured name, or has a configured extension |
| `FileListing.FilterRows` | bundle/specs/apt.js:1 | with any filter configured exactly the accepted rows remain, in order; with none, all rows |
| `FileListing.Collect` | bundle/specs/apt.js:2 | the loop yields one row for each shown line, in order |
| `FileListing.CollectedExact` | bundle/specs/apt.js:2 | each row inserts its own line, is a folder if and only if the line ends in a slash, and agrees with the folder setting |
| `FileListing.FilteredExact` | bundle/specs/apt.js:1 | exactly those rows remain, in order, that pass in the terms of the options: no filter configured, a folder not to be filtered, a configured name, a match, or an extension after some dot |
| `FileListing.RowsExact` | bundle/specs/apt.js:1 | each row of the answer is, in order, a collected row that passes, changed by the file edit if it is a file and there is one, by the folder edit if it is a folder and there is one, and otherwise unchanged |
| `FileListing.EqualsStringIsCharacters` | bundle/specs/apt.js:1 | a string given for `equals`, as in bundle/specs/cargo.js, lets exactly the file names of one of its characters pass, so never itself if longer |
| `FileListing.Custom` | bundle/specs/apt.js:1-2 | the whole generator: the loops compute the declarative listing of the token's directory; a failing command gives no rows |
| `FileListing.ListingExact` | bundle/specs/apt.js:1-2 | that listing is of the directory below the configured root, else the working directory: its lines sorted without `.DS_Store`, collected, filtered and edited |
| `FileListing.ShowFoldersPartitions` | bundle/specs/apt.js:1-2 | for every listing, filter and edit, the "always" rows are an order-preserving merge of the "only" and the "never" rows |
| `FileListing.ShowFoldersConserves` | bundle/specs/apt.js:1-2 | the "only" and "never" rows are subsequences of the "always" rows and their multisets add up to it |
| `FileListing.ReusedRowsAreFresh` | bundle/specs/apt.js:1-2 | end to end under the library's own trigger, while the file system stands still, what `custom` answered for the term of its last run is what it answers for the current term, for tokens that are not a bare `~` and have no `$` or `}` after the last slash |
| `Suggestions.SuffixPreserves` | bundle/specs/apt.js:2 | suffixing keeps the rows, names and details in place, never changes an inserted text already there, and otherwise inserts the name and the suffix: several names joined by commas, `undefined` for none |
| `Suggestions.PlainRowsExact` | bundle/specs/apt.js:2 | a plain string becomes a row of that name, inserting the string and the suffix if there is a suffix |
| `Suggestions.ExcludeExact` | bundle/specs/apt.js:2 | exactly the rows remain whose name is not used, with several names none of them |
| `Suggestions.FirstSuffixWins` | bundle/specs/apt.js:2 | after a first non-empty suffix no other changes anything |
| `Suggestions.SuffixesAgreeIff` | bundle/specs/apt.js:2 | two suffixes give the same rows if and only if they are equal or every row already inserts something |
| `Suggestions.ExcludePlain` | bundle/specs/apt.js:2 | removing used names from suffixed plain rows gives the suffixed unused names, in order |
| `SuggestionCache.Cache.Fetch` | bundle/specs/apt.js:2 | the answer and the new cache contents for one request, for arrays and functions, hit or miss, with caching on or off |
| `SuggestionCache.FreshExact` | bundle/specs/apt.js:2 | the uncached answer of each kind of source: the objects or results as they are, strings as rows, with the suffix if any |
| `SuggestionCache.AnswersExact` | bundle/specs/apt.js:2 | over every sequence of requests, a cached request gets the uncached answer to the first cached request for the same object, any other its own uncached answer |
| `SuggestionCache.ArrayAnswerExact` | bundle/specs/apt.js:2 | an array's cached answer equals its uncached one if and only if the first request used the same suffix or every element says what to insert |
| `SuggestionCache.ConsistentSuffixesRefine` | bundle/specs/apt.js:2 | when each array is always used with one suffix, every request for an array is answered as if uncached, in every run, whatever else it asks |
| `SuggestionCache.FunctionAnswersFirst` | bundle/specs/apt.js:2 | a function source with caching on gives every later request the first answer |
| `SuggestionCache.SharedArrayKeepsFirstSuffix` | bundle/specs/apt.js:2 | a non-empty array of strings requested with two suffixes answers both with the first, which is wrong for the second |
| `CacheOverlap.OverlapAnswersExact` | bundle/specs/apt.js:2 | over every interleaving of requests whose computations overlap, a cached request is answered with its own uncached answer if nothing for its object had finished when it began, and else with that of the last one to have finished by then; any other request with its own |
| `CacheOverlap.OverlapRefines` | bundle/specs/apt.js:2 | over every interleaving, arrays used with one suffix each are answered as if uncached |
| `CacheOverlap.AgreementIff` | bundle/specs/apt.js:2 | all answers for a function source agree, whatever it produces each time, if and only if at most one of the requests answered was computed |
| `CacheOverlap.AgreementIffSerial` | bundle/specs/apt.js:2 | they agree if no request for the source begins while another is being computed, and in runs that leave none unfinished only then |
| `CacheOverlap.OverlapKeepsLastResult` | bundle/specs/apt.js:2 | two overlapping requests, with any suffixes, each get their own result, and the later one is the one that stays |
| `CacheOverlap.UnansweredOverlapAgrees` | bundle/specs/apt.js:2 | why the last condition is about finished runs: an overlap whose second request is still unanswered shows no disagreement |
| `ValueLists.Custom` | bundle/specs/apt.js:2 | the generator's answer through the cache, for a missing or present token, with repeats on or off |
| `ValueLists.TokenStructure` | bundle/specs/apt.js:2 | joining the split parts restores the token, no part has the delimiter, the query term is the last part and follows the text through the last delimiter |
| `ValueLists.ListTriggerExact` | bundle/specs/apt.js:2 | among edits at the end the trigger fires exactly when the text through the last delimiter changes |
| `ValueLists.ReuseKeepsCommitted` | bundle/specs/apt.js:2 | over every run of edits at the end the remembered rows were computed for the current committed values |
| `ValueLists.CommittedIff` | bundle/specs/apt.js:2 | the committed values and the text through the last delimiter determine each other |
| `ValueLists.ListAdvanceExact` | bundle/specs/apt.js:2 | after one arbitrary edit the answer is for the current committed values if and only if the edit triggers or keeps the text through the last delimiter |
| `ValueLists.ListRunExact` | bundle/specs/apt.js:2 | throughout a run of arbitrary edits the answer is for the current committed values if and only if each edit triggers or keeps that text |
| `ValueLists.ListReuseExact` | bundle/specs/apt.js:2 | after any run of arbitrary edits the last delimiters are in the same place, and the answer is for the current committed values if and only if the token begins with the text that was committed |
| `ValueLists.ReplacedItemIsStale` | bundle/specs/apt.js:2 | replacing a committed value by another of the same length does not trigger and leaves the offers for the old one |
| `ValueLists.NoDuplicates` | bundle/specs/apt.js:2 | over every run of typing, deleting and accepting offers from the empty token the committed values stay pairwise distinct, although offers are recomputed only on the trigger and come from a cache that other generators fill before and during the run |
| `ValueLists.EveryListIsOffered` | bundle/specs/apt.js:2 | conversely, from any token with nothing typed, every list of further configured values without duplicates can be built by accepting offers alone, when they insert the delimiter and no other generator has asked for the values with another suffix |
| `ValueLists.OfferedExact` | bundle/specs/apt.js:2 | after any requests, with repeats off, the offers are, in order, the configured values other than those committed and the text being typed, with the suffix of the first request for these values |
| `ValueLists.OwnOffersExact` | bundle/specs/apt.js:2 | for the first to ask for its values the offers are, in order, one for each free value, inserting it and the delimiter if `insertDelimiter` is on and without inserted text otherwise |
| `ValueLists.AcceptedOffer` | bundle/specs/apt.js:2 | accepting such an offer makes the token the committed values, that value and, with the delimiter, an empty item |
| `ValueLists.ReusedOffersExact` | bundle/specs/apt.js:2 | whatever was requested before and since, for the same committed values reused offers equal recomputed ones if and only if the query terms are equal or neither is a free value |
| `ValueLists.TypedValueStaysOffered` | bundle/specs/apt.js:2 | typing a free value in full does not trigger, and the reused offers are not the recomputed ones |
| `ValueLists.TypedDelimiterExact` | bundle/specs/apt.js:2 | typing the delimiter repeats a value if and only if the value just typed is already committed |
| `KeyValues.Custom` | bundle/specs/apt.js:2 | the generator asks the cache for keys before the separator and for values after it, with the suffix and caching of that half |
| `KeyValues.KeyValueRoundTrip` | bundle/specs/apt.js:2 | a printed key asks for the keys with the separator as suffix when configured, a printed key and value for the values without one, and the query term is exactly the part being typed |
| `KeyValues.KeyValueTriggerExact` | bundle/specs/apt.js:2 | the trigger fires exactly when the separator comes, goes or moves |
| `KeyValues.CachedHalf` | bundle/specs/apt.js:2 | over every sequence of requests to function sources, naming a half in `cache` gives all its requests what was produced for the first of them, and every request for the other half what was produced for itself; another name caches nothing, and a flag both halves or neither |
| `KeyValues.HalvesOverRuns` | bundle/specs/apt.js:2 | for every cache setting and any sources, over every sequence of requests: a cached half repeats its first answer and an uncached one answers afresh; when one object serves both halves and both are cached, the first answer of all is repeated |
| `KeyValues.KeyValueReuse` | bundle/specs/apt.js:2 | over every run of arbitrary edits a recomputation would make the very same request |
| `KeyValueLists.ListCustom` | bundle/specs/apt.js:2 | the generator's answer through the cache, at key and value position, with repeats on or off |
| `KeyValueLists.PartialKeyRoundTrip` | bundle/specs/apt.js:2 | a printed list of pairs and a partial key is at key position, its query term is the partial key, and the keys read back are those printed |
| `KeyValueLists.PartialValueRoundTrip` | bundle/specs/apt.js:2 | a printed list of pairs, a key and a partial value is at value position, its query term is the partial value, and the keys and values read back are those printed |
| `KeyValueLists.ParseThenPrint` | bundle/specs/apt.js:2 | conversely, a token at key position whose earlier items have separators is the print of what is read from it |
| `KeyValueLists.OfferedKeysExact` | bundle/specs/apt.js:2 | after any requests of any generators, with repeats off the offers are, in order, the configured keys other than the keys of the pairs and the partial key without its last character, with the suffix of the first request for these keys |
| `KeyValueLists.OfferedValuesExact` | bundle/specs/apt.js:2 | the same for values: those other than the values of the pairs and the value typed so far |
| `KeyValueLists.OwnKeyOffersExact` | bundle/specs/apt.js:2 | for the first to ask for its keys the offers are, in order, one for each free key, inserting it and the separator if `insertSeparator` is on and without inserted text otherwise |
| `KeyValueLists.OwnValueOffersExact` | bundle/specs/apt.js:2 | the same for values with the delimiter and `insertDelimiter` |
| `KeyValueLists.RepeatsAllowed` | bundle/specs/apt.js:2 | with repeats allowed at the position of the token, no row of the source is left out |
| `KeyValueLists.AcceptedKeyAwaitsValue` | bundle/specs/apt.js:2 | accepting an offered key with its separator leaves the token at value position for that key, with an empty query term |
| `KeyValueLists.AcceptedValueAwaitsKey` | bundle/specs/apt.js:2 | accepting an offered value with its delimiter gives the print of the pairs with that pair added, at key position |
| `KeyValueLists.MarkTriggerExact` | bundle/specs/apt.js:2 | among edits at the end the trigger fires exactly when the text through the last separator or delimiter changes |
| `KeyValueLists.ReuseKeepsMarks` | bundle/specs/apt.js:2 | over every run of edits at the end, of any length, the mode, the text through the last mark and the earlier items at the last recomputation are those of the current token |
| `KeyValueLists.AdvanceMarksExact` | bundle/specs/apt.js:2 | after one arbitrary edit the text through the last mark is the computed one if and only if the edit triggers or keeps that text |
| `KeyValueLists.AdvanceViewExact` | bundle/specs/apt.js:2 | and the mode and earlier items are the computed ones if and only if it triggers, or keeps the text through the last delimiter |
| `KeyValueLists.RunMarksExact` | bundle/specs/apt.js:2 | the first condition on every edit is exact for whole runs |
| `KeyValueLists.RunViewExact` | bundle/specs/apt.js:2 | so is the second: mode and earlier items are right throughout a run of arbitrary edits if and only if each edit meets it |
| `KeyValueLists.ListReuseIff` | bundle/specs/apt.js:2 | after any run of arbitrary edits the last marks are in the same place, and both properties can be read off the two tokens |
| `KeyValueLists.ReusedOffersDoNotRepeat` | bundle/specs/apt.js:2 | so over every such run no reused row has the key of an earlier item (or the value, at value position) when repeats are off |
| `KeyValueLists.InnerEditIsStale` | bundle/specs/apt.js:2 | an edit that turns a separator into a delimiter leaves value rows at a key position |
| `KeyValueLists.ReusedKeysExact` | bundle/specs/apt.js:2 | whatever was requested before and since, reused key offers equal recomputed ones if and only if the partial keys agree but for their last character, or neither shortened one is a key still free |
| `KeyValueLists.LongerKeyHidesKey` | bundle/specs/apt.js:2 | a partial key one character longer than the only configured key leaves no offers, although no pair has that key |
| `KeyValueLists.ReusedValuesExact` | bundle/specs/apt.js:2 | reused value offers equal recomputed ones if and only if the partial values are equal or neither is a value still free |
| `KeyValueLists.CacheInvisibleIff` | bundle/specs/apt.js:2 | a generator over two arrays never notices the cache, whatever it is asked, if and only if the arrays are different objects, or both halves use the same suffix, or all elements say what to insert |
| `KeyValueSessions.NoDuplicateKeys` | bundle/specs/apt.js:2 | over every run of typing, deleting and accepting keys and values from the empty token, no key occurs twice, whatever other generators request before and during the run |
| `KeyValueSessions.EveryPairListIsOffered` | bundle/specs/apt.js:2 | conversely, every list of configured pairs with different keys can be built from the empty token by accepting offers alone, a key and then a value for each, and the token is then the print of the pairs |
| `QueryMatching.GreedyIndexes` | crates/fastab_engine/src/query.rs:184-197 | the loop finds the leftmost increasing indexes that pick the query out of the name, and fails only if there are none |
| `QueryMatching.MatchesExact` | crates/fastab_engine/src/query.rs:44-92 | in fuzzy mode a name matches if and only if it contains the query as a subsequence, in prefix mode if and only if the query is a prefix, case aside |
| `QueryMatching.NarrowsIff` | crates/fastab_engine/src/query.rs:44-92 | all names that match one query match another if and only if the one, taken as a name, matches the other |
| `EngineRows.DedupSession` | crates/fastab_engine/src/generate.rs:902-924 | the pass keeps exactly the rows that share name, kind, inserted text and hidden flag with none before them, in order |
| `EngineRows.OutputExact` | crates/fastab_engine/src/generate.rs:886-895 | the final list keeps exactly the rows that share name, kind and inserted text with none before them |
| `EngineRows.FiltersExact` | crates/fastab_engine/src/generate.rs:683-706 | both filters in the terms of the row: a hidden row only for its own name but for ASCII case, a file or folder on reuse also by its last component |
| `EngineRows.BasenameExact` | crates/fastab_engine/src/generate.rs:691-706 | the last component of a path, whatever slashes follow it |
| `EngineRows.SessionDedupIsInvisible` | crates/fastab_engine/src/generate.rs:886-924 | for all rows and every later filter that looks at those four only, the final list is the one it would be had the session kept every row |
| `EngineRows.StampCommutes` | crates/fastab_engine/src/generate.rs:459-475 | stamping the query term commutes with the final deduplication |
| `EngineRows.FirstStampStays` | crates/fastab_engine/src/generate.rs:449-475 | a row keeps its own query term, else gets that of the generator, else that of the argument |
| `EngineRows.ShownExact` | crates/fastab_engine/src/generate.rs:354-440 | after every run of keystrokes the final list is that of the rows for the computing term, filtered by the query then and by the query now |
| `EngineReuse.ReuseIsFreshIff` | crates/fastab_engine/src/generate.rs:683-706 | for any class of rows, reuse shows for every listing of the class what recomputing would if and only if each row of the class passes the filter of the current query exactly when it passed that of the computing query and passes the refilter |
| `EngineReuse.OrdinaryReuseIff` | crates/fastab_engine/src/generate.rs:683-706 | for rows neither hidden nor paths, in prefix and in fuzzy mode: if and only if the current query, taken as a name, matches the computing one |
| `EngineReuse.VisibleReuseIff` | crates/fastab_engine/src/generate.rs:683-706 | for rows not hidden, paths among them: in fuzzy mode under the same condition, in prefix mode if the query moreover has the same length or a slash (the locale maps only the slash to a slash) |
| `EngineReuse.AnyReuseIff` | crates/fastab_engine/src/generate.rs:16-18 | for all rows, and already for all that are not paths: if and only if the two queries differ in case only |
| `EngineReuse.KeyValueRunExact` | crates/fastab_engine/src/generate.rs:354-440 | over every run of arbitrary edits of a `keyValue` token, the final list is that of a fresh computation, whatever rows of a class the requests are answered with, if and only if reuse is right for that class between the two queries |
| `EngineReuse.TypingShowsFresh` | crates/fastab_engine/src/generate.rs:354-440 | so over every run in which the user only types, in either mode, if no row is hidden or a path |
| `EngineReuse.DeletedQueryLosesRows` | crates/fastab_engine/src/generate.rs:683-706 | a row that does not match the first partial key is missing after that key is deleted, though a fresh computation shows it |
| `EngineReuse.TypedHiddenRowIsLost` | crates/fastab_engine/src/generate.rs:956-961 | a hidden row is missing after its name is typed in full from a shorter beginning, though a fresh computation shows it |
| `EngineReuse.TypedPathRowStays` | crates/fastab_engine/src/generate.rs:691-706 | a path whose last component matches the query but whose name does not stays, though a fresh computation drops it |
| `EngineReuse.SuchAPathRow` | crates/fastab_engine/src/generate.rs:691-706 | such is the file `s/m` for the query `m` in prefix mode |
| `AptPackages.ComputedForFirstCharacter` | bundle/specs/apt.js:2 | over every run of single-character edits at the end from the empty token, the list is always that of the token's first character |
| `AptPackages.PackageNameExact` | bundle/specs/apt.js:2-3 | the name of a line is what stands before its first slash, and what follows a line break after it; a line without a slash is its own name |
| `AptPackages.ListingIsRead` | bundle/specs/apt.js:2-3 | for a listing printed from packages, the answer for a slash-free token is, in order, exactly the names that start with it, and empty for the empty token |
| `AptPackages.ReuseIsComplete` | bundle/specs/apt.js:2-3 | in every such run the remembered list has the name of every listed package that starts with the current token |
| `AptPackages.ReuseRefinesRecomputation` | bundle/specs/apt.js:2-3 | in every such run the remembered list filtered by the token is the freshly computed list, in order |
| `AptPackages.CompleteIff` | bundle/specs/apt.js:2-3 | a remembered list is complete for every listing if and only if it was computed for a non-empty prefix of the token |
| `AptPackages.PasteThenDeleteIsIncomplete` | bundle/specs/apt.js:2-3 | pasting two characters and deleting one leaves a list that misses a matching package |
| `BazelTargets.PostProcess` | bundle/specs/bazel.js:1-2 | the loop over lines yields the rows of the scan from an empty package |
| `BazelTargets.HeaderRecognised` | bundle/specs/bazel.js:2 | the header of a package is read back as that package, whatever slashes, dashes or `/BUILD` it contains |
| `BazelTargets.TargetRecognised` | bundle/specs/bazel.js:2 | a line with a quoted name gives that name, quotes inside it included |
| `BazelTargets.ScanAppend` | bundle/specs/bazel.js:2 | scanning is compositional: only the current package is carried from one part to the next |
| `BazelTargets.ScanDump` | bundle/specs/bazel.js:1-2 | scanning the printed dump of any files yields, in order, exactly package, colon and target for each target line |
| `BazelTargets.DumpsCompose` | bundle/specs/bazel.js:1-2 | the scan of two dumps in a row is the scan of the one followed by the scan of the other |
| `BazelTargets.GluedLineExact` | bundle/specs/bazel.js:1-2 | when the last line of a file runs into the next header, the scan is unaffected if and only if that line has no four dashes, does not end in a dash and has no target |
| `BazelTargets.UnterminatedTargetIsLost` | bundle/specs/bazel.js:1-2 | a target on an unterminated last line gives a row when the lines are apart and none when it runs into the next header |
| `BazelTargets.UnterminatedDashShiftsPackage` | bundle/specs/bazel.js:1-2 | a dash at the end of one makes a dot part of the next package |

## Left out

- The rest of the engine and the desktop application (parsing the command line, ranking, rendering): only one generator's session is modelled, without debouncing, cancellation and the engine's own cache of `custom` answers.
- Path generators in the engine: `filepaths` is replaced by a native generator when specs are extracted (scripts/audit-spec-hooks.mjs:94-97), which runs again whenever the term changes (crates/fastab_engine/src/generate.rs:617-620), so the results in `Paths` and `FileListing` are about the library's own `trigger` and `custom`.
- The scores of matches and their ranking: only whether a name matches is modelled. Lower case maps character by character.
- The declarative spec tables: fixed data.
- Running commands, promises and the clock: command output is an arbitrary input; a request is one atomic step, except in `CacheOverlap`, where the awaited computation is a step of its own.
- The `ai` generator: a network request.
- Separators and delimiters of more than one character: the index arithmetic of `getQueryTerm` fits one character only, so they are single characters here.
- `localeCompare`, `toLowerCase` and user-supplied `matches` patterns: arbitrary functions, the order a total preorder where the order matters.
- Looking up inherited properties of the environment object, and an absent environment: the environment is a finite map.
- Strings are sequences of Unicode characters, not of UTF-16 code units.
- Mutation, by a caller, of an array after it was cached or returned: sources and answers are values.
- Arrays that mix strings and objects: a source holds one or the other.
- `AptPackages.Packages`: the constant description, icon and priority of a package row are dropped.
- `apt`'s installed and upgradable lists: a one-line map over lines.
- `ShellTemplates.ExpansionIsEvaluation`: a default whose value is empty or has a closing brace is no default for the pattern, so such a reference is not a segment here.
- `KeyValueSessions.NoDuplicateKeys`: keys and values are plain strings without the marks, as in the bundled instances with static lists; a key typed by hand must be new when its separator is typed.
