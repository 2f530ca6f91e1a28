# ens-collections helpers and the multipart benchmark body, in Dafny

This project models two pieces of the tunnckoCore open-source monorepo.

- **The collection helpers of `ens-collections`**, in `src/utils.js`:
  - turning a list of ENS names into an array of names (`getListOfNames`, `getNamesFromCSV`, `arrayify`);
  - the case and slug transforms (`decamelize`, `namify`, `slugify`);
  - sorting the label-to-token-id record (`sortObject`);
  - looking a name up (`getTokenInfo`, `getTokens`). The IDNA conversions, keccak-256 and the hex-to-decimal conversion are parameters;
  - building a collection record (`generateCollection`) and normalising one (`normalizeCollection`).
- **`createMultipartBuffers` of formidable-mini's 100 MB benchmark.** It lays out a multipart/form-data body (RFC 7578, delimiters as in section 5.1.1 of RFC 2046). There is one buffer per file part and then the closing delimiter.

The modules follow the source:

| file | module | what it holds |
|---|---|---|
| `jsvalues.dfy` | `JsValues` | JavaScript values, truthiness, `flat()` and `filter(Boolean)` |
| `jsstrings.dfy` | `JsStrings` | `split`, `join`, `trim`, `includes`, `repeat`, ASCII case mapping, over `seq<char>` |
| `namelists.dfy` | `NameLists` | `getListOfNames`, `getNamesFromCSV`, `arrayify` |
| `casing.dfy` | `Casing` | `decamelize` (one scanner per `replace`), `slugify`, `namify` |
| `objects.dfy` | `Objects` | plain objects as entry lists: property assignment, the dictionary view, `sortObject` |
| `tokens.dfy` | `Tokens` | `getTokenInfo`, `getTokens` |
| `collections.dfy` | `Collections` | `normalizeCollection` and `generateCollection`, as methods proved against specification functions |
| `multipart.dfy` | `MultipartBody` | `createMultipartBuffers`, as a method, and the layout of the body |

A thrown exception is the `Err(message)` case of a `Result`. An absent, `undefined` or `null` property is `None`.

Both collection operations are written the way the source writes them, as methods:
- `NormalizeCollection` updates a local copy of the record one property at a time.
- `ReduceNames` runs the reducer of `generateCollection` in a loop. It assigns `data[label]` and increments `supply`.

Each method is proved equal to a specification function (`Normalized`, `Reduce`, `Generated`). The lemmas state what those functions mean.

## Model

| member | source | states |
|---|---|---|
| JsValues.Flat | modules/ens-collections/src/utils.js:108 | `flat()` of an array without nested arrays is the array itself |
| JsValues.Falsy | modules/ens-collections/src/utils.js:105-111 | `!val`: `undefined`, `null`, `false`, `0` and `''` are falsy; every array, `[]` included, is truthy |
| JsValues.FlatAppend | modules/ens-collections/src/utils.js:108 | `flat()` distributes over concatenation |
| JsValues.FlatOfShallow | modules/ens-collections/src/utils.js:108 | after one `flat()` of an array nested at most two deep, no element is an array |
| JsValues.Compact | modules/ens-collections/src/utils.js:150-151 | `filter(Boolean)`: every kept element is truthy and was in the input, and every truthy input element is kept; order and repetitions are fixed by `CompactSingleton` and `CompactAppend` |
| JsValues.CompactSingleton | modules/ens-collections/src/utils.js:151 | one element is kept exactly when it is truthy |
| JsValues.CompactAppend | modules/ens-collections/src/utils.js:151 | filtering works element by element (it distributes over concatenation), so the truthy elements keep their order and their repetitions |
| JsStrings.SplitOnJoin | modules/ens-collections/src/utils.js:123-125 | splitting on a character undoes joining with it when no piece contains it |
| JsStrings.SplitOnCount | modules/ens-collections/src/utils.js:123 | `split(d)` gives one more piece than there are `d`s |
| JsStrings.SplitRunsContent | modules/ens-collections/src/utils.js:144 | splitting on separator runs keeps every other character, in order |
| JsStrings.SplitRunsLayout | modules/ens-collections/src/utils.js:144 | splitting a text laid out as non-empty separator-free pieces with non-empty separator runs between them, and optional separator runs before and after, gives exactly those pieces, plus one empty piece for a leading and one for a trailing run |
| JsStrings.SplitRunsAllSep | modules/ens-collections/src/utils.js:144 | a non-empty text of separators only splits into two empty pieces |
| JsStrings.JoinAsInterleave | modules/ens-collections/src/utils.js:125 | `ps.join(sep)` is the layout of the pieces with a copy of `sep` between each two |
| JsStrings.TrimIdempotent | modules/ens-collections/src/utils.js:146 | trimming twice trims nothing more |
| JsStrings.TrimmedEnds | modules/ens-collections/src/utils.js:146 | a trimmed string neither starts nor ends with white space |
| JsStrings.RepeatExcludes | modules/formidable-mini/benchmark/bench-multipart-files-100mb-big.js:15 | a run of one repeated character contains no string that has another character |
| JsStrings.SplitOn | modules/ens-collections/src/utils.js:123 | `s.split(d)` for a one-character `d`: at least one piece, no piece contains `d`, and no piece holds a character that is not in `s`; `SplitOnJoin` and `SplitOnCount` pin down the pieces |
| JsStrings.SplitRuns | modules/ens-collections/src/utils.js:144 | `s.split(/[…]+/)`: at least one piece and no piece contains a separator; `SplitRunsContent` shows no other character is lost or reordered, and `SplitRunsLayout` gives the exact pieces of any text |
| JsStrings.Join | modules/ens-collections/src/utils.js:125 | `ps.join(sep)`; `SplitOnJoin` proves that splitting on a character undoes it, `JoinAsInterleave` relates it to the layouts of `SplitRunsLayout` |
| JsStrings.Trim | modules/ens-collections/src/utils.js:146 | `s.trim()`; `TrimmedEnds` and `TrimIdempotent` state what it leaves |
| JsStrings.ToLowerCase | modules/ens-collections/src/utils.js:130 | `s.toLowerCase()` keeps the length, lower-cases each character, leaves no upper-case letter, and changes nothing in a text without one |
| NameLists.SplitNames | modules/ens-collections/src/utils.js:144-146 | every name split from a string is non-empty and holds no comma or white space; `SplitNamesLayout` gives the exact names |
| NameLists.GetListOfNames | modules/ens-collections/src/utils.js:140-147 | a falsy value gives `[]`; an array gives its flattening; a string gives names that are non-empty and free of commas and white space; any other value throws; `GetListOfNamesRoundTrip` gives the exact names of a string |
| NameLists.SplitNamesContent | modules/ens-collections/src/utils.js:144-146 | the names, concatenated, are the input without its commas and white space: no other character is lost, added or reordered (where the cuts fall is `SplitNamesLayout`) |
| NameLists.GetListOfNamesRoundTrip | modules/ens-collections/src/utils.js:140-147 | a string of names separated by runs of commas and white space, with or without such runs at either end, is read back as exactly those names, in order; no names at all gives `[]` |
| NameLists.GetListOfNamesJoin | modules/ens-collections/src/utils.js:140-147 | in particular `names.join(d)`, for any one comma or white-space character `d`, is read back as exactly the names |
| NameLists.SplitNamesLayout | modules/ens-collections/src/utils.js:144-146 | splitting such a string gives exactly its names: none lost, cut, merged, repeated or reordered |
| NameLists.SplitNamesOfSeparators | modules/ens-collections/src/utils.js:144-146 | a string of commas and white space only holds no name |
| NameLists.DropEmpty | modules/ens-collections/src/utils.js:146 | `filter(Boolean)` on strings: every kept string is non-empty and was in the input, and no character is lost; `DropEmptySingleton` and `DropEmptyAppend` fix which strings are kept and in what order |
| NameLists.DropEmptySingleton | modules/ens-collections/src/utils.js:146 | one string is kept exactly when it is non-empty |
| NameLists.DropEmptyAppend | modules/ens-collections/src/utils.js:146 | filtering works string by string (it distributes over concatenation), so the non-empty strings keep their order and repetitions |
| NameLists.DropEmptyOfNonEmpty | modules/ens-collections/src/utils.js:146 | a list without empty strings is kept whole |
| NameLists.DropEmptyFramed | modules/ens-collections/src/utils.js:144-146 | the empty pieces a leading and a trailing separator run produce are dropped and nothing else is |
| NameLists.CsvName | modules/ens-collections/src/utils.js:17-25 | the name one CSV line contributes: its first comma field, trimmed, or none for the header; `RowName` states it for well-formed lines |
| NameLists.GetNamesFromCSV | modules/ens-collections/src/utils.js:14-27 | `getNamesFromCSV(str)`; `GetNamesFromCSVShape` bounds every name it returns, `GetNamesFromCSVLines` reduces any text of white-space-free lines to its lines, and `GetNamesFromCSVRoundTrip` gives the exact names of an export with one column or several |
| NameLists.GetNamesFromCSVShape | modules/ens-collections/src/utils.js:14-27 | every name read from CSV is non-empty, free of commas and white space, and is not the header `name` |
| NameLists.RowName | modules/ens-collections/src/utils.js:18-24 | of a well-formed line the reader takes the first comma field, the whole line when it has no comma, and drops the header line |
| NameLists.NamesOfRowLines | modules/ens-collections/src/utils.js:17-26 | the names read from lines are the rows' name columns, in order, without empty names and headers |
| NameLists.GetNamesFromCSVRoundTrip | modules/ens-collections/src/utils.js:14-27 | records of one column or several, separated by any runs of white space (`\n`, `\r\n`, blank lines), with or without white space at either end, are read back as the rows' name columns, in order, without empty names and the header |
| NameLists.GetNamesFromCSVLines | modules/ens-collections/src/utils.js:14-27 | any non-empty lines without white space, separated by white-space runs and possibly led and trailed by them, give exactly the names those lines give, line by line |
| NameLists.CsvNameOfBareLine | modules/ens-collections/src/utils.js:18-24 | a line without comma or white space is returned whole, unless it is the header word `name` |
| NameLists.OneColumnExport | modules/ens-collections/src/utils.js:14-27 | the one-column export `"name\nalice\nbob"` gives `["alice", "bob"]` |
| NameLists.NamesOfBlankText | modules/ens-collections/src/utils.js:14-27 | a text of white space only gives no name |
| NameLists.GetNamesFromCSVJoin | modules/ens-collections/src/utils.js:14-27 | in particular records joined by `\n` are read back that way |
| NameLists.NamesOfLines | modules/ens-collections/src/utils.js:17-26 | `.map(…).filter(Boolean)` over the lines: at most one name per line, none empty; `NamesOfLinesAppend` and `NamesOfRowLines` fix which |
| NameLists.NamesOfLinesAppend | modules/ens-collections/src/utils.js:17-26 | reading names works line by line (it distributes over concatenation) |
| NameLists.NamesOfEmptyLine | modules/ens-collections/src/utils.js:17-26 | an empty line, as a leading or trailing white-space run produces, contributes no name |
| NameLists.Arrayify | modules/ens-collections/src/utils.js:105-111 | a falsy value gives `[]`, an array its flattening, anything else a one-element list |
| NameLists.ArrayifyIdempotent | modules/ens-collections/src/utils.js:105-111 | arrayifying the result again changes nothing when arrays nest at most two deep |
| NameLists.ArrayifyConcat | modules/ens-collections/src/utils.js:105-111 | arrayifying a list of two arrays concatenates them |
| Casing.RunIsMaximal | modules/ens-collections/src/utils.js:115-119 | a run of a character class, as a greedy quantifier matches it, is maximal |
| Casing.SpaceAcronymDigits | modules/ens-collections/src/utils.js:115 | the first global `replace` as a left-to-right scan; `SpaceAcronymDigitsInserts` states that it only inserts spaces |
| Casing.SpaceLowerAcronym | modules/ens-collections/src/utils.js:116 | the second global `replace`; `SpaceLowerAcronymInserts` states that it only inserts spaces |
| Casing.SpaceLowerUpper | modules/ens-collections/src/utils.js:118 | the third global `replace`; `SpaceLowerUpperInserts` states that it only inserts spaces |
| Casing.SpaceAcronymWord | modules/ens-collections/src/utils.js:119 | the fourth global `replace`; `SpaceAcronymWordInserts` states that it only inserts spaces |
| Casing.Decamelize | modules/ens-collections/src/utils.js:113-120 | `decamelize(str)`, the four replacements in order; `DecamelizeInsertsSpaces` and `DecamelizeNoUpper` state what it does |
| Casing.AcronymDigitsAtInserts | modules/ens-collections/src/utils.js:115 | one step of `/([A-Z]{2,})(\d+)/g` only inserts spaces |
| Casing.LowerAcronymAtInserts | modules/ens-collections/src/utils.js:116 | one step of `/([\da-z]+)([A-Z]{2,})/g` only inserts spaces |
| Casing.LowerUpperAtInserts | modules/ens-collections/src/utils.js:118 | one step of `/([\da-z])([A-Z])/g` only inserts spaces |
| Casing.AcronymWordAtInserts | modules/ens-collections/src/utils.js:119 | one step of `/([A-Z]+)([A-Z][\da-z]+)/g` only inserts spaces |
| Casing.AcronymDigitsAt | modules/ens-collections/src/utils.js:115 | one match attempt of `/([A-Z]{2,})(\d+)/g` at a position: it always advances; `AcronymDigitsAtBoundary` states what it writes |
| Casing.LowerAcronymAt | modules/ens-collections/src/utils.js:116 | one match attempt of `/([\da-z]+)([A-Z]{2,})/g`: it always advances; `LowerAcronymAtBoundary` states what it writes |
| Casing.LowerUpperAt | modules/ens-collections/src/utils.js:118 | one match attempt of `/([\da-z])([A-Z])/g`: it always advances; `LowerUpperAtBoundary` states what it writes |
| Casing.AcronymWordAt | modules/ens-collections/src/utils.js:119 | one match attempt of `/([A-Z]+)([A-Z][\da-z]+)/g`: it always advances; `AcronymWordAtBoundary` states what it writes |
| Casing.AcronymDigitsAtBoundary | modules/ens-collections/src/utils.js:115 | a step copies its text, or writes it with one space between two or more capitals and the digit after them |
| Casing.LowerAcronymAtBoundary | modules/ens-collections/src/utils.js:116 | a step copies its text, or writes it with one space between a lower-case letter or digit and two capitals after it |
| Casing.LowerUpperAtBoundary | modules/ens-collections/src/utils.js:118 | a step copies its character, or writes a lower-case letter or digit and the capital after it with a space between them |
| Casing.AcronymWordAtBoundary | modules/ens-collections/src/utils.js:119 | a step copies its text, or writes it with one space between two capitals of which the second is followed by a lower-case letter or digit |
| Casing.KeepCopies | modules/ens-collections/src/utils.js:115-119 | without a match a step copies one character and moves on by one |
| Casing.Capitalize | modules/ens-collections/src/utils.js:125 | `p.slice(0, 1).toUpperCase() + p.slice(1)`: the same length, the first character upper-cased (a capital when it was a lower-case letter), the rest unchanged |
| Casing.CapitalizeLowered | modules/ens-collections/src/utils.js:125 | lower-casing a capitalised lower-case word gives the word back |
| Casing.SpaceAcronymDigitsInserts | modules/ens-collections/src/utils.js:115 | the whole first `replace` only inserts spaces |
| Casing.SpaceLowerAcronymInserts | modules/ens-collections/src/utils.js:116 | the whole second `replace` only inserts spaces |
| Casing.SpaceLowerUpperInserts | modules/ens-collections/src/utils.js:118 | the whole third `replace` only inserts spaces |
| Casing.SpaceAcronymWordInserts | modules/ens-collections/src/utils.js:119 | the whole fourth `replace` only inserts spaces |
| Casing.SpacesInsertedTrans | modules/ens-collections/src/utils.js:114-119 | inserting spaces in two passes is inserting spaces |
| Casing.SpacesInsertedWithout | modules/ens-collections/src/utils.js:114-119 | deleting the spaces undoes any insertion of spaces |
| Casing.DecamelizeInsertsSpaces | modules/ens-collections/src/utils.js:113-120 | `decamelize` only inserts spaces: the result is no shorter, and deleting spaces from both gives the same string |
| Casing.DecamelizeNoUpper | modules/ens-collections/src/utils.js:113-120 | a string without upper-case ASCII letters comes back unchanged |
| Casing.RunStarts | modules/ens-collections/src/utils.js:131 | the number of maximal runs of `[^\da-z]`, counted at the character that starts each run, used by the contract of `HyphenateRuns` |
| Casing.HyphenateRuns | modules/ens-collections/src/utils.js:131 | `replace(/[^\da-z]+/g, '-')`: the result holds only `[0-9a-z-]` and never `--`; deleting its `-` gives exactly the input's letters and digits, in order; it has one `-` per maximal run of other characters (`RunStarts`) |
| Casing.Slugify | modules/ens-collections/src/utils.js:128-132 | a slug holds only `0-9`, `a-z` and `-`, and never two `-` in a row |
| Casing.SlugifyFixed | modules/ens-collections/src/utils.js:128-132 | a slug is its own slug |
| Casing.SlugifyIdempotent | modules/ens-collections/src/utils.js:128-132 | slugifying twice is slugifying once |
| Casing.SlugifyTrim | modules/ens-collections/src/utils.js:129 | trimming first makes no difference |
| Casing.Namify | modules/ens-collections/src/utils.js:122-126 | `namify(str)`; `NamifyIsScan`, `NamifyAt`, `NamifyShape` and `NamifyWords` state what it returns |
| Casing.NamifyIsScan | modules/ens-collections/src/utils.js:122-126 | `namify` agrees with a character-by-character scan |
| Casing.NamifyShape | modules/ens-collections/src/utils.js:122-126 | `namify` keeps the length, leaves no `-`, and makes one space per `-` |
| Casing.NamifyWords | modules/ens-collections/src/utils.js:122-126 | for a string without spaces (every slug, as at line 238) the words of the result are the `-`-separated segments, first letter upper-cased, one more than there are `-` |
| Casing.NamifyAt | modules/ens-collections/src/utils.js:123-125 | each `-` becomes a space; the first character, and each one after a `-`, is upper-cased; every other character is copied |
| Objects.ToMapKeys | modules/ens-collections/src/utils.js:167 | the dictionary view has exactly the object's keys |
| Objects.Assign | modules/ens-collections/src/utils.js:167 | assigning an existing key keeps the key order; a new key is appended |
| Objects.AssignMap | modules/ens-collections/src/utils.js:167 | `obj[k] = v` updates the dictionary at `k` and nowhere else |
| Objects.AssignUnique | modules/ens-collections/src/utils.js:167 | assignment never makes a key occur twice |
| Objects.ToMapAt | modules/ens-collections/src/utils.js:167 | in an object the dictionary maps each key to its entry's value |
| Objects.ToMap | modules/ens-collections/src/utils.js:60 | the dictionary an entry list stands for, a later entry winning; `ToMapKeys`, `ToMapAt` and `AssignMap` state it |
| Objects.LexTransitive | modules/ens-collections/src/utils.js:60 | the string order `sort()` uses is transitive |
| Objects.LexTotal | modules/ens-collections/src/utils.js:60 | two different strings are ordered one way or the other |
| Objects.LexLess | modules/ens-collections/src/utils.js:60 | `a < b` on strings; `LexTransitive` and `LexTotal` make it a strict total order |
| Objects.SortObject | modules/ens-collections/src/utils.js:59-61 | the sorted entries are a permutation of the entries |
| Objects.InsertSorted | modules/ens-collections/src/utils.js:60 | inserting a new key into a sorted list keeps it sorted |
| Objects.SortObjectSorted | modules/ens-collections/src/utils.js:59-61 | the entries of an object come out in strictly increasing key order |
| Objects.SortedUnique | modules/ens-collections/src/utils.js:60 | a strictly sorted list is determined by its elements |
| Objects.SortObjectMap | modules/ens-collections/src/utils.js:59-61 | sorting keeps every key/value pair: the same dictionary, in key order |
| Objects.SortObjectCanonical | modules/ens-collections/src/utils.js:59-61 | any strictly sorted arrangement of the entries is the one `sortObject` gives |
| Objects.SortObjectIdempotent | modules/ens-collections/src/utils.js:59-61 | sorting a sorted object changes nothing |
| Objects.EntryTextOrder | modules/ens-collections/src/utils.js:60 | for keys whose characters all sort after `,`, comparing `[key, value]` entries by their text `key,value` is comparing their keys |
| Objects.SortObjectTextOrder | modules/ens-collections/src/utils.js:60 | for such keys the model's order is also increasing in entry text, the order `sort()` produces |
| Tokens.StripEth | modules/ens-collections/src/utils.js:33 | removing the `.eth` suffix leaves a prefix of the name |
| Tokens.GetTokenInfo | modules/ens-collections/src/utils.js:29-57 | a falsy name throws the empty-name TypeError, a non-string throws; otherwise the lookup succeeds exactly when both IDNA conversions do, failing with the first conversion's error; the token's name ends in `.eth` and strips to the same name, `labelText` and `ascii` are the conversions of the stripped name, `hash` is keccak-256 of `labelText` and `id` its decimal form |
| Tokens.EthRoundTrip | modules/ens-collections/src/utils.js:33-52 | appending `.eth` and stripping it gives the name back |
| Tokens.TokenName | modules/ens-collections/src/utils.js:33-52 | the token name is the input with `.eth` appended unless it already ends with it |
| Tokens.EthSuffixOptional | modules/ens-collections/src/utils.js:33 | looking up `x` and `x.eth` gives the same result |
| Tokens.EmptyNameIsFatal | modules/ens-collections/src/utils.js:30-31 | the empty-name error is not an invalid-character error |
| Tokens.NotAStringIsFatal | modules/ens-collections/src/utils.js:33 | the error for a non-string name is not an invalid-character error |
| Tokens.TokensOf | modules/ens-collections/src/utils.js:11 | mapping lookups succeeds exactly when every lookup does, with one token per name in order; otherwise it fails with the first failing name's error |
| Tokens.GetTokens | modules/ens-collections/src/utils.js:10-12 | a falsy input gives no tokens; if the name list cannot be read its error is the result; otherwise the result is `TokensOf` the listed names: one lookup per name, in order, or the first failing lookup's error |
| Tokens.GetTokensRejectsFalsy | modules/ens-collections/src/utils.js:10-12 | a falsy entry in an array makes `getTokens` throw |
| Collections.OptTrim | modules/ens-collections/src/utils.js:232-240 | `?.trim()` trims a present string and leaves an absent one absent |
| Collections.SlugOf | modules/ens-collections/src/utils.js:233-237 | the slug is always a valid slug: the trimmed `slug` slugified if there is one, else the trimmed `name`, else the empty string |
| Collections.NormalizeCollection | modules/ens-collections/src/utils.js:227-248 | the successive updates of the copied record produce `Normalized(project)` |
| Collections.Normalized | modules/ens-collections/src/utils.js:227-248 | what `normalizeCollection` returns; `NormalizedShape`, `NormalizedName`, `NormalizedDescription` and `NormalizeStable` state it |
| Collections.NormalizedShape | modules/ens-collections/src/utils.js:231-245 | the result is unverified and has a name; the slug is a valid slug; the supply is the given one or else the number of labels; links and community are arrays; `data` has the same label/id pairs, sorted by label |
| Collections.NormalizedName | modules/ens-collections/src/utils.js:232-238 | a given name is kept, trimmed; without one, the name made from the slug has a space exactly where the slug has a `-` |
| Collections.NormalizedDescription | modules/ens-collections/src/utils.js:239-240 | the description is the non-empty `desc`, or else `description`, trimmed |
| Collections.SlugOfSlug | modules/ens-collections/src/utils.js:233-237 | a collection whose slug is already a slug keeps it |
| Collections.NamifyTrimmed | modules/ens-collections/src/utils.js:232-238 | the name made from a slug that neither starts nor ends with `-` has nothing to trim |
| Collections.StableName | modules/ens-collections/src/utils.js:232-238 | a second normalisation keeps the name, when there was a name or the slug has no `-` at either end |
| Collections.StableSlug | modules/ens-collections/src/utils.js:233-237 | a second normalisation keeps the slug |
| Collections.StableDescription | modules/ens-collections/src/utils.js:239-240 | a second normalisation keeps the description |
| Collections.StableArrays | modules/ens-collections/src/utils.js:241-242 | a second normalisation keeps links and community |
| Collections.NormalizeStable | modules/ens-collections/src/utils.js:227-248 | normalising a normalised collection changes nothing, under the conditions above |
| Collections.Reducer | modules/ens-collections/src/utils.js:153-171 | one reducer call throws exactly when the lookup fails with an error other than an invalid character |
| Collections.Reduce | modules/ens-collections/src/utils.js:152-173 | `.reduce(reducer, init)` from the left, an exception ending it; `ReduceMeaning` and `ReduceErrSticky` state what it computes |
| Collections.NamesOf | modules/ens-collections/src/utils.js:150-151 | `getListOfNames(names).filter(Boolean)`; the `Compact` lemmas state what the filter keeps |
| Collections.ReduceErrSticky | modules/ens-collections/src/utils.js:152-173 | once the reduction has thrown, the rest of the names change nothing |
| Collections.ReduceNames | modules/ens-collections/src/utils.js:152-173 | the loop over the names computes the left fold `Reduce` |
| Collections.GenerateCollection | modules/ens-collections/src/utils.js:149-176 | reading the names, reducing them and normalising the result produces `Generated(info, names)` |
| Collections.Generated | modules/ens-collections/src/utils.js:149-176 | what `generateCollection` resolves to or rejects with; `GeneratedShape` and `GeneratedErr` state it |
| Collections.FirstFatal | modules/ens-collections/src/utils.js:156-165 | the first error that is not skipped is the error of some name |
| Collections.ReduceMeaning | modules/ens-collections/src/utils.js:152-173 | the reduction throws exactly when some lookup fails with an error other than an invalid character, and with the first such error; otherwise the supply counts every successful lookup, duplicates included, and `data` maps each label to the id of its last lookup with no label twice |
| Collections.GeneratedShape | modules/ens-collections/src/utils.js:149-176 | a generated collection has supply = number of names looked up successfully, whatever supply `info` gave; its `data` maps each label to its last token id, sorted by label; it is unverified |
| Collections.GeneratedErr | modules/ens-collections/src/utils.js:149-176 | generation fails exactly when the name list cannot be read or a lookup fails with an error other than an invalid character, and then with the first such error |
| Collections.NonStringRejected | modules/ens-collections/src/utils.js:150-165 | a truthy non-string entry in a names array makes generation fail |
| Collections.DuplicateCounted | modules/ens-collections/src/utils.js:167-168 | a name listed twice is counted twice and stored once |
| MultipartBody.Decimal | modules/formidable-mini/benchmark/bench-multipart-files-100mb-big.js:11-12 | a numeral is a non-empty string of digits |
| MultipartBody.DecimalRoundTrip | modules/formidable-mini/benchmark/bench-multipart-files-100mb-big.js:11-12 | reading a numeral back gives the number |
| MultipartBody.PartBuffer | modules/formidable-mini/benchmark/bench-multipart-files-100mb-big.js:9-17 | the part at index `i` with `n` payload bytes; `PartLayout`, `PartFraming`, `DispositionNames` and `PayloadRoundTrip` state its layout |
| MultipartBody.CloseBuffer | modules/formidable-mini/benchmark/bench-multipart-files-100mb-big.js:21 | the closing buffer; `CloseLayout` states it |
| MultipartBody.CreateMultipartBuffers | modules/formidable-mini/benchmark/bench-multipart-files-100mb-big.js:3-23 | one buffer per size, in the order of `sizes`, each the part for that index and size × unit bytes, and then the closing buffer |
| MultipartBody.PartLayout | modules/formidable-mini/benchmark/bench-multipart-files-100mb-big.js:9-17 | a part is its header block, then size × unit `'0'` characters, then CRLF |
| MultipartBody.HeaderLayout | modules/formidable-mini/benchmark/bench-multipart-files-100mb-big.js:10-17 | the header block is `--boundary` CRLF, the content-disposition line, CRLF, the content-type line, CRLF CRLF |
| MultipartBody.PartFraming | modules/formidable-mini/benchmark/bench-multipart-files-100mb-big.js:10-17 | a part begins with `--boundary` CRLF, and CRLF CRLF comes right before its payload |
| MultipartBody.DispositionNames | modules/formidable-mini/benchmark/bench-multipart-files-100mb-big.js:11-12 | the content-disposition line of part `i` names the field `file{i+1}` and the file `random{i+1}.bin` |
| MultipartBody.FieldNamesDistinct | modules/formidable-mini/benchmark/bench-multipart-files-100mb-big.js:11 | different parts have different field names |
| MultipartBody.DispositionsDistinct | modules/formidable-mini/benchmark/bench-multipart-files-100mb-big.js:11-12 | different parts have different content-disposition lines |
| MultipartBody.PayloadRoundTrip | modules/formidable-mini/benchmark/bench-multipart-files-100mb-big.js:6-17 | the payload cut out of a part is exactly its `n` `'0'` characters, so each part's size can be read back |
| MultipartBody.CloseLayout | modules/formidable-mini/benchmark/bench-multipart-files-100mb-big.js:21 | the closing buffer is `--boundary--` CRLF |
| MultipartBody.BodyLayout | modules/formidable-mini/benchmark/bench-multipart-files-100mb-big.js:3-23 | in the returned buffers every part has size × unit payload bytes that read back as `'0'`s, and the last buffer is the close delimiter |
| MultipartBody.BoundaryNotInPayload | modules/formidable-mini/benchmark/bench-multipart-files-100mb-big.js:15 | no payload contains the delimiter `--boundary`; it contains the bare boundary only if that is all `'0'` |
| MultipartBody.BenchBoundaryNotInPayload | modules/formidable-mini/benchmark/bench-multipart-files-100mb-big.js:15-25 | the benchmark's boundary (29 `-` and a timestamp) never occurs in a payload |

## Left out

- Filesystem and asynchronous helpers of `utils.js` (`readJSON`, `getCollectionsPath`, `getCollections`, `writeCollection`, `getCollection`, `verifyCollection`, `addLinkToCollection`, `addCommunityToCollection`) are I/O. `bin.js` only prints results.
- The `console.log` call for a skipped name is output only. The promise that `generateCollection` returns is its `Result`.
- Tokens.GetTokenInfo: `uts46.toUnicode`, `uts46.toAscii`, keccak-256 over UTF-8 bytes and `BigNumber.from(hash).toString()` are foreign library calls. They are parameters of type `Idna`, so nothing is proved about labels, hashes or ids beyond how they are passed through.
- Objects.SortObject: JavaScript enumerates integer-like keys (canonical array indices) first, in numeric order. The model keeps insertion order, so the key order `JSON.stringify` writes for numeric labels is not modelled.
- Objects.SortObject: `sort()` compares `String([key, value])` in UTF-16 code units. The model sorts by key in code-point order. `EntryTextOrder` proves the two agree when keys have no character at or below `,`. They can differ for characters beyond U+FFFF.
- Casing.Slugify: `toUpperCase` and `toLowerCase` are modelled for ASCII letters only.
- Casing.Namify: likewise, upper-casing is modelled for ASCII letters only.
- Collections.Info: only the properties the helpers read or write are modelled. Other properties of `info` pass through unchanged in the source and are not represented.
- Collections.Info: string properties are modelled as strings. A property of another type is not represented (a non-string `name` makes the source throw at `trim`). Numbers are integers; NaN and fractions are not represented.
- Collections.ReduceNames: for a label equal to `__proto__`, the assignment at `utils.js`:167 reaches the `Object.prototype.__proto__` setter, which ignores a string value: no property is added and the prototype stays as it was, while `supply` is still incremented at line 168. The model adds the label as an ordinary key.
- Buffers are the strings they are made from. The UTF-8 encoding done by `Buffer.from` is not modelled.
- The benchmark's driver and the MultipartParser are not part of this model. This covers the `switch` over busboy, formidable and multiparty, timing and `process.exit`. The parser that the benchmark feeds the body to is imported from a file that is not part of this model.
- MultipartBody.CreateMultipartBuffers: sizes are natural numbers. A negative size makes `repeat` throw in the source.
