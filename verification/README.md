# A Dafny model of the ecletus/core Go framework

This project models the core of `ecletus/core`, a Go web framework for admin
applications: the pieces that hold plain logic and state. It covers:

- sites and the register that binds sites to hosts and paths;
- the request context: its i18n groups, parent chain, URL building, breadcrumbs, named handlers, proxies and scoped data;
- resources and their processor, events, primary-key conditions and layouts;
- decoding of form fields and JSON into trees of named values;
- the database configuration and the DSN it gives each adapter;
- the dotted-key site configuration;
- permissions, error collections and severities;
- the string, URL and route helpers under `utils/`.

Each Go source file is one Dafny module, named after the file. Go values
become immutable datatypes. Go maps whose iteration order matters become
association lists. A nil value is `Option.None`. An error return is a
`Result`. A Go panic (an index out of range, a nil dereference, a failed type
assertion) becomes a precondition. Callbacks, database access and third-party
libraries become parameters, or event logs that record what was called, in
what order.

Three modules support the rest:

- `Wrappers` holds `Option` and `Result`.
- `Text` holds ASCII versions of the `strings` and `strconv` functions the code calls.
- `Sorting` holds sorting by a caller-given order.

`Path` models Go's `path.Clean` and `path.Join`. `UrlValues` models
`url.Values` and `url.QueryEscape`. The modelled code depends on all four.

## Model

| member | source | states |
|---|---|---|
| Collections.Tuples | utils/collections.go:7-14 | an even number of arguments gives half as many pairs, each of two elements |
| Collections.TuplesAt | utils/collections.go:7-14 | pair i holds arguments 2i and 2i+1 |
| Collections.FlattenTuples | utils/collections.go:7-14 | flattening the pairs gives back the arguments in order |
| Collections.TuplesIndex | utils/collections.go:16-21 | one pair per argument: the argument, tagged with its position as a decimal string that reads back to that position |
| StrTrim.TrimSpaceOfStrings | utils/str/trim.go:5-10 | the length is kept, and element i is the space-trimmed input element i |
| StrTrim.TrimSpaceOfStringsIdempotent | utils/str/trim.go:5-10 | trimming twice is the same as trimming once |
| StrTrim.NotEmpties | utils/str/trim.go:12-22 | the result is the non-empty input strings: no result is empty, and a string is in the result iff it is a non-empty input string |
| StrTrim.NotEmptiesIsFilter | utils/str/trim.go:18-20 | handing back the input itself when nothing was dropped is the same as filtering it |
| StrTrim.NotEmptiesUnchanged | utils/str/trim.go:12-22 | the input comes back unchanged iff it holds no empty string |
| StrTrim.NotEmptiesAppend | utils/str/trim.go:12-22 | filtering keeps order: it distributes over concatenation |
| Uri.Join | utils/uri/uri.go:5-24 | one part is returned as it is; several parts start with the first part minus its trailing slash |
| Uri.JoinTwo | utils/uri/uri.go:5-24 | two parts are joined by exactly one slash, whether each brought its own slash or not |
| Uri.JoinPlain | utils/uri/uri.go:5-24 | with non-empty, slash-free rest parts, `Join` is plain joining with `/` |
| Uri.JoinEmptyRest | utils/uri/uri.go:16-22 | an empty or `/` second part adds nothing, while `//` still adds a slash |
| Uri.Clean | utils/uri/uri.go:26-33 | no result is empty, and a part is kept iff it is a non-empty input part |
| Uri.CleanAppend | utils/uri/uri.go:26-33 | cleaning distributes over concatenation, so order is kept |
| Uri.CleanIdempotent | utils/uri/uri.go:26-33 | cleaning a cleaned list changes nothing |
| FormKey.IndexValue | utils/formkey.go:43-55 | bracketed digits give an index iff their value fits in 64 bits and, when leading zeros are trimmed, is not zero; the index is their decimal value |
| FormKey.Close | utils/formkey.go:33-59 | on `]`, empty brackets are the append index -1, non-digit text is a name, and digits are an index or a malformed-index error |
| FormKey.StepKeepsInv | utils/formkey.go:20-72 | one character keeps the scanner invariant, and any error it raises points at a `[`, `]` or `.` of the key, or at a malformed index |
| FormKey.Scan | utils/formkey.go:20-72 | the loop ends in a state satisfying the invariant, or with an error that the key justifies |
| FormKey.Finish | utils/formkey.go:74-81 | after the loop, success holds exactly when no index is open; the pending name is appended, and an open index reports the position of its `[` |
| FormKey.Parse | utils/formkey.go:12-82 | a parse yields only well-formed segments (non-empty bracket-free names, indices from -1 to the 64-bit maximum), or an error the key justifies |
| FormKey.ParseFormKeyAsWritten | utils/formkey.go:12-82 | the parser as written, with zeros trimmed before `Atoi`: well-formed segments or a justified error |
| FormKey.ParseFormKey | utils/formkey.go:12-82 | the corrected parser, which accepts index 0: well-formed segments or a justified error |
| FormKey.ScanAgree | utils/formkey.go:50-54 | the scans with and without the zero rule differ only when the written one rejects an all-zero index |
| FormKey.ParseAgree | utils/formkey.go:50-54 | the written and corrected parsers agree on every key except where the written one reports a malformed all-zero index |
| FormKey.RenderParse | utils/formkey.go:12-82 | parsing the canonical rendering `name[i][x]...` of any path gives the path back |
| FormKey.RenderParseAsWritten | utils/formkey.go:12-82 | the written parser gives a rendered path back whenever the path has no index 0 |
| FormKey.RenderParseWith | utils/formkey.go:12-82 | the round trip for either zero rule, given no index 0 under the trimming rule |
| FormKey.DotAfterBracket | utils/formkey.go:60-69 | a `.` right after `]` is skipped without effect |
| FormKey.NameAfterBracket | utils/formkey.go:56-71 | a name written after a closing bracket, with or without a dot, becomes one more named segment |
| FormKey.ZeroIndexRefused | utils/formkey.go:50-54 | `a[0]` is refused by the parser as written and parsed as name `a`, index 0 by the corrected one |
| FormKey.ExampleDotName | utils/formkey_test.go:14 | `a[1][x].v` parses to `a`, 1, `x`, `v` |
| FormKey.ExampleNameAfterIndex | utils/formkey_test.go:15 | `a[1][x]v` parses to `a`, 1, `x`, `v` |
| FormKey.ExampleLeadingZeros | utils/formkey_test.go:16 | `a[001][x]v` reads index 1 |
| FormKey.ExampleNestedOpen | utils/formkey_test.go:17 | `a[1[x]v` fails with an unexpected `[` at position 3 |
| FormKey.ExampleUnclosed | utils/formkey_test.go:18 | `a[1][x.v` fails with the index opened at position 4 never closed |
| FormKey.ExampleStrayClose | utils/formkey_test.go:19 | `a1][x.v` fails with an unexpected `]` at position 2 |
| FormKey.ExampleDottedIndex | utils/formkey_test.go:20 | a bracketed name may hold dots: `a[1][x.v]` ends in the name `x.v` |
| FormKey.ExampleTwoIndices | utils/formkey_test.go:21 | consecutive indices are kept: `a[1][2][x.v]` |
| FormKey.ExampleAppendIndex | utils/formkey_test.go:22 | empty brackets are index -1: `a[1][][x.v]` |
| FormKey.ExampleAppendFirst | utils/formkey_test.go:23 | empty brackets right after the name are index -1: `a[][x.v]` |
| Utils.NamifyMatchesRef | utils/utils.go:58-77 | the contract of `NamifyString`: it equals an independent description: every `_` and `-` is deleted, and every other character is kept, upper-cased when it starts the string or follows `_`, `-` or `!` |
| Utils.NamifyShape | utils/utils.go:58-77 | the result is one character shorter per `_` or `-` in the input and holds neither |
| Utils.NamifyAppend | utils/utils.go:62-75 | the naming loop over a concatenation is the loop over each part, with the flag carried across |
| Utils.NamifyWord | utils/utils.go:62-75 | a word without `_`, `-` or `!` comes out unchanged, with its first letter upper-cased when the flag is set |
| Utils.NamifyTwoWords | utils/utils.go:62-75 | words joined by `_` or `-` come out capitalized and run together |
| Utils.NamifyExample | utils/utils.go:56-57 | `order_item-data` becomes `OrderItemData` |
| Utils.SpacedInserts | utils/utils.go:83-90 | the spacing loop only inserts spaces into the input |
| Utils.Title | utils/utils.go:91 | title-casing keeps the length and upper-cases exactly the characters at the start or after a separator |
| Utils.TitleCharKeepsClass | utils/utils.go:91 | title-casing keeps each character's class and its lower-case form |
| Utils.TitleCaseOnly | utils/utils.go:91 | title-casing changes nothing but letter case, and is idempotent |
| Utils.HumanizeInsertsSpaces | utils/utils.go:81-92 | the contract of `HumanizeString`: it only inserts spaces and changes letter case |
| Utils.SpacedNoUpper | utils/utils.go:84-88 | a string with no upper-case letter gets no spaces |
| Utils.SpacedCopy | utils/utils.go:83-90 | characters with no space due in front of them are copied as they are |
| Utils.HumanizeExample | utils/utils.go:79-80 | `OrderItem` becomes `Order Item` |
| Utils.ParseTagSegment | utils/utils.go:209-215 | a segment's key is the trimmed, upper-cased text before the first `:`; its value is the text after a single `:`, or else the key itself |
| Utils.LookupLast | utils/utils.go:208-216 | a key is found iff some entry has it, and the answer is the value of the last such entry |
| Utils.Settings | utils/utils.go:207-216 | the map holds exactly the keys of the entries, each with the value of its last entry |
| Utils.ParseTagOption | utils/utils.go:205-218 | one setting per key of the `;`-separated segments; a later segment with the same key wins |
| Utils.TagSegmentShapes | utils/utils.go:209-215 | `key:value` sets the trimmed upper-case key to the untrimmed value, and `key` alone sets the key to itself |
| Utils.DigitRun | utils/utils.go:301 | the run of digits from a position is as long as possible |
| Utils.Tokens | utils/utils.go:301-309 | the matches of `\[\d+\]` are bracketed digit runs, each starting at or after the search point, in order and without overlap |
| Utils.OneToken | utils/utils.go:301-309 | a key whose only bracket is a final run of bracketed digits has exactly that one match |
| Utils.NameIndexTokens | utils/utils.go:301-309 | `name[digits]` with a bracket-free name has one match, the bracketed digits |
| Utils.SortFormKeys | utils/utils.go:304-340 | the sorted keys are a permutation of the keys |
| Utils.FormKeyLessIrreflexive | utils/utils.go:305-339 | no key sorts before itself |
| Utils.FormKeyLessPlain | utils/utils.go:311-338 | keys without bracketed numbers compare as plain strings |
| Utils.KeyLessSingle | utils/utils.go:311-338 | with one match each, at the end of each key, and equal prefixes: differing numbers decide, shorter first, and otherwise the whole strings decide |
| Utils.SingleIndexOrder | utils/utils.go:311-338 | `name[da]` sorts before `name[db]` iff `da` is shorter, or as long and less as text |
| Utils.NumericIndexOrder | utils/utils.go:304-340 | bracketed numbers compare by value: `name[m]` sorts before `name[n]` iff m < n |
| Utils.SortExample | utils/utils.go:304-340 | `a[2]` sorts before `a[10]`, and not the other way round |
| Params.Add | utils/params.go:66-77 | adding appends a value carrying its position, bumps the size, records a new key once, extends that key's list, and leaves every other key as it was |
| Params.Get | utils/params.go:50-56 | a key is found iff it was added, and the answer is the last value added under it |
| Params.GetString | utils/params.go:58-64 | the flag is set iff the key was added; a missing key gives `""` |
| Params.Dict | utils/params.go:79-89 | the dictionary has exactly the added keys, each with its values' strings in order |
| Params.GetAfterAdd | utils/params.go:50-77 | after adding, `Get` of that key gives the new value and every other key answers as before |
| Params.DictAddStep | utils/params.go:66-89 | one addition extends the strings of its own key and no other |
| Params.DictReplay | utils/params.go:66-89 | after any sequence of additions, the dictionary maps each key to the values added under it, in order, and holds no other key |
| Params.ReplayPositions | utils/params.go:66-77 | after n additions the size is n and value i records position i |
| Params.Ext | utils/params.go:96 | the extension is empty, or a suffix of the path that starts with its only `.` and has no `/` |
| Params.Run | utils/params.go:27-36 | the scan stops at the first character after the start that fails the test, or at the end |
| Params.ConstraintLength | utils/params.go:124-131 | a `[regexp]` constraint never reaches past the pattern |
| Params.MatchLoop | utils/params.go:105-158 | the matching loop only adds values and keys; every match returns a collection, possibly empty; a nil collection comes only with no match |
| Params.ParamsMatch | utils/params.go:92-159 | an extension is recorded first, without its dot, as `:format`; every match returns a collection, possibly empty; a nil collection comes only with no match |
| Params.LiteralRun | utils/params.go:143-145 | a stretch of pattern without parameters that equals the path is stepped over without effect |
| Params.NoExtension | utils/params.go:96-103 | a path without a dot starts the loop from no values |
| Params.LiteralMatch | utils/params.go:92-159 | a pattern without parameters matches exactly the path it spells, with no values |
| Params.LiteralMismatch | utils/params.go:146-147 | the first literal character that differs from the path fails the match with no values |
| Params.PrefixPattern | utils/params.go:107-110 | a pattern ending in `/` (other than `/`) matches any longer path it prefixes, and reports the prefix as matched |
| Params.PathExhausted | utils/params.go:151-158 | once the path is used up, the match succeeds iff nothing or exactly one `/` is left of the pattern |
| Params.ParamStep | utils/params.go:117-142 | an unconstrained parameter takes the path up to the pattern's next character or `/`, and is recorded as `:name` |
| Params.CaptureSegment | utils/params.go:92-159 | the pattern `:name` matches a single path segment without a dot and records it under `:name` |
| Meta.FirstNonEmpty | utils/meta.go:51-57 | the answer is empty iff every element is, and otherwise it is the first non-empty element |
| Meta.ToArray | utils/meta.go:27-46 | a string list loses exactly its empty strings, and a one-element list is kept unless its string is empty; a generic list keeps every printed element; a string, a string pointer's printed address or any other printed value becomes a singleton unless it is empty |
| Meta.ToArrayAppend | utils/meta.go:29-35 | converting a string list keeps the order and repeats of its non-empty strings: the conversion of a concatenation is the concatenation of the conversions |
| Meta.ToString | utils/meta.go:49-73 | a string is returned as it is, a string pointer gives its target, and a string list gives a non-empty member, or `""` iff every member is empty |
| Meta.ToStringIsFirstOfArray | utils/meta.go:27-73 | for strings and string lists, `ToString` is the head of `ToArray`, or `""` when that is empty |
| Meta.ToInt | utils/meta.go:76-84 | an empty string gives 0; digits give their decimal value, and a leading `-` or `+` negates or keeps the value of the digits after it; any result lies in the signed 64-bit range |
| Meta.SignedRoundTrip | utils/meta.go:76-84 | every signed 64-bit number printed in decimal converts back to itself |
| Meta.ToUint | utils/meta.go:87-95 | an empty string gives 0; otherwise the text is decimal digits and the result is their value, at most the unsigned 64-bit maximum |
| Meta.IntRoundTrip | utils/meta.go:76-95 | a non-negative 64-bit number printed in decimal converts back to itself through both `ToInt` and `ToUint` |
| Str.Merge | utils/str/str.go:13-20 | merging only pushes layers: the old layers stay, unchanged, below the new ones |
| Str.MergePriority | utils/str/str.go:13-34 | after merging, the priority order is the non-nil maps, last one first, followed by the old layers |
| Str.LayerLookup | utils/str/str.go:22-26 | a layer has a value for a key iff one of its pairs names the key |
| Str.Lookup | utils/str/str.go:28-34 | a key is found iff some layer has it |
| Str.GetData | utils/str/str.go:71-75 | a single layer is returned as its own map |
| Str.AddAbsentSpec | utils/str/str.go:78-82 | adding a layer keeps the keys already present and their values, and adds the layer's other keys |
| Str.CollectSpec | utils/str/str.go:76-85 | walking the layers from the top keeps each key's first value |
| Str.GetDataLookup | utils/str/str.go:71-86 | `GetData` holds exactly the keys of some layer, each with the value of the topmost layer holding it |
| Str.Placeholder | utils/str/str.go:39 | a placeholder is the key in braces |
| Str.Format | utils/str/str.go:36-44 | with no layers the text is returned unchanged |
| Str.FormatNoPlaceholder | utils/str/str.go:36-44 | text without `{` is returned unchanged |
| Str.PlaceholderOther | utils/str/str.go:39 | replacing one key's placeholder leaves another key's placeholder alone |
| Str.ReplaceLayerPlaceholder | utils/str/str.go:37-41 | one layer turns a placeholder into its value when it has the key, and leaves it otherwise |
| Str.FormatLayersPlaceholder | utils/str/str.go:37-41 | across the layers, a placeholder becomes the value of the topmost layer holding its key |
| Str.FormatTopWins | utils/str/str.go:36-86 | when values hold no placeholders, `Format` turns `{key}` into the value `GetData` gives the key, and leaves it when no layer has the key |
| Url.Printed | utils/url/url.go:37-46 | a text argument prints as itself and a flag as `true` or `false` |
| Url.Toggle | utils/url/url.go:50-69 | a value already present is removed, every occurrence, with the rest kept; an absent value is appended |
| Url.Remove | utils/url/url.go:55-61 | removing keeps exactly the other values, never adding any |
| Url.RemoveAbsent | utils/url/url.go:55-61 | removing an absent value changes nothing |
| Url.RemoveLast | utils/url/url.go:55-61 | removing a value just appended to a list without it gives the list back |
| Url.PatchStep | utils/url/url.go:36-78 | one pair touches only its own key (the key without its `~` for a toggle); every other key keeps its values |
| Url.PatchQuery | utils/url/url.go:34-79 | fewer than two arguments leave the query as it is |
| Url.PatchUrl | utils/url/url.go:28-84 | patching changes only the query, never the path or the rest of the URL |
| Url.PatchPlain | utils/url/url.go:73-77 | a plain key with a non-empty value holds just that value afterwards, even when it held the same value before; an empty value deletes the key |
| Url.PatchFlag | utils/url/url.go:39-44 | a true flag sets the key to one empty value, and a false flag deletes it |
| Url.ToggleTwice | utils/url/url.go:48-72 | toggling a value in twice gives the query back |
| Url.UnpairedIgnored | utils/url/url.go:35 | a trailing argument without a partner changes nothing |
| Url.ToggleExamples | utils/url/url.go:23-27 | the documented toggles: `~a[]` adds `b`, then adds `c`, then removing `c` leaves `b`; `key`,`value` sets the key |
| Url.Segments | utils/url/url.go:100-126 | the segments start with the path, or the raw path when there is one, and add at most one per argument |
| Url.JoinUrl | utils/url/url.go:89-140 | the query is rebuilt iff some parameter argument is given, and the path is the joined segments, with a `/` added iff the concatenated segments end in one |
| Url.ApplyParamsAppend | utils/url/url.go:105-126 | parameter arguments apply left to right: a concatenation applies its parts in turn |
| Url.ApplyParamsOther | utils/url/url.go:105-126 | arguments that do not name a key leave its values alone |
| Url.LastParamWins | utils/url/url.go:107-112 | the last `Param` naming a key sets all its values, replacing earlier ones and the URL's own |
| Url.OnlySegments | utils/url/url.go:104-126 | the segments are the path followed by every printed non-parameter argument, in order |
| FormTree.Fresh | utils/formtree.go:85-139 | a new leaf item has no subtree and index 0, and holds the values or the files it was added with |
| FormTree.Descend | utils/formtree.go:104-135 | descending reuses an existing item, values and files kept, giving it an empty subtree when it had none; a missing item becomes a new one with an empty subtree |
| FormTree.Add | utils/formtree.go:96-143 | a name touches only the named map: it gains that name and every other name keeps its item; an index touches only the index map; the key list and slice never change |
| FormTree.AddValue | utils/formtree.go:84-88 | adding values never changes the key list |
| FormTree.AddFile | utils/formtree.go:90-94 | adding files never changes the key list |
| FormTree.AddLeafName | utils/formtree.go:137-141 | a name as the last segment installs a fresh item, replacing whatever was there |
| FormTree.AddNestedName | utils/formtree.go:126-136 | a name followed by more segments keeps the existing child's values and files and adds the rest inside its subtree |
| FormTree.AppendIndex | utils/formtree.go:114-121 | a leaf index -1 stores the item under the current size of the index map and keeps every other entry |
| FormTree.AppendIndexOverwrites | utils/formtree.go:117-120 | when the indices are not 0 to size-1, the append lands on an existing index: after `a[1]`, a leaf `a[]` replaces the item at 1 |
| FormTree.MinOf | utils/formtree.go:65 | the minimum of a non-empty set of indices is in the set and below every other member |
| FormTree.SortedKeys | utils/formtree.go:61-65 | the sorted indices are exactly the index set, strictly ascending |
| FormTree.SortTree | utils/formtree.go:57-82 | sorting keeps the maps' keys, fills the slice with one item per index, leaves a tree without indices its slice, and permutes the key list |
| FormTree.SortedIndexed | utils/formtree.go:67-72 | after sorting, the index map holds every old index, with its item sorted |
| FormTree.SortedSlice | utils/formtree.go:60-73 | the slice has one slot per index, and a tree without indices keeps its slice |
| FormTree.SortItem | utils/formtree.go:69-80 | sorting an item keeps its values, files and index, and whether it has a subtree |
| FormTree.SortSliceOrder | utils/formtree.go:66-72 | slot i holds the sorted item of the i-th smallest index, the same item the index map then holds, and the slots are in strictly ascending index order |
| FormTree.SortSliceComplete | utils/formtree.go:66-72 | the sorted item of every index appears in the slice |
| FormTree.Each | utils/formtree.go:145-158 | the slice is visited when it is prioritised or there is no map; otherwise the map; nothing is visited iff both are nil |
| FormTree.AddAll | utils/formtree.go:37-50 | keys are read by the parser as written, which refuses index 0; the build fails iff some key does not parse, with the first such key's error, and never fills the key list |
| FormTree.ValueEntries | utils/formtree.go:37-42 | each form value list becomes one entry, in order |
| FormTree.FileEntries | utils/formtree.go:44-50 | each file list becomes one entry, in order |
| FormTree.NewMultipartFormTree | utils/formtree.go:31-55 | the tree is built from the value keys and then the file keys; a failure is the first key the parser as written refuses |
| FormTree.ZeroKeyRefused | utils/formtree.go:37-40 | a form holding the key `a[0]` is refused with the malformed-index error, since the parser as written refuses index 0 |
| FormTree.BuiltTreeHasNoKeys | utils/formtree.go:22-55 | `add` never fills the key list, so a built tree has no keys |
| CoreErrors.Contribution | errors.go:35-41 | a nil argument contributes nothing and a plain error contributes itself |
| CoreErrors.ExpandAppend | errors.go:34-42 | the arguments are added left to right: expanding a concatenation expands each part in turn |
| CoreErrors.AddError | errors.go:33-47 | the collection grows by the expanded arguments, and the returned error is nil iff the collection is still empty, else the collection |
| CoreErrors.NewErrors | errors.go:17-21 | a new collection holds exactly the expanded arguments |
| CoreErrors.SkipsNil | errors.go:35 | nil arguments, first or last, add nothing |
| CoreErrors.SplicesGroup | errors.go:36-37 | a group is spliced in one level deep: its members are added, not the group |
| CoreErrors.Filter | errors.go:60-68 | every kept error is the non-nil answer of the matcher for some error of the collection, and nothing is added |
| CoreErrors.FilterAppend | errors.go:60-68 | filtering keeps order: it distributes over concatenation |
| CoreErrors.FilterKeepAll | errors.go:60-68 | a matcher that answers every error with itself keeps the collection as it is |
| CoreErrors.Strings | errors.go:71-75 | one text per error, in order |
| CoreErrors.String | errors.go:70-77 | no errors give `""` and one error gives its own text |
| CoreErrors.StringSnoc | errors.go:76 | one more error adds a newline, a dash and its text |
| CoreErrors.ResetKeepsErrors | errors.go:104-106 | `Reset` as written leaves a non-empty collection non-empty |
| CoreErrors.Reset | errors.go:104-106 | the corrected reset leaves no errors |
| ContextErrors.FormattedAsWritten | context_errors.go:12-37 | the loop as written gives at most one entry per error, each with exactly one message |
| ContextErrors.CaptionsSeen | context_errors.go:19-35 | an entry with a label exists iff some error has that label |
| ContextErrors.AsWrittenKeepsFirst | context_errors.go:23-31 | the loop as written keeps exactly the first error of each label and every unlabelled error, in order; later errors with a seen label are dropped |
| ContextErrors.AppendTo | context_errors.go:23-28 | appending to a label keeps every entry's label and adds the message to exactly the entries with that label |
| ContextErrors.Formatted | context_errors.go:12-37 | the corrected grouping has at most one entry per error |
| ContextErrors.TotalAppendTo | context_errors.go:23-28 | appending adds one message per entry with the label |
| ContextErrors.CountAppendTo | context_errors.go:23-28 | appending messages never changes how many entries carry a label |
| ContextErrors.FormattedInvariant | context_errors.go:12-37 | in the corrected grouping each non-empty label has at most one entry, and every error's message appears exactly once |
| ContextErrors.StepInvariant | context_errors.go:20-35 | one step of the corrected loop keeps labels unique and adds exactly one message |
| ContextErrors.SameLabelExample | context_errors.go:23-31 | two errors with the same label: as written only the first is shown, while the corrected grouping shows both under one entry |
| ContextErrors.CleanFormatted | context_errors.go:43-47 | the clean variant gives the same entries as the loop as written and empties the error list |
| Processor.Bit | resource/processor.go:20-32 | `1 << i` within the 16-bit flag type has exactly bit i |
| Processor.Set | resource/processor.go:34 | setting adds exactly the flag's bits |
| Processor.Clear | resource/processor.go:35 | clearing removes exactly the flag's bits |
| Processor.Toggle | resource/processor.go:36 | toggling flips exactly the flag's bits |
| Processor.FlagsAreBits | resource/processor.go:22-32 | the constants follow `1 << iota`: one bit each at positions 0 to 8, so no two share a bit |
| Processor.ToggleTwice | resource/processor.go:36 | toggling twice restores the set |
| Processor.SetClear | resource/processor.go:34-35 | clearing after setting, or setting after clearing, is the same as doing only the second |
| Processor.Internal | resource/processor.go:85-88 | `Internal` sets the require-check, validation, processor and permission skips and keeps every other bit |
| Processor.CheckSkipLeft | resource/processor.go:94-106 | the answer is true iff skip-left was set or one of the errors is `ErrProcessorSkipLeft`; afterwards skip-left is set iff the answer is true, and no other bit changes |
| Processor.SkipLeftSticks | resource/processor.go:94-106 | once skip-left is set, every later check answers true and keeps the flags |
| Processor.UntilSkip | resource/processor.go:398-405 | the processor results up to the first skip-left answer: a prefix without one, stopped right before it |
| Processor.AsError | resource/processor.go:407-410 | the errors are returned as nil iff there are none |
| Processor.CommitOutcome | resource/processor.go:382-411 | skip-left, set or decoded, gives nil; otherwise decode errors are returned as they are; otherwise skipping processors gives nil |
| Processor.Commit | resource/processor.go:382-411 | the loop returns the outcome and flags `CommitOutcome` describes |
| Processor.RunProcessors | resource/processor.go:398-405 | the loop collects the errors of the processors before the first skip-left answer, and stops early iff there is such an answer |
| Processor.Validate | resource/processor.go:199-212 | skip-left or skipped validations give nil with the flags kept; no bit but skip-left ever changes |
| Processor.ValidateReportsSkipLeft | resource/processor.go:204-207 | a validator reporting `ErrProcessorSkipLeft` makes `Validate` fail with that error, because it is collected before the flag is checked; later reports are not collected |
| Processor.Start | resource/processor.go:413-429 | an `Initialize` error is returned; skip-left after it gives nil; then a `Validate` error is returned; otherwise `Commit`'s outcome |
| Processor.StartProcessors | resource/processor.go:382-429 | with nothing reported or decoded and nothing skipped, `Start` fails exactly with the errors of the processors before the first skip-left answer |
| Event.Before | resource/event.go:14-17 | `Before` sets BEFORE, clears AFTER and keeps every other bit |
| Event.After | resource/event.go:19-21 | `After` sets AFTER, clears BEFORE and keeps every other bit |
| Event.Error | resource/event.go:23-25 | `Error` sets ERROR, clears BEFORE and AFTER and keeps every other bit |
| Event.PhasesIdempotent | resource/event.go:14-25 | applying a phase twice is the same as once |
| Event.ActionsOf | resource/event.go:30-47 | the action names listed are exactly those whose bit is set, at most one per table entry |
| Event.Decorate | resource/event.go:48-60 | BEFORE gives `before.`, else AFTER gives `after.`, else ERROR gives `.error`, else the name is kept |
| Event.Names | resource/event.go:27-62 | one decorated name per action bit set, in table order |
| Event.PhasesKeepActions | resource/event.go:14-62 | the phase changes keep the action part of the names |
| Event.ActionsAgree | resource/event.go:30-47 | two values with the same action bits list the same actions |
| Event.SaveNames | resource/event.go:139-154 | a save event is named `save`, then `before.save` and `after.save`, and `save.error` once an error is recorded after `before` |
| Event.Name | resource/event.go:64-66 | the name is the first decorated action name; at least one action bit is needed |
| Event.FullNames | resource/event.go:68-74 | every name is qualified with the package path and `.db.` |
| Event.FullName | resource/event.go:76-78 | the full name is the qualified first name |
| ResourceMetaValue.Reset | resource/meta_value.go:23-26 | after `Reset` there are no values, the name index is empty but not nil, and the disabled flag is kept |
| ResourceMetaValue.StringsBlank | resource/meta_value.go:45-50 | a string list is blank iff every string is empty |
| ResourceMetaValue.IsBlank | resource/meta_value.go:32-35 | a nil or empty collection is blank |
| ResourceMetaValue.IsBlankAll | resource/meta_value.go:32-59 | a collection is blank iff it is empty or every value is blank: no non-empty nested values, no `NoBlank`, no non-empty string |
| ResourceMetaValue.Get | resource/meta_value.go:62-70 | nothing is found iff no value has the name; otherwise the answer is the first value with it |
| ResourceMetaValue.FindFirst | resource/meta_value.go:63-69 | the search from a position finds the first value with the name, or none iff there is none |
| ResourceMetaValue.FirstStringValue | resource/meta_value.go:161-166 | a nil value gives `""` and a string list its first string |
| ResourceMetaValue.GetString | resource/meta_value.go:73-81 | a missing name gives `""`, and a present one the first string of its first value |
| ResourceMetaValue.Add | resource/meta_value.go:105-113 | the values are appended in order, the name index becomes non-nil and holds every added name, and the disabled flag is kept |
| ResourceMetaValue.AddIndexesLatest | resource/meta_value.go:106-112 | the name index points at the last added value of each added name, and keeps its old entry for every other name |
| ResourceMetaValue.GetFirstIndexLast | resource/meta_value.go:62-113 | when a name repeats, `Get` finds the first value while the name index holds the latest |
| ResourceMetaValue.Decider | resource/meta_value.go:91-101 | the deciding value is a value whose meta switches the sibling check, and when there is none no meta does |
| ResourceMetaValue.IsRequirementCheck | resource/meta_value.go:83-103 | a disabled or empty collection, or one lone value, needs no check; with no deciding meta the check applies |
| ResourceMetaValue.CheckRequirement | resource/meta_value.go:115-131 | without a requirement check there is no error; an error names only metas that are missing, is never empty, and is raised whenever some meta is missing under a check |
| ResourceMetaValue.MissingNames | resource/meta_value.go:118-125 | the names reported are exactly those of the required, non-proxy metas without a requirer that have no value |
| ResourceMetaValue.Named | resource/meta_value.go:149-154 | the collected names are non-empty and no more than the chain |
| ResourceMetaValue.Path | resource/meta_value.go:148-159 | a value without a name has the empty path |
| ResourceMetaValue.PathAllNamed | resource/meta_value.go:148-159 | when the whole chain is named, the path holds every name, outermost first |
| ResourceMetaValue.PathExample | resource/meta_value.go:148-159 | the walk stops at the first unnamed ancestor: `name` under `1` under `items` under an unnamed value gives `items.1.name` |
| ResourceMetaValue.StringValue | resource/meta_value.go:168-180 | a string gives itself, a non-empty string list its last element, and a non-empty answer always comes from the value |
| ResourceMetaValue.EachQueryVal | resource/meta_value.go:189-205 | a string list gives one callback per string, a nil value none, and any other value one callback, all with the prefix passed in |
| ResourceMetaValue.EachQueryValPrefix | resource/meta_value.go:189-205 | every callback's prefix extends the prefix passed in, and a nested value adds its own name next |
| ResourceMetaValue.EachAllPrefix | resource/meta_value.go:192-194 | over a list of values, every callback's prefix extends the prefix passed in |
| ResourceFormTree.Add | resource/form_tree.go:18-30 | the key is recorded at the end and the node stored under it, other nodes untouched; a key that reads as an unsigned 32-bit number also joins the slice and takes the next index |
| ResourceFormTree.GetStringValue | resource/form_tree.go:36-53 | a missing node gives `""`, a string itself, a non-empty string list its first element, and a non-empty answer always comes from a string value |
| ResourceFormTree.Get | resource/form_tree.go:55-61 | a node is found iff it is stored under the key |
| ResourceFormTree.Normalize | resource/form_tree.go:77 | the normalized key has no brackets and is no longer than the key |
| ResourceFormTree.Parts | resource/form_tree.go:77 | splitting gives at least one part |
| ResourceFormTree.OfParts | resource/form_tree.go:85-96 | after the walk the node at the path exists, the root's own fields are kept, and no existing child is lost |
| ResourceFormTree.Of | resource/form_tree.go:76-99 | `Of` returns the path of the normalized key, and the node at it exists |
| ResourceFormTree.OfPartsExisting | resource/form_tree.go:90-93 | walking a path that exists changes nothing |
| ResourceFormTree.OfIdempotent | resource/form_tree.go:76-99 | repeating `Of` with the same key returns the same node and tree |
| ResourceFormTree.BracketsAreDots | resource/form_tree.go:77 | `a[0].b` and `a.0.b` walk the same path: `a`, `0`, `b` |
| ResourceFormTree.NormalizePlain | resource/form_tree.go:77 | keys without brackets are left as they are |
| ResourceFormTree.SetValue | resource/form_tree.go:104-111 | setting a node's value changes that node's value |
| ResourceFormTree.ParseFormTreeValues | resource/form_tree.go:101-113 | after parsing, the node of the last entry's key, without the prefix, holds that entry's values |
| ResourceFormTree.WalkAsWritten | resource/form_tree.go:115-134 | a node without children is walked with nothing visited and no error |
| ResourceFormTree.WalkFrom | resource/form_tree.go:116-132 | the loop only adds to the nodes already visited |
| ResourceFormTree.Walk | resource/form_tree.go:115-134 | the corrected walk never returns the skip marker, visits the same nodes as the walk as written, and fails exactly when it does |
| ResourceFormTree.WalkVisitsAll | resource/form_tree.go:115-134 | a callback that always proceeds sees every node once, depth-first in key order, and the walk returns nil |
| ResourceFormTree.SkipDirEscapes | resource/form_tree.go:119-133 | with one child whose callback answers `FormTreeSkipDir`, the walk as written returns that error, while the corrected walk returns nil |
| FormDataToMetaValues.NameRun | resource/schema_formdata_to_metavalues.go:16 | the base-name part of the pattern is the longest run of characters other than `.`, `[` and `]` |
| FormDataToMetaValues.NextLevel | resource/schema_formdata_to_metavalues.go:16-60 | a nested key gives a group that starts the key and is followed by `.`, and a non-empty base name that starts the group; the rest is one or more `.segment`s |
| FormDataToMetaValues.NextLevelPlain | resource/schema_formdata_to_metavalues.go:16 | `base.seg` gives group and base name `base` |
| FormDataToMetaValues.NextLevelIndexed | resource/schema_formdata_to_metavalues.go:16 | `base[d].seg` gives the group `base[d]`, which keeps the index, and the base name `base` |
| FormDataToMetaValues.CurrentIsNotNext | resource/schema_formdata_to_metavalues.go:15-59 | a key without a dot is never a nested group |
| FormDataToMetaValues.MetaorNamed | resource/schema_formdata_to_metavalues.go:30-112 | the metaor for a name has that name, and there is none iff no metaor has it |
| FormDataToMetaValues.FirstNamed | resource/schema_formdata_to_metavalues.go:50-64 | `MetaValues.Get` finds the first value with the name, and nothing iff none has it |
| FormDataToMetaValues.Append | resource/schema_formdata_to_metavalues.go:101-104 | appending a value records its position under its name and keeps the index valid |
| FormDataToMetaValues.Replace | resource/schema_formdata_to_metavalues.go:53-54 | replacing the value of an existing entry changes only that entry and keeps the index valid |
| FormDataToMetaValues.SortedKeys | resource/schema_formdata_to_metavalues.go:114-118 | the sorted keys are exactly the form's keys, one per entry |
| FormDataToMetaValues.Convert | resource/schema_formdata_to_metavalues.go:20-143 | the result's name index is valid: every name it holds points at a value with that name |
| FormDataToMetaValues.ProcessKeys | resource/schema_formdata_to_metavalues.go:120-137 | the loops keep the name index valid and only add errors, adding none where errors are ignored |
| FormDataToMetaValues.KeyStep | resource/schema_formdata_to_metavalues.go:120-124 | one key keeps the name index valid and only adds errors |
| FormDataToMetaValues.NewMetaValue | resource/schema_formdata_to_metavalues.go:33-107 | a key outside the prefix changes nothing; a flat key takes the current-level branch; a nested group is marked converted and is done only once; a failure changes no values |
| FormDataToMetaValues.KeyBound | resource/schema_formdata_to_metavalues.go:79 | every key is shorter than a bound that the nested calls decrease, so the recursion ends |
| FormDataToMetaValues.CurrentLevel | resource/schema_formdata_to_metavalues.go:38-58 | a flat key adds a new value, unless it is an upload whose name is present: then the old value is kept, or replaced in place when some file has a name |
| FormDataToMetaValues.Nest | resource/schema_formdata_to_metavalues.go:73-97 | a converted group advances, or starts at 0, the counter of `prefix + base`; without an earlier value of the group's name a new value named `base`, indexed by the counter and holding the children, is appended; otherwise the number of values is kept |
| FormDataToMetaValues.ProcessKeysOutside | resource/schema_formdata_to_metavalues.go:34 | when no key starts with the prefix, the loop changes nothing |
| FormDataToMetaValues.NothingUnderPrefix | resource/schema_formdata_to_metavalues.go:20-143 | with no key under the prefix the values are empty, and the only errors are the requirement check's on those empty values |
| MapToMetaValues.RawOf | resource/schema_map_to_metavalues.go:43-49 | a string keeps its text, and any other JSON value is held as an opaque value |
| MapToMetaValues.MetaNamed | resource/schema_map_to_metavalues.go:12-60 | the meta for a key has that name, and there is none iff no meta has it |
| MapToMetaValues.Convert | resource/schema_map_to_metavalues.go:5-71 | a failure is exactly the requirement check's report on the values built, and a success passes that check |
| MapToMetaValues.Entries | resource/schema_map_to_metavalues.go:62-64 | the loop over the entries only appends values |
| MapToMetaValues.ChildMetas | resource/schema_map_to_metavalues.go:20-31 | a key with a meta nests its context metas; without one, the corrected conversion nests no metas |
| MapToMetaValues.NewValue | resource/schema_map_to_metavalues.go:14-55 | only appends values named after the key: a scalar is added with its meta; an object is added with its children when they convert and dropped otherwise; a list leaves the name index alone |
| MapToMetaValues.AddOne | resource/schema_map_to_metavalues.go:52-54 | `Add` of one value appends it and points the name index at it |
| MapToMetaValues.Append | resource/schema_map_to_metavalues.go:40-44 | the list branch appends directly and leaves the name index alone |
| MapToMetaValues.ListValues | resource/schema_map_to_metavalues.go:26-47 | the list branch only appends values named after the key, with its meta, each an object element or the whole list, and never touches the name index |
| MapToMetaValues.ListOfObjects | resource/schema_map_to_metavalues.go:27-41 | a list of objects that all convert gives one value per element, in order, each indexed by its position |
| MapToMetaValues.ConvertAsWritten | resource/schema_map_to_metavalues.go:5-71 | the conversion as written, with `childMetaors` shared by all keys, succeeds only with values that pass the requirement check |
| MapToMetaValues.ConvertMap | resource/schema_map_to_metavalues.go:5-71 | the corrected conversion succeeds only with values that pass the requirement check |
| MapToMetaValues.EntryIndependent | resource/schema_map_to_metavalues.go:14-55 | in the corrected conversion, what an entry adds does not depend on the nested metas used by earlier entries |
| MapToMetaValues.ListIndependent | resource/schema_map_to_metavalues.go:26-47 | the same independence holds for the list branch |
| MapToMetaValues.Required | resource/meta_value.go:83-131 | values that are disabled, empty, a lone value of an alone meta, or decided off by a sibling flag are exempt; otherwise the check fails iff some meta is missing |
| MapToMetaValues.CarriedMetasDropValue | resource/schema_map_to_metavalues.go:13-23 | object `a`, with a meta nesting a required `x` and holding it, then an object `b` without a meta holding only `y`: as written `b` is checked against `a`'s nested metas and dropped, while the corrected conversion keeps both |
| SliceValue.IDStrings | resource/slice_value.go:19-21 | the set holds exactly the strings of the deleted IDs |
| SliceValue.DeletedMap | resource/slice_value.go:16-24 | the map is cached on first use: an existing map is returned as it is, and a new one holds exactly the deleted IDs' strings |
| SliceValue.IsDeleted | resource/slice_value.go:26-37 | with the map built, an ID is deleted iff its string is in the map; otherwise iff it equals some deleted ID |
| SliceValue.AnyEq | resource/slice_value.go:31-36 | the scan answers true iff some deleted ID equals the ID |
| SliceValue.MapAgrees | resource/slice_value.go:16-37 | building the map does not change `IsDeleted`'s answer when equality agrees with the IDs' strings |
| SliceValue.Len | resource/slice_value.go:50-58 | the length is the number of elements the iterator's slices hold |
| SliceValue.Slices | resource/slice_value.go:39-48 | the iterator has at most two slices, holding the current elements and then the deleted ones |
| SliceValue.Start | resource/slice_value.go:65-70 | the first state points at the first element of the first slice, with that slice's length |
| SliceValue.Next | resource/slice_value.go:83-101 | `Next` yields the element under the cursor and moves on, to the start of the next slice after a slice's last element |
| SliceValue.Drain | resource/slice_value.go:72-101 | calling `Next` until `Done` yields the rest of the current slice and then every later slice |
| SliceValue.IterateAll | resource/slice_value.go:39-101 | iterating from `Start` until `Done` yields the current elements and then the deleted ones, when no part is empty |
| SliceValue.EmptyStartsDone | resource/slice_value.go:65-81 | an iterator is done at its start iff it has no slices |
| FormattedValue.IsZero | resource/formatted_value.go:31-57 | `NoZero` is never zero, `Zero` always is, a missing raw value is zero, and otherwise the value's own zero test or the callback decides |
| FormattedValue.SetNonZero | resource/formatted_value.go:59-62 | afterwards the value is never zero, and nothing else changes |
| FormattedValue.SetZero | resource/formatted_value.go:64-67 | afterwards the value is zero iff it was not set non-zero, and nothing else changes |
| FormattedValue.NonZeroWins | resource/formatted_value.go:31-67 | setting non-zero wins over setting zero, in either order |
| FormattedValue.ZeroerBeforeCallback | resource/formatted_value.go:49-55 | a raw value with its own zero test is never passed to the callback |
| FormattedValue.GetSafeValue | resource/formatted_value.go:69-74 | the safe value, or the value when the safe value is empty |
| FormattedValue.GetSafeValues | resource/formatted_value.go:76-81 | the safe values, or the values when there are no safe values |
| PrimaryQuery.Args | resource/utils.go:39-41 | one id's arguments are its primary values |
| PrimaryQuery.ArgsAppend | resource/utils.go:39-41 | the arguments of ids put together are those of each part in turn |
| PrimaryQuery.FieldTests | resource/utils.go:53-72 | one test per primary field, in order |
| PrimaryQuery.Groups | resource/utils.go:57-59 | one parenthesised group per id |
| PrimaryQuery.Build | resource/utils.go:28-76 | a nil id slice gives no query and no arguments; otherwise the arguments are every id's primary values; at most one id, even an empty non-nil slice, gives the field tests joined by `AND` (`<>` when excluding); several ids with several fields give one group per id joined by `OR`, negated when excluding |
| PrimaryQuery.IdToPrimaryQueryAsWritten | resource/utils.go:28-76 | as written, several ids with one primary field give an empty query while the arguments are still returned |
| PrimaryQuery.IdToPrimaryQuery | resource/utils.go:28-76 | corrected: several ids with one primary field give the `IN` (or `NOT IN`) test over all the arguments |
| PrimaryQuery.NilAndEmptyIds | resource/utils.go:29-31 | a nil id slice gives no condition, while an empty non-nil one gives the field test (`= ?`, or `<> ?` when excluding) with no arguments |
| PrimaryQuery.SingleFieldQueryLost | resource/utils.go:43-51 | two ids and one field: the query is lost as written, and is the `IN` test once corrected |
| PrimaryQuery.OneIdTwoFields | resource/utils.go:65-74 | one id and two primary fields give both equality tests joined by `AND` |
| PrimaryQueryHelpers.StringToPrimaryQuery | resource/utils.go:19-73 | an id that does not parse gives its error and an empty query; a parsed id gives the `AND` of one test per primary field, with `<>` when excluding and `=` otherwise, and its primary values as the arguments |
| PrimaryQueryHelpers.MetaValuesToPrimaryQuery | resource/helpers.go:15-22 | without values or a value named `ID` there is no condition; otherwise the condition for the first string of that value |
| PrimaryQueryHelpers.ValuesToPrimaryQuery | resource/helpers.go:25-41 | the values are the arguments; there is no condition iff there are no values; otherwise an `IN` (or `NOT IN`) test of the first primary field |
| PrimaryQueryHelpers.SameInTest | resource/helpers.go:25-41 | with one primary field and the same table name, the test for a list of values is the one the corrected `IdToPrimaryQuery` writes for several ids |
| Resource.Pkg | resource/resource.go:79-88 | a path without a `models` segment is its own package |
| Resource.FirstModels | resource/resource.go:83-88 | the position found holds `models` and no earlier one does; none found means none is there |
| Resource.PkgOfModels | resource/resource.go:79-88 | a path under a `models` directory belongs to the package of the directory above it, whatever follows |
| Resource.FirstModelsAt | resource/resource.go:83-88 | the loop stops at the first `models` segment |
| Resource.FullID | resource/resource.go:135-140 | a top resource's full id is its id; a child's is the parent's full id, a dot and its id |
| Resource.FullIDLineage | resource/resource.go:135-140 | the full id is the ids from the top down, joined with dots |
| Resource.GetLayout | resource/resource.go:275-283 | a registered name gives its layout; otherwise the first non-empty default name is looked up once; otherwise nil |
| Resource.GetLayoutOrDefault | resource/resource.go:271-273 | a layout is found iff the name or the default layout is registered, the name first |
| Resource.OneFallback | resource/resource.go:275-283 | only the first default name is tried: a second one is never consulted |
| Resource.HasPermission | resource/resource.go:419-429 | the first permissioner answer that is not undefined; else the static permission's answer; else undefined |
| Resource.HasContextPermission | resource/resource.go:431-439 | the first context permissioner answer that is not undefined, else undefined |
| Resource.FirstAnswerWins | resource/resource.go:420-424 | a defined answer hides every later answer and the static permission |
| Resource.DefaultDenyMode | resource/resource.go:146-151 | the configured answer, false when none is set |
| Resource.SetPrimaryFields | resource/resource.go:370-390 | named fields are looked up in order up to the first unknown name, which is the error; with no names the model's primary fields are used and having none is an error |
| Resource.PrimaryFieldsGiveKey | resource/resource.go:247-390 | a successful primary-field setting gives a top-level model a key, and with no names it succeeds exactly when it does; a model with a parent never has one |
| Resource.RunValidators | resource/resource.go:210-216 | every validator error is reported in order, and only the last report can be one `onError` stops on |
| Resource.CheckValues | resource/resource.go:186-205 | the per-value reports in order, ending early only at a report `onError` stops on |
| Resource.Validate | resource/resource.go:182-219 | without a requirement check only the resource validators run; with one and a blank required value only the values are checked; nothing is reported after a stopping report |
| Resource.ValidateNoStop | resource/resource.go:182-219 | when `onError` never stops, a blank required value suppresses the resource validators, and otherwise their reports follow the values' |
| Roles.FirstDefinedIndex | permissioner.go:47-51 | the answers before the position are all undefined and the one at it is defined |
| Roles.FirstDefined | permissioner.go:46-53 | undefined iff every answer is; otherwise the first defined answer |
| Roles.FirstDefinedAppend | permissioner.go:46-53 | answers put together: the first list decides unless it is all undefined |
| Severity.String | severity.go:47-54 | a named level prints its name; any other prints its decimal digits |
| Severity.Find | severity.go:72-78 | the level found carries the name, and one is found whenever some level does |
| Severity.ParseSeverity | severity.go:58-79 | the level whose name equals the lower-cased text, `Default` when none does |
| Severity.SignToSeverity | severity.go:81-88 | zero is a notice, and exactly the negative signs rank above notice |
| Severity.DistinctNames | severity.go:34-44 | no two levels share a name, so the map's iteration order cannot matter |
| Severity.ParseString | severity.go:47-79 | every named level parses back from its printed name |
| Severity.ParseUpper | severity.go:56-70 | case is ignored: the upper-case name parses to the same level |
| Severity.ParseUnnamed | severity.go:53-78 | a level without a name prints as digits, which parse to `Default` |
| Severity.Ordered | severity.go:8-32 | the levels rise from `Default` to `Emergency`, and exactly those are named |
| Permissioner.Answers | permissioner.go:46-53 | one answer per item, the item's own |
| Permissioner.AllAllowMeans | permissioner.go:57-64 | the allowed loop passes iff every remaining item's answer allows |
| Permissioner.Flatten | permissioner.go:25-37 | nothing to combine gives an empty list |
| Permissioner.Permissioners | permissioner.go:25-42 | a single survivor is returned itself; any other number becomes a list |
| Permissioner.AllowedPermissioners | permissioner.go:66-72 | a single plain survivor is returned itself; a list becomes an all-must-allow list |
| Permissioner.FlattenCons | permissioner.go:27-37 | the combined list is the first entry's contribution followed by the rest's |
| Permissioner.AnswersAppend | permissioner.go:46-53 | the answers of a joined list are the answers of each part |
| Permissioner.SplicedAnswer | permissioner.go:28-36 | a nil entry contributes `Undef`, a spliced list answers what the list answered |
| Permissioner.FlattenAnswers | permissioner.go:25-53 | the combined list answers the first defined answer among the given permissioners |
| Permissioner.PermissionersAnswer | permissioner.go:25-53 | combining is transparent, whether or not the single survivor is unwrapped |
| Permissioner.AllowedAnswer | permissioner.go:55-72 | the allowed combination of any number but one answers only allow or deny, allow iff every item allows |
| Permissioner.EmptyCombination | permissioner.go:38-63 | with nothing to combine the list answers `Undef` and the allowed list `Allow` |
| NamedHandlers.OwnGet | context_named_handler.go:29-75 | a name has an own handler iff one was added under it, and it is one of the added handlers with that name |
| NamedHandlers.OwnNames | context_named_handler.go:49 | the distinct names of the own handlers, each with a handler |
| NamedHandlers.InheritsFrom | context_named_handler.go:25-27 | the new registries are searched after the existing ones; the handlers stay |
| NamedHandlers.Add | context_named_handler.go:29-37 | handlers are appended; a name added now is held by its last added handler, other names keep theirs |
| NamedHandlers.OwnGetAppend | context_named_handler.go:34-36 | a later handler under a name replaces an earlier one |
| NamedHandlers.NamesOf | context_named_handler.go:47-80 | the names a registry knows are exactly the names of its own handlers and the names its parents know |
| NamedHandlers.Get | context_named_handler.go:70-82 | a handler is found iff the name is known to the registry or a parent; the own handler comes first |
| NamedHandlers.ParentGet | context_named_handler.go:76-80 | the parents from the given one on answer iff one of them knows the name |
| NamedHandlers.GetNamedContextHandlers | context_named_handler.go:84-95 | one handler per known name, no name twice, each being the one `Get` finds |
| NamedHandlers.Each | context_named_handler.go:39-68 | a walk keeps every name already seen as seen; what it visits is stated by `EachComplete`, `PassedOver` and `EachHonours` |
| NamedHandlers.EachOwn | context_named_handler.go:47-59 | the walk over the own handlers keeps every name already seen as seen |
| NamedHandlers.EachParents | context_named_handler.go:60-67 | the walk over the parents keeps every name already seen as seen |
| NamedHandlers.EachComplete | context_named_handler.go:39-68 | a callback that never stops visits every known name once, with the handler `Get` finds for it |
| NamedHandlers.PassedOver | context_named_handler.go:60-80 | a name first known to parent `j` is visited with that parent's handler, which is the one `Get` finds |
| NamedHandlers.NotCompletedNeedsReply | context_named_handler.go:39-68 | a callback that never stops or fails lets the walk complete |
| NamedHandlers.EachHonours | context_named_handler.go:52-65 | corrected: with the stop passed up, no handler is visited after one whose callback stopped or failed |
| NamedHandlers.StopInParentContinues | context_named_handler.go:52-62 | as written, a stop raised inside a parent ends only that parent's walk and the child visits another handler afterwards |
| NameStack.WithFrame | name_stack.go:14-21 | one frame is pushed, keyed by the last key given or the frame's own key |
| NameStack.Pop | name_stack.go:18-20 | the closure drops exactly the last frame |
| NameStack.WithName | name_stack.go:23-25 | pushes one frame holding the name and keyed by the last key or `""`, which its closure pops again |
| NameStack.WithNamer | name_stack.go:26-28 | pushes one frame holding the namer and keyed by the last key or `""`, which its closure pops again |
| NameStack.WithIndex | name_stack.go:29-31 | pushes one frame holding the index and keyed by the last key or `""`, which its closure pops again |
| NameStack.WithRestores | name_stack.go:23-31 | every push keeps the other fields zero, takes the last key or `""`, and is undone by its closure |
| NameStack.Piece | name_stack.go:36-43 | a frame shows its name, else its namer's answer, else its formatted index |
| NameStack.Pieces | name_stack.go:34-43 | one piece per frame, in order |
| NameStack.JoinOptions | name_stack.go:33-45 | an empty stack gives `""` and one frame its piece |
| NameStack.JoinOptionsSplit | name_stack.go:33-45 | with a one-character separator no piece contains, splitting the result gives back the pieces |
| NameStack.String | name_stack.go:53-55 | an empty stack renders as `""` and a one-frame stack as that frame's piece |
| NameStack.StringWithName | name_stack.go:53-59 | a named push extends the string by the separator and the name, and its pop restores it |
| Breadcrumb.NewBreadcrumb | breadcrumb.go:35-40 | the crumb keeps its link and label; its icon is the first given, or `""` |
| Breadcrumb.Append | breadcrumb.go:47-50 | the given crumbs and then the waiting ones are added, and none waits afterwards |
| Breadcrumb.AfterNext | breadcrumb.go:52-54 | only the waiting list grows |
| Breadcrumb.Last | breadcrumb.go:67-72 | nil iff the trail is empty, else its final crumb |
| Breadcrumb.ItemsWithoutLast | breadcrumb.go:60-65 | none for an empty trail, else one fewer than all |
| Breadcrumb.LastSplit | breadcrumb.go:60-72 | the crumbs without the last, followed by the last, are the whole trail |
| Breadcrumb.AfterNextThenAppend | breadcrumb.go:47-54 | crumbs set aside come after the next appended ones and end the trail |
| Breadcrumb.AppendTwice | breadcrumb.go:47-50 | a second append does not add the waiting crumbs again |
| ContextData.NewRequestContextData | contextdata/contextdata.go:20-22 | one empty scope |
| ContextData.AssignValue | contextdata/contextdata.go:27-29 | the last pair written for a key wins; keys not written keep their values |
| ContextData.Set | contextdata/contextdata.go:24-31 | the pairs and the key are written into the current scope only, the last pair for a key winning over the key itself |
| ContextData.Local | contextdata/contextdata.go:82-84 | a value iff the current scope holds the key |
| ContextData.GetOk | contextdata/contextdata.go:50-59 | absent iff no scope holds the key; otherwise the innermost scope's value |
| ContextData.Get | contextdata/contextdata.go:33-41 | the value found, or nil |
| ContextData.GetString | contextdata/contextdata.go:43-48 | the string found, or `""` when the key is nowhere |
| ContextData.Inside | contextdata/contextdata.go:86-89 | a new empty scope is pushed over the others |
| ContextData.Outside | contextdata/contextdata.go:98-101 | the current scope is dropped |
| ContextData.WithRestores | contextdata/contextdata.go:91-96 | entering a scope, setting values and leaving gives back the data as it was |
| ContextData.InnerWins | contextdata/contextdata.go:24-59 | a value set in a new scope hides the outer ones; other keys are looked up as before |
| Context.PushI18nGroup | context.go:80-83 | the group is pushed and nothing else changes |
| Context.PopI18nGroup | context.go:85-87 | the last group is dropped and nothing else changes |
| Context.PushPop | context.go:80-87 | the closure a push returns undoes it |
| Context.AsTop | context.go:260-263 | the context becomes top and nothing else changes |
| Context.TopCaching | context.go:249-258 | the answer is the nearest top, and a context that caches it still answers the same |
| Context.TopIsNearestTop | context.go:249-267 | the contract of `Top`: without caches its answer is top, the context itself when it is top, else its parent's answer |
| Context.Root | context.go:341-347 | the end of the parent chain, which is top |
| Context.GenStaticURL | context.go:282-300 | empty parts dropped; nothing left gives the prefix; an external first part ignores the prefix; an absolute first part is appended to the prefix alone; otherwise the parts are joined under the prefix |
| Context.GenURL | context.go:302-319 | nothing left after dropping empty parts gives the prefix; otherwise a join that starts with the prefix |
| Context.JoinPath | context.go:329-339 | no parts give `""`; otherwise the parts joined under the prefix, which is left out when empty |
| Context.GenURLPlain | context.go:302-339 | for plain parts the URL is the slash-joined prefix and parts, and `JoinPath` agrees |
| Context.GenURLIgnoresEmpty | context.go:303 | empty parts never change the URL |
| Context.ChildPath | context.go:350-353 | a child path is `/` and the first prefix without surrounding slashes, or nothing |
| Context.NewChild | context.go:349-380 | the child is not top, has this context as parent, extends both prefixes by the child path and keeps the rest |
| Context.ChildKeepsTop | context.go:249-379 | a child answers `Top` and `Root` as its parent does |
| Contexts.Deadline | contexts.go:10-19 | nothing iff no context has a deadline; otherwise the deadline of the last context that has one |
| Contexts.Done | contexts.go:21-30 | nil iff every context's channel is nil; otherwise the channel of the last context that has one |
| Contexts.Err | contexts.go:32-41 | nil iff every context's error is nil; otherwise the error of the last context that has one |
| Contexts.Value | contexts.go:43-52 | nil iff no context holds the key; otherwise the value of the last context that holds it |
| Contexts.SearchBack | contexts.go:10-52 | nothing iff no context answers; otherwise the answer of the last context that answers |
| Contexts.Prepend | contexts.go:54-56 | the new contexts first, then the old ones |
| Contexts.Append | contexts.go:58-60 | the old contexts first, then the new ones |
| Contexts.SearchBackAppend | contexts.go:43-52 | over two lists the second is asked first |
| Contexts.PriorityOfAdded | contexts.go:43-60 | appended contexts answer before the existing ones, prepended ones only where none of the existing ones answers |
| ContextProxy.LocalValue | context_proxy.go:74-83 | a key set locally gives its local value; otherwise the wrapped context's, nil without one |
| ContextProxy.Get | context_proxy.go:85-95 | the same value, found for any local key but for an inherited key only when it is not nil |
| ContextProxy.SetValue | context_proxy.go:97-100 | on an allocated map, one local value is set; the wrapped context stays |
| ContextProxy.SetValues | context_proxy.go:102-109 | the map must be allocated, since writing into a nil map panics; the key and the pairs are set locally, the last pair for a key winning; other keys stay |
| ContextProxy.WithContext | context_proxy.go:119-122 | a copy with the same values that wraps the given context |
| ContextProxy.BackupValues | context_proxy.go:124-130 | the wrapped context moves into a fresh local context, whose map is nil; the values stay |
| ContextProxy.Restore | context_proxy.go:127-129 | the closure puts the saved context back and keeps the values |
| ContextProxy.BackupTransparent | context_proxy.go:74-130 | a backup changes no answer, and its closure brings the old context back whatever happened meanwhile |
| ContextProxy.ProxyGet | context_proxy.go:35-46 | without a context nothing is found; otherwise that context's value, found iff it is not nil |
| ContextProxy.NilLocalKey | context_proxy.go:42-88 | a key set locally to nil is found by the local context but not by a proxy over it |
| Configor.ConfigSet | configor.go:20-22 | only the first store is written, and only under the key |
| Configor.ConfigGet | configor.go:24-31 | nothing iff no store holds the key; otherwise the first holding store's value |
| Configor.SetThenGet | configor.go:20-31 | what was just set is read back, other keys read as before |
| SiteGetter.FirstHit | sitegetter.go:24-29 | every getter before the position misses and the one at it answers |
| SiteGetter.Get | sitegetter.go:15-22 | not found iff no getter finds the key; otherwise the first finder's answer |
| SiteGetter.GetInterfaceAsWritten | sitegetter.go:23-30 | as written the answer is always false, whichever getters were asked |
| SiteGetter.GetInterface | sitegetter.go:23-30 | corrected: true iff some getter decodes, asking the getters up to the first that does and all of them otherwise |
| SiteGetter.DecodedButFalse | sitegetter.go:23-30 | a single getter that decodes: false as written, true once corrected, one call either way |
| SiteGetter.SameCalls | sitegetter.go:24-29 | both versions ask the same getters |
| SiteGetter.Append | sitegetter.go:32-35 | the new getters come after the existing ones |
| SiteGetter.Prepend | sitegetter.go:37-40 | the new getters come before the existing ones |
| SiteGetter.GetAppend | sitegetter.go:15-22 | over two lists the first decides unless it finds nothing |
| SiteGetter.GetOrder | sitegetter.go:15-40 | appended getters answer only where the existing ones miss; prepended ones answer first |
| SitesMap.Position | sitesmap.go:57 | the keys before the position differ from the key and the one at it is the key |
| SitesMap.Get | sitesmap.go:53-59 | found iff the map holds the key (never in a nil map), with the site stored under it |
| SitesMap.GetEntry | sitesmap.go:53-59 | reading a key gives a site exactly when that pair is an entry |
| SitesMap.Set | sitesmap.go:12-20 | the map exists afterwards, the key reads the site, every other key reads as before, and a new key goes last |
| SitesMap.Copy | sitesmap.go:22-31 | a map, never nil, reading like the original everywhere |
| SitesMap.Has | sitesmap.go:33-44 | true iff the map is not nil, some key is given and every given key is present |
| SitesMap.Del | sitesmap.go:61-71 | an absent key (or a nil map) gives the not-found error and no change; otherwise exactly that entry goes and its site is returned |
| SitesMap.RemoveAt | sitesmap.go:69 | removing the key's entry removes that key and nothing else |
| SitesMap.GetOrError | sitesmap.go:73-79 | an error naming the site iff it is absent, else the stored site |
| SitesMap.Values | sitesmap.go:81-86 | one site per entry, in the order of the entries |
| SitesMap.SetThenDel | sitesmap.go:12-71 | setting a new key and deleting it gives the map back and returns the site set |
| SitesMap.BeforeOrder | sitesmap.go:104-106 | ordering sites by name is a strict total order |
| SitesMap.Sorted | sitesmap.go:102-108 | a permutation of the sites, ordered by name |
| SitesMap.Each | sitesmap.go:110-120 | every site before the last visited went on; a failure stops the walk and comes back wrapped with the site's name; a stop request ends it with nil |
| SitesMap.EachOrAll | sitesmap.go:122-134 | `""` and `*` walk every site; another name gives the lookup error or the callback's own answer for that site |
| SitesRegister.Fire | sitesregister.go:145-147 | every callback of the list is called once, in order, with the same site and key |
| SitesRegister.FireEach | sitesregister.go:312-330 | one call per key and callback, each with that kind and site and one of the keys |
| SitesRegister.AddHost | sitesregister.go:131-149 | a bound host is refused before the site is looked up; an unknown site is refused; otherwise only the host binding changes, to the site, and the host-added callbacks see it |
| SitesRegister.AddPath | sitesregister.go:163-181 | the same for paths, with the path-added callbacks |
| SitesRegister.DelHost | sitesregister.go:151-161 | an unbound host is the not-found error and no change; otherwise only that binding goes and the host-deleted callbacks see the site it named |
| SitesRegister.DelPath | sitesregister.go:183-193 | the same for paths; the site name argument is not used |
| SitesRegister.AddThenDelHost | sitesregister.go:131-161 | binding a free host and deleting it gives the register back, the deletion reporting the site the binding named |
| SitesRegister.AddThenDelPath | sitesregister.go:163-193 | the same for paths |
| SitesRegister.Rename | sitesregister.go:195-204 | an absent old name is the not-found error; otherwise the site moves to the new name, replacing what was there, other names and no callback touched |
| SitesRegister.RenameBack | sitesregister.go:195-204 | renaming to a free name and back leaves every name reading as before |
| SitesRegister.TheSite | sitesregister.go:210-217 | a site iff the register is in alone mode and holds one, and then a registered site |
| SitesRegister.Add | sitesregister.go:219-267 | refused in alone mode once a site exists, and with the found error for a taken name, neither calling back; otherwise the site goes last under its name and the added callbacks run before the post-added ones |
| SitesRegister.AloneHoldsOne | sitesregister.go:219-222 | alone mode never holds more than one site, and that site is the first ever added |
| SitesRegister.Unbind | sitesregister.go:311-331 | the entries not bound to the site stay, and exactly the keys bound to it are dropped |
| SitesRegister.UnbindAll | sitesregister.go:311-331 | afterwards a key reads nothing iff it was bound to the site, and otherwise as before |
| SitesRegister.DestroyOne | sitesregister.go:299-335 | an unknown name is the not-found error and no change; otherwise the name is gone |
| SitesRegister.DestroyOneEffect | sitesregister.go:299-335 | only the name goes and exactly the hosts and paths bound to its site; the site's destroy callbacks run first and are cleared, the site-deleted callbacks last |
| SitesRegister.Chain | sitesregister.go:299-336 | a walk over names ends in no error or the not-found error |
| SitesRegister.DestroySite | sitesregister.go:295-338 | the names in order; the first unknown one ends the walk with the not-found error, the names before it staying destroyed |
| SitesRegister.DestroyAppend | sitesregister.go:295-338 | destroying `a + b` is destroying `a` and then, unless that failed, `b` |
| SitesRegister.DestroyRemoves | sitesregister.go:295-338 | a successful destroy leaves none of its names registered |
| SitesRegister.StaysUnbound | sitesregister.go:295-338 | destroying never brings a name back |
| SitesRegister.UnknownAfter | sitesregister.go:300-303 | a name missing after the earlier destroys fails the walk and keeps what the earlier names did |
| SitesRegister.DestroyUnbinds | sitesregister.go:311-331 | after a site is destroyed no host or path leads to it |
| Site.RunAll | site.go:115-117 | each callback runs once, in order |
| Site.PostInit | site.go:114-122 | on an initialised site the callbacks run at once; otherwise they are queued behind the waiting ones and nothing runs |
| Site.FinishInit | site.go:234-240 | the queued callbacks run in order, the queue empties and the site is initialised, nothing else changing |
| Site.PostInitOrder | site.go:114-240 | handed over before or after initialisation, every callback runs exactly once in the order given, and the site ends the same |
| Site.SetHandler | site.go:140-147 | an equal handler changes nothing and calls nobody; another replaces it and every handler-changed callback sees the old and the new |
| Site.HandlerChanged | site.go:149-151 | callbacks are added after the earlier ones |
| Site.SetHandlerTwice | site.go:140-147 | setting the same handler again notifies nobody; setting the old one back notifies again with the roles swapped |
| Site.GetDBOrSystem | site.go:260-270 | the named database, else the system database, else nil |
| Site.GetMediaStorageOrDefault | site.go:292-306 | the named storage, else the default one |
| Site.FallbacksAgree | site.go:260-306 | a missing name gives what the fallback's own name gives |
| Site.EachDB | site.go:272-282 | every database before the last visited went on; a failure ends the walk and is returned; the stop request ends it with nil |
| Site.EachDBAll | site.go:272-282 | all databases are visited with no error iff the callback goes on at every one but possibly the last, and does not fail there |
| Site.PublicURL | site.go:379-384 | the base URL alone without parts; otherwise the base and a slash begin the result |
| Site.PublicURLParts | site.go:379-384 | plain names are appended with single slashes; a single empty part adds only the slash |
| Path.Clean | site.go:381 | the cleaned path is never empty, and a rooted path stays rooted |
| Path.Join | site.go:381 | empty iff every element is empty |
| Path.CleanIdempotent | site.go:381 | cleaning a cleaned path changes nothing |
| Path.JoinPlain | site.go:381 | plain names join to their slash-separated concatenation |
| DbConfig.FirstValues | db/dbconfig/dbconfig.go:48-57 | every configured argument contributes its first value, replacing what was there; other keys stay |
| DbConfig.HostPort | db/dbconfig/dbconfig.go:62-65 | the host, followed by `:port` only for a non-zero port |
| DbConfig.DSN | db/dbconfig/dbconfig.go:43-79 | corrected: MySQL gives the credentials, `tcp(host:port)` and the name followed by the encoded arguments; PostgreSQL its URL with the encoded arguments; SQLite the name, with the encoded arguments when there are any; any other adapter `""` |
| DbConfig.PostgresArguments | db/dbconfig/dbconfig.go:54-61 | `binary_parameters=yes` always; `sslmode=disable` exactly when no SSL mode is set, otherwise only a configured `sslmode` argument; other arguments keep their first value |
| DbConfig.MysqlArguments | db/dbconfig/dbconfig.go:46-50 | `parseTime=true` unless an argument overrides it; every argument keeps its first value |
| DbConfig.PostgresQuery | db/dbconfig/dbconfig.go:58-69 | the PostgreSQL query holds `binary_parameters=yes`, and `sslmode=disable` when no SSL mode is set |
| DbConfig.FormatPlain | db/dbconfig/dbconfig.go:51 | text without `%` passes through the format unchanged |
| DbConfig.FormatMissing | db/dbconfig/dbconfig.go:51 | a `%` directly before a plain verb is rendered as a missing operand |
| DbConfig.FormatAlters | db/dbconfig/dbconfig.go:51 | any text in which a `%` meets a plain verb is altered by the format |
| DbConfig.MysqlDSNAsWritten | db/dbconfig/dbconfig.go:51-52 | as written, the encoded arguments are read as format text, which agrees with the corrected DSN only when they hold no `%` |
| DbConfig.SlashArgumentMangled | db/dbconfig/dbconfig.go:51-52 | the argument `loc=/` reads `loc=%2F&parseTime=true` once corrected but `loc=%!F(MISSING)&parseTime=true` as written |
| DbConfig.MysqlOneArgument | db/dbconfig/dbconfig.go:46-51 | one argument under a key sorting before `parseTime` is encoded first |
| DbConfig.EncodeTwo | db/dbconfig/dbconfig.go:51-74 | two keys with one value each encode in key order |
| DbConfig.PairPlain | db/dbconfig/dbconfig.go:51-74 | keys and values of unreserved characters pair up unescaped |
| DbConfig.FormatEscape | db/dbconfig/dbconfig.go:51 | an escape whose first hex digit is a width before a plain verb is rendered as a missing operand |
| DbConfig.Prepare | db/dbconfig/dbconfig.go:81-98 | an unnamed SQLite database gets the template name; name, password, user and host are expanded; arguments always exist; PostgreSQL without an application name gets `program@site`, everything else keeps its arguments |
| DbConfig.PrepareNamesApplication | db/dbconfig/dbconfig.go:92-97 | after preparing, PostgreSQL always names its application, and preparing again keeps that name |
| DbConfig.ArgsString | db/dbconfig/dbconfig.go:102-111 | the named keys are gone, every other key keeps its values; the text is non-empty iff appending and something is left, and then `&` and the encoding |
| DbConfig.DelAll | db/dbconfig/dbconfig.go:103-105 | the named keys are gone and every other key reads as before |
| DbConfig.DelAllAbsent | db/dbconfig/dbconfig.go:103-105 | deleting keys that are not there changes nothing |
| DbConfig.ArgsAgain | db/dbconfig/dbconfig.go:102-111 | a second call with the same keys deletes nothing more and gives the same text |
| UrlValues.Lookup | db/dbconfig/dbconfig.go:94 | a key's values, none when it is absent |
| UrlValues.Get | db/dbconfig/dbconfig.go:94 | the first value of a key, or `""` |
| UrlValues.Set | db/dbconfig/dbconfig.go:47-95 | the key's values become exactly the one value; every other key reads as before |
| UrlValues.Del | db/dbconfig/dbconfig.go:104 | the key is gone; every other key reads as before |
| UrlValues.DelAbsent | db/dbconfig/dbconfig.go:104 | deleting an absent key changes nothing |
| UrlValues.QueryEscape | db/dbconfig/dbconfig.go:51-74 | an escaped text never holds `&` or `=` and is never shorter |
| UrlValues.EscapePlain | db/dbconfig/dbconfig.go:51-74 | text of unreserved characters is not changed by escaping |
| UrlValues.EscapeSpecials | db/dbconfig/dbconfig.go:51-74 | a space becomes `+`; `&`, `=` and `/` become `%26`, `%3D` and `%2F` |
| UrlValues.SortedKeys | db/dbconfig/dbconfig.go:51-74 | a permutation of the keys in ascending byte order |
| UrlValues.EncodeHas | db/dbconfig/dbconfig.go:51-74 | the contract of `Encode`: the encoding splits at `&` into pieces, each a `key=value` pair of a value some key holds, and every such pair is there |
| UrlValues.EncodeContains | db/dbconfig/dbconfig.go:51-74 | every value a key holds appears as a piece of the encoding |
| UrlValues.EncodeEmpty | db/dbconfig/dbconfig.go:106-110 | values whose keys hold nothing encode to `""` |
| ConfigSite.GetPath | config/site.go:84-95 | a missing segment on the way gives nothing; a single segment reads the map directly |
| ConfigSite.SetPath | config/site.go:31-42 | the first segment is present afterwards and every other top-level key is untouched |
| ConfigSite.GetSetPath | config/site.go:27-96 | after storing, the path reads back what was stored |
| ConfigSite.SetPathKeepsOthers | config/site.go:27-96 | storing at one path leaves every path that parts from it readable, with the same value |
| ConfigSite.SetPathCreates | config/site.go:34-41 | a missing first segment is created as nested maps down to the value |
| ConfigSite.SetPathFresh | config/site.go:34-42 | storing into an empty map builds exactly the nested maps |
| ConfigSite.GetPathMissing | config/site.go:87-92 | a missing prefix makes the whole path missing |
| ConfigSite.Set | config/site.go:27-44 | the key reads back the value afterwards |
| ConfigSite.Get | config/site.go:80-96 | nothing found reads nil; a key without dots reads the top-level map |
| ConfigSite.SetKeepsOthers | config/site.go:27-96 | storing under one key leaves every key whose segments part from it unchanged |
| ConfigSite.GetBool | config/site.go:98-107 | the stored value, else the first default, else false |
| ConfigSite.GetString | config/site.go:109-118 | the stored value, else the first default, else `""` |
| ConfigSite.GetInt | config/site.go:120-129 | the stored value, else the first default, else 0 |
| ConfigSite.TypedGetters | config/site.go:27-129 | a stored value wins over the defaults, and a stored nil falls back to them |
| ConfigSite.GetMany | config/site.go:68-78 | a nested map is returned as stored; a key holding nothing with the single `true` flag gets an empty map stored and returned |
| ConfigSite.GetManyStores | config/site.go:68-78 | afterwards the key holds the nested map returned |
| ConfigSite.DSN | config/site.go:225-241 | the MySQL string with `parseTime=True&loc=Local`, the PostgreSQL URL with its SSL mode, the SQLite name, `""` for any other adapter |
| ConfigSite.DSNSslDefault | config/site.go:231-234 | an empty SSL mode means `disable`, and only PostgreSQL reads it |
| HelpersFuncs.CheckReturnError | helpers/funcs.go:3-11 | no error iff every function succeeds, and then `""` after calling all; otherwise the first failure's name and error, with no function after it called |
| HelpersFuncs.CheckAppend | helpers/funcs.go:3-11 | checking two lists in turn is checking them joined: the second runs only when the first succeeded throughout |

## Left out

- HTTP and request plumbing (handlers, middleware, cookies, templates, file servers): they are I/O around the logic modelled here.
- Database and process I/O (opening connections, the SSH tunnel, `os.Args`, `filepath.Base`): the program name, the format and the format path are parameters instead.
- `resource/crud.go`: it is database access through the ORM.
- Reflection-based setters and decoders (`Meta` value setters, `ValueSetter`, `decodeMetaValuesToField`, `ToFloat`, `NewValue`, `SetZero`, `SetNonZero`): they act on Go reflection values and floating point.
- `resource/form_tree_metavalues.go` and the older duplicate `resource/schema.go`: the first rebuilds what the form tree already models; the second is superseded by the files that are modelled.
- Translation, logging and configuration libraries: a translated message is the parameter `show`, and the libraries themselves are outside this repository.
- Interface-only files and build glue: they hold no logic.
- Concurrency: the mutex of the sites register and `helpers/sync.go`; the model is sequential.
- The `utils` functions `ToParamString`, `SetCookie`, the `Stringify` family, `Htmlify`, `ModelType`, `ExitWithMsg`, `FileServer`, `GetLocale`, `ParseTime`, `FormatTime`, `GetAbsURL`, `RenderHtmlTemplate`, `TypeId` and `StringOrEmpty`: each is reflection, time, HTML or I/O.
- The regular-expression branch of `ParamsMatch` (utils/params.go:124-140): Go's regexp engine is outside the model.
- `Vars.Get` in str.go:64-69 loops without advancing its index; `FormatPath`, `FormatPtr` and `FormatPathPtr` depend on `filepath.Clean` and pointer writes.
- The doc comment of url/url.go:24 disagrees with its code; the model follows the code. URL parsing, printing and escaping of a whole URL are abstracted.
- CoreErrors: `GetErrorsT`, `StringT` and `StringifyError` are modelled with the translation abstracted as `show`; `Len`, `HasError` and `GetErrors` have no separate row.
- ResourceMetaValue: `FirstInterfaceValue` is left out; the ORM's blank test is a parameter.
- FormDataToMetaValues: `ConvertFormToMetaValues` is a wrapper that reads the request form; the regular-expression classes of the key parser are written out as character tests.
- Quirks kept as they are: the form tree's `[]` overwrite; `Validate` returning the error of a skipped validator; `GenStaticURL` dropping the other parts after an absolute first part; `EachOrAll` passing `StopSiteIteration` through unchanged; `Has` with no keys answering false; `Rename` leaving the site's own name, hosts and paths; the PostgreSQL `len(args) > 0` test, which is always true.
- `NewOtherConfig` (config/site.go:17-25): the branch for a plain `map[string]interface{}` value is not modelled, since the model's values are already configuration trees; `Merge`, `SetMany`, `GetSlice`, `GetStrings`, `GetInterface`, `GetAssetFS`, `On`, the site config's `Prepare` and `PrepareMediaStorage` are left out too, because they need reflection, assets or callbacks into other packages.
- `OptionFunc.Apply`, the replay of existing sites in the register's `On*` hooks, and `Only`: they are callback glue.
- Slice and map aliasing (for example a prepend sharing a backing array): the model's sequences and maps are values.
- ConfigSite.GetMany: the source returns the live nested map, so later writes through `SetMany` or `Merge` show in a map returned earlier; the model returns a copy.
- Go map iteration order: where the result is sorted anyway, and where the model fixes it as insertion order (`NamedHandlers.OwnNames` for the handlers' `byName` map, the sites register's `SitesMap` entries); no contract depends on that order. Text is ASCII only, with no UTF-8 case rules.
- Utils.SortFormKeys: states only that the result is a permutation, because the comparator is not proved a strict weak order and `sort.Slice` is not stable.
- Site.GetMediaStorageOrDefault: treats a stored nil storage like a missing one, because the model only tests presence.
- ContextProxy.SetValue: `maps.Map.Set` is not part of this model, so whether it allocates a nil map is not known; the model states nothing for a nil map.
- PrimaryQuery.IdToPrimaryQuery: writes ` IN ` and ` NOT IN ` where resource/utils.go:45-50 writes `IN IN` (and `NOT IN IN` glued to the field name); the source never returns that text, so the model writes the evident SQL.
- MapToMetaValues.Required: a deciding value whose first string cannot be read panics in the source; the model's check reports nothing there.
- PrimaryQueryHelpers.ValuesToPrimaryQuery: an explicitly empty non-nil slice is not told apart from no values.
- The full site `Init`, the opening of databases, and the request-derived static URL prefix: the prefix is a parameter.

## Findings

| source | as written | input that shows it | evidently intended | confidence | as-written member | corrected member |
|---|---|---|---|---|---|---|
| utils/formkey.go:50-54 | an all-digit index has its leading zeros trimmed before `strconv.Atoi`, so index `0` becomes the empty string and is refused as malformed | the key `a[0]` | `a[0]` parses to key `a`, index 0 | not executed | FormKey.ZeroIndexRefused | FormKey.ParseFormKey |
| errors.go:104-106 | `Reset` assigns nil to its own receiver copy, so the collection keeps its errors | any collection holding one error | after `Reset` the collection holds no errors | not executed | CoreErrors.ResetKeepsErrors | CoreErrors.Reset |
| context_errors.go:23-31 | the range loop appends to a copy of each formatted entry, so a second error with a label already seen is lost | two errors both labelled `name` | both messages listed under the one `name` entry | not executed | ContextErrors.SameLabelExample | ContextErrors.Formatted |
| resource/form_tree.go:119-133 | a `SkipDir` answer for the last child is left in the named result and returned to the caller | one child whose callback answers `SkipDir` | the walk skips that child and ends without error | not executed | ResourceFormTree.SkipDirEscapes | ResourceFormTree.Walk |
| resource/schema_map_to_metavalues.go:13-23 | the child metas are one variable shared by all entries, so an entry without its own meta is converted with the previous entry's child metas | entries `a` (with a meta whose child `x` is required) and `b` (without a meta, holding only `y`) | each entry is converted with its own metas only, so both values are kept | not executed | MapToMetaValues.CarriedMetasDropValue | MapToMetaValues.ConvertMap |
| resource/utils.go:43-51 | with several ids and one primary field, the `IN` condition is built but never assigned to the returned query | ids 1 and 2 with the single primary field `id` | a query testing `id` against the tuple of both ids, written with a single ` IN ` (` NOT IN ` when excluding) where the source's text doubles it | not executed | PrimaryQuery.SingleFieldQueryLost | PrimaryQuery.IdToPrimaryQuery |
| context_named_handler.go:52-62 | a parent's `Each` turns the stop signal into nil, so the caller goes on to the next parent | a callback that asks to stop at a handler of the first parent of two | no handler is visited after the stop | not executed | NamedHandlers.StopInParentContinues | NamedHandlers.EachHonours |
| sitegetter.go:23-30 | the combined getter returns its named result, still false, when a getter finds the value | one getter that finds and decodes the value | the combined getter answers true | not executed | SiteGetter.DecodedButFalse | SiteGetter.GetInterface |
| db/dbconfig/dbconfig.go:51 | the encoded arguments are concatenated into the `Sprintf` format, so a `%` escape in them is read as a verb | the argument `loc` set to `/` | `loc=%2F&parseTime=true` in the DSN | not executed | DbConfig.SlashArgumentMangled | DbConfig.DSN |
