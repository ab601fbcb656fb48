# Hierarchical names and a small file tree, modelled in Dafny

The modelled library represents hierarchical names such as `oss.cs.fau.de`: a sequence of
components separated by a one-character delimiter. A backslash escapes a delimiter, or another
backslash, inside a component. Each iteration of the library (`adap-b02` … `adap-b06`) has two
representations:

- a **string-backed** name (`StringName`), which keeps the whole name as one string;
- an **array-backed** name (`StringArrayName`), which keeps one string per component.

From the third iteration on, both share an abstract base class (`AbstractName`). The base class
provides `asString`, `toString`/`asDataString`, `isEqual`, `getHashCode`, `isEmpty` and `concat`
as template methods over `getNoComponents`/`getComponent`. Later iterations add contracts: a
violated precondition throws an IllegalArgument, a violated postcondition a MethodFailed, and a
broken class invariant an InvalidState. The sixth iteration makes the mutators return changed
copies. The fifth iteration also has a file tree: `Node`, `Directory`, `File` and `Link`.

How the model is laid out:

- **`Common`**: the error kinds, `Result`/`Outcome`/`Option`, and the JavaScript array operations
  the names use (`a[i] = x`, which can leave holes, and `splice`).
- **`Escaping`**: the escape codec shared by every iteration, written out character by
  character where the source builds regular expressions. It covers `escape`, `unescape`,
  `isEscaped`, the look-behind `splitString`, the plain `split` and `join`.
- **`Hashing`**: the 32-bit string hash of `getHashCode`.
- **`AbstractNameB03`/`B04`/`B05`**: the template methods of the base class. A name is seen
  there as a `Snapshot`: its delimiter and what `getComponent` returns for each index. Each loop
  is a method proved against a function.
- **`StringNameB02` … `B06` and `StringArrayNameB02` … `B06`**: each is a Dafny `class` with the
  source's fields, and mutators with `modifies` clauses. Each class also has a `View()` of what
  the base class sees.
- **`FileTree`**: the file tree as an arena class. Nodes are numbers, and the objects' fields
  (`baseName`, `parentNode`, `childNodes`, `targetNode`, `state`) are maps that the methods
  update in place. `Valid()` is the arena's shape together with every node's class invariant.
- **`FileRead`**: the retry loop of `File.read`.

The sixth iteration's `AbstractName` is not part of this model. The sixth-iteration classes are
modelled on the assumption that their base class escapes, checks components with `isEscaped`
and checks the delimiter as the fifth iteration's does.

In the second and third iterations nothing keeps the count and the components in step. A
`getComponent` below `getNoComponents()` may return `undefined` (a piece that is not there, or
a hole left by `setComponent` past the end of an array), or throw a TypeError (`escape` of a
hole). `AbstractNameB03` therefore sees each `getComponent` call as a `Read`: a string,
`undefined`, or an exception. The third iteration's template methods are written as the
fourth's, save for the delimiter check of `asString`. `AbstractNameB03.AgreesWithNextIteration`
proves that they give the same results when every read is a string.

## Model

| member | source | states |
|---|---|---|
| Common.Assign | src/adap-b02/names/StringName.ts:102-107 | `a[i] = x`: the element is set and the others stay. An index past the end grows the array, and the slots in between hold the given hole value: "" where the array is joined straight away (the string-backed names), `undefined` where elements are read back (the array-backed names) |
| Common.SpliceInsert | src/adap-b02/names/StringName.ts:110-115 | `splice(i, 0, x)`: one element more; x at i with the prefix and suffix kept; an index past the end appends |
| Common.SpliceRemove | src/adap-b02/names/StringName.ts:124-129 | `splice(i, 1)`: one element fewer, the prefix kept and the suffix shifted; an index past the end changes nothing |
| Escaping.Escape | src/adap-b05/names/AbstractName.ts:190-192 | escaping never shortens a string and leaves a string without the delimiter unchanged |
| Escaping.Unescape | src/adap-b05/names/AbstractName.ts:194-196 | unescaping never lengthens a string and leaves a backslash-free string unchanged |
| Escaping.IsEscaped | src/adap-b05/names/AbstractName.ts:198-205 | the two deletions and the check: a backslash-free string passes exactly when it holds no delimiter, and a string that starts with a bare delimiter never passes (the full characterisation is `IsEscapedIffWellEscaped`) |
| Escaping.IsEscapedIffWellEscaped | src/adap-b05/names/AbstractName.ts:198-205 | the two `replaceAll` deletions followed by the check accept exactly the strings made of the tokens `\\`, `\d` and characters that are neither a backslash nor the delimiter |
| Escaping.EscapeIsEscaped | src/adap-b05/names/AbstractName.ts:190-205 | `escape` of a backslash-free string passes `isEscaped` |
| Escaping.EscapeOfEscaped | src/adap-b05/names/AbstractName.ts:190-205 | `escape` of a string that passes `isEscaped` returns it unchanged (no double escaping) |
| Escaping.UnescapeEscape | src/adap-b04/names/AbstractName.ts:81-88 | `unescape` undoes `escape` for every string where no backslash already stands before a delimiter |
| Escaping.BackslashFreeHasNoEscapedDelimiter | src/adap-b04/names/AbstractName.ts:81-88 | a backslash-free string meets the condition of that round trip |
| Escaping.Split | src/adap-b05/names/StringName.ts:147-149 | `str.split` at every delimiter not preceded by a backslash: never empty, and the empty string gives one empty piece (its inverse is `JoinSplit`/`SplitJoin`) |
| Escaping.SplitCount | src/adap-b02/names/StringName.ts:24-39 | the look-behind split has one piece more than there are delimiters not preceded by a backslash, which is the count the constructor computes |
| Escaping.JoinSplit | src/adap-b05/names/StringName.ts:147-149 | joining the pieces of `splitString` with the delimiter gives back the string |
| Escaping.SplitIsResplittable | src/adap-b05/names/StringName.ts:147-149 | no piece of `splitString` holds a bare delimiter, and none but the last ends in a backslash |
| Escaping.SplitJoin | src/adap-b05/names/StringName.ts:147-149 | pieces with no bare delimiter, none but the last ending in a backslash, come back from `splitString` of their join |
| Escaping.SplitWithoutBareDelimiter | src/adap-b05/names/StringName.ts:147-149 | a string without a bare delimiter is a single piece |
| Escaping.SplitRaw | src/adap-b04/names/StringName.ts:18-26 | `str.split(d)` gives at least one piece and no piece holds `d` |
| Escaping.SplitRawJoin | src/adap-b04/names/StringName.ts:28-34 | parts without the delimiter come back from `split` of their join |
| Escaping.JoinSplitRaw | src/adap-b04/names/StringName.ts:28-34 | joining the pieces of `split(d)` with `d` gives back the string |
| Escaping.Join | src/adap-b03/names/AbstractName.ts:20 | `Array.join`: no parts give "", one part gives itself, and the join always starts with the first part |
| Escaping.JoinSnoc | src/adap-b05/names/StringName.ts:93-109 | appending one part to a non-empty list adds the separator and the part to the join |
| Escaping.AppendedSnoc | src/adap-b05/names/AbstractName.ts:177-188 | appending one more item adds the delimiter and the item to the string |
| Escaping.TranslateKeepsValue | src/adap-b05/names/AbstractName.ts:177-188 | the component `concat` hands to `append` is escaped for the receiver and keeps its literal value, when that value holds no backslash |
| Escaping.EscapedBackslashFreeIsResplittable | src/adap-b05/names/AbstractName.ts:190-192 | escaped backslash-free components can be told apart again after joining |
| Escaping.EscapeAfterLast | src/adap-b05/names/AbstractName.ts:190-192 | escaping keeps a string's last character |
| Escaping.SplitTokensJoin | src/adap-b05/names/StringName.ts:147-149 | a token-aware split gives back every list of well-escaped components from their join, including components ending in an escaped backslash |
| Escaping.EscapeTokensWellEscaped | src/adap-b05/names/AbstractName.ts:190-205 | escaping every backslash and delimiter yields a well-escaped string, and token-aware unescaping reverses it |
| Escaping.UnescapeTokensEscapeTokens | src/adap-b05/names/AbstractName.ts:190-205 | for a well-escaped string, token-aware unescaping followed by escaping gives it back |
| Escaping.EscapeTokensAgrees | src/adap-b05/names/AbstractName.ts:190-192 | on backslash-free strings the token-aware escape equals the source's `escape` |
| Hashing.ToInt32 | src/adap-b05/names/AbstractName.ts:116-121 | `x \| 0` lands in the signed 32-bit range and agrees with x modulo 2^32 |
| Hashing.HashStepIsTimes31 | src/adap-b05/names/AbstractName.ts:119-120 | `(h << 5) - h + c` followed by `\|= 0` is the 32-bit wrapped `31 * h + c` |
| Hashing.HashSnoc | src/adap-b05/names/AbstractName.ts:116-121 | one more character multiplies the hash by 31 and adds its code, modulo 2^32 |
| Hashing.StringHash | src/adap-b05/names/AbstractName.ts:116-121 | the loop computes the left fold of the step over the string |
| AbstractNameB03.AsString | src/adap-b03/names/AbstractName.ts:13-21 | the while-loop returns the components unescaped under the own delimiter and joined by any given string; the first read `unescape` cannot take (`undefined` is a TypeError, an exception propagates) ends it |
| AbstractNameB03.AsDataString | src/adap-b03/names/AbstractName.ts:29-37 | the while-loop joins what `getComponent` returns with the own delimiter, `undefined` written as empty; an exception of `getComponent` propagates |
| AbstractNameB03.GetHashCode | src/adap-b03/names/AbstractName.ts:40-49 | the 32-bit hash of `toString()` followed by the delimiter, in the signed 32-bit range; a failing `toString()` propagates |
| AbstractNameB03.IsEqual | src/adap-b03/names/AbstractName.ts:56-66 | different counts are not equal; the loop reads the own component, then the other's, either may throw, and returns false at the first pair differing under `!==`; then the delimiters decide |
| AbstractNameB03.IsEmpty | src/adap-b03/names/AbstractName.ts:68-70 | true exactly when the count is 0; a negative count is not empty |
| AbstractNameB03.WhenReadsFail | src/adap-b03/names/AbstractName.ts:13-49 | `asString` succeeds exactly when every read is a string; `asDataString` and `getHashCode` exactly when no read throws |
| AbstractNameB03.IsEqualIsSameSnapshot | src/adap-b03/names/AbstractName.ts:56-66 | `isEqual` holds exactly when the two names have the same count, reads and delimiter and no read throws |
| AbstractNameB03.EqualNamesHashAlike | src/adap-b03/names/AbstractName.ts:40-66 | equal names have equal hash codes |
| AbstractNameB03.AsStringWithEmptyDelimiter | src/adap-b03/names/AbstractName.ts:13-21 | without a check, an empty delimiter glues the components together: the length is the sum of their lengths |
| AbstractNameB03.AgreesWithNextIteration | src/adap-b03/names/AbstractName.ts:13-49 | on a name with a non-negative count whose reads are strings, `asString` with a non-empty delimiter, `asDataString` and `getHashCode` give what the fourth iteration's give |
| AbstractNameB03.IsEqualAgreesWithNextIteration | src/adap-b03/names/AbstractName.ts:56-66 | on two such names `isEqual` gives what the fourth iteration's gives |
| AbstractNameB03.ConcatItems | src/adap-b03/names/AbstractName.ts:88-93 | what `concat` appends: each component, unescaped under the other delimiter and escaped under the own one, up to the first read that is not a string |
| AbstractNameB03.ConcatStopsAtFirstFailure | src/adap-b03/names/AbstractName.ts:88-93 | `concat` passes exactly when every read is a string; otherwise it fails with the first failing read's error, after the items before it |
| AbstractNameB03.ConcatOfDefinedName | src/adap-b03/names/AbstractName.ts:88-93 | on a name whose reads are strings, `concat` passes and appends what the fourth iteration's appends |
| AbstractNameB04.CheckDelimiter | src/adap-b04/names/AbstractName.ts:7-12 | the constructor accepts a missing delimiter as the default and any non-empty one, and rejects the empty one with an `Error` |
| AbstractNameB04.AsString | src/adap-b04/names/AbstractName.ts:15-27 | an empty delimiter is an `Error`; otherwise the loop returns the unescaped components joined by it |
| AbstractNameB04.AsDataString | src/adap-b04/names/AbstractName.ts:29-41 | the loop returns the components as `getComponent` gives them, joined by the own delimiter |
| AbstractNameB04.IsEqual | src/adap-b04/names/AbstractName.ts:62-72 | the early-return loop answers true exactly when the counts, every component and the delimiters agree |
| AbstractNameB04.IsEqualIsSameSnapshot | src/adap-b04/names/AbstractName.ts:62-72 | `isEqual` holds exactly when the two names are the same value |
| AbstractNameB04.GetHashCode | src/adap-b04/names/AbstractName.ts:47-56 | the hash of `toString()` plus the delimiter, a signed 32-bit number |
| AbstractNameB04.EqualNamesHashAlike | src/adap-b04/names/AbstractName.ts:47-72 | names that are `isEqual` have the same hash code |
| AbstractNameB04.IsEmpty | src/adap-b04/names/AbstractName.ts:43-45 | true exactly when there are no components |
| AbstractNameB04.AsStringReadsBack | src/adap-b04/names/AbstractName.ts:15-27 | splitting `asString(d)` at `d` gives the unescaped components, when none contains `d` |
| AbstractNameB04.DataStringReadsBack | src/adap-b04/names/AbstractName.ts:33-41 | splitting `asDataString()` at the bare delimiters gives the components back, when they can be told apart |
| AbstractNameB04.TranslateAllKeepsValues | src/adap-b04/names/AbstractName.ts:74-79 | the appended components unescape to the other name's literal components and are properly escaped, when those hold no backslash |
| AbstractNameB05.CheckDelimiter | src/adap-b05/names/AbstractName.ts:11-22 | a missing delimiter is the default; a given one must be exactly one character, or it is an IllegalArgument |
| AbstractNameB05.Collect | src/adap-b05/names/AbstractName.ts:52-69 | the template loops see all components in order, or stop at the first `getComponent` that throws |
| AbstractNameB05.AsString | src/adap-b05/names/AbstractName.ts:24-49 | a delimiter of other than one character is an IllegalArgument; a failing `getComponent` propagates; else the unescaped components joined by it |
| AbstractNameB05.ToString | src/adap-b05/names/AbstractName.ts:52-69 | the components as `getComponent` gives them, joined by the own delimiter, or the first failure |
| AbstractNameB05.AsDataString | src/adap-b05/names/AbstractName.ts:71-97 | each component unescaped under the own delimiter, escaped under '.', joined by '.', or the first failure |
| AbstractNameB05.IsEqual | src/adap-b05/names/AbstractName.ts:100-109 | equal data strings and equal delimiters; the receiver's failure first, then the other name's |
| AbstractNameB05.GetHashCode | src/adap-b05/names/AbstractName.ts:111-124 | the hash of `toString()` plus the delimiter, or the failure of `toString()` |
| AbstractNameB05.IsEmpty | src/adap-b05/names/AbstractName.ts:142-150 | true exactly when there are no components |
| AbstractNameB05.ConcatFrom | src/adap-b05/names/AbstractName.ts:177-188 | what `concat` appends is at most the other name's components, all of them when it passes, each one escaped for the receiver |
| AbstractNameB05.DataStringRoundTrip | src/adap-b05/names/AbstractName.ts:71-97 | splitting the data string at the bare '.' and unescaping gives the literal components back, for components without a backslash |
| AbstractNameB05.IsEqualMeansSameValues | src/adap-b05/names/AbstractName.ts:100-109 | for components without a backslash, `isEqual` holds exactly when the delimiters and the literal components agree |
| AbstractNameB05.HashFollowsComponents | src/adap-b05/names/AbstractName.ts:111-124 | names with the same delimiter and the same components hash alike |
| AbstractNameB05.IsEqualButHashesDiffer | src/adap-b05/names/AbstractName.ts:100-124 | two names that are `isEqual` yet have different hash codes |
| AbstractNameB05.ComponentwiseEqualityIsHashConsistent | src/adap-b05/names/AbstractName.ts:100-124 | names equal under the corrected equality have equal hash codes and are `isEqual` too |
| AbstractNameB05.ConcatOfPlainValues | src/adap-b05/names/AbstractName.ts:177-188 | `concat` of a name whose literal components hold no backslash passes and appends those components escaped for the receiver |
| AbstractNameB05.ConcatFromPlainValues | src/adap-b05/names/AbstractName.ts:177-188 | from any index on, the loop appends the remaining literal components escaped, and passes |
| StringNameB02.StringName.constructor | src/adap-b02/names/StringName.ts:24-39 | the string is stored as given; the count is one plus the delimiters not preceded by a backslash, i.e. the look-behind split's piece count |
| StringNameB02.StringName.GetNoComponents | src/adap-b02/names/StringName.ts:92-94 | the stored count as it is, which no operation keeps in step with the pieces |
| StringNameB02.StringName.AsString | src/adap-b02/names/StringName.ts:46-61 | the character loop emits what the scan function defines |
| StringNameB02.AsStringReplacesDelimiters | src/adap-b02/names/StringName.ts:46-61 | on a backslash-free string, `asString(sep)` is the plain split joined by `sep` |
| StringNameB02.AsStringEmitsEscapedCharacterTwice | src/adap-b02/names/StringName.ts:48-52 | a backslash before an ordinary character emits that character twice |
| StringNameB02.StringName.AsDataString | src/adap-b02/names/StringName.ts:67-79 | the character loop replaces each delimiter not preceded by a backslash with '.' |
| StringNameB02.DataStringJoinsPieces | src/adap-b02/names/StringName.ts:67-79 | the data string is the look-behind split joined by '.' |
| StringNameB02.StringName.IsEmpty | src/adap-b02/names/StringName.ts:82-84 | true exactly when the name has at least one character, as written |
| StringNameB02.StringName.GetComponent | src/adap-b02/names/StringName.ts:97-99 | piece x of the split at every delimiter, or `undefined` past the last piece |
| StringNameB02.StringName.SetComponent | src/adap-b02/names/StringName.ts:102-107 | the string becomes the pieces with piece n assigned, joined again; the count stays |
| StringNameB02.StringName.Insert | src/adap-b02/names/StringName.ts:110-115 | the pieces with c spliced in at n, joined; the count grows by one |
| StringNameB02.StringName.Append | src/adap-b02/names/StringName.ts:118-121 | the delimiter goes in only when the string is non-empty; the count grows by one |
| StringNameB02.AppendToEmptyOverCounts | src/adap-b02/names/StringName.ts:118-121 | appending to the empty string yields one piece while the count says two |
| StringNameB02.StringName.Remove | src/adap-b02/names/StringName.ts:124-129 | the pieces with piece n removed, joined; the count drops by one |
| StringNameB02.StringName.Reads | src/adap-b02/names/StringName.ts:142-144 | what `getComponent` returns for each index below the count: a piece, or `undefined` past the last piece |
| StringNameB02.StringName.Concat | src/adap-b02/names/StringName.ts:139-146 | nothing when the delimiters differ, else every value the other name's `getComponent` returns appended, `undefined` as the text "undefined"; the count grows by their number |
| StringNameB02.OverCountedNameConcatsUndefined | src/adap-b02/names/StringName.ts:118-146 | a name that counts more components than it has reads `undefined` past its pieces, and `concat` of it appends the text "undefined" |
| StringNameB02.EscapedDelimiterCountsOnceSplitsTwice | src/adap-b02/names/StringName.ts:24-39 | `a\.b` counts as one component but `getComponent` splits it into two pieces |
| StringArrayNameB02.StringArrayName.constructor | src/adap-b02/names/StringArrayName.ts:18-25 | the components are stored as given, in order, with no holes |
| StringArrayNameB02.StringArrayName.GetNoComponents | src/adap-b02/names/StringArrayName.ts:61-63 | the length of the array, holes included |
| StringArrayNameB02.StringArrayName.AsString | src/adap-b02/names/StringArrayName.ts:32-40 | the loop joins the components with the own delimiter, a hole written as "undefined", ignoring the argument |
| StringArrayNameB02.StringArrayName.AsDataString | src/adap-b02/names/StringArrayName.ts:46-48 | the components joined by the own delimiter, a hole written as "undefined" |
| StringArrayNameB02.StringArrayName.IsEmpty | src/adap-b02/names/StringArrayName.ts:51-53 | true exactly when there are no components |
| StringArrayNameB02.StringArrayName.GetComponent | src/adap-b02/names/StringArrayName.ts:66-68 | the stored component, or `undefined` for a hole and past the end |
| StringArrayNameB02.StringArrayName.Reads | src/adap-b02/names/StringArrayName.ts:101-103 | what `getComponent` returns for each index below the count, holes as `undefined` |
| StringArrayNameB02.StringArrayName.SetComponent | src/adap-b02/names/StringArrayName.ts:71-75 | a lone backslash is ignored; otherwise element i is assigned, and past the end the array grows with holes |
| StringArrayNameB02.StringArrayName.Insert | src/adap-b02/names/StringArrayName.ts:78-80 | c spliced in at i |
| StringArrayNameB02.StringArrayName.Append | src/adap-b02/names/StringArrayName.ts:83-85 | c added at the end |
| StringArrayNameB02.StringArrayName.Remove | src/adap-b02/names/StringArrayName.ts:88-90 | element i spliced out |
| StringArrayNameB02.StringArrayName.Concat | src/adap-b02/names/StringArrayName.ts:99-105 | nothing when the delimiters differ, else every value the other name's `getComponent` returns pushed in order, `undefined` included |
| StringArrayNameB02.HolePrintsUndefined | src/adap-b02/names/StringArrayName.ts:32-40 | `setComponent(2, "c")` on the name `a` leaves a hole that `asString` writes as "undefined": `a.undefined.c` |
| StringArrayNameB02.PlainNameReadsBack | src/adap-b02/names/StringArrayName.ts:32-40 | without holes, the components split back out of `asString` when none holds the delimiter |
| StringNameB03.StringName.constructor | src/adap-b03/names/StringName.ts:10-14 | the string as given; the length is the number of pieces of the look-behind split |
| StringNameB03.StringName.GetNoComponents | src/adap-b03/names/StringName.ts:17-19 | the stored count, which is the number of look-behind pieces while the name is in step |
| StringNameB03.StringName.GetComponent | src/adap-b03/names/StringName.ts:22-24 | piece i of the look-behind split, or `undefined` |
| StringNameB03.StringName.View | src/adap-b03/names/StringName.ts:17-24 | the template methods see the count `length` and, for each index below it, the matching piece or `undefined` past the last piece |
| StringNameB03.StringName.SetComponent | src/adap-b03/names/StringName.ts:27-31 | piece i assigned and joined, the length kept; on a clean name with a clean component exactly piece i changes |
| StringNameB03.StringName.Insert | src/adap-b03/names/StringName.ts:34-39 | c spliced in, joined, length plus one; on a clean name the pieces are exactly the spliced ones |
| StringNameB03.StringName.Append | src/adap-b03/names/StringName.ts:42-45 | delimiter and c appended, length plus one; on a clean name exactly one piece is added |
| StringNameB03.StringName.Remove | src/adap-b03/names/StringName.ts:48-53 | piece i spliced out, joined, length minus one; on a clean name of two or more pieces exactly that piece goes |
| StringNameB03.StringName.Concat | src/adap-b03/names/AbstractName.ts:88-93 | the translated components appended up to the first read that is not a string, whose failure is the outcome; the length grows by their number; on a clean name exactly those pieces are added |
| StringNameB03.EmptyNameThenAppend | src/adap-b03/names/StringName.ts:10-45 | the empty name has one empty component, and an append then gives two |
| StringNameB03.SyncedNameReadsBack | src/adap-b03/names/AbstractName.ts:29-37 | a synchronised name's data string is its stored string |
| StringNameB03.SetComponentHidesDelimiter | src/adap-b03/names/StringName.ts:27-31 | `setComponent(0, "a\\")` on `x.y` gives the string `a\.y`, a single piece, while the length stays 2 |
| StringNameB03.MissingPieceReadsUndefined | src/adap-b03/names/StringName.ts:22-24 | on that name index 1 reads `undefined`: the data string is `a\.y.` and `asString` throws a TypeError |
| StringNameB03.SetComponentWithDelimiterDesyncs | src/adap-b03/names/StringName.ts:27-31 | a component holding a bare delimiter leaves more pieces than `length` |
| StringArrayNameB03.StringArrayName.constructor | src/adap-b03/names/StringArrayName.ts:9-14 | every input is stored unescaped, with no holes |
| StringArrayNameB03.StringArrayName.GetNoComponents | src/adap-b03/names/StringArrayName.ts:17-19 | the length of the array, holes included |
| StringArrayNameB03.StringArrayName.GetComponent | src/adap-b03/names/StringArrayName.ts:22-24 | the stored value escaped again; a hole or an index past the end throws a TypeError |
| StringArrayNameB03.StringArrayName.View | src/adap-b03/names/StringArrayName.ts:17-24 | the template methods see one read per array slot, each what `getComponent` returns or throws |
| StringArrayNameB03.StringArrayName.SetComponent | src/adap-b03/names/StringArrayName.ts:27-29 | element i becomes `unescape(c)`, and past the end the array grows with holes |
| StringArrayNameB03.StringArrayName.Insert | src/adap-b03/names/StringArrayName.ts:32-34 | `unescape(c)` spliced in at i |
| StringArrayNameB03.StringArrayName.Append | src/adap-b03/names/StringArrayName.ts:37-39 | `unescape(c)` added at the end |
| StringArrayNameB03.StringArrayName.Remove | src/adap-b03/names/StringArrayName.ts:42-44 | element i spliced out |
| StringArrayNameB03.StringArrayName.Concat | src/adap-b03/names/AbstractName.ts:88-93 | the other name's translated components appended unescaped, up to the first read that is not a string, whose failure is the outcome |
| StringArrayNameB03.SetThenGetReadsBack | src/adap-b03/names/StringArrayName.ts:22-29 | after setting `escape(s)` for a backslash-free s, the stored value is s and `getComponent` returns `escape(s)` |
| StringArrayNameB03.PlainNamePrints | src/adap-b03/names/AbstractName.ts:13-37 | for backslash-free values without holes, the components unescape to them and the data string splits back into the components |
| StringArrayNameB03.SetPastEndLeavesHole | src/adap-b03/names/StringArrayName.ts:22-29 | `setComponent` two past the end leaves a hole; reading it throws a TypeError, and so do `asDataString`, `getHashCode` and `asString` |
| StringNameB04.StringName.Create | src/adap-b04/names/StringName.ts:7-16 | a bad delimiter is an `Error`, then an empty name an IllegalArgument; otherwise the name is stored unescaped |
| StringNameB04.StringName.GetNoComponents | src/adap-b04/names/StringName.ts:18-20 | the number of pieces of the plain split, at least one |
| StringNameB04.StringName.GetComponent | src/adap-b04/names/StringName.ts:22-26 | an index outside the pieces is an `Error`; otherwise piece i, which holds no delimiter |
| StringNameB04.StringName.SetComponent | src/adap-b04/names/StringName.ts:28-34 | a bad index changes nothing and fails; otherwise piece i becomes `unescape(c)` and the pieces are joined |
| StringNameB04.StringName.Insert | src/adap-b04/names/StringName.ts:36-42 | the read-index check rejects the end position; otherwise `unescape(c)` is spliced in at i |
| StringNameB04.StringName.Append | src/adap-b04/names/StringName.ts:44-47 | delimiter and `unescape(c)` appended |
| StringNameB04.StringName.Remove | src/adap-b04/names/StringName.ts:49-55 | a bad index fails; otherwise piece i is spliced out |
| StringNameB04.StringName.Concat | src/adap-b04/names/AbstractName.ts:74-79 | each translated component appended unescaped |
| StringNameB04.ComponentsJoinToName | src/adap-b04/names/StringName.ts:18-26 | the components joined by the delimiter give the stored string |
| StringNameB04.ConstructorDropsEscapes | src/adap-b04/names/StringName.ts:7-16 | a name built from `escape(u)` has the pieces of u split at every delimiter: escaping is lost |
| StringNameB04.SetComponentKeepsComponents | src/adap-b04/names/StringName.ts:28-34 | when `unescape(c)` holds no delimiter, exactly piece i changes |
| StringNameB04.InsertKeepsComponents | src/adap-b04/names/StringName.ts:36-42 | when `unescape(c)` holds no delimiter, exactly one piece is inserted at i |
| StringNameB04.AppendKeepsComponents | src/adap-b04/names/StringName.ts:44-47 | when `unescape(c)` holds no delimiter, exactly one piece is added |
| StringNameB04.RemoveKeepsComponents | src/adap-b04/names/StringName.ts:49-55 | with two or more pieces, exactly piece i goes |
| StringNameB04.RemoveLastLeavesOneComponent | src/adap-b04/names/StringName.ts:49-55 | removing the only piece leaves the empty string, which still has one component |
| StringNameB04.ConcatKeepsComponents | src/adap-b04/names/AbstractName.ts:74-79 | appending items without the delimiter adds exactly those pieces |
| StringArrayNameB04.StringArrayName.Create | src/adap-b04/names/StringArrayName.ts:9-23 | an empty delimiter is an `Error`; otherwise every input is stored unescaped |
| StringArrayNameB04.StringArrayName.GetNoComponents | src/adap-b04/names/StringArrayName.ts:25-32 | the length of the array; the non-negative check always holds |
| StringArrayNameB04.StringArrayName.GetComponent | src/adap-b04/names/StringArrayName.ts:34-42 | an index outside the array is an IllegalArgument; otherwise the stored value escaped |
| StringArrayNameB04.StringArrayName.SetComponent | src/adap-b04/names/StringArrayName.ts:44-52 | a bad index fails and changes nothing; otherwise element i becomes `unescape(c)` |
| StringArrayNameB04.StringArrayName.Insert | src/adap-b04/names/StringArrayName.ts:54-65 | the end position is accepted; otherwise out of range fails; `unescape(c)` spliced in |
| StringArrayNameB04.StringArrayName.Append | src/adap-b04/names/StringArrayName.ts:67-74 | `unescape(c)` added at the end |
| StringArrayNameB04.StringArrayName.Remove | src/adap-b04/names/StringArrayName.ts:76-80 | a bad index fails; otherwise element i spliced out |
| StringArrayNameB04.StringArrayName.Concat | src/adap-b04/names/AbstractName.ts:74-79 | the translated components appended unescaped |
| StringArrayNameB04.PlainComponentsReadBack | src/adap-b04/names/StringArrayName.ts:9-42 | a name built from escaped backslash-free components returns them unchanged and `asString` sees their literal values |
| StringArrayNameB04.RepresentationsAgree | test/adap-b04/names/StringArrayName.test.ts:18-25 | the array name and the string name built from the same plain components are `isEqual` |
| StringArrayNameB04.OssCsNamesAgree | test/adap-b04/names/StringArrayName.test.ts:18-25 | `["oss", "cs"]` and `"oss.cs"` are `isEqual` and print alike |
| StringNameB05.StringName.Create | src/adap-b05/names/StringName.ts:11-20 | a bad delimiter is an IllegalArgument; otherwise the string is stored and the count is the number of look-behind pieces |
| StringNameB05.StringName.GetComponent | src/adap-b05/names/StringName.ts:33-49 | an index outside the count is an IllegalArgument; a result is the matching piece and is escaped; a missing or unescaped piece is a MethodFailed |
| StringNameB05.StringName.View | src/adap-b05/names/StringName.ts:22-49 | the template methods see `noComponents` results of `getComponent` |
| StringNameB05.StringName.SetComponent | src/adap-b05/names/StringName.ts:51-67 | a bad index or an unescaped component fails and changes nothing; otherwise piece i is assigned, joined, and the count is the new piece count |
| StringNameB05.StringName.Insert | src/adap-b05/names/StringName.ts:69-91 | likewise, with the end position allowed and c spliced in |
| StringNameB05.StringName.Append | src/adap-b05/names/StringName.ts:93-109 | an unescaped component fails; otherwise delimiter and c are appended and the count is one more than the old pieces |
| StringNameB05.StringName.Remove | src/adap-b05/names/StringName.ts:111-132 | a bad index fails; otherwise piece i is spliced out and the count is the new piece count |
| StringNameB05.StringName.Concat | src/adap-b05/names/AbstractName.ts:177-188 | the loop appends the planned components and ends with the plan's outcome, the first failure leaving earlier appends in place |
| StringNameB05.CleanPiecesResplit | src/adap-b05/names/StringName.ts:147-149 | clean pieces joined by the delimiter split back into themselves |
| StringNameB05.SetComponentKeepsComponents | src/adap-b05/names/StringName.ts:51-67 | on clean pieces, a clean component replaces exactly piece i |
| StringNameB05.InsertKeepsComponents | src/adap-b05/names/StringName.ts:69-91 | on clean pieces, a clean component is inserted as exactly one piece |
| StringNameB05.AppendKeepsComponents | src/adap-b05/names/StringName.ts:93-109 | on clean pieces, a clean component adds exactly one piece |
| StringNameB05.RemoveKeepsComponents | src/adap-b05/names/StringName.ts:111-132 | on two or more clean pieces, exactly piece i goes |
| StringNameB05.CleanNameReadsBack | src/adap-b05/names/StringName.ts:33-49 | a synchronised clean name returns every piece and its `toString()` is the stored string |
| StringNameB05.ConcatKeepsComponents | src/adap-b05/names/AbstractName.ts:177-188 | concatenating a name with backslash-free literal components passes, keeps the count in step and adds exactly those components |
| StringNameB05.SetComponentEscapedBackslashMerges | src/adap-b05/names/StringName.ts:51-67 | setting the escaped component `a\\` on `x.y` is accepted and counts two, yet the string splits into one piece |
| StringNameB05.MergedNameIsUnreadable | src/adap-b05/names/StringName.ts:33-49 | after that edit every `getComponent` fails with a MethodFailed |
| StringNameB05.CorrectedSetComponentKeepsComponents | src/adap-b05/names/StringName.ts:51-67 | with a token-aware split, setting any escaped component replaces exactly that piece |
| StringArrayNameB05.StringArrayName.Create | src/adap-b05/names/StringArrayName.ts:8-29 | a bad delimiter, an empty array or an unescaped component is an IllegalArgument; otherwise the components are stored unescaped |
| StringArrayNameB05.StringArrayName.GetComponent | src/adap-b05/names/StringArrayName.ts:51-60 | an index outside the array is an IllegalArgument; the escaped stored value, or a MethodFailed when that is not escaped |
| StringArrayNameB05.StringArrayName.View | src/adap-b05/names/StringArrayName.ts:44-60 | the template methods see one `getComponent` result per stored component |
| StringArrayNameB05.StringArrayName.SetComponent | src/adap-b05/names/StringArrayName.ts:62-72 | an unescaped component or bad index fails and changes nothing; otherwise element i becomes `unescape(c)` |
| StringArrayNameB05.StringArrayName.Insert | src/adap-b05/names/StringArrayName.ts:74-85 | likewise, the end position allowed, `unescape(c)` spliced in |
| StringArrayNameB05.StringArrayName.Append | src/adap-b05/names/StringArrayName.ts:87-97 | an unescaped component fails; otherwise `unescape(c)` is added |
| StringArrayNameB05.StringArrayName.Remove | src/adap-b05/names/StringArrayName.ts:99-108 | a bad index fails; otherwise element i spliced out |
| StringArrayNameB05.StringArrayName.Concat | src/adap-b05/names/AbstractName.ts:177-188 | the planned components appended unescaped, ending with the plan's outcome |
| StringArrayNameB05.PlainComponentReadsBack | src/adap-b05/names/StringArrayName.ts:51-60 | a backslash-free stored value is returned escaped and unescapes to itself |
| StringArrayNameB05.EscapedValuesAreAccepted | src/adap-b05/names/StringArrayName.ts:8-29 | escaped backslash-free values pass the constructor's checks and are stored as the values themselves |
| StringArrayNameB05.PlainNamePrints | src/adap-b05/names/AbstractName.ts:24-69 | for backslash-free values, `asString(sep)` joins the values and `toString()` their escapings |
| StringArrayNameB05.SetThenGetPlain | src/adap-b05/names/StringArrayName.ts:51-72 | setting `escape(u)` for a backslash-free u is accepted and `getComponent` then returns the same string |
| StringArrayNameB05.SetThenGetFailsAfterEscapedBackslash | src/adap-b05/names/StringArrayName.ts:51-72 | `\\\.` is accepted, stored as `\\.`, whose escaping is not escaped |
| StringArrayNameB05.StoredEscapedBackslashIsUnreadable | src/adap-b05/names/StringArrayName.ts:51-60 | that stored value makes `getComponent` fail with a MethodFailed |
| StringArrayNameB05.CorrectedSetThenGet | src/adap-b05/names/StringArrayName.ts:51-72 | with a token-aware codec every escaped component reads back as set, and every stored value is returned escaped |
| StringNameB06.StringName.Create | src/adap-b06/names/StringName.ts:10-18 | a bad delimiter is an IllegalArgument; otherwise the string is stored and the count is its piece count |
| StringNameB06.StringName.GetComponent | src/adap-b06/names/StringName.ts:27-36 | as in the fifth iteration: IllegalArgument outside the count, a result that is the escaped matching piece, MethodFailed otherwise |
| StringNameB06.StringName.SetComponent | src/adap-b06/names/StringName.ts:38-50 | the receiver is unchanged; a bad index or unescaped component is an IllegalArgument; else a fresh copy with piece i assigned and its piece count |
| StringNameB06.StringName.Insert | src/adap-b06/names/StringName.ts:52-64 | the receiver is unchanged; the end position is rejected; else a fresh copy with c spliced in |
| StringNameB06.StringName.Append | src/adap-b06/names/StringName.ts:66-77 | the receiver is unchanged; an unescaped component fails; else a fresh copy with delimiter and c appended |
| StringNameB06.StringName.Remove | src/adap-b06/names/StringName.ts:79-90 | the receiver is unchanged; a bad index fails; else a fresh copy with piece i removed |
| StringNameB06.StringName.Copy | src/adap-b06/names/StringName.ts:98-102 | the copy carries the given delimiter, string and count |
| StringNameB06.SetComponentCopyReadsBack | src/adap-b06/names/StringName.ts:38-50 | for a name whose pieces keep apart and a clean component, the returned copy has the receiver's pieces with piece i replaced, counts them, and reads c back at i |
| StringNameB06.AppendCopyReadsBack | src/adap-b06/names/StringName.ts:66-77 | for such a name, the returned copy has the receiver's pieces followed by c, and reads c back last |
| StringArrayNameB06.StringArrayName.Create | src/adap-b06/names/StringArrayName.ts:9-33 | a bad delimiter is an IllegalArgument; an empty array or an unescaped component a MethodFailed; otherwise stored unescaped |
| StringArrayNameB06.StringArrayName.GetComponent | src/adap-b06/names/StringArrayName.ts:62-71 | the index check and the result check both fail as a MethodFailed; a result is the escaped stored value |
| StringArrayNameB06.StringArrayName.SetComponent | src/adap-b06/names/StringArrayName.ts:73-84 | the receiver is unchanged; a bad index or unescaped component is a MethodFailed; else a fresh copy with element i replaced |
| StringArrayNameB06.StringArrayName.Insert | src/adap-b06/names/StringArrayName.ts:87-98 | the receiver is unchanged; else a fresh copy with `unescape(c)` spliced in, the end position allowed |
| StringArrayNameB06.StringArrayName.Append | src/adap-b06/names/StringArrayName.ts:100-111 | the receiver is unchanged; else a fresh copy with `unescape(c)` added |
| StringArrayNameB06.StringArrayName.Remove | src/adap-b06/names/StringArrayName.ts:113-123 | the receiver is unchanged; else a fresh copy with element i removed |
| StringArrayNameB06.SetComponentCopyReadsBack | src/adap-b06/names/StringArrayName.ts:73-84 | the copy returned by `setComponent(i, escape(u))` for a backslash-free u stores u at i and reads `escape(u)` back |
| FileTree.FileSystem.constructor | src/adap-b05/files/Directory.ts:11-15 | an arena holding only the root directory, with an empty set of children and no file, so every file is closed; every operation below keeps all files closed |
| FileTree.FileSystem.Add | src/adap-b05/files/Directory.ts:18-25 | a node already in the set is an IllegalArgument; otherwise it is added and nothing else changes |
| FileTree.FileSystem.Remove | src/adap-b05/files/Directory.ts:27-34 | a node not in the set is an IllegalArgument; otherwise it is removed and nothing else changes |
| FileTree.FileSystem.CreateNode | src/adap-b05/files/Node.ts:13-24 | an empty base name is rejected before anything happens; otherwise the node is registered with its parent, and a subclass rejects a '/' only afterwards; the arena stays valid |
| FileTree.FileSystem.ResolveWithin | src/adap-b05/files/Link.ts:27-42 | following links ends at a node that is not a link, or at an IllegalArgument for a link without a target |
| FileTree.FileSystem.Resolve | src/adap-b05/files/Link.ts:27-42 | a node that is not a link resolves to itself; otherwise as `ResolveWithin` with one step per node of the arena |
| FileTree.FileSystem.BaseNameOf | src/adap-b05/files/Link.ts:27-30 | `getBaseName` of a link is its target's, failing as an IllegalArgument without one |
| FileTree.FileSystem.GetTargetNode | src/adap-b05/files/Link.ts:19-21 | the link's target, or null |
| FileTree.FileSystem.SetTargetNode | src/adap-b05/files/Link.ts:23-25 | the target is replaced, nothing else changes, and the arena stays valid |
| FileTree.FileSystem.Rename | src/adap-b05/files/Link.ts:32-36 | a link renames the node its chain ends at; an empty name or a missing target fails; only that base name changes |
| FileTree.FileSystem.Move | src/adap-b05/files/Node.ts:26-31 | removed from the old parent's set, added to the new one's, parent repointed, then the invariant checked; when `add` fails the node has already left the old parent's set; in a valid arena the move passes and keeps it valid |
| FileTree.FileSystem.Open | src/adap-b05/files/File.ts:23-31 | passes exactly for a closed file with a valid base name; every failure is a ServiceFailure |
| FileTree.FileSystem.Close | src/adap-b05/files/File.ts:59-67 | passes exactly for an open file with a valid base name; every failure is a ServiceFailure |
| FileTree.OpenPassesCloseFails | src/adap-b05/files/File.ts:15-67 | in every arena the constructor and the operations build all files are closed (their ensures), so `open` always passes and `close` always fails |
| FileTree.FileSystem.NodeFind | src/adap-b05/files/Node.ts:65-79 | a node finds itself exactly when its base name is `bn`; any failure is a ServiceFailure |
| FileTree.FileSystem.FindIn | src/adap-b05/files/Directory.ts:37-56 | a search result lies inside the searched subtree |
| FileTree.FileSystem.FindNodes | src/adap-b05/files/Directory.ts:37-56 | the recursive search returns the failure or the matches over the node's whole subtree |
| FileTree.FileSystem.SearchChildren | src/adap-b05/files/Directory.ts:43-47 | the loop over the children returns the matches over all their subtrees, or the wrapped first failure |
| FileTree.FileSystem.SearchChild | src/adap-b05/files/Directory.ts:44-46 | one child's matches extend what was found so far; its failure fails the whole search |
| FileTree.FileSystem.LeafSearch | src/adap-b05/files/Node.ts:65-79 | a node that is not a directory searches itself only |
| FileTree.FindOnLeaf | src/adap-b05/files/Node.ts:65-79 | a non-directory finds itself exactly when its base name is `bn` |
| FileTree.LinkWithoutTargetFailsSearch | src/adap-b05/files/Link.ts:27-42 | a link without a target makes every search that reaches it a ServiceFailure |
| FileTree.FileSystem.ValidDirectoriesNamed | src/adap-b05/files/Node.ts:81-89 | in a valid arena every directory has a non-empty base name |
| FileTree.FileSystem.FullNameOf | src/adap-b05/files/Node.ts:33-37 | the root's full name is given; any other full name is the parent's full name with this node's `getBaseName()` appended, and a failure is the IllegalArgument of a link without a target |
| FileTree.FullNameFollowsAncestors | src/adap-b05/files/Node.ts:33-37 | a full name starts with the root's and has one more component per parent step |
| FileTree.FullNameFuel | src/adap-b05/files/Node.ts:33-37 | a full name once found stays the same with more fuel |
| FileTree.ResolveStaysInArena | src/adap-b05/files/Link.ts:27-42 | link resolution in a valid arena ends at a node of the arena |
| FileTree.CreateKeepsWellFormed | src/adap-b05/files/Node.ts:13-24 | creating a node keeps the arena well-formed |
| FileTree.MoveKeepsWellFormed | src/adap-b05/files/Node.ts:26-31 | a move in a valid arena keeps it well-formed |
| FileTree.RenameKeepsWellFormed | src/adap-b05/files/Node.ts:47-51 | renaming to a non-empty base name keeps the arena well-formed |
| FileTree.SetTargetKeepsWellFormed | src/adap-b05/files/Link.ts:23-25 | retargeting a link keeps the arena well-formed |
| FileRead.ToInt8 | src/adap-b05/files/File.ts:40 | storing a number in an `Int8Array` gives a signed byte equal to it modulo 256 |
| FileRead.ToInt8Wraps | src/adap-b05/files/File.ts:40 | a signed byte is stored unchanged, and numbers 256 apart are stored alike |
| FileRead.ReadOf | src/adap-b05/files/File.ts:33-53 | the read fails with MethodFailed exactly when some call throws a MethodFailed as the third or later exception; otherwise one signed byte per call, zero where it threw |
| FileRead.Read | src/adap-b05/files/File.ts:37-50 | the retry loop returns what `ReadOf` defines |
| FileRead.FewFailuresNeverAbort | src/adap-b05/files/File.ts:41-48 | fewer than three exceptions never end the read |
| FileRead.OtherExceptionsNeverAbort | src/adap-b05/files/File.ts:43-47 | exceptions other than MethodFailed never end the read |
| FileRead.StubReadsZeros | src/adap-b05/files/File.ts:55-57 | with the stub `readNextByte`, the read returns zeros |
| FileRead.ThirdFailureAborts | src/adap-b05/files/File.ts:41-48 | the counter is shared by all exceptions: two others and then a MethodFailed end the read |

## Left out

- Delimiters: the model takes the delimiter as a single character that is not a backslash. The
  source builds regular expressions from it, so a letter, a digit or the backslash changes
  their meaning. The second and third iterations accept delimiters of any length. Those cases
  are not modelled.
- StringNameB04.StringName.Create: requires a delimiter of at most one character, because
  longer delimiters of the fourth iteration are not modelled.
- StringArrayNameB04.StringArrayName.Create: requires a delimiter of at most one character,
  for the same reason.
- The fourth iteration's `StringName` calls `checkClassInvariants()`, which neither it nor its
  base class defines. As written the class does not type-check, and each call would throw a
  TypeError at run time. The model treats those calls as doing nothing: that is the evidently
  intended behaviour, not the program as written.
- `clone`/`deepClone` (other than the copies the sixth iteration's mutators return),
  `getDelimiterCharacter`, and the JavaScript type guards (`instanceof`, `typeof`, `in`
  checks, null checks) are not modelled. The model's types rule those inputs out.
- `concat` of a name with itself (aliasing) is not modelled: the other name is a value. In the
  second iteration it is given by its delimiter and the values its `getComponent` returns.
- Negative or fractional indices passed to the second and third iterations' methods are not
  modelled. Indices there are `nat`.
- `getHashCode` reads UTF-16 code units. The model reads one `char` per unit and does not
  model surrogate pairs.
- The sixth iteration's `AbstractName` is not part of this model. The sixth-iteration classes
  use the fifth's codec and delimiter check.
- The file tree: `Node` and `Directory` keep references; the arena models them as numbers.
  `getParentNode` and `doGetBaseName` are field reads of the maps. The root directory's own
  class and `getFullName` are not part of this model: the root's full name is a parameter.
- FileTree.FileSystem.FindNodes: requires every directory to have a non-empty base name, as
  every valid arena does. It also takes a fuel bound on the depth of the tree, so a directory
  moved into its own subtree, where the search never ends, is not modelled.
- FileTree.FileSystem.FindNodes: the iteration order of a directory's `Set` of children is
  modelled by an arbitrary choice of the next child. Which failure is reported first when
  several children fail is not modelled: every such failure is a ServiceFailure.
- FileTree.FileSystem.ResolveWithin: link chains are followed with fuel. A cyclic chain, which
  overflows the stack in the source, comes out as None.
- FileTree.FileSystem.FullNameOf: appends the base name to the parent's components as it is.
  The fifth iteration's `Name.append` first checks the component (`ensureValidComponent`), and
  the array-backed name stores it unescaped. Those checks, and which kind of name the root
  returns, are not modelled.
- FileTree.FileSystem.Move: a missing `to` directory and a parent that is not a directory
  (TypeErrors in the source) are not modelled.
- The mapping from the assertion dispatcher's exception types to exceptions is taken as
  PRECONDITION to IllegalArgument, POSTCONDITION to MethodFailed, CLASS_INVARIANT to
  InvalidState. The dispatcher is not part of this model.
- FileRead.Read: `readNextByte()` is an overridable call. The model takes what its successive
  calls return or throw as a sequence, one per call. A negative or fractional `noBytes`, and
  fractional byte values, are not modelled.

## Findings

The classes model the source as written. Each corrected definition sits beside the code it
corrects, with the intended property proved about it.

| source | as written | input that shows it | evidently intended | confidence | as-written member | corrected member |
|---|---|---|---|---|---|---|
| src/adap-b05/names/StringName.ts:51-67 | `setComponent` checks that the component is escaped, then re-splits with a look-behind that treats `\\` followed by the delimiter as an escaped delimiter | `setComponent(0, "a\\\\")` on `x.y` (the component `a` followed by an escaped backslash) | the component stays one piece and the count stays in step | not executed | StringNameB05.SetComponentEscapedBackslashMerges | StringNameB05.CorrectedSetComponentKeepsComponents |
| src/adap-b05/names/AbstractName.ts:100-124 | `isEqual` compares data strings re-escaped under '.', while `getHashCode` hashes `toString()` under the own delimiter | delimiter '_', components `a\\` and `b`, versus the single component `a\\.b` | equal names have equal hash codes | not executed | AbstractNameB05.IsEqualButHashesDiffer | AbstractNameB05.ComponentwiseEqualityIsHashConsistent |
| src/adap-b05/names/StringArrayName.ts:51-72 | `setComponent` accepts any escaped component and stores `unescape(c)`, but `escape` of that value need not be escaped, so `getComponent` fails its postcondition | `setComponent(i, "\\\\\\.")`, i.e. an escaped backslash followed by an escaped '.' | every component accepted by `setComponent` can be read back | not executed | StringArrayNameB05.SetThenGetFailsAfterEscapedBackslash | StringArrayNameB05.CorrectedSetThenGet |
