# CoreObject: array differences and the binary item format

This project models two parts of CoreObject in Dafny and proves what they are for.

**Array differences.** `Diff/diff.hh` compares two arrays through a callback, with the linear-space
form of Myers' algorithm ("An O(ND) Difference Algorithm and Its Variations", section 4b).
`Diff/COArrayDiff.m` records the result as edits and applies edits to arrays.

| file | what it holds |
|---|---|
| `EditGraph.dfy` | the edit graph of a box, paths, costs of points, the edit distance |
| `Frontier.dfy` | furthest-reaching points, when two searches meet, the middle point of a box |
| `SearchWork.dfy` | how many pairs a search compares, and how the work of a recursion adds up |
| `MiddleSnake.dfy` | what the cells of the two search vectors stand for, and `SMS` |
| `DiffInput.dfy` | one input with its list of flagged ranges, and `AddRange` |
| `Comparison.dfy` | the recursion `LCS` |
| `EditScript.dfy` | edit scripts, and `CreateDiffs` |
| `ArrayDiff.dfy` | common subsequences, the whole comparison `Diff`, and what its script is worth |
| `SequenceEdits.dfy` | edits of ordered attributes, the conflict test, what a list of edits means |
| `ApplyingEdits.dfy` | `ApplyEditsToArray`, and exactly when every edit lands where it belongs |
| `ArrayEdits.dfy` | `DiffArrays`, and that applying its edits gives the second array |

Element equality is an arbitrary predicate on two indices, so all results up to `DiffIsCheapest` hold
for any callback; only rebuilding the second array needs that the callback equates equal elements.
The costs of points are those of cheapest paths (`NoPathIsCheaper`, `CheapestPath`), also beyond a
box, because forward points of the search can leave the box on the right or at the bottom. The chain of results is:

1. A cell of a search vector is the last point of its diagonal within the number of moves of its row,
   and every cell that a step reads was written by the same search, one round earlier
   (`SnakeStarts`, `SnakeEnds`, `DownRowFeeds`, `UpRowFeeds`).
2. While no overlap was found, the distance of the box is at least what the rounds so far rule out.
   That is why a point that takes part in an overlap is inside the box (`StaysInBox`), why the
   first overlap halves a shortest path (`FirstOverlapIsMiddle`), and why the search never reaches
   the `throw` after its loop (`ReverseHalfDone`, `SMS`). The point found is unique
   (`MiddleIsUnique`), so what the shared vectors held before a call cannot matter.
3. A trimmed box takes at least two moves, so both parts of it are smaller: the recursion ends
   (`MiddleDivides`, `LCS`).
4. After the recursion, unflagged elements match in order and as few elements are flagged as the
   distance allows (`LCS`). The two additions marked with "FIXME: off by 1?" in the source flag
   exactly what they should.
5. The script alternates copies and changes, accounts for all of both arrays, copies a longest
   common subsequence and is no dearer than any other script (`Diff`, `DiffIsCheapest`).
6. A search only compares pairs that take exactly as many moves as its round (`SnakeIsExact`), and no
   pair twice in one direction, so it compares few (`FewAreWithin`). With `d` the edit distance, a
   whole comparison calls the callback at most `12 * d + 3` times for each element of A, and writes
   at most `4 * d * d` cells while it searches (`SMS`, `LCS`, `Diff`): this is the bound that the
   algorithm has its name from.
7. The edits recorded from it, in any order and even if several sources recorded them, turn the
   first array into the second (`DiffArrays`, `SharedEditsTurn`, `ApplyEditsToArray`). Each is of the
   kind that its change calls for, there is an element that stays between any two, and none touches
   what the arrays have in common at the start (`ScriptEditsAreMinimal`, `LCS`).

Edits of different sources can be merged before they are applied. The note on `COApplyEditsToArray`
promises that an edit made by several sources is performed once, and its offsets are meant to lead
every edit to the elements that it is about. For any well-formed edits this holds exactly if no two
different edits clash and the sort leaves equal edits next to each other (`KeepsPromiseIff`); it
holds whatever order the sort leaves ties in exactly if no two different edits clash and no
insertion occurs twice where something else is inserted (`AlwaysKeepsPromiseIff`). Then the array
ends as all edits carried out at once leave it; different insertions at one location are no
obstacle, later ones go in front. The conflict test of the source reports exactly edits that replace
a common element (`WhatIsReported`), and so finds all clashes except insertions inside the range of
another edit (`WhatTheConflictTestMisses`). These raise or land in the wrong place
(`InsertionInsideDeletion`), and two equal insertions with another one sorted between them are both
performed (`TangledInsertions`).

**The binary format.** `Store/COBinaryWriter.h` writes tagged tokens to a growable buffer,
`Store/COBinaryReader.m` reads them, and `Store/COItem+Binary.m` writes items as tokens and makes
items of them.

| file | what it holds |
|---|---|
| `Wrappers.dfy`, `Sequences.dfy`, `Arithmetic.dfy` | optional values; facts about sequences, products and quotients |
| `Bytes.dfy` | big-endian two's complement numbers |
| `Utf8.dfy`, `Numbers.dfy` | which bytes are UTF-8, and of which code points; doubles, and conversions between the two kinds of numbers |
| `BinaryWriter.dfy` | the token format and the class `Buffer` |
| `BufferRuns.dfy` | whole runs of calls on one buffer |
| `BinaryReader.dfy` | reading tokens; round trip, unique decodability, what else is accepted |
| `Paths.dfy` | references to persistent roots and branches, and the strings that stand for them |
| `ItemFormat.dfy` | types and values of attributes, the order of set members, the bytes of an item |
| `TokenLayout.dfy` | the format of tokens, values and items given in plain bytes |
| `ItemCodec.dfy` | the reader's state machine; an item reads back as itself |
| `ItemSerialization.dfy` | the code that writes an item |
| `ItemReading.dfy` | the object that collects an item from the callbacks, and making an item of bytes |

Laws such as the round trip also hold of other formats than the one that stored data is in. So the
bytes themselves are fixed as well, by statements that use numbers and none of the names of the model's
constants: the tags, widths and digits of tokens (`IntegerLayout`, `TokenBytes`, `DoubleLayout`), the
numbers of types (`TypeNumbers`), the bytes of values and items (`BytesOfValue`, `BytesOfItem`), the
order of the members of a set (`MembersAreInByteOrder`), the text of references (`UUIDTextLayout`,
`PathTextLayout`), and which bytes are strings (`Utf8Iff`).

The source leaves out the checks that a reader of untrusted bytes would need; the model gives such
input the outcome `RanOut`. The reader accepts integers and lengths in wider forms than the writer's,
so writing what was read need not give the same bytes: `ReadThenWrite` says exactly when it does. The
item reader makes an item even if it ends in its error state, and the end of an array leaves that
state again. What makes it stop is a misplaced mark of an array, a type without a property, and some
strings: those of references that are not the text of a path, and nil ones in an array or set
(`WhatStops`).

The initializer of an item validates values loosely, and types without a value not at all. So there
are items that are not written, or not read back as they are; for every item that passes the
initializer it is settled which.

- `DataValue` has a result exactly if no composite reference holds a path, every type without a value
  is a known univalued one, no name, string or data is longer than a 32 bit length, and every set
  fits the temporary buffer (`StorableItem`, `SetsFit`).
- What is written is read back as the item itself exactly if it holds no broken path, every type has a
  value, and every number is of the kind that its type is for (`WrittenItemIsRead`). Without a broken
  path it is otherwise read as `ReadBack` says: missing values are zero, null or empty, and numbers
  are converted.
- A converted number is equal to the original, as number objects compare, exactly if a double for an
  integer type is whole, and an integer for a double type needs no more than the 53 digits of a
  double (`NumberSurvives`).

`BrokenPathIsLost`, `FractionIsLost`, `MissingValueIsRead` and `PathForUUIDIsNotWritten` are the
failing inputs.

While the members of a set are written, the source keeps pointers into the temporary buffer. They
stay readable exactly if the tokens of the set fit the 4096 bytes that the buffer starts with, so a
set of UUIDs can have up to 240 members (`ReadableIffFits`, `UUIDSetFits`, `LargeSetDoesNotFit`).
For larger sets nothing can be promised: `WriteSetContents` and `DataValue` then have no result.

`hide` statements only keep definitions out of proofs that do not need them.

## Model

| member | source | states |
|---|---|---|
| EditGraph.NoPathIsCheaper | Diff/diff.hh:241-243 | No path of right, down and diagonal moves to a point, in or beyond the box, has fewer right and down moves than the cost of the point |
| EditGraph.CheapestPath | Diff/diff.hh:241-243 | A path with that many exists |
| EditGraph.CostIsWhatLcsLeaves | Diff/diff.hh:378-380 | The cost of a point is the number of elements that a longest common subsequence of the two prefixes leaves over |
| EditGraph.NoShortcut | Diff/diff.hh:441-444 | No way through a point of the box is cheaper than the distance of the box |
| EditGraph.ReversedDistance | Diff/diff.hh:332-356 | Searching from the end measures the same distance as searching from the start |
| EditGraph.PointAtCost | Diff/diff.hh:241-243 | A shortest path has a point at every cost up to the distance |
| Frontier.FurthestIsThreshold | Diff/diff.hh:309-315 | The points of a diagonal within `d` moves are exactly those up to the furthest one |
| Frontier.SnakeStarts | Diff/diff.hh:295-307 | The better of the step right and the step down is within `d` moves, also from points outside the box |
| Frontier.SnakeEnds | Diff/diff.hh:309-315 | Following matches from there until none is left ends at the furthest point of the diagonal |
| Frontier.StaysInBox | Diff/diff.hh:317-328 | A forward point on a diagonal that the reverse search has reached is inside the box, unless the distance was undercut |
| Frontier.OverlapIsMeeting | Diff/diff.hh:358-369 | Up <= Down on a diagonal exactly if a point of it is near enough to both corners, and the forward point is then the last such point |
| Frontier.MeetingPointExists | Diff/diff.hh:287-375 | If `d + e` is the distance, row `d` and row `e` share a diagonal with a point `d` moves from the start and `e` from the end |
| Frontier.MiddleIsUnique | Diff/diff.hh:231-237 | A box has one middle point, so the search does not depend on what the vectors held |
| Frontier.SnakeIsExact | Diff/diff.hh:309-315 | Every point that a round looks at takes exactly as many moves as the round |
| SearchWork.FewAreWithin | Diff/diff.hh:287-375 | At most `2 * d + 1` pairs for each element of A are within `d` moves |
| SearchWork.HalvesAddUp | Diff/diff.hh:441-444 | The calls for trimming and dividing a box and for both its parts stay within `12 * d + 3` for each element of A |
| MiddleSnake.DownRowFeeds | Diff/diff.hh:297-306 | The cells a forward step reads hold furthest points of the round before, or the initial cell |
| MiddleSnake.UpRowFeeds | Diff/diff.hh:339-348 | The same for a reverse step |
| MiddleSnake.DownRowStays | Diff/diff.hh:291-315 | Writing a cell of one forward row leaves the cells of the neighbouring row intact |
| MiddleSnake.ExtendForward | Diff/diff.hh:291-315 | Writes one cell, inside the vector, with the furthest point of its diagonal and round; the callback is only asked about existing elements |
| MiddleSnake.ExtendReverse | Diff/diff.hh:333-356 | The same for the reverse search |
| MiddleSnake.FirstOverlapIsMiddle | Diff/diff.hh:317-328 | The first overlap of two rows is the middle point, and the rows add up to the distance |
| MiddleSnake.NoOverlapMeansFurtherApart | Diff/diff.hh:287-375 | Two complete rows without an overlap rule out their sum as the distance |
| MiddleSnake.SharedTests | Diff/diff.hh:318-359 | The two range tests before an overlap test pick exactly the diagonals that both rows have |
| MiddleSnake.ReverseHalfDone | Diff/diff.hh:279-287 | A round without result leads to another one, and never past MaxD |
| MiddleSnake.SearchForward | Diff/diff.hh:290-330 | The forward half of round `D` finds the middle point if and only if the distance is `2 * D - 1` |
| MiddleSnake.SearchReverse | Diff/diff.hh:332-371 | The reverse half of round `D` finds the middle point if and only if the distance is `2 * D` |
| MiddleSnake.SMS | Diff/diff.hh:254-376 | For any contents of the vectors, returns the point of the box at half the distance from the start, rounded up, and half from the end, rounded down, and of these the last one on the lowest diagonal; the throw is unreachable; with `h` half the distance, calls the callback at most `4 * h + 2` times for each element of A in the box and writes at most `(h + 1) * (h + 2) + 2` cells |
| DiffInput.DiffData.AddRange | Diff/diff.hh:134-147 | Flags exactly the positions of the range in addition, keeps the normal form when added at the end, and merges with a touching last range |
| Comparison.TrimStart | Diff/diff.hh:404-409 | Taking a matching pair off the start does not change the distance |
| Comparison.TrimEnd | Diff/diff.hh:411-416 | Neither does taking one off the end |
| Comparison.TrimmedDistance | Diff/diff.hh:404-435 | A trimmed box with elements on both sides has a distance of at least two |
| Comparison.DistancesOfParts | Diff/diff.hh:441-444 | The two boxes at a point have the two costs of the point as distances |
| Comparison.MiddleDivides | Diff/diff.hh:437-444 | The middle point is neither corner, and the distances of the two parts add up |
| Comparison.PartsSolved | Diff/diff.hh:441-444 | Solving the left box and then the right one solves the whole, and the second solution does not touch the first |
| Comparison.TrimmedSolved | Diff/diff.hh:404-434 | Solving what trimming leaves solves the whole box |
| Comparison.LCS | Diff/diff.hh:393-446 | Terminates; flags only inside the box, in normal form; the unflagged elements of the two sides match pairwise in order; the number of flagged ones is the edit distance of the box; the longest common prefix of the box and the longest common suffix of what it leaves stay unflagged; bounds the calls of the callback and the cells written |
| EditScript.CopyIsRun | Diff/diff.hh:548-555 | Unflagged elements of equal rank match, so a copy up to the next ranges is of matching elements |
| EditScript.CopyDone | Diff/diff.hh:448-476 | The copy of an iteration stays within both inputs, ends at a next range, and is missing only before the first item |
| EditScript.ChangeDone | Diff/diff.hh:478-583 | Writing the next range of either or both inputs keeps the ranks equal and leaves room for a copy before the next change |
| EditScript.CreateDiffs | Diff/diff.hh:528-600 | No assertion fails; the items tile both inputs, copy matching elements, alternate copies and changes, change exactly the flagged ranges in order, and copy all unflagged elements |
| EditScript.ReplayRebuilds | Diff/diff.hh:523-525 | Carrying a script out on A gives the part of B that it accounts for |
| EditScript.NoCheaperScript | Diff/diff.hh:241-243 | No script leads to a point of the box for less than the cost of the point |
| ArrayDiff.NoLongerSubsequence | Diff/diff.hh:378-380 | No common subsequence is longer than the recursively computed length |
| ArrayDiff.LongestSubsequence | Diff/diff.hh:378-380 | One of that length exists |
| ArrayDiff.Diff | Diff/diff.hh:222-239 | The script accounts for all of both arrays, alternates, copies as many elements as a longest common subsequence has, changes as many as the edit distance `d`, and begins with a copy of all that the arrays have in common at the start; the callback is called at most `12 * d + 3` times for each element of A, and at most `4 * d * d` cells are written while searching |
| ArrayDiff.DiffRebuilds | Diff/diff.hh:216-221 | Replayed on A it gives exactly B, if the callback only equates equal elements |
| ArrayDiff.DiffIsCheapest | Diff/diff.hh:1-4 | No other script for the arrays changes fewer elements or copies more |
| ArrayDiff.DiffCopiesLongest | Diff/diff.hh:378-380 | No common subsequence of the arrays has more elements than the script copies |
| SequenceEdits.EqualIsSame | Diff/COSequenceEdit.m:129-133 | On well-formed edits the unsymmetric equality is sameness up to the source |
| SequenceEdits.EqualityIsNotSymmetric | Diff/COSequenceEdit.m:129-133 | On an edit that is not well-formed it is not: a modification of no elements takes the insertion of the same objects for equal, and not the other way round |
| SequenceEdits.OverlapIsSharedElement | Diff/COSequenceEdit.m:13-17 | Two ranges are reported if and only if some position lies in both |
| SequenceEdits.WhatIsReported | Diff/COSequenceEdit.m:13-17 | Two well-formed edits are reported if and only if neither is an insertion and both replace a common element |
| SequenceEdits.WhatTheConflictTestMisses | Diff/COSequenceEdit.m:13-17 | Among edits that the overlap test lets pass, exactly the insertions inside the range of another edit clash with it |
| SequenceEdits.EditedIgnoresOrder | Diff/COArrayDiff.m:61-67 | What compatible edits mean does not depend on order, duplicates or sources |
| ApplyingEdits.NoRepeatIffGrouped | Diff/COArrayDiff.m:79-87 | Skipping equal neighbours leaves each edit once exactly if equal edits lie together |
| ApplyingEdits.DistinctCovers | Diff/COArrayDiff.m:79-87 | Skipping loses no edit |
| ApplyingEdits.InPlaceIffFits | Diff/COArrayDiff.m:89-128 | With the two running offsets, every edit of a sorted list meets exactly its elements if and only if each starts behind what the ones before replaced, insertions at the same location excepted |
| ApplyingEdits.KeepsPromiseIff | Diff/COArrayDiff.m:61-130 | Each different edit is carried out once, on its elements, if and only if no two clash and the sort left equal ones together |
| ApplyingEdits.AlwaysKeepsPromiseIff | Diff/COArrayDiff.m:61-130 | It is so for every order of ties if and only if no two different edits clash and no insertion occurs twice where something else is inserted |
| ApplyingEdits.PromiseGivesEdited | Diff/COArrayDiff.m:61-130 | Then nothing raises, and the array is what all edits carried out at once on the original give |
| ApplyingEdits.InsertionInsideDeletion | Diff/COArrayDiff.m:89-110 | An insertion inside a deleted range is no conflict, and raises if the array has too few elements before it, or lands before the range |
| ApplyingEdits.TangledInsertions | Diff/COArrayDiff.m:79-87 | Of three insertions at one place, two equal ones are both performed if the third is sorted between them |
| ApplyingEdits.MutableArray.InsertObjects | Diff/COArrayDiff.m:99-100 | Inserts at an index up to the length, and otherwise raises and changes nothing |
| ApplyingEdits.MutableArray.RemoveObjects | Diff/COArrayDiff.m:108-117 | Removes a range inside the array, and otherwise raises and changes nothing |
| ApplyingEdits.ApplyEdit | Diff/COArrayDiff.m:94-121 | Replaces the range of one edit, at the given index, by its objects, or raises if the index is outside |
| ApplyingEdits.ApplyEditsToArray | Diff/COArrayDiff.m:65-130 | For any edits, raises or ends as the run of the sorted edits does; edits without clashes, sorted with equal ones together, never raise and act as if all at once on the original array; compatible ones do in any order |
| ApplyingEdits.ArrayByApplyingEdits | Diff/COArrayDiff.m:132-137 | The same, on a copy |
| ArrayEdits.ScriptEditsCompatible | Diff/COArrayDiff.m:27-57 | The edits recorded for a script can be applied together |
| ArrayEdits.EditsReplay | Diff/COArrayDiff.m:27-57 | Applied all at once they carry the script out |
| ArrayEdits.EditSizeIsChanged | Diff/COArrayDiff.m:27-57 | They drop and bring as many elements as the script changes |
| ArrayEdits.ScriptEditsAreMinimal | Diff/COArrayDiff.m:27-57 | An edit brings nothing exactly if it is a deletion and drops nothing exactly if it is an insertion; each ends before an element that stays, which is before the next edit |
| ArrayEdits.DiffArrays | Diff/COArrayDiff.m:19-59 | The recorded edits are compatible, turn the first array into the second, and are as small as the edit distance; deletions are exactly those without objects and insertions exactly those without a range; each starts behind an element that the one before leaves, and none inside the common start |
| ArrayEdits.SharedEditsTurn | Diff/COArrayDiff.m:61-64 | The same edits from several sources, in any order, still give the second array |
| Bytes.SignedRanges | Store/COBinaryWriter.h:123-133 | The limits of the four integer types are what 1, 2, 4 and 8 bytes hold |
| Bytes.BigEndianDigit | Store/COBinaryWriter.h:88-117 | Byte `i` of `n` is the digit of the number with the weight `256^(n - 1 - i)` |
| Bytes.SignedRoundTrip | Store/COBinaryWriter.h:88-117 | A number cast, swapped to big-endian bytes and read back with sign extension is unchanged, in every width that holds it |
| Bytes.SignedBytesRoundTrip | Store/COBinaryReader.m:89-104 | Bytes read as a signed number are the encoding of that number |
| BinaryWriter.IntegerWidth | Store/COBinaryWriter.h:121-143 | The chosen width holds the number, and no narrower one does |
| BinaryWriter.Buffer.constructor | Store/COBinaryWriter.h:24-31 | An empty buffer of the initial length |
| BinaryWriter.Buffer.Clear | Store/COBinaryWriter.h:33-38 | Empties the buffer and keeps its allocation |
| BinaryWriter.Buffer.GetData | Store/COBinaryWriter.h:47-59 | The bytes stored since the last clear |
| BinaryWriter.Buffer.EnsureAvailable | Store/COBinaryWriter.h:61-71 | Makes room, reallocating only when the new bytes do not fit, and keeps the contents |
| BinaryWriter.Buffer.GrowthBound | Store/COBinaryWriter.h:22-71 | The number of reallocations times the initial length is less than the largest length reached, which every store tracks exactly |
| BinaryWriter.Buffer.Write | Store/COBinaryWriter.h:74-82 | Appends the bytes; length never exceeds the allocation |
| BinaryWriter.Buffer.StoreInteger | Store/COBinaryWriter.h:119-143 | Appends the tag and the narrowest big-endian form of any int64 |
| BinaryWriter.Buffer.StoreDouble | Store/COBinaryWriter.h:145-152 | Appends the tag and the eight given bytes |
| BinaryWriter.Buffer.StoreWithLength | Store/COBinaryWriter.h:246-265 | Appends a one or four byte length and the bytes, or raises and stores nothing |
| BinaryWriter.Buffer.StoreString | Store/COBinaryWriter.h:193-240 | Appends a string token, null for a missing string, or raises and stores nothing |
| BinaryWriter.Buffer.StoreBytes | Store/COBinaryWriter.h:244-265 | Appends a data token, or raises and stores nothing |
| BinaryWriter.Buffer.StoreUUID | Store/COBinaryWriter.h:267-281 | Appends a UUID token, or null for a missing one |
| BufferRuns.LargestIsReached | Store/COBinaryWriter.h:22-82 | The largest length of a run is the length after one of its calls, and no smaller than after any |
| BufferRuns.MakeCalls | Store/COBinaryWriter.h:22-316 | After any run of stores and clears the buffer holds what was stored since the last clear, and 4096 times the number of reallocations is less than the largest length reached |
| BinaryReader.ReadOneLength | Store/COBinaryReader.m:82-180 | A token that is read lies within the bytes, and is not empty |
| BinaryReader.LengthIsWhatIsRead | Store/COBinaryReader.m:37-73 | Measuring a token from its start and reading it agree, on any bytes |
| BinaryReader.TokenRoundTrip | Store/COBinaryReader.m:82-180 | A written token is read back and measured right, whatever follows it |
| BinaryReader.RoundTrip | Store/COBinaryReader.m:75-181 | Reading the bytes of any sequence of tokens gives that sequence |
| BinaryReader.TokensAreReadFirst | Store/COBinaryReader.m:75-181 | Written tokens are delivered whatever bytes follow them, also if reading those raises |
| BinaryReader.UniquelyDecodable | Store/COBinaryWriter.h:119-316 | Different sequences of tokens are written as different bytes |
| BinaryReader.PrefixFree | Store/COBinaryReader.h:31-35 | No written token begins another, so tokens are self-delimiting |
| BinaryReader.ReadThenWrite | Store/COBinaryReader.m:82-180 | Whatever token is read can be written, in at most as many bytes; the same bytes result if and only if they had that length |
| BinaryReader.ReadTokens | Store/COBinaryReader.m:75-181 | Delivers all tokens in order, and raises at an unknown tag after delivering those before it |
| TokenLayout.IntegerLayout | Store/COBinaryWriter.h:119-143 | An integer is 0x42, 0x69, 0x49 or 0x4c and 1, 2, 4 or 8 bytes of its two's complement, the highest first |
| TokenLayout.TokenBytes | Store/COBinaryWriter.h:145-316 | The bytes of every other token: 0x46 and a double; 0x73 and 0x64 with one byte for a length below 256, 0x53 and 0x44 with four; 0x23 and a UUID; 0x7b, 0x7d, 0x5b, 0x5d and 0x30 on their own |
| TokenLayout.KnownTags | Store/COBinaryReader.m:84-180 | Reading a token raises if and only if its first byte is none of these fifteen |
| TokenLayout.IntegerIsRead | Store/COBinaryReader.m:89-104 | An integer of each width is read as the signed number whose two's complement its bytes are, also if it could do with fewer |
| Paths.UUIDRoundTrip | StorageDataModel/COPath.m:83-93 | The text of a UUID gives back the UUID, and holds no colon |
| Paths.PathRoundTrip | StorageDataModel/COPath.m:47-93 | The text of a path gives back its root and branch; the text of a broken path is refused |
| Paths.UUIDTextLayout | StorageDataModel/COPath.m:83-93 | The text of a UUID is 36 characters, with a hyphen at 8, 13, 18 and 23 and the two lower case digits of each byte in their places |
| Paths.TextUUIDIff | StorageDataModel/COPath.m:56-63 | A text gives a UUID if and only if it is the text of that UUID, but for the case of letters |
| Paths.PathTextLayout | StorageDataModel/COPath.m:83-142 | The text of a path is that of its root, followed by a colon and that of its branch if there is one; that of a broken path is fixed |
| Paths.TextPathIff | StorageDataModel/COPath.m:47-71 | A text gives a path if and only if it is a UUID, or a UUID, one colon and something else, which is the branch if it is a UUID and ignored otherwise |
| Numbers.DoubleRoundTrip | Store/COBinaryWriter.h:145-152 | The bytes of a double tell its sign, exponent and fraction |
| Numbers.DoubleLayout | Store/COBinaryWriter.h:145-152 | The bytes of a double are its sign bit, the eleven bits of the exponent and the 52 of the fraction, the highest first |
| Numbers.TruncatedTowardsZero | Store/COItem+Binary.m:74-76 | The integer of a double has its sign, and the largest magnitude that is not above that of the double |
| Numbers.NearestIsNear | Store/COItem+Binary.m:77-79 | The double of an integer is off by at most half of its last digit, which is even in a tie, and equal exactly if the integer fits the digits of a double |
| Utf8.Utf8Iff | Store/COBinaryReader.m:119-121 | Bytes give a string if and only if they are the one to four byte forms of a sequence of code points, surrogates excepted |
| ItemFormat.TokenTellsValue | Store/COItem+Binary.m:64-105 | Within a type, the token of a value tells the value up to the kind of a number, except that the string of a broken path is refused |
| ItemFormat.NumberSurvives | Store/COItem+Binary.m:74-79 | The number read for a number equals it exactly if it is whole or the type is for doubles, and fits the digits of a double or the type is for integers |
| ItemFormat.SortedIsUnique | Store/COItem+Binary.m:107-141 | The comparison of tokens leaves one order for given tokens |
| ItemFormat.MembersAreInByteOrder | Store/COItem+Binary.m:107-141 | The bytes of a set are those of the tokens of its members, shorter ones first, and of two of one length the one with the smaller byte where they first differ |
| TokenLayout.TypeNumbers | StorageDataModel/COType.h:29-155 | The type is the number modulo 16; a multivalued one has another digit of 16 that is not 0, and 2 for arrays; valid are 1 to 7, and these with 1 or 2 sixteens |
| TokenLayout.ValidatedValues | StorageDataModel/COType.m:64-89 | The kinds of values that pass for each number of a type |
| TokenLayout.BytesOfValue | Store/COItem+Binary.m:64-105 | The bytes of a value by the number of its type |
| TokenLayout.BytesOfMissing | Store/COItem+Binary.m:64-105 | A missing value is written as a zero, as empty data or as null |
| TokenLayout.BytesOfCollection | Store/COItem+Binary.m:201-222 | The elements of an array or a set stand between 0x5b and 0x5d |
| TokenLayout.BytesOfAttribute | Store/COItem+Binary.m:240-248 | An attribute is its name as a string, the number of its type as an integer, and its value |
| TokenLayout.BytesOfItem | Store/COItem+Binary.m:224-258 | An item is 0x23, its UUID, and its attributes between 0x7b and 0x7d |
| ItemCodec.BytesTellValue | Store/COItem+Binary.m:64-105 | Within a type, values of the same bytes are read as the same value, or are both broken paths |
| ItemCodec.ReadElements | Store/COItem+Binary.m:262-273 | The tokens of a multivalue join it one by one; a broken path among them stops the reader |
| ItemCodec.ReadAttributeValue | Store/COItem+Binary.m:387-415 | The bytes of a value move the reader from expecting a value to having it and expecting a property, or stop it if the value holds a broken path |
| ItemCodec.AllAttributesRead | Store/COItem+Binary.m:308-335 | Reading all attributes leaves exactly the types of the item, and its values as they are read back |
| ItemCodec.ItemRoundTrip | Store/COItem+Binary.m:434-461 | The bytes of an item read as the item read back, whatever the order of its attributes, and the reader neither stops early nor ends in the error state; with a broken path in it the reader stops |
| ItemSerialization.WritePrimitiveValue | Store/COItem+Binary.m:64-105 | For any validated primitive, or none at all: raises for a path in place of a UUID, for what is too long and for an unknown type, and otherwise appends the token of the value or of what a missing object answers |
| ItemSerialization.WriteArrayContents | Store/COItem+Binary.m:143-154 | Appends the tokens of the elements in order, or raises at one that is not written |
| ItemSerialization.TokenIsCutOut | Store/COItem+Binary.m:189-195 | In readable bytes, a token found by its start is cut out by its measured length, whatever was written after it |
| ItemSerialization.SortedIsInOrder | Store/COItem+Binary.m:179-195 | Sorting leaves the same bytes for every enumeration of a set |
| ItemSerialization.WriteMembers | Store/COItem+Binary.m:163-177 | Writes the tokens of all members, with a pointer to each one's start; all stay readable as long as the buffer was not moved, and then the first one is not |
| ItemSerialization.ReadableIffFits | Store/COItem+Binary.m:163-177 | All pointers are readable in the end if and only if the tokens fit what the temporary buffer had allocated |
| ItemSerialization.WriteSetContents | Store/COItem+Binary.m:156-198 | Succeeds if and only if all members are written and their tokens fit, and then appends bytes that depend on the set alone: those of the tokens, the shorter and smaller ones first |
| ItemSerialization.UUIDSetFits | Store/COItem+Binary.m:156-198 | A set of UUIDs fits the initial temporary buffer if and only if it has at most 240 members |
| ItemSerialization.LargeSetDoesNotFit | Store/COItem+Binary.m:156-198 | There is an item that can be stored, with a set of 241 UUIDs, that is not written |
| ItemSerialization.WriteValue | Store/COItem+Binary.m:201-222 | For any validated value, or none at all: appends it on its own, or an array or set between its marks, or fails; states exactly when |
| ItemSerialization.DataValue | Store/COItem+Binary.m:224-258 | For any item that passes the initializer: has a result if and only if every attribute is written and every set fits, and then bytes that depend on the item and the order of its names alone |
| ItemCodec.RunIsSound | Store/COItem+Binary.m:262-429 | On any tokens, a value is only awaited for a known property, the current type is the one recorded for it, and a multivalue exists exactly while one is read |
| ItemCodec.WhatStops | Store/COItem+Binary.m:275-415 | In any run, reading stops if and only if an array begins for a type that is not multivalued, an array ends or a type comes without a property, the string of a reference is not the text of a path, or a string that is not UTF-8 comes in an array or set |
| ItemCodec.WhatFails | Store/COItem+Binary.m:275-429 | Which tokens lead to the error state in which states, and that they change nothing else |
| ItemCodec.WhatLeavesTheErrorPhase | Store/COItem+Binary.m:387-415 | Only the end of an array leaves the error state, and all but the marks of arrays are ignored in it |
| ItemCodec.WhatDropsAValue | Store/COItem+Binary.m:262-415 | A string that is not UTF-8, and the end of an array that has not begun, leave the property without a value, also if it had one, and all others as they are |
| ItemReading.ItemReader.ReadObjectValue | Store/COItem+Binary.m:262-273 | Joins a value to the multivalue being read, or completes the property |
| ItemReading.ItemReader.Deliver | Store/COItem+Binary.m:275-429 | Each callback changes the reader as the machine's step says |
| ItemReading.InitWithData | Store/COItem+Binary.m:434-461 | Makes the item of what the callbacks collected, and none if reading raised |
| ItemReading.ErrorStillMakesItem | Store/COItem+Binary.m:434-461 | There are bytes that lead to the error state and nevertheless make an item |
| ItemReading.WrittenItemIsRead | Store/COItem+Binary.m:224-461 | The bytes of an item make the item read back, or none if it holds a broken path; this is the item itself if and only if it holds no broken path, no type without a value and no number of the other kind |
| ItemReading.FractionIsLost | Store/COItem+Binary.m:74-76 | Three halves, as an integer attribute, are written and read as one |
| ItemReading.MissingValueIsRead | StorageDataModel/COItem.m:67-77 | A type without a value passes the initializer; it is written exactly if it is univalued and known, and then read with a value |
| ItemReading.PathForUUIDIsNotWritten | StorageDataModel/COType.m:79-83 | A path in a composite reference passes the validation and is not written |
| ItemReading.BrokenPathIsLost | StorageDataModel/COPath.m:127-142 | There is an item with a broken path that is written and cannot be read back |

## Left out

- LCS: which of several longest common subsequences results, between the common ends, is fixed for each box by the uniqueness of its middle point, and not given as one function of the two arrays.
- SMS: written as an outer loop and eight methods for its two inner loops, their bodies and the loops inside these; the C type of the vectors is unbounded here, so overflow of `int` for arrays of more than about 2^29 elements is not modelled.
- ApplyEditsToArray: for edits that clash, only the run of the loop is given, as they have no common meaning; deletions and modifications of no elements, which nothing in the repository makes, are not well-formed here.
- ApplyEditsToArray: how far the array was changed before an edit raises is not stated.
- ApplyingEdits.SortEdits: stands for the library's sort; only that the result is sorted and has the same edits is used, so ties may come in any order.
- EqualIgnoringSource: the object, attribute and type of an edit are left out; they are taken to be the same for all edits of one call.
- ReadTokens: bytes that end inside a token have the outcome `RanOut`; the source reads on past their end.
- ReadTokens: the switch over the tag is the function `ReadOne`, shared with the proofs; each callback is an entry in the list of delivered tokens.
- InitWithData: all tokens are read before the first callback, as the callbacks do not act on the bytes.
- WriteSetContents: a reallocation is taken to move the buffer, although the platform may extend it in place; so what it does with a set that does not fit is not modelled.
- MemberBytes: a set holds at most one of several equal numbers in the source, and numbers are compared by their kind and bytes here: the sets {0.0} and {-0.0}, or {1} and {1.0}, are different sets here.
- IsCastDefined: doubles in an integer attribute are taken to be in the range of its integers, as C leaves the cast open for others; and integers to be signed ones of 64 bits.
- IsItem: types are taken to be numbers of 32 bits.
- ItemCodec.Step: assertions are taken to be enabled; without them an array can begin for a type that is not multivalued, and the same holds for the assertions in WriteValue.
- Paths.TextUUID: the UUID class is not part of this model; its text is taken to be that of section 3 of RFC 4122, and other text to give no UUID.
- DataValue: the order of attribute names is a parameter, as it is the platform's string comparison.
- StoreDouble: the swapped bytes of a double are given; strings to be written are their UTF-8 bytes, so a string of unpaired surrogates is not modelled.
- StoreString: the variant for GNUstep, which ends a string at its first zero byte, is not modelled.
- `Buffer`: failure of malloc and realloc, and freeing.
- `Optimize`, `Range::contains` and `Range::intersects` in Diff/diff.hh: nothing calls them.
- Diff: the cells that are cleared when the two vectors are made are not counted.
- Diff/diff.cc: copies the items into C records.
- The item graph diff around array edits, the store, undo tracks, synchronization, schema migration and the user interface.
