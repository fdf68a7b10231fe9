# Verified models of the device server's algorithms

Six parts of the repository do their work without devices, sockets or a database. This project
models each of them in Dafny and proves what it is there for; `dafny verify dfyconfig.toml`
checks all of it.

* **JSON Patch, diff and merge** (`JsonValue`, `JsonNumbers`, `KeyOrder`, `JsonPointer`,
  `JsonPatch`, `JsonPatchLaws`, `JsonDiff`, `JsonMerge`). `diff` compiles two documents into an
  edit script and `patch_inplace` interprets it. A script run on any document acts on one
  subtree only, so that compiling and interpreting meet in a theorem about all pairs of
  documents. The comparison of documents is the library's `operator==`, with its three kinds of
  numbers.
* **Parson** (`Utf8`, `ParsonText`, `ParsonGrammar`, `ParsonValue`, `ParsonParser`,
  `ParsonCursor`, `ParsonSyntax`, `ParsonPrinter`, `ParsonLayout`, `ParsonSerializer`,
  `ParsonRoundTrip`, `ParsonNumber`, `ParsonTable`, `ParsonDot`, `ParsonCompare`,
  `ParsonSchema`). The parser is a class whose methods move a cursor, proved against functions
  on the text that is left, and these against a grammar: it accepts the texts of syntax trees
  and no others. The serializer is one routine that measures or writes into an array, proved
  against the text of a value. `strtod` and `sprintf` are a pair of functions, `Codec`, of which
  the theorems use one law, `Lawful`, and those on layout that a numeral has no white space,
  quote, bracket or slash in it, `Tidy`.
* **Form decoding in cgic** (`CStrings`, `MultipartStream`, `BoundarySearch`, `PreambleSearch`,
  `MultipartHeader`, `MultipartParser`, `MultipartRoundTrip`, `MultipartExact`,
  `MultipartFields`, `UrlEncodedForm`, `FormEntryText`). The push-back ring is a queue and not a
  stack. The search for the boundaries between parts is right only because the ring is empty
  whenever a part of the boundary has matched, which its loop invariant says; the search for the
  first boundary is not always right, and `PreambleSearch` says when.
* **Frame coding** (`Crc16`, `CrcDivision`, `CrcErrors`, `CrcPeriod`, `FrameCodec`). The
  checksum over byte strings of any length, as a remainder, and the errors it detects. That two
  flipped bits go unnoticed exactly at distances that are multiples of 32767 rests on the order
  of x modulo the generator, which is found from the powers of two of x, modulo x^15 + x + 1.
* **`ordered_map`** (`OrderedMap`). A vector that behaves as a map in the order of insertion.
* **Carousel positions** (`Carousel`). Clones around the items and moving on a ring, with the
  remainder of JavaScript, which truncates towards zero.

`Results` has the option and result types, `Arithmetic` a few facts about numbers. Code that
changes state step by step is a class with fields, or a method with loops over an array, and
each method is proved against a function of the old state; the lemmas are about these functions.
Characters stand for bytes, bits are booleans, and a C string ends at its first NUL. Allocation
always succeeds.

Where the code differs from what one may expect, the model follows the code:

* `diff` compares with `operator==`, so two numbers of different kinds that compare equal are
  left as they are: an integer and a double of the same value, but also the integer -1 and the
  unsigned number 2^64 - 1, because the integer is converted (`JsonDiff.ConfusedNumbers`). The
  outcome of the script then equals the target without being identical to it;
  `JsonDiff.PatchOfDiffIdentical` says exactly when it is identical. With a NaN or a discarded
  value in the target, no document equals it.
* `decomposeValue` ends the value of a parameter with a NUL through a pointer that is null when
  the parameter is not asked for. A part with `Content-Disposition: form-data; x=1` is enough
  (`MultipartRoundTrip.ExtraParameterFaults`); `MultipartHeader.DecomposeFaults` has the exact
  condition. The model stops there, with the outcome `Fault`.
* With `first != 0` the boundary search can miss a boundary, since what it puts back gets out of
  order: `--ab` in `--a--ab` (`PreambleSearch.SearchMisses`). If the boundary has dashes at its
  start only, call each text that starts like the delimiter, goes on behind its dashes and
  breaks off, a false start. The first delimiter is found if and only if an even number of false
  starts, one right behind the other, stands before it (`PreambleSearch.SearchFirstExactly`);
  otherwise everything up to the next delimiter is lost (`MultipartParser.ParseBodyExactly`).
  With a dash further on, even a delimiter that is not there can be found, `--a-a` in `--a---a`
  (`PreambleSearch.SearchMakesUp`). What is put back can then match again, and what it does to
  later characters depends on all that came before, so only one direction is proved of such
  boundaries: without a false start the search is right (`PreambleSearch.FindsFirst`).
* `cgiUnescapeChars` looks up hexadecimal digits at a signed index, and leaves the table exactly
  when a byte from 128 on stands in an escape (`UrlEncodedForm.LooksOutsideExactly`).
* `update(j, true)` leaves the target partly updated when it throws; `JsonMerge.Interrupted`
  describes what it can leave.
* `remove` below a value that is neither an object nor an array does nothing and raises nothing
  (`JsonPatchLaws.RemoveElsewhere`).
* `afterNextBoundary` swallows the two characters behind a delimiter, whatever they are, if the
  first is not a dash (`MultipartFields.GoodBehind`).
* `encodeFrame` drops the highest bit of `general`.
* `parse_number_value` accepts a lone minus sign as the number zero, because `strtod` then uses
  no characters and an empty numeral passes `is_decimal` (`ParsonNumber.LoneMinus`).
  `ParsonNumber.ReadsNothingExactly` and `ParsonNumber.ReadsNothingAsStrtod` say which texts are
  accepted in this way.
* `is_decimal` takes the zero of `0e1` for a leading zero, so that numeral is refused although
  RFC 8259, section 6, allows it (`ParsonNumber.DecimalExactly`).
* `json_parse_string` ignores what follows the value.
* Schema validation is not transitive when an empty array, which accepts every array, stands in
  the schema in the middle, as in `[""]`, `[]`, `[1]` (`ParsonSchema.EmptyArrayUnsettled`).
  `ParsonSchema.TransitiveExactly` says for which schemas it is.

## Model

| member | source | states |
|---|---|---|
| JsonValue.EqualReflexive | json/include/nlohmann/json.hpp:3585-3654 | `operator==` holds between a document and itself exactly when it has no NaN and no discarded value at any depth |
| JsonValue.EqualToComparable | json/include/nlohmann/json.hpp:3585-3654 | nothing compares equal to a document with a NaN or a discarded value in it |
| JsonNumbers.ExactNumbersEqual | json/include/nlohmann/json.hpp:3585-3654 | numbers that are exact in 53 bits compare equal across the three kinds if and only if they are the same number |
| JsonNumbers.SignsEqual | json/include/nlohmann/json.hpp:3641-3648 | a signed and an unsigned integer of any size compare equal if and only if they are the same number or differ by 2^64 |
| JsonNumbers.MixedEqual | json/include/nlohmann/json.hpp:3625-3640 | an integer of any size equals a double if and only if that is the double nearest to it, the even one of two that are as near |
| JsonPointer.EscapeRoundTrip | json/include/nlohmann/detail/string_escape.hpp:50-70 | an escaped token has no slash, is well escaped, and unescapes to the token (RFC 6901 section 3) |
| JsonPointer.ParseRender | json/include/nlohmann/detail/json_pointer.hpp:666-724 | parsing the text of any pointer gives back its tokens, including empty tokens and tokens with slashes and tildes |
| JsonPointer.ParseExactly | json/include/nlohmann/detail/json_pointer.hpp:666-724 | a text is a pointer if and only if it is empty, or starts with a slash and has a zero or a one behind each tilde; the pointer written out is the text again, and every other text raises a parse_error |
| JsonPointer.ArrayIndexToken | json/include/nlohmann/detail/json_pointer.hpp:214-252 | a token resolves to array index n if and only if it is the decimal numeral of n without leading zeros |
| JsonPointer.NoArrayIndex | json/include/nlohmann/detail/json_pointer.hpp:214-252 | a token that is no such numeral raises a parse_error if it has two characters or more and the first is no digit from 1 to 9, and out_of_range otherwise |
| JsonPointer.AtConcat | json/include/nlohmann/detail/json_pointer.hpp:422-460 | resolving a pointer in two parts is resolving it at once |
| JsonPointer.AtStep | json/include/nlohmann/detail/json_pointer.hpp:422-460 | each token leads to the member of its name, or to the item of which it is the numeral; everything else is out of range, but for tokens at an array that have two characters or more and do not start with a digit from 1 to 9, which raise a parse_error |
| JsonPointer.AtPut | json/include/nlohmann/detail/json_pointer.hpp:422-460 | what is written through the reference at a pointer is what the pointer then denotes |
| JsonPointer.PutConcat | json/include/nlohmann/detail/json_pointer.hpp:422-460 | writing below a pointer is writing the changed subtree at the pointer |
| JsonPointer.PutFrame | json/include/nlohmann/detail/json_pointer.hpp:422-460 | writing at a pointer changes nothing that a diverging pointer denotes |
| KeyOrder.SortedKeys | json/include/nlohmann/json.hpp:5060-5082 | members are visited once each, in increasing order of their keys, as the default object type iterates |
| JsonPatch.Document.OperationAdd | json/include/nlohmann/json.hpp:4745-4810 | the `add` operation on the document in place: root replacement, insertion into arrays with `-` and range checks, assignment into objects, and each exception it raises |
| JsonPatch.Document.OperationRemove | json/include/nlohmann/json.hpp:4813-4845 | the `remove` operation in place, with its exceptions for missing members and indices |
| JsonPatch.Document.Apply | json/include/nlohmann/json.hpp:4890-4975 | one operation of a patch, for all six operations; after an exception the document is left as far as the operation got |
| JsonPatch.Document.PatchInplace | json/include/nlohmann/json.hpp:4708-4977 | the interpreter loop equals running the operations read from the patch document, up to the first exception |
| JsonPatch.Patch | json/include/nlohmann/json.hpp:4979-4984 | `patch` returns the outcome on a copy, or the exception |
| JsonPatch.ReadWrite | json/include/nlohmann/json.hpp:4851-4888 | the operation objects that the compiler writes are read back as the same operations |
| JsonPatchLaws.ReadExactly | json/include/nlohmann/json.hpp:4848-4889 | an object is read as an operation if and only if it has all members of the written form of the operation, whatever else it has; everything else is a parse_error |
| JsonPatchLaws.MisreadStops | json/include/nlohmann/json.hpp:4841-4977 | a patch that is no array raises a parse_error, and so does an item that is no operation, after the operations before it have been applied |
| JsonPatch.RunWritten | json/include/nlohmann/json.hpp:4848-4977 | interpreting a written script does what its operations do, one after the other |
| JsonPatch.RunConcat | json/include/nlohmann/json.hpp:4848-4977 | a script in two parts is the second part run on what the first leaves, unless the first raises an exception |
| JsonPatch.AddIsLocal | json/include/nlohmann/json.hpp:4745-4810 | adding below a pointer acts on the subtree at the pointer alone, exceptions included |
| JsonPatch.RemoveIsLocal | json/include/nlohmann/json.hpp:4813-4845 | removing below a pointer acts on the subtree at the pointer alone, exceptions included |
| JsonPatchLaws.AddAtItem | json/include/nlohmann/json.hpp:4763-4800 | after adding at index i of an array of n items, i at most n, item i is the value, the items before it are as before, item j has become item j + 1 for every j from i on, and item n + 1 is out of range; the token `-` adds behind the last item; an index above n, or a token that is no index, raises an exception and changes nothing; pointers past the array keep what they denote |
| JsonPatchLaws.AddMember | json/include/nlohmann/json.hpp:4770-4775 | adding a member sets it and leaves the others, and makes an object of a null |
| JsonPatchLaws.AddElsewhere | json/include/nlohmann/json.hpp:4745-4810 | adding below a place that does not exist raises the exception of the look-up, below any other value it fails the assertion, and nothing changes |
| JsonPatchLaws.AddDenotes | json/include/nlohmann/json.hpp:4745-4810 | whatever its parent, the pointer of a successful add denotes the value added, but for the end of an array; the empty pointer replaces the document |
| JsonPatchLaws.RemoveItem | json/include/nlohmann/json.hpp:4834-4842 | after removing item i of an array of n items, the items before it are as before, every later item j is item j - 1, and item n - 1 is out of range; other tokens raise an exception and change nothing |
| JsonPatchLaws.RemoveMember | json/include/nlohmann/json.hpp:4820-4833 | a removed member is out of range and the others are left; a missing one is out of range and nothing changes |
| JsonPatchLaws.RemoveElsewhere | json/include/nlohmann/json.hpp:4813-4845 | the whole document cannot be removed, nor anything below a place that does not exist; below a value that is no container nothing is removed and no exception is raised |
| JsonPatchLaws.Replaced | json/include/nlohmann/json.hpp:4904-4910 | a replaced place denotes the new value, whatever does not lead through it keeps its value, and a place that does not exist raises the exception of the look-up |
| JsonPatchLaws.Copied | json/include/nlohmann/json.hpp:4928-4942 | copying is adding what the source denotes, so that the target denotes what the source denoted |
| JsonPatchLaws.Moved | json/include/nlohmann/json.hpp:4911-4927 | moving is removing the source and then adding what it denoted at the target, which then denotes it |
| JsonPatchLaws.Tested | json/include/nlohmann/json.hpp:4943-4965 | a test passes if and only if the place exists and compares equal to the value, and never changes the document |
| JsonDiff.DiffTurns | json/include/nlohmann/json.hpp:4989-5119 | run on any document that holds s at p, the script of `diff(s, t, p)` raises nothing and changes exactly the subtree at p, into the reconciliation of s with t |
| JsonDiff.ReconcileEqual | json/include/nlohmann/json.hpp:4989-5119 | that reconciliation compares equal to t if and only if t has no NaN and no discarded value |
| JsonDiff.ReconcileIdentical | json/include/nlohmann/json.hpp:4989-5119 | the reconciliation is t itself, and not only equal to it, if and only if at no place of both documents two numbers of different kinds compare equal |
| JsonDiff.PatchOfDiff | json/include/nlohmann/json.hpp:4708-5119 | for all documents s and t, applying `diff(s, t)` to s never throws, and the outcome equals t if and only if t has no NaN and no discarded value |
| JsonDiff.PatchOfDiffIdentical | json/include/nlohmann/json.hpp:4708-5119 | the outcome of applying `diff(s, t)` to s is identical to t under exactly that condition, which looks at s and t only |
| JsonDiff.ConfusedNumbers | json/include/nlohmann/json.hpp:3585-3654 | the script from the integer -1 to the unsigned number 2^64 - 1 is empty, as is the one from 1 to 1.0 |
| JsonDiff.DiffFrame | json/include/nlohmann/json.hpp:4989-5119 | below a pointer, the script leaves everything alone that a diverging pointer denotes |
| JsonDiff.EmptyScript | json/include/nlohmann/json.hpp:4989-5119 | the script is empty if and only if the two documents compare equal |
| JsonDiff.ComputeDiff | json/include/nlohmann/json.hpp:4989-5119 | the recursive compiler computes that script |
| JsonDiff.ComputeArrayDiff | json/include/nlohmann/json.hpp:5013-5055 | the array case, with its index loops: common items, removals in descending order, appended items |
| JsonDiff.ComputeRemovals | json/include/nlohmann/json.hpp:5028-5040 | inserting each removal before the earlier ones yields the removals from the last index down |
| JsonDiff.ComputeObjectDiff | json/include/nlohmann/json.hpp:5057-5097 | the object case: one pass over the source members, one over the target members |
| JsonDiff.ComputeAdditions | json/include/nlohmann/json.hpp:5081-5095 | the second pass adds exactly the members that the source lacks |
| JsonMerge.Node.MergePatch | json/include/nlohmann/json.hpp:5131-5155 | the in-place merge computes the recursive definition of RFC 7386 section 2, in whatever order the members are visited |
| JsonMerge.MergeIdempotent | json/include/nlohmann/json.hpp:5131-5155 | merging the same patch twice equals merging it once |
| JsonMerge.MergeIntoNull | json/include/nlohmann/json.hpp:5131-5155 | merging into nothing strips the null members of the patch, and returns the patch itself exactly when it has none |
| JsonMerge.MergeSets | json/include/nlohmann/json.hpp:5131-5155 | at every way through members where the patch has a value that is neither an object nor null, the result has that value |
| JsonMerge.MergeRemoves | json/include/nlohmann/json.hpp:5131-5155 | where the patch has a null member, the result has none |
| JsonMerge.MergeKeeps | json/include/nlohmann/json.hpp:5131-5155 | where an object of the patch lacks a member, the result has what the target has there and below, or nothing if the target has no object there |
| JsonMerge.UpdatableExactly | json/include/nlohmann/json.hpp:3420-3463 | `update(j, true)` goes through if and only if j is an object and wherever j has an object and the target has a value, that value is an object or null |
| JsonMerge.Node.Update | json/include/nlohmann/json.hpp:3420-3463 | `update(j, true)` throws exactly where an object would be merged into something that is neither null nor an object, and otherwise computes the updated object, in any order of members; when it throws, some members have been updated, one is left in the same half-way state, and the others are untouched |
| JsonMerge.InterruptedKeeps | json/include/nlohmann/json.hpp:3420-3463 | after the type_error no member is lost, members that j lacks keep their value, and each other one is as before or updated, but for one that could not be updated |
| JsonMerge.Node.UpdateMember | json/include/nlohmann/json.hpp:3446-3462 | one turn of its loop: descend where both sides have an object under an existing key, keeping what the descent has done when it throws, overwrite elsewhere |
| JsonMerge.UpdateIsMerge | json/include/nlohmann/json.hpp:3420-3463 | where `update(j, true)` does not throw, it equals `merge_patch(j)` if and only if j has no null member at any depth of objects |
| OrderedMap.Map.Emplace | json/include/nlohmann/ordered_map.hpp:54-65 | the value is appended if the key is new; the position and the flag say where it is and whether it was |
| OrderedMap.Map.Index | json/include/nlohmann/ordered_map.hpp:82-92 | `operator[]` refers to the element of the key, appending one with the initial value if there is none |
| OrderedMap.Map.At | json/include/nlohmann/ordered_map.hpp:106-117 | the value of the key, or the `out_of_range` exception |
| OrderedMap.Map.Count | json/include/nlohmann/ordered_map.hpp:260-270 | 1 if the key is there, else 0 |
| OrderedMap.Map.EraseKey | json/include/nlohmann/ordered_map.hpp:162-179 | shifting the later elements down by one and dropping the last is prefix followed by suffix around the key; the result says whether it was there |
| OrderedMap.Map.EraseRange | json/include/nlohmann/ordered_map.hpp:207-258 | shifting by the length of the range and truncating is prefix followed by suffix, and the offset returned is that of the first |
| OrderedMap.Map.InsertAll | json/include/nlohmann/ordered_map.hpp:329-353 | inserting a range inserts its entries one by one |
| OrderedMap.Map.DoAll | json/include/nlohmann/ordered_map.hpp:54-353 | any run from an empty map keeps the keys unique and is a run of the reference map, with the same return values |
| OrderedMap.PerformView | json/include/nlohmann/ordered_map.hpp:54-353 | each operation does to the entries what the reference, an order of keys and a finite map, does |
| OrderedMap.RunIsReference | json/include/nlohmann/ordered_map.hpp:54-353 | over any run from an empty map, keys stay unique, survivors keep their order of insertion, and contents and return values are those of the reference |
| Crc16.CalculateCrc | examples/frame_tester/Frame.cpp:101-115 | the nested loops compute the checksum function of the byte string |
| Crc16.CrcIsBitSerial | examples/frame_tester/Frame.cpp:101-115 | the bytewise checksum equals feeding the bits one by one into the shift register |
| Crc16.CrcLinear | examples/frame_tester/Frame.cpp:101-115 | for byte strings of equal length, the checksum of the XOR is the XOR of the checksums |
| Crc16.ErrorUnnoticed | examples/frame_tester/Frame.cpp:101-115 | an error pattern goes unnoticed if and only if its own checksum is zero |
| Crc16.CrcParity | examples/frame_tester/Frame.cpp:101-115 | the bit parity of the checksum is the bit parity of the data |
| Crc16.OddErrorDetected | examples/frame_tester/Frame.cpp:101-115 | every error that flips an odd number of bits changes the checksum, whatever the length |
| Crc16.BurstErrorDetected | examples/frame_tester/Frame.cpp:101-115 | every error within 16 consecutive bits changes the checksum, whatever the length and the place |
| CrcErrors.LongBurstUnnoticed | examples/frame_tester/Frame.cpp:101-115 | an error within 17 consecutive bits goes unnoticed if and only if those bits are the generator with its leading term |
| CrcPeriod.PeriodExactly | examples/frame_tester/Frame.cpp:101-115 | multiplying by x^n changes nothing modulo the generator if and only if n is a multiple of 32767 |
| CrcPeriod.PairUnnoticed | examples/frame_tester/Frame.cpp:101-115 | two flipped bits go unnoticed if and only if their distance is a multiple of 32767, whatever the data and the length |
| Crc16.AppendedChecksum | examples/frame_tester/Frame.cpp:92-95 | two bytes appended to data make the checksum of the whole zero if and only if they are the checksum, high byte first |
| CrcDivision.CrcIsRemainder | examples/frame_tester/Frame.cpp:101-115 | the checksum is the remainder of a division: the one word that, written behind the data, makes them a multiple of x^16 + x^15 + x^2 + 1 as polynomials over two elements |
| CrcDivision.GeneratorTerms | examples/frame_tester/Frame.cpp:102 | the terms of the generator, 0x8005 with its leading term |
| FrameCodec.Frame.EncodeFrame | examples/frame_tester/Frame.cpp:55-98 | the frame is the layout of the fields followed by their checksum, and its own checksum is zero |
| FrameCodec.FrameNumbers | examples/frame_tester/Frame.cpp:55-98 | every byte of a frame as a number, in its place: words as quotient and remainder by 256, the command byte as twice `general`, without its carry, plus one for a write, the completion byte as the first flag plus twice the second, and the checksum of all before it |
| FrameCodec.EncodingChecks | examples/frame_tester/Frame.cpp:55-98 | every encoded frame has checksum zero |
| FrameCodec.DamagedFrameFails | examples/frame_tester/Frame.cpp:55-98 | a frame damaged in an odd number of bits, or within 16 consecutive bits, has a checksum other than zero |
| FrameCodec.DamagedPairFails | examples/frame_tester/Frame.cpp:55-98 | two flipped bits in a frame leave a checksum of zero if and only if their distance is a multiple of 32767, so never in a frame of fewer than 4096 bytes |
| FrameCodec.EncodingDetermines | examples/frame_tester/Frame.cpp:55-98 | two sets of fields have the same frame if and only if they agree on everything but the highest bit of `general`, which the shift drops |
| MultipartStream.RingPop | server/cgi-bin/cgic.c:353-361 | advancing the read index modulo the capacity takes the first character of the ring |
| MultipartStream.RingPush | server/cgi-bin/cgic.c:386-394 | storing at the write index modulo the capacity appends a character, as long as the ring has room |
| MultipartStream.MpStream.MpRead | server/cgi-bin/cgic.c:344-384 | reading takes the next characters of the virtual stream, put back ones first, at most the content length, and reports the end as the code does |
| MultipartStream.MpStream.MpPutBack | server/cgi-bin/cgic.c:386-394 | putting back appends to the ring, a queue, and counts the characters as unread |
| BoundarySearch.BeforeIsFirst | server/cgi-bin/cgic.c:692-784 | the specification names the first occurrence: the pattern is there, nowhere earlier, and it is found if it occurs at all |
| BoundarySearch.SearchFindsDelimiter | server/cgi-bin/cgic.c:721-754 | for a pattern that starts with its only CR, what the loop yields on any stream and any ring of at most two characters is the text before the first occurrence and the stream behind it |
| PreambleSearch.FindsFirst | server/cgi-bin/cgic.c:721-754 | for any boundary and stream, the search with `first != 0` yields the text before the first occurrence and the stream behind it, if before that occurrence the pattern does not start, go on behind its dashes, and break off |
| PreambleSearch.SearchSkips | server/cgi-bin/cgic.c:721-754 | if dashes stand at the start of the pattern only, and at least two: on every stream the loop ends where a simple recursion on first occurrences says, which skips an occurrence behind an odd number of false starts and looks for the next one |
| PreambleSearch.SearchFirstExactly | server/cgi-bin/cgic.c:721-754 | for such patterns the search ends right behind the first occurrence if and only if an even number of abutting false starts ends the text before it, and at the end of every stream without an occurrence |
| PreambleSearch.SearchMisses | server/cgi-bin/cgic.c:721-754 | one false start is enough: `--ab` stands in `--a--ab` and the loop reaches the end of the stream |
| PreambleSearch.SearchMakesUp | server/cgi-bin/cgic.c:721-754 | with a dash further on in the boundary, one that does not occur can be found: `--a-a` in `--a---a` |
| BoundarySearch.SearchStep | server/cgi-bin/cgic.c:721-754 | each turn of the loop, on any pattern and stream, is one step of its specification; while a delimiter is searched a partial match implies an empty ring; the ring never overflows, and the remaining characters plus the match, or the remaining characters, decrease |
| BoundarySearch.Search | server/cgi-bin/cgic.c:692-784 | the loop ends on every stream with the ring drained, with the body, the status and the remaining stream of its specification |
| BoundarySearch.NextBoundaryIsFirst | server/cgi-bin/cgic.c:692-784 | with `first == 0` the body is exactly what precedes the first CRLF--boundary of the virtual stream |
| PreambleSearch.NextBoundaryFirst | server/cgi-bin/cgic.c:692-784 | with `first != 0` and any boundary, body and stream behind the line end are those of the first delimiter if no false start comes before it |
| PreambleSearch.NextBoundaryExactly | server/cgi-bin/cgic.c:692-784 | with `first != 0` and dashes at the start of the boundary only, the stream goes on behind the line end of the first delimiter after an even number of false starts, and after an odd number where the search in the rest ends |
| BoundarySearch.AfterNextBoundary | server/cgi-bin/cgic.c:692-784 | the whole function, for both values of `first` and every stream: the status, what is stored and where the stream goes on behind the line end, or the closing dashes put back |
| MultipartHeader.ReadHeaderLine | server/cgi-bin/cgic.c:913-972 | a header line, folded to its attribute and value with the limits of the 1024-byte buffers, and the stream behind it |
| MultipartHeader.DecomposeValue | server/cgi-bin/cgic.c:806-911 | the value of a header and the parameters asked for, quoted or not, with their truncation; nothing where the code would write through the null pointer |
| MultipartHeader.DecomposeFaults | server/cgi-bin/cgic.c:806-911 | `decomposeValue` writes through a null pointer if and only if values are asked for and some parameter of the header, before any malformed one, has a name that is not among the names |
| MultipartParser.TakeHeaders | server/cgi-bin/cgic.c:486-511 | the header lines of a part up to the empty line |
| MultipartParser.TakePart | server/cgi-bin/cgic.c:459-590 | one turn of the reader is one step of the specification on the remaining stream |
| MultipartParser.ParseBodyFromFirst | server/cgi-bin/cgic.c:438-598 | whatever the boundary, a body in which no false start comes before the first delimiter, so one that begins with the delimiter, is read from behind it |
| MultipartParser.ParseBodyExactly | server/cgi-bin/cgic.c:438-598 | with dashes at the start of the boundary only, any body is read from its first delimiter after an even number of false starts, and after an odd number as if it began behind that delimiter |
| MultipartParser.ParsePostMultipartInput | server/cgi-bin/cgic.c:438-598 | reading any body, cut off at the content length, yields the entries and the status of the specification |
| MultipartRoundTrip.BodyBeforeDelimiter | server/cgi-bin/cgic.c:692-784 | a delimiter-free body is what precedes the first delimiter, even where the end of the body and the delimiter could overlap |
| MultipartRoundTrip.ParseEncoded | server/cgi-bin/cgic.c:438-598 | reading the multipart encoding of any list of fields gives exactly their names and bodies, in order (RFC 2046 section 5.1.1, RFC 7578 section 4.1), if each name is free of quotes, colons, CR, LF and NUL and at most 1006 characters long, and no body has the delimiter in it |
| MultipartExact.ParseEncodedExactly | server/cgi-bin/cgic.c:438-598 | and only if: with any other name or body in the list, reading the encoding gives something else |
| MultipartExact.EntriesPlain | server/cgi-bin/cgic.c:438-598 | from no stream is a name with a CR, LF, colon or NUL read |
| MultipartFields.ParseFields | server/cgi-bin/cgic.c:438-598 | any list of parts is read as their header lines say: a part whose last disposition is form data gives an entry with name, file name, content type and body, any other part none. Names of headers and parameters may be in any case, parameters in any order and spacing, quoted or not, other headers anywhere, lines may end in CR LF or LF, and any two characters may stand behind a delimiter and any text behind the end mark |
| MultipartFields.ParseCutShort | server/cgi-bin/cgic.c:512-545 | a body that breaks off within the body of a part is an input error, with the entries of the parts before |
| MultipartRoundTrip.BodyFaults | server/cgi-bin/cgic.c:438-598 | a body whose first part has a disposition with a parameter other than the name and the file name makes the reader write through a null pointer, whatever follows |
| MultipartRoundTrip.ExtraParameterFaults | server/cgi-bin/cgic.c:806-911 | `form-data; x=1` is such a disposition |
| UrlEncodedForm.NeverLonger | server/cgi-bin/cgic.c:1090-1127 | decoded text is never longer than its source |
| UrlEncodedForm.UnescapeChars | server/cgi-bin/cgic.c:1090-1127 | the state machine decodes into a buffer of length + 1 characters, ending with a NUL, and stays in the bounds of that buffer |
| UrlEncodedForm.LooksOutsideExactly | server/cgi-bin/cgic.c:1088-1127 | the index into `cgiHexValue` leaves the table if and only if a byte from 128 on is one of the two characters of an escape, where an escape starts at a percent sign that is not itself part of one |
| UrlEncodedForm.EncodedInside | server/cgi-bin/cgic.c:1088-1127 | in an encoded text every look-up stays inside the table |
| UrlEncodedForm.UnescapeBrokenOff | server/cgi-bin/cgic.c:1090-1127 | an escape that breaks off at the end of the text is dropped |
| UrlEncodedForm.UnescapeNoDigits | server/cgi-bin/cgic.c:1088-1127 | an escape without digits decodes to a NUL, which ends the name or value |
| UrlEncodedForm.ParseFormInput | server/cgi-bin/cgic.c:991-1086 | splitting at `&` and `=` and decoding gives the pairs of the specification |
| UrlEncodedForm.ParseFormText | server/cgi-bin/cgic.c:991-1127 | every url-encoding of a list of NUL-free pairs, each character literal, as plus, or as an escape in either case of digits, is parsed to that list in order (RFC 1866 section 8.2.1) |
| UrlEncodedForm.EncodeTextGood | server/cgi-bin/cgic.c:1090-1127 | every NUL-free text has such an encoding |
| UrlEncodedForm.ParseEncodedPairs | server/cgi-bin/cgic.c:991-1127 | the canonical encoding of any list of NUL-free pairs is parsed to that list |
| FormEntryText.FormEntryString | server/cgi-bin/cgic.c:1446-1524 | the buffer holds the first max - 1 characters of the normalised text and a NUL, nothing behind is touched, and truncation is reported exactly when the text does not fit |
| FormEntryText.BurstNormalized | server/cgi-bin/cgic.c:1470-1498 | a burst of CRs and LFs, in any mixture, becomes as many line feeds as the more frequent of the two (none without newlines); other characters stay |
| FormEntryText.NormalizeIdempotent | server/cgi-bin/cgic.c:1446-1524 | normalising twice is normalising once |
| FormEntryText.NeverTruncated | server/cgi-bin/cgic.c:1434-1444 | the space that is reported as needed is always enough |
| FormEntryText.LeastNeeded | server/cgi-bin/cgic.c:1434-1444 | and no less is, for a value without CRs copied with its line ends, which is copied unchanged |
| Utf8.VerifyExact | server/cgi-bin/parson/parson.c:196-253 | `verify_utf8_sequence` accepts exactly the strings that start with the shortest encoding of a Unicode scalar value (RFC 3629 sections 3 and 4) |
| Utf8.VerifiedEncoded | server/cgi-bin/parson/parson.c:212-253 | an accepted sequence lies within the string and is the encoding of the code point it denotes |
| Utf8.ValidExactly | server/cgi-bin/parson/parson.c:255-266 | `is_valid_utf8` accepts exactly the concatenations of such encodings |
| Utf8.IsValidUtf8 | server/cgi-bin/parson/parson.c:255-266 | its loop decides that property |
| ParsonText.Utf16Exact | server/cgi-bin/parson/parson.c:593-638 | `parse_utf16` accepts exactly the escapes and surrogate pairs that denote a scalar value (RFC 8259 section 7), and emits its shortest UTF-8 encoding |
| ParsonText.DecodeWithin | server/cgi-bin/parson/parson.c:572-713 | decoding never passes the closing quote that `skip_quotes` found, and never writes more characters than it reads |
| ParsonText.Hex4Exactly | server/cgi-bin/parson/parson.c:167-194 | four characters are read if and only if they are hexadecimal digits, in either case, and as the number of which they are the numeral in base 16 |
| ParsonGrammar.QuotedExactly | server/cgi-bin/parson/parson.c:572-726 | a string is read exactly where a literal stands that consists of plain characters, short escapes and escapes of code points, and as the bytes that these stand for, up to a NUL among them (RFC 8259 section 7) |
| ParsonText.EscapedStep | server/cgi-bin/parson/parson.c:1072-1206 | whatever `json_serialize_string` writes for a character is skipped as a whole and decoded to the character |
| ParsonText.QuotedRoundTrip | server/cgi-bin/parson/parson.c:716-726 | a serialized string, followed by any text, is read back, and the cursor stops behind its closing quote, with slashes escaped or not |
| ParsonCursor.ParseUtf16 | server/cgi-bin/parson/parson.c:593-638 | the decoder of `\u` escapes, writing into the output within its room |
| ParsonCursor.ProcessString | server/cgi-bin/parson/parson.c:643-713 | the decoding loop with an output buffer of length + 1: every write is in bounds and the result is that of the specification |
| ParsonCursor.Cursor.SkipQuotes | server/cgi-bin/parson/parson.c:572-591 | the scan for the closing quote leaves the cursor behind it, or fails |
| ParsonCursor.Cursor.GetQuoted | server/cgi-bin/parson/parson.c:716-726 | the content between quotes as a C string, and the cursor behind it |
| ParsonCursor.Cursor.ParseValue | server/cgi-bin/parson/parson.c:728-761 | the recursive descent parser returns and moves the cursor exactly as the specification on suffixes says |
| ParsonCursor.Cursor.ParseObject | server/cgi-bin/parson/parson.c:763-824 | the members are added to the key table of a new object one by one, a name that is there already fails, and the table is trimmed at the end: the object and the cursor are those of the specification |
| ParsonCursor.Cursor.TakeMember | server/cgi-bin/parson/parson.c:778-806 | one member is parsed and added to the table, which refuses it exactly when it has the name |
| ParsonCursor.Cursor.ParseArray | server/cgi-bin/parson/parson.c:826-871 | the loop over items |
| ParsonCursor.Cursor.ParseNumber | server/cgi-bin/parson/parson.c:902-913 | a number as `strtod` reads it, if `is_decimal` passes |
| ParsonCursor.JsonParseString | server/cgi-bin/parson/parson.c:1254-1263 | a byte order mark is skipped and the text behind the value is ignored |
| ParsonSyntax.ParseExactly | server/cgi-bin/parson/parson.c:728-923 | a value is read, and a text left, exactly where behind white space the text of a syntax tree of that value stands and then the text left: JSON with any white space between its tokens, distinct names, and at most 2048 levels (RFC 8259 sections 2 to 5), numerals being what `strtod` and `is_decimal` pass |
| ParsonSyntax.ParseTextExactly | server/cgi-bin/parson/parson.c:1254-1263 | `json_parse_string` reads exactly these texts from level 0, with a UTF-8 byte order mark in front or without, whatever follows |
| ParsonRoundTrip.ParsePrint | server/cgi-bin/parson/parson.c:728-1206 | for every valid value, style, level, nesting and following text, parsing the printed form gives the value and leaves exactly the following text, if nesting plus height is at most 2048, and fails otherwise |
| ParsonRoundTrip.ParseTextPrint | server/cgi-bin/parson/parson.c:1254-1263 | the same for whole texts: `json_parse_string` of a serialized value is the value, exactly when its height is at most 2048 |
| ParsonRoundTrip.FitsHeight | server/cgi-bin/parson/parson.c:728-731 | the nesting check passes at every value if and only if the height allows it |
| ParsonRoundTrip.ParsedAccepted | server/cgi-bin/parson/parson.c:728-923 | whatever the parser accepts has distinct names, NUL-free strings and a height within the limit, with no assumption on how numbers are read |
| ParsonRoundTrip.ReadAgain | server/cgi-bin/parson/parson.c:728-1206 | a value read from any text, if its numbers are among those that the conversions carry over, prints in every style to a text that is read as the same value |
| ParsonNumber.DecimalExactly | server/cgi-bin/parson/parson.c:268-282 | `is_decimal` passes a decimal numeral of `strtod` if and only if its whole part has no leading zero, where the zero of `0e1` counts as one, too; it passes no text with an x |
| ParsonNumber.IntegersLawful | server/cgi-bin/parson/parson.c:902-913 | the law assumed of the number conversions is met by decimal integers |
| ParsonNumber.ReadsNothingExactly | server/cgi-bin/parson/parson.c:902-913 | with decimal integers, a value is accepted without a character being read if and only if the text behind white space starts with a minus sign that no digit follows |
| ParsonNumber.ReadsNothingAsStrtod | server/cgi-bin/parson/parson.c:902-913 | with any conversion that reads a character exactly where a numeral of `strtod` starts (C11, section 7.22.1.3), this happens exactly at a minus sign that starts no numeral, and the value is zero |
| ParsonNumber.LoneMinus | server/cgi-bin/parson/parson.c:902-913 | the text `-` is accepted as the number zero, with the cursor still in front of it |
| ParsonSerializer.AppendString | server/cgi-bin/parson/parson.c:1218-1223 | without a buffer only the length is returned; with one the string and its NUL are written |
| ParsonSerializer.SerializeString | server/cgi-bin/parson/parson.c:1072-1206 | the quoted string, measured or written, with the same count; plain characters are stored without a NUL behind them |
| ParsonSerializer.Serialize | server/cgi-bin/parson/parson.c:936-1070 | the sizing pass and the writing pass return the same count, the length of the text, and every write including each intermediate NUL is in bounds |
| ParsonSerializer.SerializeArray | server/cgi-bin/parson/parson.c:947-978 | the array case with its separators, line ends and indentation |
| ParsonSerializer.SerializeObject | server/cgi-bin/parson/parson.c:979-1024 | the object case, whose values are looked up by key |
| ParsonSerializer.SerializationSize | server/cgi-bin/parson/parson.c:1671-1676 | the size is the length of the text plus one |
| ParsonSerializer.SerializeToBuffer | server/cgi-bin/parson/parson.c:1678-1690 | it succeeds exactly when the buffer is large enough, writes the text and its NUL and nothing else, and writes nothing when it fails |
| ParsonSerializer.SerializeToString | server/cgi-bin/parson/parson.c:1715-1733 | the buffer allocated is filled exactly, the final NUL being its last byte |
| ParsonLayout.SqueezedIsCompact | server/cgi-bin/parson/parson.c:936-1070 | any text of a value without the white space outside its strings is the compact text, which has no such white space |
| ParsonLayout.LaidOutIsPretty | server/cgi-bin/parson/parson.c:936-1070 | the pretty text is the compact text laid out on lines: a new line behind each comma and inside brackets that are not empty, four spaces for each pair of brackets around it, a space behind each colon |
| ParsonLayout.SlashedPrint | server/cgi-bin/parson/parson.c:1072-1206 | with escaped slashes, the text is the one without them with a backslash before each slash |
| ParsonTable.ObjectTable.Add | server/cgi-bin/parson/parson.c:377-401 | a new name is appended, a known one is an error; the capacity doubles, from 16, exactly when the table is full |
| ParsonTable.ObjectTable.Resize | server/cgi-bin/parson/parson.c:403-432 | both arrays are reallocated and keep the slots in use; a capacity of zero is an error |
| ParsonTable.ObjectTable.GetValue | server/cgi-bin/parson/parson.c:434-447 | the value of the first slot with the name |
| ParsonTable.ObjectTable.Remove | server/cgi-bin/parson/parson.c:449-471 | the last slot moves into the gap |
| ParsonTable.ObjectTable.Set | server/cgi-bin/parson/parson.c:1953-1973 | the value is overwritten in its slot, or the pair is appended; a value that is attached already is refused, with the status of failure and no slot changed |
| ParsonTable.ObjectTable.Clear | server/cgi-bin/parson/parson.c:2100-2112 | no slot is in use and the capacity stays |
| ParsonTable.ObjectTable.DoAll | server/cgi-bin/parson/parson.c:377-471 | through any run of set, add, remove, clear and trim, names stay distinct, count stays within capacity, and contents and statuses are those of a finite map |
| ParsonTable.SetIsUpdate | server/cgi-bin/parson/parson.c:1953-1973 | setting is updating the map at the name |
| ParsonTable.RemoveIsErase | server/cgi-bin/parson/parson.c:449-471 | removing by moving the last slot is taking the name out of the map |
| ParsonTable.RunIsMap | server/cgi-bin/parson/parson.c:377-471 | over any run, the slots behave as a finite map, with the same statuses |
| ParsonDot.DotSetGet | server/cgi-bin/parson/parson.c:1995-2036 | after a successful dotted set, the dotted get of the path returns the new value |
| ParsonDot.DotSetFrame | server/cgi-bin/parson/parson.c:1995-2036 | every path that is neither a prefix nor an extension of the one set keeps its result |
| ParsonDot.DotSetInside | server/cgi-bin/parson/parson.c:1995-2036 | every extension of the path leads into the new value |
| ParsonDot.DotSetFails | server/cgi-bin/parson/parson.c:1995-2036 | a dotted set fails if and only if the value is attached already or a proper prefix of the path denotes something that is not an object |
| ParsonDot.DotSetOutcome | server/cgi-bin/parson/parson.c:1995-2036 | whatever a dotted set does, a path apart from the one set keeps its result; if the set fails every path does, and if it succeeds its own path has the new value |
| ParsonDot.Tree.DotSetValue | server/cgi-bin/parson/parson.c:1995-2036 | the dotted set in place, descending into inner objects and creating missing ones: it fails exactly when the value is attached or the way is blocked, and then the members are as before |
| ParsonDot.DotSetValid | server/cgi-bin/parson/parson.c:1995-2036 | the tree keeps distinct names and valid values |
| ParsonDot.DotRemoveGet | server/cgi-bin/parson/parson.c:473-487 | a dotted remove succeeds if and only if the path has a value, and then it has none |
| ParsonDot.DotRemoveFrame | server/cgi-bin/parson/parson.c:473-487 | and every path apart keeps its result |
| ParsonDot.Tree.DotRemoveValue | server/cgi-bin/parson/parson.c:473-487 | the dotted remove in place, which changes nothing when it fails |
| ParsonCompare.ValueEquals | server/cgi-bin/parson/parson.c:2179-2242 | the loops decide the comparison |
| ParsonCompare.EqualsExactly | server/cgi-bin/parson/parson.c:2179-2242 | two values with distinct names are equal if and only if every way through names and indices leads to the same on both sides: nothing, an object, an array, the same text, truth value or null, or two numbers less than one millionth apart |
| ParsonCompare.EqualsReflexive | server/cgi-bin/parson/parson.c:2179-2242 | every value equals itself |
| ParsonCompare.EqualsSymmetric | server/cgi-bin/parson/parson.c:2179-2242 | the comparison is symmetric although it walks only the keys of the first object |
| ParsonCompare.EqualsObjects | server/cgi-bin/parson/parson.c:2208-2223 | objects are equal if and only if they have the same names, with equal values |
| ParsonCompare.Pigeonhole | server/cgi-bin/parson/parson.c:2208-2223 | equal counts and distinct names make the walk over one object enough |
| ParsonCompare.DeepCopy | server/cgi-bin/parson/parson.c:1591-1669 | the copy is the same value; it would fail exactly on repeated names, which no object has |
| ParsonSchema.JsonValidate | server/cgi-bin/parson/parson.c:2114-2177 | the loops decide schema validation |
| ParsonSchema.ValidateObjects | server/cgi-bin/parson/parson.c:2147-2167 | the check of the number of members never rejects what the checks of the keys accept: an object passes if and only if every name of the schema passes |
| ParsonSchema.ValidateExactly | server/cgi-bin/parson/parson.c:2114-2177 | a value passes if and only if every place that the schema speaks of, its first item standing for all items of an array, is there in the value, but for items behind the end of an array, with the type of the schema or any type where the schema has null |
| ParsonSchema.Transitive | server/cgi-bin/parson/parson.c:2114-2177 | s accepts t and t accepts v implies s accepts v, whenever t contains no empty array |
| ParsonSchema.TransitiveExactly | server/cgi-bin/parson/parson.c:2114-2177 | for which t this holds for all s and v: if and only if t is settled, that is, an empty array stands only where nothing but null can be asked for |
| ParsonSchema.EmptyArrayUnsettled | server/cgi-bin/parson/parson.c:2114-2177 | the schema `[]` is not settled: `[""]` accepts it, it accepts `[1]`, and `[""]` does not accept `[1]` |
| Carousel.JsModTwice | server/html/js/owl.carousel.js:1058 | with the truncating remainder, adding n and taking the remainder again gives the remainder in 0 to n - 1 |
| Carousel.RelativeIs | server/html/js/owl.carousel.js:1070-1073 | the relative position is the distance from the first item modulo the number of items, for every absolute position |
| Carousel.NormalizeKeeps | server/html/js/owl.carousel.js:1051-1063 | a normalised position is on the stage and shows the same item; positions on the stage are left alone |
| Carousel.Owl.MakeClones | server/html/js/owl.carousel.js:327-352 | the worker makes the configured number of clones, in pairs around the items |
| Carousel.Owl.WantedIs | server/html/js/owl.carousel.js:327-352 | that number is the least even one that is at least four, fills two views, and covers all items if the carousel does not rewind; none without loop or items |
| Carousel.Owl.StageShows | server/html/js/owl.carousel.js:327-352 | the element at every absolute position of the stage is the item of its relative position |
| Carousel.Owl.Clones | server/html/js/owl.carousel.js:1162-1172 | the list holds exactly the absolute positions of the clones whose relative position is asked for, each of them once |
| Carousel.Owl.SetCurrent | server/html/js/owl.carousel.js:981-1007 | the current position becomes the normalised one |
| Carousel.Owl.Reset | server/html/js/owl.carousel.js:1027-1042 | the position is set without animation; without items nothing changes |
| Carousel.Owl.To | server/html/js/owl.carousel.js:1245-1280 | with loop, from any position, the relative position afterwards is p modulo the number of items; without loop the target is clamped or, with rewind, taken modulo the maximum; in either case the speed is that of the way taken |
| Carousel.Owl.MaximumIs | server/html/js/owl.carousel.js:1081-1113 | the largest position is the last one with a whole view of items behind it, or with an item in the middle, or with loop the one of the last item |
| Carousel.Owl.BoundedIs | server/html/js/owl.carousel.js:1269-1274 | without loop the target is one of the positions: one that is stays, others are clamped or, with rewind, go round |
| Carousel.DurationIs | server/html/js/owl.carousel.js:1231-1237 | the speed is the factor for each place on the way, of which between one and six are counted, so that a longer way never takes less; a factor of 0 gives 0 |
| Carousel.MoveReaches | server/html/js/owl.carousel.js:1254-1267 | the jump before a move shows the same item as before, and the move ends at the item asked for |
| Carousel.MoveEnds | server/html/js/owl.carousel.js:1254-1267 | the move ends at the item itself and not at a clone if and only if the place it would then start from is on the stage in front of the end of the items |
| Carousel.MoveIsShort | server/html/js/owl.carousel.js:1254-1267 | a carousel that does not rewind moves at most half a round to any of its items, and straight there if that is not more; one that rewinds always goes straight |
| Carousel.Owl.Next | server/html/js/owl.carousel.js:1287-1290 | with loop, the next item modulo the number of items; without loop the step is clamped or, with rewind, taken modulo the maximum; the speed is that of the way taken, and no speed and a speed of 0 both mean the configured one |
| Carousel.Owl.Prev | server/html/js/owl.carousel.js:1297-1300 | the same for the step back |

## Left out

- ZeroMQ server and client, I2C, `/dev/mem`, MySQL, sockets, serial ports: input, output and calls into other libraries only.
- Memory: allocation failure, `free`, move semantics, allocators and the parent pointers of `JSON_DIAGNOSTICS`.
- Integer widths: sizes and counts are unbounded, so a count of written characters beyond the range of `int` and an array index beyond `size_t` are not told apart from large numbers.
- The text parser, serializer and binary formats of the nlohmann library, `flatten` and `unflatten`, and iterators.
- `ordered_json` documents in `diff`: their equality depends on the order of keys, which the script does not repair.
- Doubles in JSON documents: a finite double is a real number, so the sign of zero and the payload of NaN are not represented.
- The order in which C++ evaluates the operands of one expression where the code leaves it open.
- `Frame::decodeFrame`: it reads another layout than the encoder writes, so no round trip is claimed.
- ParsonValue.Lawful: not proved of `strtod` and `"%1.17g"`, whose digits are outside this model; `covers` stands for the doubles they carry over (not, for one, subnormal numbers where `strtod` sets `errno`).
- ParsonLayout.Tidy: likewise assumed of `"%1.17g"`; `ParsonLayout.IntegersTidy` shows that it can be met.
- Parson files, comments in JSON texts (`remove_comments`), typed getters and setters, array replace and remove, and the growth of the items array.
- Parson trees: values are modelled without identity. A value that is attached to a container already is a flag of the operations that refuse it; sharing is not represented.
- ParsonDot.Tree.DotSetValue: an inner object is taken out of its slot, changed in place and stored back, where the code changes it through its pointer.
- PreambleSearch.FindsFirst: one direction only, for boundaries with a dash behind another character; `SearchFirstExactly` has both directions for all others.
- Multipart file uploads into temporary files: the body of a part is kept in memory.
- UrlEncodedForm.UnescapeChars: what lies outside `cgiHexValue` is not part of this model; a look-up that leaves the table yields 0 in it.
- The linked list of form entries is a sequence.
- `OrderedMap` starts from an empty map: the constructors from ranges keep repeated keys.
- Carousel: DOM, events, timers, animation, pixel widths, `autoWidth` and `merge`; a handler of the change event does not override the position; `settings.items` is a whole number; a position that was never set counts as 0, as it does in the arithmetic of the code.
- Carousel.Owl.To: requires at least one item; without items the code computes with NaN.
