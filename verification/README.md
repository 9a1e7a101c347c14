# A verified model of the MongoDB C++ driver's core

This project models the parts of the legacy MongoDB C++ driver that carry its logic, and proves
what they promise for all inputs, all runs and all answers of the outside world.

- **The BSON format** (`Bytes`, `BsonTree`, `BsonParse`, `BsonValidate`, `BsonIterate`, `BsonBuild`,
  `BsonRoundTrip`). One recursive grammar, the `document`/`e_list`/`element` grammar of the BSON
  specification at bsonspec.org, is the reference. The iterative validator with its frame stack, the
  iterator that walks by element sizes and the builders that share one buffer and patch lengths
  afterwards are each proved to agree with it, and so with each other.
- **The BSON order** (`CompareNumbers`, `Lexicographic`, `BsonOrder`, `KeyPattern`, `BsonHash`,
  `DottedPath`). Doubles are decoded from their 64 bits into exact multiples of 2^-1074 (IEEE 754
  binary64). `woCompare` is the lexicographic order of one key per document and so a total preorder,
  the three ways of comparing under a key pattern agree, and what compares equal hashes equal.
- **Initializers** (`DependencyGraph`, `GraphSort`, `Initializer`). Registration, depth-first
  topological sort with its cycle witness, and execution.
- **Numbers and array indexes** (`ParseNumber`, `ArrayIndex`).
- **The client** (`GridFs`, `ClientCursor`, `CommandWriter`, `ReplicaSet`). Chunking, cursor limits,
  splitting of bulk writes, and the ownership of connections that two smart pointers may share.

Code that changes things in place is modelled by classes, methods and loops, each proved against a
specification function or a stated property; what the source promises is then proved about those.
A failed `uassert`, `massert`, `verify` or `invariant`, and a read past the end, is a value (`None`,
`Threw`, an error constructor). `Wrappers`, `Arithmetic` and `Permutations` hold what several modules
need. `dafny verify dfyconfig.toml` checks everything.

Some promises do not hold of the code as it stands. The model follows the code, and the exact
condition is proved in each case:

- `appendChunk` of the GridFS builder drops the rest of its data after completing a pending chunk
  (`FileCompleteExactly`, `LossHappens`), although its documentation says that the remaining bytes
  are kept.
- `storeFile` narrows the remaining length to 32 bits and does not end for every buffer
  (`StoreFileEndsExactly`, `StoreFileStandsStill`).
- `woCompare` can step its key pattern past the end (`WoCompareFailsExactly`, `WoCompareRunsOff`), and
  `equal` can step the right document past its end (`EqualExactly`, `EqualRunsOff`).
- `appendDate` and `appendUndefined` accept a field name with a NUL (`UncheckedName`, `NulInName`),
  `appendRegex` accepts options with one (`UncheckedOptions`, `NulInOptions`), and a string given
  with its size need not end in one (`UncheckedTerminator`, `NoTerminator`).
- A document put back into a cursor counts against the limit a second time (`PutBackExactly`,
  `PutBackLoses`).
- An operation within 8 KiB of the maximum size stops a bulk write although it is allowed by itself
  (`Write`, `AbortsNearMaximum`).
- A replica set client can return a connection to another host than the primary it was told of
  (`KeptPrimaryExactly`, `RunThenCheckMaster`, `WrongPrimary`), does not remember a primary it has just
  connected to for reading (`SelectNodeUsingTags`, `PrimaryForgotten`), and loses a connection that
  comes back together with an error (`Run`, `ConnectionLost`).

## Model

| member | source | states |
|---|---|---|
| BsonTree.FieldsBytesOfAppend | src/mongo/bson/bsonobj.h:51-76 | the encoding of two runs of fields is the one after the other, so appending a field appends its bytes |
| BsonParse.ParseDocSound | src/mongo/bson/bsonobj.h:51-76 | whatever the recursive-descent reader returns is encoded at the place it read, byte for byte, and is shorter than 2^31 |
| BsonParse.ParseDocComplete | src/mongo/bson/bsonobj.h:51-76 | where the encoding of a tree shorter than 2^31 stands, the reader returns that tree and the place after it |
| BsonParse.ParseDocExact | src/mongo/bson/bsonobj.h:51-76 | reader and grammar agree in both directions, at every position of every buffer |
| BsonParse.EncodingUnique | src/mongo/bson/bsonobj.h:51-76 | no two documents can stand at one place |
| Bytes.ToFromLittleEndian | src/mongo/bson/util/builder.h:243-249 | every byte string is the little-endian form of exactly the number it reads as |
| Bytes.FromToLittleEndian | src/mongo/bson/util/builder.h:243-249 | a number that fits k bytes reads back from its k little-endian bytes |
| BsonValidate.FramePacking | src/mongo/bson/bson_validate.cpp:142-162 | the start position and the flag share one 32-bit word without disturbing each other; the position loses bit 31 |
| BsonValidate.Buffer.constructor | src/mongo/bson/bson_validate.cpp:47-49 | a buffer starts at position 0 |
| BsonValidate.Buffer.ReadByte | src/mongo/bson/bson_validate.cpp:51-60 | reads one byte or leaves the position alone, exactly by whether it lies in the buffer |
| BsonValidate.Buffer.ReadInt | src/mongo/bson/bson_validate.cpp:51-60 | reads a little-endian int or leaves the position alone |
| BsonValidate.Buffer.Skip | src/mongo/bson/bson_validate.cpp:104-107 | always moves, and is true only if a byte is left after the skipped ones |
| BsonValidate.Buffer.ReadCString | src/mongo/bson/bson_validate.cpp:62-75 | accepts and ends exactly where the grammar's C string does |
| BsonValidate.Buffer.ReadUtf8String | src/mongo/bson/bson_validate.cpp:77-102 | accepts and ends exactly where the grammar's sized string does, negative and zero sizes refused |
| BsonValidate.ValidateScalar | src/mongo/bson/bson_validate.cpp:167-263 | for every type without a nested document it ends where the grammar ends, or the buffer is used up; the strict comparison in skip and the DBRef skip whose result is ignored cause no other difference |
| BsonValidate.ValidateElementInfo | src/mongo/bson/bson_validate.cpp:167-263 | name and value of one element are taken as the grammar takes them, and the next state is that of the type byte |
| BsonValidate.Advance | src/mongo/bson/bson_validate.cpp:265-361 | one step of the machine keeps the run on course: what the machine will answer is what the recursive reader answers |
| BsonValidate.PushObject | src/mongo/bson/bson_validate.cpp:275-284 | opening an object keeps the run on course, or the buffer holds no document |
| BsonValidate.TakeElement | src/mongo/bson/bson_validate.cpp:285-310 | taking an element keeps the run on course and consumes input |
| BsonValidate.PopObject | src/mongo/bson/bson_validate.cpp:311-328 | closing an object with the right length keeps the run on course, with a wrong one the buffer holds no document |
| BsonValidate.PushCodeWScope | src/mongo/bson/bson_validate.cpp:329-341 | opening a CodeWScope keeps the run on course |
| BsonValidate.PopCodeWScope | src/mongo/bson/bson_validate.cpp:342-354 | closing a CodeWScope keeps the run on course, and the error for a missing outer frame cannot happen |
| BsonValidate.ValidateBsonIterative | src/mongo/bson/bson_validate.cpp:265-361 | the loop over the frame stack ends, and accepts below position 2^31 exactly what the recursive reader accepts, at the same end |
| BsonValidate.ValidateBson | src/mongo/bson/bson_validate.cpp:365-372 | for every buffer: it starts with a document of the grammar if and only if the validator accepts and stops below 2^31; for a buffer shorter than 2^31 that is acceptance alone |
| BsonIterate.ValueSizeExact | src/mongo/bson/bsonelement.cpp:436-582 | both switches of size() give the length of the encoding, for every type and every limit that lets it through |
| BsonIterate.ElementSizeExact | src/mongo/bson/bsonelement.cpp:436-582 | size() and size(maxLen) of an element are the length of its encoding, and no check of the second fails |
| BsonIterate.BoundedSizeExactly | src/mongo/bson/bsonelement.cpp:436-516 | size(maxLen) of an element is given or refused exactly by how many bytes it wants: only the name for a fixed-width value, four more for a sized one, all for a regular expression |
| BsonIterate.EndOfIteration | src/mongo/bson/bsonobjiterator.h:63-84 | after the last field next() returns the closing element once and then fails |
| BsonIterate.BsonObjIterator.constructor | src/mongo/bson/bsonobjiterator.h:41-54 | an iterator stands on the first element and knows the last byte |
| BsonIterate.BsonObjIterator.Next | src/mongo/bson/bsonobjiterator.h:63-84 | returns the place of an element and moves by its size, or fails where a check fails |
| BsonIterate.AheadStep | src/mongo/bson/bsonobjiterator.h:63-84 | with the fields of a tree ahead, one step passes exactly the first of them, with or without checkEnd |
| BsonIterate.Elements | src/mongo/bson/bsonobj.cpp:707-711 | iteration visits exactly the fields of the tree, in order, and ends on the closing byte |
| BsonIterate.NestedStands | src/mongo/bson/bsonelement.cpp:399-408 | a nested document stands where embeddedObject and codeWScopeObject look for it, and nowhere else |
| BsonIterate.ReadValueExact | src/mongo/bson/bsonelement.h:183-367 | name and value read through the accessors, by type and with no check but the bounds, are those that were encoded |
| BsonIterate.ScalarAtExact | src/mongo/bson/bsonelement.h:183-367 | every scalar accessor, sized strings with NULs and both halves of a regular expression included, reads what was encoded |
| BsonIterate.ReadTree | src/mongo/bson/bsonobjiterator.h:41-84 | walking every level with its own iterator gives the whole tree back, at any depth |
| BsonIterate.ReadElement | src/mongo/bson/bsonelement.h:183-367 | the same for one element and all that is nested in it |
| BsonBuild.BsonObjBuilder.constructor | src/mongo/bson/bsonobjbuilder.h:56-90 | a builder on its own or a parent's buffer keeps what is there and leaves four bytes for its length |
| BsonBuild.BsonObjBuilder.Append | src/mongo/bson/bsonobjbuilder.h:206-574 | an append writes type, name and value, or nothing when the name is refused; appendDate and appendUndefined do not check the name |
| BsonBuild.BsonObjBuilder.AppendTimeT | src/mongo/bson/bsonobjbuilder.h:362-368 | a time_t becomes a date a thousand times as large, modulo 2^64, and here the name is checked |
| BsonBuild.BsonObjBuilder.AppendRegEx | src/mongo/bson/bsonobjbuilder.h:382-390 | name and pattern are refused with a NUL, options are written whatever they hold |
| BsonBuild.BsonObjBuilder.AppendSized | src/mongo/bson/bsonobjbuilder.h:411-418 | the bytes of a string given with its size are written as they come, terminator or not |
| BsonBuild.BsonObjBuilder.AppendScalar | src/mongo/bson/bsonobjbuilder.h:206-574 | the bytes of every scalar are those the grammar gives it |
| BsonBuild.BsonObjBuilder.AppendValue | src/mongo/bson/bsonobjbuilder.h:206-574 | the same for values that hold documents |
| BsonBuild.BsonObjBuilder.AppendCodeWScope | src/mongo/bson/bsonobjbuilder.h:556-564 | the two lengths of a CodeWScope agree with what they span |
| BsonBuild.BsonObjBuilder.SubStart | src/mongo/bson/bsonobjbuilder.h:176-204 | the header of a nested object or array, or nothing for a name with a NUL |
| BsonBuild.BsonObjBuilder.Done | src/mongo/bson/bsonobjbuilder.h:716-735 | closing byte and length, once |
| BsonBuild.BsonObjBuilder.AsTempObj | src/mongo/bson/bsonobjbuilder.h:636-642 | returns the finished document and leaves the buffer as it was but for the four length bytes; called after done it takes the closing byte off again |
| BsonBuild.BsonObjBuilder.HasField | src/mongo/bson/bsonobjbuilder.cpp:243-255 | on an unfinished buffer it finds exactly the names of the fields in it |
| BsonBuild.UnclosedStep | src/mongo/bson/bsonobjbuilder.cpp:243-255 | iteration over a buffer without its closing byte still passes field by field and stops at its end |
| BsonBuild.FinishedIsDoc | src/mongo/bson/bsonobjbuilder.h:716-735 | finishing a builder leaves the encoding of its document where it began |
| BsonBuild.LayoutOpen | src/mongo/bson/bsonobjbuilder.h:75-90 | a nested builder extends the layout of the shared buffer by one level |
| BsonBuild.LayoutAdd | src/mongo/bson/bsonobjbuilder.h:206-574 | an append to the innermost builder adds one field to its level and touches no other |
| BsonBuild.LayoutClose | src/mongo/bson/bsonobjbuilder.h:716-735 | closing the innermost builder turns it into one field of its parent |
| BsonBuild.LayoutPatch | src/mongo/bson/bsonobjbuilder.h:716-735 | rewriting the length bytes of any open builder changes no level |
| BsonBuild.Perform | src/mongo/bson/bsonobjbuilder.h:56-138 | one operation carried out by the builders keeps the shared buffer laid out as the trees under construction, and a hasField of the innermost builder is answered by its names so far |
| BsonBuild.Build | src/mongo/bson/bsonobjbuilder.h:56-138 | any well-nested run of appends, nested builders, looks and hasField questions leaves exactly the encoding of the tree it describes, and answers each question by the names appended so far |
| BsonBuild.PeekShowsTop | src/mongo/bson/bsonobjbuilder.h:636-642 | asTempObj of the innermost builder is the document it holds so far |
| BsonBuild.PeeksChangeNothing | src/mongo/bson/bsonobjbuilder.h:636-642 | looks and questions during a run do not change what it describes; that they leave the bytes alone is `LayoutPatch` and `Perform` |
| BsonBuild.UncheckedName | src/mongo/bson/bsonobjbuilder.cpp:188-201 | in any document: a date or Undefined reads back under its name, all other fields as they were, if and only if the name holds no NUL |
| BsonBuild.UncheckedOptions | src/mongo/bson/bsonobjbuilder.h:382-390 | in any document: a regular expression reads back as that pattern with some options if and only if the options hold no NUL, and then with those options |
| BsonBuild.NulInOptions | src/mongo/bson/bsonobjbuilder.h:382-390 | options with a NUL, a type byte and a name write a second field |
| BsonBuild.UncheckedTerminator | src/mongo/bson/bsonobjbuilder.h:411-418 | in any document: a string given with its size reads back as a string if and only if its last byte is NUL, and then without that byte |
| BsonBuild.NoTerminator | src/mongo/bson/bsonobjbuilder.h:411-418 | a one-letter string without terminator is not read at all |
| BsonBuild.ReadsBackExactly | src/mongo/bson/bsonobjbuilder.h:206-574 | bytes written between fields read back as a field if and only if they are its encoding |
| BsonBuild.FinishedAround | src/mongo/bson/bsonobjbuilder.h:716-735 | finishing a builder that holds such bytes gives the document spoken of |
| BsonBuild.NulInName | src/mongo/bson/bsonobjbuilder.h:571-574 | a concrete name with a NUL is read as its first part |
| BsonRoundTrip.BuildValidateRead | src/mongo/bson/bsonobjbuilder.h:56-138 | what any well-nested run builds is accepted by the validator and reads back as the tree the run described |
| BsonRoundTrip.ValidateThenRead | src/mongo/bson/bson_validate.cpp:365-372 | every buffer the validator accepts can be walked to the bottom, by either form of size(), to a tree that encodes back to the bytes; a refused one starts with no document |
| CompareNumbers.CompareDoublesExact | src/mongo/base/compare_numbers.h:48-56 | compareDoubles is the order of the values, NaN below everything and equal to itself |
| CompareNumbers.KnownBits | src/mongo/base/compare_numbers.h:48-56 | the bit patterns of the infinities, of one, minus one, minus zero and a NaN (IEEE 754 binary64) |
| CompareNumbers.InfinitiesBound | src/mongo/base/compare_numbers.h:48-56 | every finite double lies between the infinities, and NaN below everything |
| CompareNumbers.FractionOnlyBelow53Bits | src/mongo/base/compare_numbers.h:64-84 | for each of the 2^64 bit patterns: a finite double is whole or below 2^53 in magnitude |
| CompareNumbers.CompareLongToDoubleExact | src/mongo/base/compare_numbers.h:64-84 | for every long and every double the result is the exact sign of their difference, though neither type holds the other |
| CompareNumbers.LongRepresentable | src/mongo/base/compare_numbers.h:64-84 | every long up to 2^53 in magnitude is a double exactly |
| CompareNumbers.FiniteRepresentable | src/mongo/base/compare_numbers.h:64-84 | every m * 2^e with m below 2^53 and e in range is the value of some bit pattern |
| BsonOrder.CompareNumericExact | src/mongo/bson/bsonelement.cpp:848-875 | two numbers of whatever types compare as their exact values |
| BsonOrder.ScalarsCompareByKey | src/mongo/bson/bsonelement.cpp:819-926 | each type's own comparison has the sign of the lexicographic order of a key, embedded NULs included |
| Lexicographic.MemCompareThenLength | src/mongo/bson/bsonelement.cpp:879-893 | memcmp over the common length and then the lengths is the lexicographic order |
| Lexicographic.CompareJoined | src/mongo/bson/bsonobj.cpp:142-183 | where neither of two sequences continues the other, comparing concatenations is comparing part by part |
| BsonOrder.ValuesCompareByKey | src/mongo/bson/bsonelement.cpp:819-926 | values of one canonical type, nested ones included, compare as their keys do |
| BsonOrder.ElementsCompareByKey | src/mongo/bson/bsonelement.cpp:374-388 | elements compare as keys that start with the canonical type, then the name if it is considered, then the value |
| BsonOrder.DocsCompareByKey | src/mongo/bson/bsonobj.cpp:142-183 | woCompare of documents of any depth has the sign of the lexicographic order of one integer sequence per document |
| BsonOrder.KindsInOrder | src/mongo/bson/bsontypes.h:109-152 | the order of the kinds, written out on constructors, and the canonical type of each: a value of an earlier kind comes before any of a later one, whatever their names |
| BsonOrder.BoolsCompareSigned | src/mongo/bson/bsonelement.cpp:831-832 | the byte of a Bool is compared as a signed char |
| BsonOrder.ElementsMirror | src/mongo/bson/bsonelement.cpp:374-388 | comparing elements the other way round gives the opposite sign, names considered or not |
| BsonOrder.ElementsChain | src/mongo/bson/bsonelement.cpp:374-388 | the comparison of elements is transitive across all types, strictly if either step is strict |
| BsonOrder.ElementsReflexive | src/mongo/bson/bsonelement.cpp:374-388 | every element compares equal to itself, NaN included |
| BsonOrder.CompareIsTotalPreorder | src/mongo/bson/bsonobj.cpp:142-183 | woCompare on documents is reflexive, total, antisymmetric in sign and transitive, and equal documents are interchangeable |
| DottedPath.PathIntoArray | src/mongo/bson/bsonobj.cpp:276-286 | a path that finds something in an indexed array goes on with an index |
| DottedPath.DottedLookupsAgree | src/mongo/bson/bsonobj.cpp:262-311 | where getFieldDotted finds an element, getFieldsDotted without expansion of the last array collects that one and no other, through any mix of objects and arrays |
| DottedPath.FindField | src/mongo/bson/bsonobj.cpp:641-653 | the loop of getField finds what its recursive form finds |
| DottedPath.FirstIsFound | src/mongo/bson/bsonobj.cpp:641-653 | the first field of a name is found, and none where no field has it |
| DottedPath.DottedFollowsNames | src/mongo/bson/bsonobj.cpp:722-741 | where field names hold no dots, getFieldDotted follows the names of the path one by one, through objects and arrays |
| DottedPath.CollectFieldsDotted | src/mongo/bson/bsonobj.cpp:262-311 | the recursion that inserts into a result collects what its functional form lists, and by `CollectsExactly` what the path reaches |
| DottedPath.CollectsExactly | src/mongo/bson/bsonobj.cpp:262-311 | an element is collected if and only if a walk along the path reaches it: through named fields of objects, of arrays for an index, and through every object and array in an array otherwise; the last array expanded or not |
| DottedPath.PathCharacters | src/mongo/bson/bsonobj.cpp:266-283 | a dot parts the names and the ten digits make an index |
| DottedPath.SpreadExample | src/mongo/bson/bsonobj.cpp:276-294 | a name below an array is found in its elements |
| DottedPath.IntoArray | src/mongo/bson/bsonobj.cpp:722-741 | getFieldDotted finds an element of an array under its index |
| KeyPattern.WoCompare | src/mongo/bson/bsonobj.cpp:142-183 | the loop over three iterators computes the recursive comparison, failure included |
| KeyPattern.WoCompareFailsExactly | src/mongo/bson/bsonobj.cpp:142-183 | it runs off its key pattern if and only if the pattern is not empty and the documents agree on one field more than it has |
| KeyPattern.WoCompareRunsOff | src/mongo/bson/bsonobj.cpp:142-183 | it does for a document of two fields compared with itself under a pattern of one |
| KeyPattern.WoCompareWithoutPattern | src/mongo/bson/bsonobj.cpp:142-183 | with no pattern it is the order of documents and never fails |
| KeyPattern.MakeOrdering | src/mongo/bson/ordering.h:57-73 | bit i is set exactly when the i-th field holds a number below zero and no other bit is, and only more than 32 fields are refused |
| KeyPattern.SignBitsAt | src/mongo/bson/ordering.h:57-73 | the bit of each field, by the value of its number |
| KeyPattern.WoCompareOrdered | src/mongo/bson/bsonobj.cpp:109-139 | the loop with the shifting mask computes the masked comparison, the mask dropping out of its word included |
| KeyPattern.MaskedDecided | src/mongo/bson/bsonobj.cpp:109-139 | woCompare under an Ordering is decided by the first pair of fields that differ, the other way round exactly when the bit of its place is set, and ascending from the 33rd field on |
| KeyPattern.ExtractFields | src/mongo/bson/bsonobj.cpp:360-374 | the extracted document has the pattern's names with the values found under them, null where none is |
| KeyPattern.WoSortOrder | src/mongo/bson/bsonobj.cpp:194-222 | the loop over the sort key computes the recursive order, empty documents and keys included |
| KeyPattern.SortDecided | src/mongo/bson/bsonobj.cpp:194-222 | woSortOrder is decided by the first key field on which the found values differ, the other way round exactly when the key holds a number below zero |
| KeyPattern.PatternDecided | src/mongo/bson/bsonobj.cpp:142-183 | the same of woCompare under a pattern and the first pair of fields that differ |
| KeyPattern.SortExamples | src/mongo/bson/bsonobj.cpp:194-222 | one sorts before two under an ascending key and after it under a descending one |
| KeyPattern.NegativeIsBelowZero | src/mongo/bson/bsonobj.cpp:176-178 | the direction of a key is the sign of the number it holds, for ints, longs and doubles |
| KeyPattern.ThreeComparisonsAgree | src/mongo/bson/bsonobj.cpp:109-222 | for non-empty documents and any non-empty key the sort order and the comparison of extracted fields under the pattern are one number, and up to 32 key fields the one under its bitmask is the same |
| KeyPattern.EmptyDocumentsDiffer | src/mongo/bson/bsonobj.cpp:194-222 | for an empty document they differ: a concrete pair |
| KeyPattern.EqualDocs | src/mongo/bson/bsonobj.cpp:33-45 | the loop of equal computes its recursive form, failure included |
| KeyPattern.EqualExactly | src/mongo/bson/bsonobj.cpp:33-45 | equal runs off the right document if and only if the left one goes on with an unnamed Undefined after all that is equal; otherwise it is equality under woCompare |
| KeyPattern.EqualRunsOff | src/mongo/bson/bsonobj.cpp:33-45 | it does for a lone unnamed Undefined and the empty document |
| BsonHash.HashDoc | src/mongo/bson/bsonobj.cpp:224-230 | the loop folds the hashes of the elements |
| BsonHash.EqualNumbersConvertAlike | src/mongo/bson/bsonelement.h:573-584 | numbers that are equal become the same double, though a large long may be rounded |
| BsonHash.EqualElementsHashEqual | src/mongo/bson/bsonelement.cpp:928-1015 | elements that compare equal with names considered hash equal, for any combining function |
| BsonHash.EqualDocsHashEqual | src/mongo/bson/bsonobj.cpp:224-230 | documents that compare equal hash equal, across number types and at any depth |
| BsonHash.HashTellsElements | src/mongo/bson/bsonelement.cpp:928-1015 | for a combining function without collisions, equal hashes come only from one name and values that are the same but for rounded longs and set flags |
| BsonHash.HashTellsDocs | src/mongo/bson/bsonobj.cpp:224-230 | the same for documents, field by field and at any depth |
| BsonHash.HashRounds | src/mongo/bson/bsonelement.h:573-584 | longs that round to one double hash alike, and an int with the double of its value |
| DependencyGraph.InitializerDependencyGraph.AddInitializer | src/mongo/base/initializer_dependency_graph.cpp:27-50 | a refused call changes nothing; an accepted one adds the node, its prerequisites and an edge from each dependent |
| DependencyGraph.GraphDescribed | src/mongo/base/initializer_dependency_graph.cpp:27-50 | all calls succeed if and only if each brings a function and no name is used twice; the graph is then described by the calls as a set |
| DependencyGraph.RegistrationOrderIrrelevant | src/mongo/base/initializer_dependency_graph.cpp:27-50 | the same calls in any order all succeed and leave the same graph |
| GraphSort.RecursiveTopSort | src/mongo/base/initializer_dependency_graph.cpp:91-152 | one visit keeps the chain in progress and the finished order, or explains the failure |
| GraphSort.TopSort | src/mongo/base/initializer_dependency_graph.cpp:61-89 | OK if and only if every node and prerequisite is registered and the graph has no cycle; then each node once with prerequisites first; a reported cycle is one, and InternalError cannot happen |
| GraphSort.PathGoesBack | src/mongo/base/initializer_dependency_graph.cpp:61-89 | in an order with prerequisites first every dependency path leads backwards |
| GraphSort.OrderedIsAcyclic | src/mongo/base/initializer_dependency_graph.cpp:61-89 | a graph that has such an order has no cycle |
| Initializer.Execute | src/mongo/base/initializer.cpp:50-77 | runs nodes once each in dependency order up to the first failure; completes only if all ran and succeeded |
| Initializer.RunsRespectDependencies | src/mongo/base/initializer.cpp:50-77 | a function ran only after all its transitive prerequisites ran and succeeded |
| Initializer.DependentsOfFailureDoNotRun | src/mongo/base/initializer.cpp:50-77 | no transitive dependent of a failed function runs |
| ParseNumber.NumeralIsExtracted | src/mongo/base/parse_number.cpp:50-112 | sign and base prefix are stripped as the grammar names them; only a lone 0 is read as decimal instead of octal |
| ParseNumber.RebuiltSpells | src/mongo/base/parse_number.cpp:50-112 | what is stripped off can be put back: no character is dropped or read twice |
| ParseNumber.NextValue | src/mongo/base/parse_number.cpp:144-174 | the two overflow tests let a digit through exactly when the next value fits, and compute nothing out of range |
| ParseNumber.AccumulatePositive | src/mongo/base/parse_number.cpp:160-176 | the loop succeeds exactly on digits whose value is at most the maximum, every intermediate product and sum in range |
| ParseNumber.AccumulateNegative | src/mongo/base/parse_number.cpp:131-154 | the same toward the minimum |
| ParseNumber.FitsByDigits | src/mongo/base/parse_number.cpp:114-179 | the grammar admits a text exactly when what is left after stripping is digits whose value fits |
| ParseNumber.ParseNumberFromString | src/mongo/base/parse_number.cpp:114-179 | for every type, base and text: success exactly on the numerals of section 7.20.1.4 of ISO C99 (without blanks or trailing text) whose value the type holds, with that value; a base is refused exactly when it is 1, negative or above 36 |
| ParseNumber.DigitByAlphabet | src/mongo/base/parse_number.cpp:35-43 | a byte is the digit i exactly when it is the i-th letter of the written-out alphabet, in either case |
| ParseNumber.ParseLetter | src/mongo/base/parse_number.cpp:35-43 | that letter alone parses to i, in every base above i and for every type |
| ParseNumber.SpelledOut | src/mongo/base/parse_number.cpp:50-112 | a numeral is spelled with the written-out signs, prefixes and letters below its base and nothing else |
| ParseNumber.ParseExamples | src/mongo/base/parse_number.cpp:114-179 | concrete hexadecimal, octal and decimal texts |
| ArrayIndex.NumStrFits | src/mongo/bson/bsonobjbuilder.h:661-667 | a decimal index is a numeral of base 0 with that value: never octal, never hexadecimal |
| ArrayIndex.IndexOfNumStr | src/mongo/bson/bsonelement.cpp:348-369 | reading an index name gives the index back |
| ArrayIndex.ReadArray | src/mongo/bson/bsonelement.cpp:348-369 | the loop resizes and fills as its recursive form does, refusal of large indexes included |
| ArrayIndex.Put | src/mongo/bson/bsonelement.cpp:348-369 | storing at an index keeps the rest, and fills a gap before it with missing elements |
| ArrayIndex.GapsAndRepeats | src/mongo/bson/bsonelement.cpp:348-369 | concrete arrays with a gap, a repeated index and a name that is no index |
| ArrayIndex.IndexLimit | src/mongo/bson/bsonelement.cpp:348-369 | an index is let through exactly below 1,000,000 |
| ArrayIndex.BeyondUnsigned | src/mongo/bson/bsonelement.cpp:348-369 | a name that exceeds 32 unsigned bits is no index and is passed over |
| ArrayIndex.ArrayReadsBack | src/mongo/bson/bsonelement.cpp:348-369 | up to 1,000,000 numbered values come back in order with no gap |
| ArrayIndex.BsonArrayBuilder.Append | src/mongo/bson/bsonobjbuilder.h:748-763 | a value is appended under the next decimal index |
| ArrayIndex.ArrayRoundTrip | src/mongo/bson/bsonobjbuilder.h:748-763 | values appended through the array builder and read from its bytes are the same list |
| GridFs.CutJoins | src/mongo/client/gridfs.cpp:87-105 | pieces of the chunk size join to the data, number as many as getNumChunks says, and are numbered 0, 1, 2, ..., all full but perhaps the last |
| GridFs.GridFileBuilder.constructor | src/mongo/client/gridfs.cpp:274-283 | an empty builder with room for one chunk |
| GridFs.GridFileBuilder.StoreChunks | src/mongo/client/gridfs.cpp:285-302 | stores the whole chunks of its data, all of it when forced, numbered on from the current one, and returns the rest |
| GridFs.GridFileBuilder.StorePending | src/mongo/client/gridfs.cpp:304-309 | the pending bytes become one chunk, or none when there are none |
| GridFs.GridFileBuilder.AppendChunk | src/mongo/client/gridfs.cpp:311-339 | stored and pending bytes after a call, for every fill level and length, the dropped tail included |
| GridFs.GridFileBuilder.BuildFile | src/mongo/client/gridfs.cpp:341-353 | the last chunk is stored, the file record has the total length, and the builder starts over |
| GridFs.RunConserves | src/mongo/client/gridfs.cpp:311-339 | after any calls less than a chunk is pending, and bytes appended = stored + pending + dropped |
| GridFs.FileCompleteExactly | src/mongo/client/gridfs.cpp:311-339 | the file holds all that was appended if and only if every call starts on a chunk boundary, stays below the next one or ends on one, counted from the lengths of the calls |
| GridFs.LossHappens | src/mongo/client/gridfs.cpp:311-339 | a tail is dropped: three bytes in two calls |
| GridFs.StreamFile | src/mongo/client/gridfs.cpp:274-353 | a whole upload stores exactly the cut-up content under the file's record |
| GridFs.WriteFile | src/mongo/client/gridfs.cpp:243-257 | writes the content when all chunks are found, and fails exactly when one is missing |
| GridFs.UploadReadsBack | src/mongo/client/gridfs.cpp:243-257 | after an upload every chunk of the content is found, whatever other files are stored |
| GridFs.StoreFile | src/mongo/client/gridfs.cpp:87-105 | where it ends, the chunks are the buffer cut up |
| GridFs.StoreFileEndsExactly | src/mongo/client/gridfs.cpp:87-105 | the loop finishes if and only if the length is below 2^32 and the chunk size or the length below 2^31; otherwise it stops on a negative length or goes on for ever |
| GridFs.StoreFileStandsStill | src/mongo/client/gridfs.cpp:87-105 | a buffer of exactly 2^32 bytes never gets shorter |
| ClientCursor.DBClientCursor.constructor | src/mongo/client/dbclientcursor.cpp:37-53 | a fresh cursor has made its first request and handed out nothing |
| ClientCursor.DBClientCursor.Request | src/mongo/client/dbclientcursor.cpp:178-194 | a reply continues the stream where the last one ended; every request asks for the batch size without a limit or below what is left of it, and otherwise for all that is left, negated |
| ClientCursor.DBClientCursor.RawMore | src/mongo/client/dbclientcursor.cpp:242-257 | true exactly while the stream has documents and the limit is not reached, however the server splits the stream |
| ClientCursor.DBClientCursor.More | src/mongo/client/dbclientcursor.cpp:259-269 | the same with put-back documents first |
| ClientCursor.DBClientCursor.Next | src/mongo/client/dbclientcursor.cpp:283-298 | hands out the last put-back document or the next of the stream, or throws exactly when neither is at hand; every call counts against the limit |
| ClientCursor.DBClientCursor.PutBack | src/mongo/client/dbclientcursor.h:76 | a put-back document is the next one out |
| ClientCursor.Drain | src/mongo/client/dbclientcursor.cpp:208-298 | from any state: the put-back documents in reverse and then the stream as far as the limit goes, put-back documents counting a second time |
| ClientCursor.PutBackExactly | src/mongo/client/dbclientcursor.cpp:283-298 | where a drain after a put-back ends is where the limit promises if and only if nothing was put back, there is no limit, the limit leaves room to count twice, or all it promises was read before |
| ClientCursor.ReadPutBackRead | src/mongo/client/dbclientcursor.cpp:283-298 | reading any number, putting any of them back and reading on gives what the limit promises exactly under that condition |
| ClientCursor.PutBackLoses | src/mongo/client/dbclientcursor.cpp:283-298 | with a limit of two, one document read, put back and read again costs the second |
| ClientCursor.ReadAll | src/mongo/client/dbclientcursor.cpp:208-298 | for every limit, batch size and server a fresh cursor yields exactly the first documents up to the limit, all for 0 |
| CommandWriter.FillBatch | src/mongo/client/command_writer.cpp:61-92 | a batch of one type within both limits, measured by the buffer the array is built in, ended only where the next operation could not have joined, and the bytes of its array; or the operation that is too large |
| CommandWriter.Write | src/mongo/client/command_writer.cpp:32-123 | finishes if and only if every operation fits a command of its own, and otherwise stops for the first that does not: by an exception above the maximum, by the abort within the overhead; the batches sent concatenate to the operations so far, each good and as long as it can be; the array sent for each is the BSON array of its operations, and up to 2^31 operations none is larger than the maximum |
| CommandWriter.Limits.BatchWithin | src/mongo/client/command_writer.cpp:115-123 | what the overhead is for: the encoded array of a batch admitted op by op stays within the maximum |
| CommandWriter.ElementCovered | src/mongo/client/update_write_operation.cpp:50-80 | the element an insert, update or delete adds is at least its claimed size and at most 60 bytes more |
| CommandWriter.FitsAloneExactly | src/mongo/client/command_writer.cpp:115-123 | a lone operation goes through exactly when 8192 bytes and the empty array leave room for it |
| CommandWriter.TwoLargeInserts | src/mongo/client/command_writer.cpp:61-92 | two inserts of ten million bytes under 16 MiB go out as two commands |
| CommandWriter.AbortsNearMaximum | src/mongo/client/command_writer.cpp:51-53 | an insert of a document 8 KiB below 16 MiB stops the write though its size is allowed |
| CommandWriter.BulkOperationBuilder.Enqueue | src/mongo/client/bulk_operation_builder.cpp:76-79 | operations are numbered 0, 1, 2, ... as they come |
| CommandWriter.KindIsConstructor | src/mongo/client/bulk_operation_builder.cpp:29-33 | operations are of one type exactly when they are of one class, and sort deletes before inserts before updates |
| CommandWriter.ElementSpelled | src/mongo/client/update_write_operation.cpp:68-79 | the documents a command holds for its operations, names spelled out |
| CommandWriter.BulkOperationBuilder.Execute | src/mongo/client/bulk_operation_builder.cpp:58-74 | runs once and not on nothing; sorting keeps the operations; it stops for the first operation that does not fit alone; all sent means every index sent exactly once |
| CommandWriter.OnceInAnyOrder | src/mongo/client/bulk_operation_builder.cpp:65-66 | any rearrangement still has each index exactly once and no other |
| CommandWriter.SortOperations | src/mongo/client/bulk_operation_builder.cpp:65-66 | a permutation, types descending |
| ReplicaSet.DBClientReplicaSet.ResetMaster | src/mongo/client/dbclient_rs.cpp:1034-1042 | deletes the primary connection once, and lets go of the other pointer when it is the same connection |
| ReplicaSet.DBClientReplicaSet.ResetSlaveOkConn | src/mongo/client/dbclient_rs.cpp:1044-1061 | deletes the connection for reading unless the primary pointer shares it; an exception from logging out changes nothing |
| ReplicaSet.DBClientReplicaSet.InvalidateLastSlaveOkCache | src/mongo/client/dbclient_rs.cpp:1015-1022 | no connection for reading is left, or it threw and neither pointer, host name nor any connection has changed; which of the two is decided by the answers |
| ReplicaSet.DBClientReplicaSet.ConnectMaster | src/mongo/client/dbclient_rs.cpp:301-336 | both outcomes of the second half, as a function of the client and the answers |
| ReplicaSet.DBClientReplicaSet.FailMaster | src/mongo/client/dbclient_rs.cpp:301-324 | a failed connect keeps the old connection under the new host name; a connection returned with an error is the one that is lost, and nothing is deleted |
| ReplicaSet.DBClientReplicaSet.NewMaster | src/mongo/client/dbclient_rs.cpp:326-335 | the old connection is deleted once, the new one goes to the host it is kept under |
| ReplicaSet.DBClientReplicaSet.CheckMaster | src/mongo/client/dbclient_rs.cpp:288-336 | which connection is returned, when it throws, what is lost and what becomes of both pointers, for every answer of monitor and network; the connection returned goes to the host it is named by if and only if the last connect to a primary went where the last successful one did |
| ReplicaSet.DBClientReplicaSet.CheckLastHost | src/mongo/client/dbclient_rs.cpp:338-356 | the last connection serves again exactly when it is there, has a host, was asked for with the same preference, and is up |
| ReplicaSet.DBClientReplicaSet.ConnectNode | src/mongo/client/dbclient_rs.cpp:700-756 | a primary is shared with the primary pointer, any other node gets its own connection, to the host selected |
| ReplicaSet.DBClientReplicaSet.SelectNodeUsingTags | src/mongo/client/dbclient_rs.cpp:681-756 | the connection returned is the one kept for reading; it is not remembered if and only if it is a primary no connection was kept for |
| ReplicaSet.DBClientReplicaSet.Auth | src/mongo/client/dbclient_rs.cpp:409-472 | after success the authenticated connection is the only one open |
| ReplicaSet.FourRounds | src/mongo/client/dbclient_rs.cpp:422-463 | no more than four rounds of authentication are tried |
| ReplicaSet.FourthRound | src/mongo/client/dbclient_rs.cpp:422-463 | and the fourth can still succeed |
| ReplicaSet.DBClientReplicaSet.IsStillConnected | src/mongo/client/dbclient_rs.cpp:224-237 | drops exactly the connections that went down, the shared one for both pointers, and keeps one whose logout throws |
| ReplicaSet.DBClientReplicaSet.Destroy | src/mongo/client/dbclient_rs.cpp:171-175 | deletes what both pointers hold, once when it is the same |
| ReplicaSet.DBClientReplicaSet.Reset | src/mongo/client/dbclient_rs.cpp:1024-1028 | drops the connection for reading and keeps that to the primary |
| ReplicaSet.Run | src/mongo/client/dbclient_rs.cpp:171-175 | over any operations and answers, exceptions included, no connection is used after deletion or deleted twice; all are deleted in the end if and only if no connect to a primary that the operations come to, computed from them and their answers, returns a connection together with an error, and one is lost for each that does |
| ReplicaSet.RunUsesOffered | src/mongo/client/dbclient_rs.cpp:288-336 | a run comes only to answers that its operations offer, so none is lost where none offers both |
| ReplicaSet.UsedIsOffered | src/mongo/client/dbclient_rs.cpp:681-756 | the same for one operation, retries of authentication included |
| ReplicaSet.ConnectionLost | src/mongo/client/dbclient_rs.cpp:309-324 | one connect that returns both, on a fresh client: its connection is never deleted |
| ReplicaSet.WrongPrimary | src/mongo/client/dbclient_rs.cpp:288-336 | after a refused connect the client returns the old primary under the name of the new one |
| ReplicaSet.KeptPrimaryExactly | src/mongo/client/dbclient_rs.cpp:288-336 | after any run, retries of authentication included, the primary that is kept goes to the host it is named by if and only if the last connect to a primary went where the last successful one did |
| ReplicaSet.RunThenCheckMaster | src/mongo/client/dbclient_rs.cpp:288-336 | after any run checkMaster returns a connection to the host the monitor names if and only if that holds of the connects made, the present one included |
| ReplicaSet.PrimaryForgotten | src/mongo/client/dbclient_rs.cpp:681-756 | a primary connected to for reading is not remembered, whatever the next answers |

## Left out

- StoreFile: requires a buffer for which the loop ends, because for the others the source comes to no result; `StoreFileEndsExactly` proves which those are.
- HasField: states the search for an unfinished buffer that holds the fields of a tree, as `Perform` shows of every run, not for arbitrary bytes.
- DottedLookupsAgree: requires arrays whose fields are named by digits, because in other arrays the two lookups differ by design.
- ReadAll: assumes a server that sends a document or closes the cursor, and closes early only once a negative request is met; other servers can end a stream at will.
- CodeWScope values, objects and arrays are compared and hashed as trees; that the accessors find those trees in the bytes is `NestedStands` and `ReadTree`.
- The `_id` the validator remembers for its messages, the texts of all messages, and logging.
- The 16 MB + 16 KB limit on a `BSONObj`, the 64 MB limit and the growth of `BufBuilder`, and failure to allocate.
- UTF-8 validity and the two legal values of a Bool byte, which the validator does not check either.
- CollectFieldsDotted: collects into a sequence in the order found, where the source inserts into a set that is ordered by value and keeps one of equal elements, because the order of the set adds nothing to what is reached.
- The size of a result of `memcmp` and `strcmp` beyond its sign.
- `getNumChunks` divides doubles; the model divides exactly, which is the same below 2^53.
- The 32-bit wrap-around of chunk numbers, `nReturned` and array indexes.
- `appendElements`, `appendElementsUnique`, `appendAs` and the `operator<<` interface: sugar over the appends modelled.
- Tailable and exhaust cursors, cursor shims, negative limits, and errors reported by the server.
- The generated `_id` of an insert without one, and its check for field names that start with a dollar sign.
- Results of bulk writes: a send is taken to succeed, so the stop of an ordered write at a failed one is not modelled.
- `query`, `findOne` and `logout` of the replica set client, which select a node and retry as `_auth` does, and its lazy path (`say`, `recv`, `checkResponse`).
- A not-master callback that arrives while another call is running, and a connect that returns an object of another class.
- The replica set monitor, sockets, SSL, SASL and authentication themselves: their answers are parameters.
- `ConnectionString` parsing, which rests on a regular expression library.
- The `storeFile` overload that reads a file, and the parsing of doubles, which call the C library.
- `toString`, `jsonString` and hex dumps: formatting only.
