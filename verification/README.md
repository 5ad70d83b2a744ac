# Verified models of a Bluetooth Low Energy gateway

The gateway and its dongle client exchange messages serialized with tpl; the
gateway prints its answers as JSON, keeps track of connected devices from the
events the dongle sends, and the client talks to the dongle in BGAPI packets.
This project models these four parts in Dafny and proves what each is for.
`dafny verify dfyconfig.toml` checks everything.

## The parts

**tpl, the serializer.** A format string becomes a table of rows: row 0 is the
root, row k the k-th `A(...)` (`TplSchema`); `TplMap` builds it, `TplFormat` says of
the characters alone which formats it takes, `TplReading` what they mean without
building anything. `TplWire` and `TplImage`
say what bytes stand for a value and which byte strings are a well-formed image;
they are the reference the code is measured against. `Tpl` is the object the C
code changes in place: node addresses, data pointers and `#` counters, packed
backbones, bubbled-up sizes, the loaded image and the cursors into it. Its
methods follow the walks of the C functions, jump-back `#` nodes included, and
each is proved against the reference. `TplRuns` is about whole runs: any calls of
pack, a dump on one host, a load on a host of either byte order, any calls of
unpack. `TplTransfer` is a receiver that unpacks everything. `TplCounters` and
`TplReset` are what the length walk and the emptying walk of the C code do to a
tpl that has been used before. `TplGather` is the stream reassembler, `TplPeek`
looks into an image without mapping it, `TplFree` is the stackless release of the
tree, `TplLayout` the addresses of fields, and `TplLimits` and `TplLeftover` state
exactly where the code does not keep its promise. `TplForm` writes the bytes of an
image out, `TplRefusals` says which images are refused, `TplGlance` that peek and
the mapping of a format agree.

**JSON.** `JsonText` (quoting, escapes, UTF-8), `JsonNumber` (digits and the
overflow guard), `JsonValue` (the order of values), `JsonLex` (tokens),
`JsonWriters` and `JsonStyled` (the two printers), `JsonReader` (the parser) and
`JsonRoundTrip`; `JsonSound` and `JsonGrammar` say what can be read at all: the
reader is proved against the grammar. A document is understood through its tokens: each printer is
proved to write the tokens of the value, the parser to read them back.

**The driver.** `DriverState` is a log of messages and what it means for the
connected devices and for a command that waits; `Driver` is the object with its
callbacks, its register of completion events and Disconnect; `Advertisement` is
the parser of advertisement records.

**BGAPI.** `Bgapi` is the packet encoder driven by descriptors of four bits an
argument, and its inverse.

Where code and documentation differ, the code is followed: a leading `-` without
digits is the JSON integer 0; keys are printed by StyledWriter up to their first
NUL; the second half of a `\u` surrogate pair is not checked; the size order of
JSON containers goes through a 32-bit int; behind a comment any token separates
the members of a JSON object, and a comma may follow the last one if its name is
empty; a tpl that has rejected an image of the other byte
order, or one with 1.2 strings, goes on checking images that way; a tpl that has
rejected an image inside a `#` loop goes on counting from there and then accepts
images that are too short; tpl_free_keep_map leaves the strings of later records
in a `S(..)#` of the root in place; a piece that is too long for the limit of
tpl_gather is noticed only when a fragment is kept.

## Model

| member | source | states |
|---|---|---|
| TplMap.FormatGivesSchema | BLEGatewayApplication/tpl.c:322-570 | a format that scans to the end with all parentheses closed leaves a schema with no empty row, every array below the row that names it and named once, the format string and `#` lengths tpl_sanity compares with, and every repeated structure laid out as the C compiler lays it out |
| TplMap.MapVa | BLEGatewayApplication/tpl.c:322-570 | for every format string: it is mapped exactly when it is well formed; then it yields a tpl in its valid state whose nodes, read in the order of the tree, have exactly the kinds, numbers and addresses the format and its arguments say, with the `#` numbers kept in order; on the failure path every node and data buffer allocated so far has been freed by tpl_free; otherwise the first character out of order decides between failure, a fatal number and the two cases the model does not follow further |
| TplFormat.MappedExactly | BLEGatewayApplication/tpl.c:349-557 | a format is mapped if and only if its characters are all in place (letters, `(` behind `A` and `S` alone, nothing empty, no array, buffer or structure in a structure, `#` behind a number, a string or a structure), its parentheses balance, no more than ten `#` stand in a row and every number is positive |
| TplMap.AtomTold | BLEGatewayApplication/tpl.c:346-408 | an atom is added with the size of its letter at the address of its argument, or in a structure behind the field before it |
| TplMap.ArrayTold | BLEGatewayApplication/tpl.c:494-519 | an array is added where the format has it and what follows goes inside |
| TplMap.EndArrayTold | BLEGatewayApplication/tpl.c:532-545 | what follows the `)` of an array goes behind it |
| TplMap.AtomHashTold | BLEGatewayApplication/tpl.c:461-471 | the number of an atom becomes the product of the numbers of its `#` |
| TplMap.StructHashTold | BLEGatewayApplication/tpl.c:439-460 | the `#` of a structure repeat all its fields, as often as the product of their numbers |
| TplReading.ReadHashes | BLEGatewayApplication/tpl.c:422-437 | a run of `#`, read one by one, amounts to one number, the product |
| TplReading.AppendMark | BLEGatewayApplication/tpl.c:72-84 | a node appended to the open list comes last in the order of the tree, everything before it unchanged |
| TplReading.CloseMarks | BLEGatewayApplication/tpl.c:544 | closing the open list changes nothing in front of it |
| TplMap.AtomSound | BLEGatewayApplication/tpl.c:339-408 | a number or string letter keeps the scan sound; in a structure its address is the next padded offset |
| TplMap.ArraySound | BLEGatewayApplication/tpl.c:494-519 | `A` opens a new, still empty row below the open one and keeps the scan sound |
| TplMap.EndStructSound | BLEGatewayApplication/tpl.c:532-543 | the `)` of a structure leaves the distance between consecutive structures, and the scan sound |
| TplMap.EndArraySound | BLEGatewayApplication/tpl.c:532-545 | the `)` of an array goes back to the row it hangs on; there always is one |
| TplMap.AtomHashSound | BLEGatewayApplication/tpl.c:409-471 | `#` behind an atom changes its number and moves no field |
| TplMap.StructHashSound | BLEGatewayApplication/tpl.c:438-460 | `#` behind a structure groups its fields under a loop of the measured distance |
| TplMap.PoundAppended | BLEGatewayApplication/tpl.c:439-452 | grouping adds exactly one `#` node behind the fields and leaves the rest of the children list as it was |
| TplMap.ReadPounds | BLEGatewayApplication/tpl.c:422-437 | contiguous `#` are read to the last one, each at least 1 |
| TplMap.FieldAdded | BLEGatewayApplication/tpl.c:285-310 | the address calc_field_addr computes for a new field is its offset in the structure, whatever the fields before it |
| TplLayout.FieldsInOrder | BLEGatewayApplication/tpl.c:304-309 | within a structure fields come in order and do not overlap |
| TplLayout.FieldAligned | BLEGatewayApplication/tpl.c:304-309 | every offset is a multiple of the field alignment, the structure ends before the next one, and that distance is a multiple of the widest field |
| TplLayout.LeastPadding | BLEGatewayApplication/tpl.c:304-309 | every field, and every next structure, lies at the first aligned place behind what comes before |
| TplLayout.WidestIsOne | BLEGatewayApplication/tpl.c:377-379 | the alignment of a structure is that of one of its fields |
| TplLayout.EveryFieldAligned | BLEGatewayApplication/tpl.c:537-543 | if the array starts aligned, field j of every structure k is aligned |
| TplLayout.FieldsDisjoint | BLEGatewayApplication/tpl.c:537-543 | different fields of an array of structures never overlap, in any two iterations |
| TplMap.VisitsLieInTheArray | BLEGatewayApplication/tpl.c:1909-1930 | iteration k of a walk visits field j at base + k * element distance + offset |
| TplFree.AddedOk | BLEGatewayApplication/tpl.c:72-84 | appending a node to an open list keeps all parent, next and children links in order, so every partial tree is in order |
| TplFree.Mapping.AddAtom | BLEGatewayApplication/tpl.c:371-386 | an atom goes to the end of the open list |
| TplFree.Mapping.OpenArray | BLEGatewayApplication/tpl.c:494-499 | an array node goes to the end of the open list and becomes the parent of what follows |
| TplFree.Mapping.CloseArray | BLEGatewayApplication/tpl.c:544 | closing an array goes back to its parent |
| TplFree.Mapping.Free | BLEGatewayApplication/tpl.c:679-775 | every node and every data buffer is freed: each release and each field access requires the allocation to be live, so none is freed twice or touched after its release; the walk ends |
| TplFree.Mapping.FindNext | BLEGatewayApplication/tpl.c:742-760 | from a finished node the search frees exactly the nodes it leaves for good and stops at the next unvisited node or at the root |
| TplFree.StepUp | BLEGatewayApplication/tpl.c:752-757 | going up after a last child keeps the set of freed nodes to exactly the finished ones |
| TplSchema.WalkVisitsSlots | BLEGatewayApplication/tpl.c:1804-1939 | the walk that jumps back at `#` nodes visits exactly field j of iteration k for all k, then j, in order, and every other node once |
| TplSchema.SlotsDistinct | BLEGatewayApplication/tpl.c:1898-1933 | no node is visited twice for the same iteration |
| TplSchema.SlotsFit | BLEGatewayApplication/tpl.c:1898-1933 | every visited position is inside the children list and visits only what the row holds |
| TplWire.SizeIsLength | BLEGatewayApplication/tpl.c:908-978 | the size added up for a value is the number of bytes it is serialized to, through nested arrays |
| TplWire.ValReadBack | BLEGatewayApplication/tpl.c:1630-1719 | scanning what was serialized for a node gives its value back in the reading host's byte order and stops right behind it |
| TplWire.ValsReadBack | BLEGatewayApplication/tpl.c:1943-2079 | the same for all values of a row, nested arrays included |
| TplWire.ViewKeepsMeaning | BLEGatewayApplication/tpl.c:1984-2006 | a value swapped on arrival means what it meant to the writer: equal numbers, equal strings and buffers, element by element |
| Bytes.ByteSwap | BLEGatewayApplication/tpl.c:2156-2165 | in-place byte swapping leaves the reversed word |
| Bytes.SwapKeepsNumber | BLEGatewayApplication/tpl.c:1254-1260 | a word reversed exactly when the byte orders differ stands for the same number |
| Bytes.WordRoundTrip | BLEGatewayApplication/tpl.c:1197-1198 | a 32-bit word reads back in the byte order it was written in |
| Bytes.WordOfOtherOrder | BLEGatewayApplication/tpl.c:2156-2165 | a 32-bit word in the other byte order is the word reversed |
| TplImage.ImageAccepted | BLEGatewayApplication/tpl.c:1173-1239 | the image of any well-typed values passes tpl_sanity on a host of either byte order, is exactly as long as announced, and scans to the packed values as that host sees them |
| TplImage.LensReadBack | BLEGatewayApplication/tpl.c:1221-1230 | the `#` lengths in the preamble are found equal to those of the mapping |
| TplForm.WordForm | BLEGatewayApplication/tpl.c:1077-1089 | a length word is its four bytes, lowest first or highest first |
| TplForm.ValueForm | BLEGatewayApplication/tpl.c:1100-1140 | the bytes of each kind of value: a string as its length and one, and its characters, NULL as 0, a buffer as its length and bytes, an array as its number of elements and these |
| TplForm.ImageForm | BLEGatewayApplication/tpl.c:1077-1089 | the bytes of an image: magic, flags, its own length, format and zero, `#` numbers, data |
| TplForm.LetterForm | BLEGatewayApplication/tpl.c:236-250 | the bytes of each number letter, on the wire and in a structure |
| TplRefusals.OtherMapping | BLEGatewayApplication/tpl.c:1214-1230 | an image dumped for another format, or for the same with other `#` numbers, is refused whatever its data |
| TplRefusals.CheckedInItsOrder | BLEGatewayApplication/tpl.c:1186-1187 | an image is checked in its own byte order unless the flag of the other is left over from a rejected one |
| TplRefusals.LoadOther | BLEGatewayApplication/tpl.c:1472-1544 | tpl_load of such an image fails, in every state of the tpl and for either byte order |
| TplRefusals.NoPreamble | BLEGatewayApplication/tpl.c:1183-1202 | any bytes that are too short, start otherwise, carry unknown flags or announce another length are refused |
| TplRefusals.TrailingBytes | BLEGatewayApplication/tpl.c:1232-1237 | bytes behind a good image are taken with TPL_EXCESS_OK and only with it |
| TplObject.Tpl.constructor | BLEGatewayApplication/tpl.c:322-343 | a mapped tpl starts empty and valid |
| TplObject.Tpl.FreeKeepMap | BLEGatewayApplication/tpl.c:584-677 | the walk down into arrays and up where a list ends reaches every array and stops; every array is empty, of the root strings and buffers only those at the first record are gone, the flags are reset, and mapping and `#` counters are as before |
| TplObject.Tpl.NextNode | BLEGatewayApplication/tpl.c:655-672 | from the end of a list the search goes up to the nearest node that has a next one, or to the root, and passes over no node |
| TplReset.PassedAll | BLEGatewayApplication/tpl.c:598-674 | when the walk is back at the root it has been at every array of the tree |
| TplReset.RootAfterFree | BLEGatewayApplication/tpl.c:600-617 | after emptying, the root still counts as packed if and only if it was and maps no buffer; its values are then the old ones, but for the strings of the first record |
| TplRuns.DumpAfterReset | BLEGatewayApplication/tpl.c:1795-1798 | packing again after a load, the root left alone: a dump is possible if and only if the root maps no buffer, and it then holds the old numbers, the old strings of all records but the first, and exactly the arrays packed since |
| TplObject.Tpl.Pack | BLEGatewayApplication/tpl.c:1779-1941 | an unknown index changes nothing; otherwise a loaded tpl is emptied first, and the root takes the mapped variables, or array i one more element that takes over what its own arrays have collected; addresses, data pointers and counters end as they were, and the bubbled sizes stay those of the data |
| TplObject.Tpl.PackElem | BLEGatewayApplication/tpl.c:1802-1941 | one element is built from all slots of the row in visiting order, sizes bubbled up along the way |
| TplObject.Tpl.PackRoot | BLEGatewayApplication/tpl.c:1779-1941 | the root buffers hold, for every slot, the variable mapped to it |
| TplObject.Tpl.PoundStep | BLEGatewayApplication/tpl.c:1898-1933 | a `#` node either sends the walk back with its span moved one element on, or restores every pointer and counter |
| TplObject.Tpl.ShiftSpan | BLEGatewayApplication/tpl.c:1911-1916 | the pointers of a span all move by the same distance, the others not at all |
| TplObject.Tpl.SerOsz | BLEGatewayApplication/tpl.c:908-978 | for every reachable state, the preamble size plus the size of everything a dump would write; all pointers and counters end as they were |
| TplObject.Tpl.Dump | BLEGatewayApplication/tpl.c:981-1066 | a loaded tpl refuses; a packed one gives exactly the image of its values, in a buffer of exactly the computed size |
| TplObject.Tpl.DumpToMem | BLEGatewayApplication/tpl.c:1068-1155 | the buffer is filled to its last byte with the image, pointers and counters end as they were |
| TplObject.Tpl.DumpAtyp | BLEGatewayApplication/tpl.c:833-905 | a backbone is appended as its count and its elements, nested ones recursively, and nothing before it changes |
| TplObject.Tpl.WritePreamble | BLEGatewayApplication/tpl.c:1077-1089 | magic, flags, length, format and `#` lengths, as tpl_sanity expects them |
| TplObject.Tpl.SerLen | BLEGatewayApplication/tpl.c:1630-1719 | from whatever `#` counters an earlier walk has left: the length of the data of a node as those counters have it visited, every read inside the image, or failure when they do not fit; and exactly which counters this walk leaves |
| TplCounters.FromZero | BLEGatewayApplication/tpl.c:1630-1719 | from counters at zero an image is accepted exactly when it is well formed, and the counters are at zero again exactly when the header is refused, the data fit, or the first field that does not fit lies in the first iteration of its loop |
| TplCounters.AcceptsAtRest | BLEGatewayApplication/tpl.c:1173-1239 | a tpl at rest accepts exactly the well-formed images, and an accepted one leaves it at rest |
| TplCounters.ArrayApart | BLEGatewayApplication/tpl.c:1650-1697 | the walk of a nested array is the same whatever the counters of the rows around it |
| TplLeftover.LateTakesLess | BLEGatewayApplication/tpl.c:1699-1709 | a walk that starts from leftover counters takes at most what the whole row needs, and less if any counter it has yet to meet is left over |
| TplLeftover.ShortIsAccepted | BLEGatewayApplication/tpl.c:1630-1719 | for every leftover counter in every row an image that is accepted and whose data end before the mapped fields do |
| TplLeftover.AcceptsOnlyWellFormed | BLEGatewayApplication/tpl.c:1173-1239 | tpl_load accepts only well-formed images if and only if no `#` counter is left over |
| TplLeftover.RestAfterLoad | BLEGatewayApplication/tpl.c:1472-1544 | a load on a tpl at rest leaves it at rest exactly when the image is refused by its header, has data that fit, or stops fitting in the first iteration of a loop |
| TplLeftover.NextLoadIsSafe | BLEGatewayApplication/tpl.c:1472-1544 | and exactly then every image the next load accepts is well formed |
| TplLeftover.AcceptedTheSecondTime | BLEGatewayApplication/tpl.c:1699-1706 | `S(i)#` with two records: any image of one record is rejected, and accepted when the same bytes are loaded again |
| TplObject.Tpl.Sanity | BLEGatewayApplication/tpl.c:1173-1239 | from whatever counters: returns 0 if and only if the header fits and the length walk from those counters takes the data; never reads outside the image; the flags and counters it leaves |
| TplObject.Tpl.FindDataStart | BLEGatewayApplication/tpl.c:1241-1252 | the first byte behind preamble, format and `#` lengths |
| TplObject.Tpl.Load | BLEGatewayApplication/tpl.c:1472-1544 | from whatever counters and flags a rejected image has left, as long as none that it would be wrong to accept is loaded: succeeds if and only if the image is accepted; then every later unpack reads inside the image, and what is left to deliver is what the image holds; the counters it leaves if not |
| TplState.AcceptedIsTrusted | BLEGatewayApplication/tpl.c:1186-1230 | without a byte-order flag left over, and with present-format strings or none, reading an accepted image stays inside it exactly when no stored count of 2^31 or more is met |
| TplObject.Tpl.UnpackA0 | BLEGatewayApplication/tpl.c:2082-2153 | after loading every array of the root stands in front of its own elements |
| TplObject.Tpl.Unpack | BLEGatewayApplication/tpl.c:1943-2079 | -1 for an unknown index, 0 for a used-up array, else the number of elements that were left; the next element goes to the mapped variables and its nested arrays are set to the elements inside it; every read stays inside the image |
| TplObject.Tpl.UnpackRow | BLEGatewayApplication/tpl.c:1981-2079 | all slots of one row are read in visiting order, pointers and counters restored |
| TplObject.Tpl.DumpAndLoad | BLEGatewayApplication/tpl.c:1955-1963 | unpacking a tpl that is being packed delivers what has been packed so far |
| TplState.OwnImage | BLEGatewayApplication/tpl.c:1955-1963 | a host accepts the image it has just dumped and finds the packed values in it |
| TplState.ForeignImage | BLEGatewayApplication/tpl.c:1186-1230 | an image dumped on a host of either byte order is accepted and scanned as the packed values in this host's order |
| TplState.FormatIrrelevant | BLEGatewayApplication/tpl.c:1528 | without string fields the 1.2 string format makes no difference |
| TplCounters.LengthAtRest | BLEGatewayApplication/tpl.c:1630-1719 | with no counter left over the checked length of an array's data is that of its count and elements, and no counter is left when it is found |
| TplState.MovedRewind | BLEGatewayApplication/tpl.c:1921-1932 | after the last iteration every moved pointer is back where it was |
| TplRuns.PackInOrder | BLEGatewayApplication/tpl.c:1779-1941 | whatever else is packed, an array collects exactly its own elements in the order of the calls as long as the row holding it is not packed |
| TplRuns.UnpackInOrder | BLEGatewayApplication/tpl.c:1943-2079 | whatever else is unpacked, an array delivers its elements first to last to the calls on it, and stays empty when they are used up |
| TplRuns.VariablesHold | BLEGatewayApplication/tpl.c:1981-2060 | after an unpack every mapped variable holds its value and nothing else in memory has changed |
| TplRuns.Departs | BLEGatewayApplication/tpl.c:981-1066 | what is dumped from any packed state is accepted by a reader of either byte order that holds data or has no flag left over from a rejected image, and everything tpl_load takes on trust holds of it |
| TplRuns.ArrivesUnchanged | BLEGatewayApplication/tpl.c:1984-2006 | every value that arrives means what was packed, whatever the two byte orders |
| TplRuns.PackAll | BLEGatewayApplication/tpl.c:1779-1941 | any sequence of packs, on a loaded tpl too, has the state the run function gives it |
| TplRuns.UnpackAll | BLEGatewayApplication/tpl.c:1943-2079 | any sequence of unpacks returns the codes, leaves to deliver and fills the variables with what the run functions say |
| TplRuns.RoundTrip | BLEGatewayApplication/tpl.c:1779-2079 | pack on one host, dump, load on a host of either byte order, unpack: all return codes, all data delivered to variables and all data still to come are those of the packed values, for any two sequences of calls, whatever the two tpls were used for before as long as the reader has nothing left over from a rejected image |
| TplTransfer.StepDelivers | BLEGatewayApplication/tpl.c:1943-2079 | unpacking one row hands each of its arrays the elements found in it and leaves every array outside the row as it was |
| TplTransfer.Siblings | BLEGatewayApplication/tpl.c:655-672 | two arrays of one row have no row below them in common |
| TplTransfer.Drain | BLEGatewayApplication/tpl.c:1943-2079 | unpacking an array until it returns 0, and inside each element its arrays, gives all its elements in order and leaves arrays elsewhere alone |
| TplTransfer.Collect | BLEGatewayApplication/tpl.c:1981-2079 | the variables of a row just unpacked and then its arrays: the whole element, nested arrays included |
| TplTransfer.Receive | BLEGatewayApplication/tpl.c:1943-2079 | unpacking everything gives the whole tree the image holds |
| TplTransfer.CallDelivers | BLEGatewayApplication/tpl.c:1943-2079 | the call on a root-level array that follows d earlier ones returns how many elements are left and gives its variables the meaning of the d-th element packed, whatever is called in between but the root; after the last element it returns 0 and writes nothing |
| TplTransfer.Transfer | BLEGatewayApplication/tpl.c:1779-2079 | any packs on one host, a dump, a load on a host of either byte order, everything unpacked: the receiver has the whole tree, every value meaning what was packed |
| TplLimits.OwnImageNeedsCleanFlags | BLEGatewayApplication/tpl.c:1186-1230 | after rejected images this host's own image is accepted if and only if the byte-order flag is not left over and, if the flag for 1.2 strings is, its data have the right length as 1.2 strings too |
| TplLimits.NullStringsPass | BLEGatewayApplication/tpl.c:1679-1693 | which they have when every string, at any depth, is NULL |
| TplLimits.LateStringRejected | BLEGatewayApplication/tpl.c:1679-1693 | and have not when the one string of the root that is not NULL comes before nothing but numbers |
| TplLimits.RightLengthByChance | BLEGatewayApplication/tpl.c:1679-1693 | other data can have it by coincidence |
| TplLimits.OldStringsRunOff | BLEGatewayApplication/tpl.c:1528 | a string and an empty one in the 1.2 format pass the length check; reading them as tpl_unpack then does stays inside the image if and only if the last byte of the first happens to be part of a length of at most 2 |
| TplLimits.CountsFitAnInt | BLEGatewayApplication/tpl.c:1632-1643 | a stored count of 2^31 or more passes unchecked, whatever the counters; below that, with no counter left over, an array passes exactly when its elements are there |
| TplGather.SplitInvariant | BLEGatewayApplication/tpl.c:2400-2481 | cutting a stream in two changes nothing: the second part goes on from the fragment kept, and nothing follows a failure |
| TplGather.LeftIsUndelivered | BLEGatewayApplication/tpl.c:2457-2479 | delivered images and kept fragment together are the stream, and the fragment is not yet an image |
| TplGather.ImagesComeOut | BLEGatewayApplication/tpl.c:2428-2446 | a sender's images come out one by one, unchanged, with nothing left |
| TplGather.DeliveredFramed | BLEGatewayApplication/tpl.c:2432-2446 | every image handed over came with the magic and is as long as it declared |
| TplGather.CallbackAccepted | BLEGatewayApplication/tpl.c:2446-2456 | the callback has accepted everything but the image it aborted at |
| TplGather.PrefixIsBad | BLEGatewayApplication/tpl.c:2432-2437 | a bad prefix is reported where the bytes behind the delivered images do not start a tpl |
| TplGather.DumpIsFramed | BLEGatewayApplication/tpl.c:1077-1089 | what a dump writes, on a host of either byte order, is framed as the reassembler expects |
| TplGather.Gatherer.GatherMem | BLEGatewayApplication/tpl.c:2400-2481 | one piece: the images, the return code and the fragment kept are those of the stream so far; -2 exactly when a fragment is kept and the joined length exceeds a positive limit |
| TplGather.Gatherer.ReadLength | BLEGatewayApplication/tpl.c:2439-2440 | the length word of an image of either byte order |
| TplGather.FeedAll | BLEGatewayApplication/tpl.c:2400-2481 | with any limit or none: any pieces of a stream deliver the same images, fail at the same point and keep the same fragment as the stream in one piece if and only if no piece is reached with a fragment kept that makes the two longer than the limit; otherwise -2 after the images in front of the first such piece |
| TplGather.LimitForEveryCut | BLEGatewayApplication/tpl.c:2406-2427 | a limit does no harm however a stream is cut if and only if it covers the whole stream |
| TplGather.LimitLargeEnough | BLEGatewayApplication/tpl.c:2406-2427 | for whole images a limit does no harm that leaves room for a piece beside all but the last byte of the longest image |
| TplGather.LimitDependsOnPieces | BLEGatewayApplication/tpl.c:2406-2427 | below the length of an image the pieces do matter: it gets through whole and not in two |
| TplPeek.Peek | BLEGatewayApplication/tpl.c:1270-1417 | on any bytes reads stay inside them; the format is returned if and only if preamble, format prefix and all requested data are there, with those data |
| TplPeek.PeekAgrees | BLEGatewayApplication/tpl.c:1377-1416 | letter by letter peek reads what unpacking the leading atoms reads |
| TplPeek.PeekSeesPacked | BLEGatewayApplication/tpl.c:1270-1417 | for the image of any packed values, dumped on a host of either byte order, peek succeeds and shows the first word or string of each leading atom |
| TplGlance.PeekSeesFormat | BLEGatewayApplication/tpl.c:1361-1416 | for any format that is mapped and any number and string letters spelled at its front, peek at the image of any values succeeds and shows the first word or string of each |
| TplGlance.LeadsFromFormat | BLEGatewayApplication/tpl.c:1361-1375 | letters spelled at the front of a mapped format name the first slots of the root, with the sizes the mapping gives them |
| TplGlance.AtomsArePeeked | BLEGatewayApplication/tpl.c:1366-1370 | peek takes every number and string letter, and no other |
| TplPeek.PeekLens | BLEGatewayApplication/tpl.c:1342-1359 | the format string and the numbers behind it, in host order, if and only if the preamble and all of them are there |
| TplPeek.LensSeen | BLEGatewayApplication/tpl.c:1342-1359 | for a dumped image, of either byte order, these are the format and the `#` numbers it was mapped with |
| JsonText.ValueToQuotedStringN | BLEGatewayApplication/jsoncpp.cpp:4160-4221 | plain text is copied, everything else escaped: the result is the quoted text either way |
| JsonText.FindsTheEnd | BLEGatewayApplication/jsoncpp.cpp:619-629 | readString stops exactly at the closing quote of what was quoted, whatever follows |
| JsonText.QuoteDecodes | BLEGatewayApplication/jsoncpp.cpp:832-883 | decodeString undoes quoting for every byte string, NULs included |
| JsonText.DecodeString | BLEGatewayApplication/jsoncpp.cpp:832-883 | the decoded text, or failure on exactly the malformed escapes |
| JsonText.Utf8Exact | BLEGatewayApplication/jsoncpp.cpp:104-130 | the bytes written for a code point are its UTF-8 (section 3 of RFC 3629) if and only if it is a code point: in range and no surrogate |
| JsonText.PairDecodes | BLEGatewayApplication/jsoncpp.cpp:885-912 | every code point above 0xFFFF written as its surrogate pair, in hexadecimal of either case, decodes to its UTF-8 (section 7 of RFC 8259) |
| JsonText.EscapeDecodesPlain | BLEGatewayApplication/jsoncpp.cpp:885-940 | every other escape that is no high surrogate decodes to the bytes of its code point |
| JsonText.HexSpells | BLEGatewayApplication/jsoncpp.cpp:914-940 | the four upper-case digits of a 16-bit number are read as that number |
| JsonText.SecondHalfUnchecked | BLEGatewayApplication/jsoncpp.cpp:893-908 | a pair stands for the code point it yields if and only if its second half is a low surrogate |
| JsonText.CStringCuts | BLEGatewayApplication/jsoncpp.cpp:4083-4085 | a text survives being passed as a C string if and only if it has no NUL |
| JsonText.HexRead | BLEGatewayApplication/jsoncpp.cpp:914-940 | exactly four hexadecimal digits of a number, each in either case, are read as that number |
| JsonText.ShortEscapes | BLEGatewayApplication/jsoncpp.cpp:840-880 | the eight short escapes have their meanings, and no other letter makes one |
| JsonText.EscapeForms | BLEGatewayApplication/jsoncpp.cpp:4170-4215 | each character as it is written: seven with a letter of their own, other control characters in upper-case digits, the rest as they are |
| JsonNumber.UintToString | BLEGatewayApplication/jsoncpp.cpp:149-155 | the digits of any 64-bit value, written downwards without ever leaving the 25-byte buffer |
| JsonNumber.ValueToString | BLEGatewayApplication/jsoncpp.cpp:4011-4030 | the printed integer, its sign still inside the buffer |
| JsonNumber.DigitsAmount | BLEGatewayApplication/jsoncpp.cpp:149-155 | the digits printed for a number amount to that number |
| JsonNumber.TwentyDigits | BLEGatewayApplication/jsoncpp.cpp:135-142 | a 64-bit value has at most 20 digits |
| JsonNumber.DecodeNumberToken | BLEGatewayApplication/jsoncpp.cpp:735-773 | an integer if and only if the token is digits only, after an optional sign, and their value is within the limit for the sign; the accumulator never exceeds the limit |
| JsonNumber.OverTheLimit | BLEGatewayApplication/jsoncpp.cpp:748-764 | the early exits are taken only for numbers beyond the limit |
| JsonNumber.PrintDecodes | BLEGatewayApplication/jsoncpp.cpp:735-773 | reading a printed integer gives it back, for every 64-bit value but the most negative |
| JsonNumber.LimitsAreTight | BLEGatewayApplication/jsoncpp.cpp:744-746 | the extreme values of both signs are read as integers, the next ones out are not |
| JsonNumber.LoneSign | BLEGatewayApplication/jsoncpp.cpp:740-772 | a sign without digits is read as 0, and is the only token without digits |
| JsonValue.Trichotomy | BLEGatewayApplication/jsoncpp.cpp:2879-2923 | of any two values without reals one of less, equal, greater holds; less and greater both hold if and only if two sizes differ by 2^31 modulo 2^32 where the comparison is decided |
| JsonValue.Transitive | BLEGatewayApplication/jsoncpp.cpp:2879-2923 | the order is transitive where containers at the same place differ in size by less than 2^31 |
| JsonValue.CompareIsEquality | BLEGatewayApplication/jsoncpp.cpp:2871-2877 | compare is 0 exactly when operator== holds, which is equality; it is antisymmetric exactly when no two sizes stand opposite |
| JsonValue.SameIsEqual | BLEGatewayApplication/jsoncpp.cpp:2931-2968 | operator== holds exactly for equal values |
| JsonValue.TextTotal | BLEGatewayApplication/jsoncpp.cpp:2650-2661 | keys and strings are strictly and totally ordered by memcmp and then length |
| JsonValue.TextTransitive | BLEGatewayApplication/jsoncpp.cpp:2650-2661 | the order of keys is transitive |
| JsonValue.TextSameIsEqual | BLEGatewayApplication/jsoncpp.cpp:2663-2672 | equal length and memcmp 0 is equality |
| JsonValue.OrderBreaks | BLEGatewayApplication/jsoncpp.cpp:2912-2918 | two arrays whose sizes differ by 2^31 modulo 2^32 each come before the other |
| JsonValue.OrderTurns | BLEGatewayApplication/jsoncpp.cpp:2912-2918 | three arrays each before the next by size are in order if and only if the two differences, as ints, amount to at least -2^31 |
| JsonValue.NumberDirections | BLEGatewayApplication/jsoncpp.cpp:2879-2923 | numbers go by size, false before true |
| JsonValue.SizeDirections | BLEGatewayApplication/jsoncpp.cpp:2912-2918 | containers go by their number of elements |
| JsonValue.TypeDirections | BLEGatewayApplication/jsoncpp.cpp:2880-2882 | types go in the order of their enumeration |
| JsonValue.FirstDifference | BLEGatewayApplication/jsoncpp.cpp:2912-2918 | arrays of one size are ordered by their first different elements |
| JsonLex.AppendComment | BLEGatewayApplication/jsoncpp.cpp:518-579 | a comment adds one comment token wherever it stands |
| JsonLex.NumberRead | BLEGatewayApplication/jsoncpp.cpp:597-617 | a printed number is read as one token whatever follows that does not go on with a number |
| JsonLex.SpaceSkipped | BLEGatewayApplication/jsoncpp.cpp:497-505 | white space changes no tokens |
| JsonLex.AppendQuoted | BLEGatewayApplication/jsoncpp.cpp:444-447 | a quoted text adds one string token wherever it stands |
| JsonLex.AppendNumber | BLEGatewayApplication/jsoncpp.cpp:452-465 | a printed integer adds one number token where no number precedes it |
| JsonWriters.FastWriter.Write | BLEGatewayApplication/jsoncpp.cpp:4240-4246 | the document is the compact text of the value and a line feed |
| JsonWriters.FastWriter.WriteValue | BLEGatewayApplication/jsoncpp.cpp:4248-4300 | the compact text of the value is appended |
| JsonWriters.FastSpells | BLEGatewayApplication/jsoncpp.cpp:4248-4300 | put behind any text, the compact text adds exactly the tokens of the value |
| JsonWriters.FastTokens | BLEGatewayApplication/jsoncpp.cpp:4240-4300 | the compact document has the tokens of the value and no others |
| JsonStyled.StyledWriter.Write | BLEGatewayApplication/jsoncpp.cpp:4308-4317 | the styled document as a function of the value |
| JsonStyled.StyledWriter.WriteValue | BLEGatewayApplication/jsoncpp.cpp:4319-4376 | appends the styled text, or collects one child value without touching the document |
| JsonStyled.StyledWriter.WriteArrayValue | BLEGatewayApplication/jsoncpp.cpp:4378-4419 | single line, collected multi-line or recursive multi-line as the array demands; the collected texts are as many as the elements whenever they are used |
| JsonStyled.StyledWriter.IsMultilineArray | BLEGatewayApplication/jsoncpp.cpp:4421-4447 | multi-line exactly for many elements, nested containers or too long a line; what it collects is nothing or the texts of all elements |
| JsonStyled.StyledWriter.WriteIndent | BLEGatewayApplication/jsoncpp.cpp:4456-4465 | a new line and the indentation, unless the line has just been indented |
| JsonStyled.OneLineExactly | BLEGatewayApplication/jsoncpp.cpp:4421-4447 | an array goes on one line exactly when it has fewer than 25 elements, none a container, and that line is shorter than 74 |
| JsonStyled.StyledSpells | BLEGatewayApplication/jsoncpp.cpp:4319-4419 | whichever way the value is laid out, it adds exactly the tokens of the value with its names cut at NUL |
| JsonStyled.StyledTokens | BLEGatewayApplication/jsoncpp.cpp:4308-4454 | the two writers' documents have the same tokens if and only if no name contains a NUL |
| JsonReader.Reader.Parse | BLEGatewayApplication/jsoncpp.cpp:290-330 | succeeds, fails or throws as the grammar of tokens says for the document, comments and rejected number tokens included, with that value |
| JsonReader.Reader.ReadValue | BLEGatewayApplication/jsoncpp.cpp:332-414 | fills in the top of the node stack with the value at hand and leaves the reader behind it; throws exactly when 1000 calls are open |
| JsonReader.Reader.ReadArray | BLEGatewayApplication/jsoncpp.cpp:687-723 | the elements up to the closing bracket, the stack as before |
| JsonReader.Reader.ReadObject | BLEGatewayApplication/jsoncpp.cpp:631-685 | the members up to the closing brace, later duplicates replacing earlier ones, the stack as before |
| JsonReader.Reader.ReadToken | BLEGatewayApplication/jsoncpp.cpp:426-495 | the next token and the tokens that follow it |
| JsonReader.Reader.SkipCommentTokens | BLEGatewayApplication/jsoncpp.cpp:416-424 | the first token behind any comments |
| JsonReader.Reader.ReadComment | BLEGatewayApplication/jsoncpp.cpp:518-596 | a comment of either style to its end, or failure where it is not closed |
| JsonReader.Reader.ReadComma | BLEGatewayApplication/jsoncpp.cpp:670-682 | whether the object goes on behind a member, and from where |
| JsonReader.SeparatorUnchecked | BLEGatewayApplication/jsoncpp.cpp:670-682 | a token behind a member separates it from the next if and only if it is a comma or, whatever it is but the brace, comments stand before it |
| JsonReader.Reader.ReadString | BLEGatewayApplication/jsoncpp.cpp:619-629 | stops behind the first closing quote that no backslash hides |
| JsonReader.Reader.ReadNumber | BLEGatewayApplication/jsoncpp.cpp:597-617 | stops behind the longest digits, fraction and exponent |
| JsonReader.PutFinds | BLEGatewayApplication/jsoncpp.cpp:663 | an entry is found under its name, every other name finds what it did |
| JsonReader.PutSorted | BLEGatewayApplication/jsoncpp.cpp:663 | members stay sorted, one per name |
| JsonReader.ValueParses | BLEGatewayApplication/jsoncpp.cpp:332-723 | the tokens of a value parse to that value, integers retagged, if it is not nested beyond the stack limit, and throw if it is |
| JsonRoundTrip.DocumentsParse | BLEGatewayApplication/jsoncpp.cpp:290-414 | what either writer wrote parses to the value, integers retagged, exactly when it is nested at most 1000 deep |
| JsonRoundTrip.RetaggedPrintsSame | BLEGatewayApplication/jsoncpp.cpp:766-771 | retagging changes no number: the value prints as before |
| JsonRoundTrip.ParsedOrdered | BLEGatewayApplication/jsoncpp.cpp:631-685 | whatever the text, a parsed value has its members sorted, one per name |
| JsonRoundTrip.WriteAndRead | BLEGatewayApplication/jsoncpp.cpp:4240-4454 | both writers and the reader together: the same value comes back from both documents, or both reads throw |
| JsonSound.ValueTokensOnly | BLEGatewayApplication/jsoncpp.cpp:332-723 | whatever parses is made of value tokens, but for a token directly behind a comment |
| JsonSound.FirstTokenTells | BLEGatewayApplication/jsoncpp.cpp:345-405 | the first token that is no comment says what kind of value it is |
| JsonSound.NothingBetween | BLEGatewayApplication/jsoncpp.cpp:4248-4300 | the compact text is the tokens of the value with nothing between them |
| JsonSound.ParsedSettled | BLEGatewayApplication/jsoncpp.cpp:332-723 | a parsed value is nested at most 1000 deep and its integers are tagged as the parser tags them |
| JsonSound.ReadWriteRead | BLEGatewayApplication/jsoncpp.cpp:290-414 | read, written by either writer and read again: the same value |
| JsonGrammar.ValueDerived | BLEGatewayApplication/jsoncpp.cpp:332-723 | without comments whatever parses is derived in the grammar of JSON, with its meaning |
| JsonGrammar.TreeParses | BLEGatewayApplication/jsoncpp.cpp:332-723 | every derivation parses to its meaning, or throws if it is nested too deeply |
| JsonGrammar.GrammarExactly | BLEGatewayApplication/jsoncpp.cpp:332-723 | so without comments a value is read exactly when its tokens are derived in the grammar, the one exception being a comma behind a last member with an empty name |
| DriverState.PresentExactly | BLEGatewayApplication/BLE_DRIVER.cpp:33-45 | after any log a handle is in the map exactly when a connected status event or a look at it came after its last disconnect event |
| DriverState.ConnectedExactly | BLEGatewayApplication/BLE_DRIVER.cpp:2041-2129 | at every point of a log the map holds a handle exactly while it is connected, if and only if it is only looked at while it is |
| DriverState.Inserted | BLEGatewayApplication/BLE_DRIVER.cpp:2071-2081 | a handle in the map has an inserting step: the first connected status or look after the last disconnect |
| DriverState.OneInsertion | BLEGatewayApplication/BLE_DRIVER.cpp:2071-2081 | and only one |
| DriverState.DataSinceInsertion | BLEGatewayApplication/BLE_DRIVER.cpp:2201-2264 | the cached data of an attribute are those of the last value event since the handle was inserted, empty if there was none |
| DriverState.StepKeepsData | BLEGatewayApplication/BLE_DRIVER.cpp:2131-2350 | only a value event for the attribute changes its data while the device stays connected |
| DriverState.KnownSinceInsertion | BLEGatewayApplication/BLE_DRIVER.cpp:2071-2081 | a device in the map has the address, flags and parameters of the last connected status since it was inserted, or what the look that inserted it has made |
| DriverState.AddressKnown | BLEGatewayApplication/BLE_DRIVER.cpp:2521-2535 | an address is found in the map exactly when the last connected status of a device in it carried it, or a look came upon it |
| DriverState.AttributeSinceInsertion | BLEGatewayApplication/BLE_DRIVER.cpp:2176-2350 | uuid, service, end handle and type of an attribute are those set last since the device was inserted, and none if none has been |
| DriverState.LastSetIs | BLEGatewayApplication/BLE_DRIVER.cpp:2176-2350 | set last means: by the last step that sets it |
| DriverState.ResponseCompletes | BLEGatewayApplication/BLE_DRIVER.cpp:2579-2596 | a response completes a wait for that response alone, of its handle or of handle 0, with its result |
| DriverState.EventCompletes | BLEGatewayApplication/BLE_DRIVER.cpp:2579-2596 | which message completes a wait for a new connection, changed parameters, a disconnect and an attribute value |
| DriverState.WaitFindsFirst | BLEGatewayApplication/BLE_DRIVER.cpp:2546-2576 | a wait returns the code of the first post that matches its mask and handle in time |
| DriverState.WaitTimesOut | BLEGatewayApplication/BLE_DRIVER.cpp:2546-2576 | without such a post it returns the timeout code |
| Driver.SweepExactly | BLEGatewayApplication/BLE_DRIVER.cpp:2579-2596 | erasing inside the range-for stays inside the vector if and only if no entry but the last one matches |
| Driver.OneWaiterIsSafe | BLEGatewayApplication/BLE_DRIVER.cpp:2579-2596 | with at most one waiting command it does, and removes exactly a matching one |
| Driver.BLED112.PostCompletionEvent | BLEGatewayApplication/BLE_DRIVER.cpp:2579-2596 | exactly the matching entry is informed and removed |
| Driver.BLED112.BleEvtConnectionGetStatus | BLEGatewayApplication/BLE_DRIVER.cpp:2041-2098 | a connected status inserts or updates the device and posts, any other changes nothing |
| Driver.BLED112.BleEvtConnectionDisconnect | BLEGatewayApplication/BLE_DRIVER.cpp:2100-2129 | posts the disconnect and removes the device |
| Driver.BLED112.BleEvtGattServiceFound | BLEGatewayApplication/BLE_DRIVER.cpp:2132-2198 | records the service of a device that is connected, and only of one |
| Driver.BLED112.BleEvtGattAttributeValue | BLEGatewayApplication/BLE_DRIVER.cpp:2201-2264 | replaces the cached data of a connected device, posts in any case |
| Driver.BLED112.BleEvtGattAttributeInfoFound | BLEGatewayApplication/BLE_DRIVER.cpp:2295-2353 | records the type of an attribute of a connected device |
| Driver.BLED112.ParseUUID | BLEGatewayApplication/BLE_DRIVER.cpp:2356-2380 | the bytes in reverse for 1 to 16 of them, an exception for any other length |
| Driver.BLED112.DecodeIncomingMessage | BLEGatewayApplication/BLE_DRIVER.cpp:238-376 | every message leaves the devices and the register in the state the log gives them |
| Driver.BLED112.GetAttribute | BLEGatewayApplication/BLE_DRIVER.cpp:33-39 | the attribute, an empty one if there was none; a device that never connected gets an entry, all others stay as they are |
| Driver.BLED112.GetConnectionInfo | BLEGatewayApplication/BLE_DRIVER.cpp:41-45 | the device as it is, or a new entry that is not connected and has no attributes |
| Driver.BLED112.MACToConnectionHandle | BLEGatewayApplication/BLE_DRIVER.cpp:2521-2535 | finds a handle exactly when the last status of a device in the map carried the address (or a look came upon it), the first in key order |
| Driver.BLED112.WaitForCompletionEvent | BLEGatewayApplication/BLE_DRIVER.cpp:2540-2576 | leaves the register as it was; returns the code and takes the turns the wait function says; every message taken is logged |
| Driver.BLED112.Disconnect | BLEGatewayApplication/BLE_DRIVER.cpp:872-926 | the code and the turns used, for every course of events; when a handle is found and the code is 0, the handle is gone from the map; an unknown address changes nothing |
| Driver.DisconnectCodes | BLEGatewayApplication/BLE_DRIVER.cpp:889-908 | a response with another result than 0 is the code; after a response with 0 the disconnect event in time makes it 0; if either does not come in time, or without a connection to the client, it is 2 |
| Driver.WaitedForDisconnect | BLEGatewayApplication/BLE_DRIVER.cpp:904-908 | a wait for the disconnect event ends with 0 only right after a disconnect event for that handle |
| Advertisement.AcceptsPackets | BLEGatewayApplication/BLE_DRIVER.cpp:2387-2416 | accepted are exactly the concatenations of non-empty records, and the records found are those it was put together from (section 11 of the Bluetooth Core Specification, volume 3, part C) |
| Advertisement.LatestIsLast | BLEGatewayApplication/BLE_DRIVER.cpp:2410 | a type is mapped exactly when a record has it, to the data of its last record |
| Advertisement.ParseBGAPIAdvertisementPacket | BLEGatewayApplication/BLE_DRIVER.cpp:2387-2416 | terminates with that map or an exception, and no copy leaves the payload array |
| Advertisement.Receive | BLEGatewayApplication/BLE_DRIVER.cpp:1997-2009 | packets over 60 bytes are refused, all others parsed |
| Bgapi.SendMessage | BLEGatewayClient/cmd_def.c:296-380 | the header of all arguments, the first lolen bytes of the fixed part, and the array passed last |
| Bgapi.PutArg | BLEGatewayClient/cmd_def.c:317-373 | one argument: its bytes in the fixed part and what it adds to the announced length |
| Bgapi.LengthMatches | BLEGatewayClient/cmd_def.c:341-379 | the low and high length bits of the header number exactly the bytes sent behind it |
| Bgapi.PayloadDecodes | BLEGatewayClient/cmd_def.c:314-379 | reading the payload little-endian by the same descriptor gives the arguments back |
| Bgapi.FieldKeeps | BLEGatewayClient/cmd_def.c:320-337 | a field gives back every number it can hold, signed or not |
| Bgapi.NibbleOrder | BLEGatewayClient/cmd_def.c:312-374 | the descriptor is read four bits at a time, lowest first, to its last bit |
| Bgapi.BytesPerKind | BLEGatewayClient/cmd_def.c:320-372 | the bytes each case of the switch puts into the fixed part |
| Bgapi.AttributeWrite | BLEGatewayClient/cmd_def.c:59 | attclient_attribute_write, byte by byte |
| Bgapi.SendAndDecode | BLEGatewayClient/cmd_def.c:296-380 | a well-formed command, sent and read back: as many bytes as announced and the same arguments |

## Left out

- `TplMap.MapVa`: nested structures (`$`) are refused, a `#` behind the `)` of an array is reported as undefined (the code uses a stale node there), and where the scan goes on although a `(` is missing behind `A` or `S`, or a `#` stands behind the `(` of a structure, the model stops there.
- `TplMap.ReadPounds`: the product of the numbers is not wrapped to an int.
- `TplObject.Tpl.Load`: that reads stay inside the image is promised when an accepted image meets no leftover `#` counter and its data are well formed the way tpl_unpack reads them; `TplLeftover`, `TplLimits` and `TplState.AcceptedIsTrusted` say when that is so, and what unpacking does otherwise is not modelled.
- `TplFree.Mapping.Free`: strings and buffers hanging on a node, the index list and the root record count as part of a node's data; the code does not release the strings of later records in a `S(..)#` of the root.
- The user's variables are values at addresses; that a number fills as many bytes as it is wide enters only through the layout of structures. A double is 8 opaque bytes.
- Data buffers of `A` nodes, which tpl_pack uses as scratch space, are modelled only as the element being built.
- Images in files and on file descriptors, tpl_jot, tpl_Alen, out-of-memory paths.
- `TplPeek.Peek`: file images.
- `TplGather.Gatherer.GatherMem`: an image that declares no length makes the code loop for ever and is excluded by a precondition; the callback is a function of everything delivered so far.
- `JsonNumber.ValueToString`: the most negative 64-bit value, whose negation overflows.
- `JsonReader.Reader.ReadValue`: whether sscanf takes a number that is no integer is a parameter and its value is kept as text; after an error the tokens skipped for recovery and the error list are not modelled, only that the parse fails; comments are skipped, not collected.
- `JsonReader.Reader.ReadComment`: the look at the character behind the text when a comment ends in `*` there is taken to find no slash.
- `JsonValue.Transitive`: one way only through nested containers; `JsonValue.OrderTurns` says exactly when sizes alone break the order.
- `JsonStyled.StyledWriter.IsMultilineArray`: sizes and lengths are not wrapped to an int.
- JSON reals, comments of values, offsets, paths, stream writers and OurReader; sparse arrays and null strings.
- `Driver.BLED112.DecodeIncomingMessage`: messages come decoded. One that tpl_peek or the mapping refuses is `Other`; one that tpl_load refuses is unpacked all the same, as the callbacks ignore its result (`BLE_DRIVER.cpp:2064-2066`, `2117-2119`, `2149-2151`), and stands in the log as the message so read, whatever that is. Discovered devices, timestamps and attribute descriptions are not recorded.
- `Driver.BLED112.WaitForCompletionEvent`: the clock is the time read before each turn; when the given turns run out the time is up.
- `Driver.BLED112.GetAttribute`: the rest of ReadAttribute and the other commands, which wait in the same way as Disconnect.
- `Bgapi.SendMessage`: fixed parts longer than the packet structure; a descriptor with several arrays is encoded, but its length and decoding are proved only for one array in last place.
- Sockets, serial ports, HTTP output, the worker map and request queues, the daemon, and all finite tables of names.
