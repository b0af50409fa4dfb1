# Verified models of libntech

libntech is a C library of containers, text codecs and small system helpers. This project models the
parts of it that carry global invariants, in imperative Dafny where the C code works by changing things
step by step, and proves what those parts are for. `dafny verify dfyconfig.toml` checks everything.

Each area has specification functions or an independent meaning (a mathematical map, a sorted list, a
grammar, a nested pattern, the unbounded output), the code as methods proved against it, and theorems about
whole runs.

- **Red-black tree** (`Rb*.dfy`). Nodes live in an arena of link fields with the mutable `nil` and the
  header `root`, as in the C code. The proof state gives every subtree an interval of in-order positions, so
  being a tree is a local property, and each fact about a rotation or a repair step is proved once for both
  mirror images. `Tree.Remove` keeps the unusual order of the C code: splice a node out, repair the tree
  while the node to be removed is still linked, and only then put the spliced node in its place; the repair
  loop remembers the root it saw at the start.
- **Maps** (`Bits`, `MapSpec`, `ArrayMap`, `HashMap`, `HashRun`, `Map`). A 14-entry array and a chained hash table
  refine one bag of bindings with distinct keys, through conversion, growth and shrinking. Every binding
  handed over is either stored or destroyed, exactly once, and resizes are far apart.
- **CSV** (`Csv*.dfy`). The escaping writer, the record splitter and the field automaton. `CsvReading` says of every
  text, by the fields that are written in it, what it is read as and when it is malformed.
- **JSON** (`Json*.dfy`, with `SeqSort`, `Strings` and `Writer`). The mutually recursive parser, the pretty
  and the compact writer, string escapes, canonical printing and comparison. Elements have unique keys, which
  appending keeps; on values without, the comparison would not be symmetric
  (`JsonCanon.CompareNeedsUniqueNames`). `JsonEscapes` and `JsonGrammar` have strings and documents as RFC 8259 has
  them, with their meaning; `JsonAccept` has exactly the texts that the parser accepts, with theirs; `JsonLayout` has
  the lines that the printers write.
- **Copy-on-write lists** (`Dll`, `RefCount`, `ListNodes`, `ListHeap`, `ListMeaning`, `ListRun`). Doubly linked chains
  shared under user-tracking reference counts, in one memory that all lists share.
- **IPv6 text** (`Inet*.dfy`): parsing, with exactly the texts that are accepted, and printing.
- **Formatted output** (`Printf*.dfy`). `PrintfMeaning` says on the text of a format what it prints, as section
  7.19.6.1 of C99 does.
- **Brace expansion and path globbing** (`Braces`, `GlobWalk`, `GlobFind`), **sparse file copy** (`SparseCopy`) and the
  **working-directory lock protocol** (`ChdirProtocol`, `ChdirCalls`).

## Findings

Some properties that one would expect do not hold of the code. For each the exact condition under which it
does hold is proved.

- A CSV record that is not closed by CRLF is read back changed if and only if its last field is empty and
  the field before it was quoted (`CsvRoundTrip.OpenRecordRoundTrip`, `CsvRoundTrip.StaleExample`).
- A CSV record whose quoted field has exactly one blank between its closing quote and its comma is copied from a buffer
  that has not been terminated (`CsvReading.UndefinedIff`); a record is read as exactly the texts of its fields if and
  only if that does not happen, an unquoted last field does not end in CRLF, and the last field is not empty behind
  a quoted one with a text (`CsvReading.RecordIff`). A character that cannot stand where it does makes the text
  malformed if and only if another character follows; as the last one it is accepted, and the last field is read as
  empty (`CsvReading.Reading`, `CsvReading.MalformedIff`).
- A JSON string value is unescaped twice. It survives printing and parsing if and only if each of its
  backslashes is its last character or stands before a character that begins no escape
  (`JsonStrings.ValueRoundTrip`, `JsonStrings.BackslashNIsLost`). A key survives if and only if all of its
  characters are printable ASCII or one of backspace, form feed, line feed, carriage return and tab
  (`JsonStrings.KeyRoundTrip`). A code above 255 in a value loses its backslash and stays as it is otherwise
  (`JsonEscapes.ValueReads`).
- The JSON parser takes every text of RFC 8259 (`JsonGrammar.DocumentMeans`) and some that are none: commas, colons
  and quotes may be missing, commas left over, and numbers out of order. Which texts it takes, and what it makes of
  them, is exactly `JsonAccept.AcceptedIff`.
- Removing a payload from a list fails, although the list holds it, if and only if the list has no comparison
  function and shares its chain: the list is copied first and the copied payloads have other addresses
  (`ListHeap.Lists.Remove`, `ListRun.SharedRemoveIsLost`). A run in which no removal fails in this way leaves
  exactly what value semantics says (`ListMeaning.RunForgetsGroups`).
- An IPv6 text with `::` that leaves nothing out is accepted, but the bytes behind the `::` are cleared
  (`InetParse.GapExample`). Such a text is read as written if and only if the `::` stands for at least one byte
  or all bytes behind it are zero (`InetParse.GapAsWritten`).
- An accepted IPv6 text may have a colon behind its last group. It has if and only if it ends in a single colon
  (`InetAccept.LoneColonIff`).
- An integer is formatted as C99 says if and only if it is not zero under the precision zero, or is octal in the
  alternative form: otherwise a zero is written where there should be no digit (`PrintfMeaning.StandardIntIff`). A
  character is if and only if its width is at most one, because it is not padded (`PrintfMeaning.StandardCharIff`).
- A return to the original directory that fails leaves the process elsewhere with the lock free
  (`ChdirProtocol.LostExample`). With the lock free the process is in its original directory if and only if no
  return has failed, or the last one that did was from that directory (`ChdirProtocol.Safety`).

## Model

| member | source | states |
|---|---|---|
| `RbShape.RotateNode` | libutils/rb-tree.c:264-320 | a rotation, in either direction, keeps every node's child links, parent link and in-order interval consistent |
| `RbShape.RotateLinks` | libutils/rb-tree.c:264-320 | which links a rotation changes, and that all others stay |
| `RbColor.RotateGood` | libutils/rb-tree.c:264-320 | a rotation with a suitable recolouring of its two nodes keeps black heights equal and red nodes apart everywhere, up to a stated defect |
| `RbPutFix.PutRecolour` | libutils/rb-tree.c:334-342 | red uncle: recolouring moves the only possible red-red pair up to the grandparent |
| `RbPutFix.PutTurn` | libutils/rb-tree.c:345-350 | inner grandchild: rotating its parent keeps the insertion invariant with the parent as the defective node |
| `RbPutFix.PutSettle` | libutils/rb-tree.c:352-355 | outer grandchild with a black uncle: one recolouring and rotation end the defect |
| `RbPutFix.PutStep` | libutils/rb-tree.c:330-384 | one turn of the insertion repair, all cases, either ends it or moves to a strictly larger subtree |
| `RbPutFix.PutFinish` | libutils/rb-tree.c:386-389 | painting the root black restores the full invariant |
| `RbPutFix.PutLinked` | libutils/rb-tree.c:413-424 | linking a fresh red leaf at the place the search ended gives the insertion invariant and the extended in-order listing |
| `RbRemoveFix.RemoveDemote` | libutils/rb-tree.c:490-497 | red sibling: the rotation keeps exactly the one side that is a black node short |
| `RbRemoveFix.RemoveLighten` | libutils/rb-tree.c:499-503 | black sibling with black children: the shortage moves up one level |
| `RbRemoveFix.RemoveLean` | libutils/rb-tree.c:506-512 | red inner nephew: the rotation below the sibling keeps the shortage where it is |
| `RbRemoveFix.RemoveRepay` | libutils/rb-tree.c:513-517 | red outer nephew: one rotation removes the shortage and restores the full invariant |
| `RbRemoveFix.PendingEnd` | libutils/rb-tree.c:553-556 | however the loop ended, painting the last node black restores the full invariant |
| `RbEdit.SpliceGood` | libutils/rb-tree.c:569-587 | taking out a node with at most one child leaves a good tree, or one that is short exactly at the child that moved up |
| `RbEdit.SpliceOrder` | libutils/rb-tree.c:569-587 | the in-order listing loses exactly the spliced node |
| `RbEdit.ReplaceGood` | libutils/rb-tree.c:599-613 | the spliced node put in the place and colour of another keeps the full invariant |
| `RbEdit.ReplaceOrder` | libutils/rb-tree.c:599-613 | the in-order listing has the one node in the position of the other |
| `RbHeight.Crowded` | libutils/rb-tree.c:712-741 | a subtree of black height b has at least 2^b - 1 nodes |
| `RbHeight.WalkIsShort` | libutils/rb-tree.c:446-470 | every walk along the links from the real root, to whatever node or gap, visits at most 2 * log2(size + 1) nodes |
| `RbHeight.WalkTo` | libutils/rb-tree.c:446-470 | every node of the tree is the end of such a walk |
| `RbSpec.FindUpsert` | libutils/rb-tree.c:393-428 | after a put, the key is bound to the new value and every other key as before |
| `RbSpec.FindDelete` | libutils/rb-tree.c:559-629 | after a removal, the key is unbound and every other key as before |
| `RbSpec.SameMapPointwise` | libutils/rb-tree.c:209-250 | two sorted listings agree entry by entry if and only if they are the same map |
| `RbSpec.ReplayIsLastWrite` | libutils/rb-tree.c:393-652 | after any history of puts, removals and clears each key has the value that its last write left |
| `RbTree.Tree.constructor` | libutils/rb-tree.c:105-144 | a new tree is valid and empty |
| `RbTree.Tree.RotateLeft` | libutils/rb-tree.c:264-291 | the assignments of links perform the rotation |
| `RbTree.Tree.RotateRight` | libutils/rb-tree.c:293-320 | the assignments of links perform the mirrored rotation |
| `RbTree.Tree.PutFix` | libutils/rb-tree.c:328-390 | the repair terminates and restores the full invariant |
| `RbTree.Tree.GetNode` | libutils/rb-tree.c:446-470 | finds the node of an equal key, or the gap where it would be; its path starts at the real root, follows the links as the comparisons direct, ends at the result and visits at most 2 * log2(size + 1) nodes |
| `RbTree.Tree.Put` | libutils/rb-tree.c:393-428 | keeps order, colours, black heights and parent links; updates the map at exactly one key; true if and only if the key was bound |
| `RbTree.Tree.Get` | libutils/rb-tree.c:472-476 | the value of the map at the key |
| `RbTree.Tree.RemoveFixLeft` | libutils/rb-tree.c:488-519 | one turn for a short left child: keeps the deletion invariant and climbs, although the remembered root may be stale |
| `RbTree.Tree.RemoveFixRight` | libutils/rb-tree.c:520-552 | one turn for a short right child, likewise |
| `RbTree.Tree.RemoveFix` | libutils/rb-tree.c:479-557 | from a tree short at one node, with the root remembered from the start, the loop terminates and restores the full invariant |
| `RbTree.Tree.Next` | libutils/rb-tree.c:430-444 | the in-order successor, or nothing after the last node |
| `RbTree.Tree.SpliceAndFix` | libutils/rb-tree.c:570-597 | splicing and repairing while the node to be removed is still linked leaves a balanced tree without exactly the spliced node |
| `RbTree.Tree.PutInPlace` | libutils/rb-tree.c:599-613 | relinking the spliced node in place of the removed one keeps the tree balanced and the order |
| `RbTree.Tree.TakeOut` | libutils/rb-tree.c:569-623 | all three phases together: a balanced tree whose listing lost exactly the removed node |
| `RbTree.Tree.Remove` | libutils/rb-tree.c:559-629 | keeps the whole invariant; removes exactly that key from the map; true if and only if it was bound |
| `RbTree.Tree.Clear` | libutils/rb-tree.c:631-652 | leaves a valid empty tree |
| `RbTree.Tree.VerifyNode` | libutils/rb-tree.c:712-741 | on every balanced tree all checks of the source's own verifier pass, and each path has the same number of black nodes |
| `RbTree.Tree.VerifyTree` | libutils/rb-tree.c:743-755 | the verifier accepts every balanced tree and finds the black height of the root |
| `RbIterator.Iterator.Next` | libutils/rb-tree.c:669-705 | hands out every entry once, in strictly increasing key order, and then stops |
| `RbIterator.Equal` | libutils/rb-tree.c:209-250 | different trees: true if and only if their comparators have the same addresses and both are the same map, whatever their histories; a tree is equal to itself at once, which is the same map if and only if its values compare equal to themselves |
| `RbIterator.Run` | libutils/rb-tree.c:393-652 | after any history the tree is valid and holds exactly the replayed map in key order |
| `Bits.MaskIsModulus` | libutils/hash_map.c:65-71 | masking with a power of two less one is the remainder |
| `Bits.FoldDoubles` | libutils/misc_lib.c:40-52 | one shift-and-or step doubles the run of ones at the top |
| `Bits.UpperPowerOfTwo` | libutils/misc_lib.c:40-52 | the least power of two that is not below the argument |
| `MapSpec.LookupUpsert` | libutils/map.c:152-174 | inserting binds the key to the value and leaves every unequal key alone |
| `MapSpec.LookupDelete` | libutils/map.c:217-229 | removing unbinds the key and leaves every unequal key alone |
| `MapSpec.DistinctUpsert` | libutils/map.c:152-174 | inserting keeps keys distinct, and what is stored and dropped together is what was there and the new binding |
| `MapSpec.DistinctDelete` | libutils/map.c:217-229 | removing keeps keys distinct, and what is stored and dropped together is what was there |
| `MapSpec.Inclusion` | libutils/map.c:277-294 | one inclusion of key sets and equal counts give the other inclusion |
| `MapSpec.ReplayIsLastWrite` | libutils/map.c:152-243 | after any history each key is bound to what its last write left |
| `ArrayMaps.ArrayMap.Insert` | libutils/array_map.c:43-67 | refuses only when full; otherwise updates the bindings at one key and destroys exactly what it replaced |
| `ArrayMaps.ArrayMap.Remove` | libutils/array_map.c:69-86 | removes and destroys exactly the binding of the key, by shifting the array |
| `ArrayMaps.ArrayMap.Get` | libutils/array_map.c:88-98 | the one binding with an equal key |
| `ArrayMaps.ArrayMap.Clear` | libutils/array_map.c:100-108 | destroys every binding once |
| `ArrayMaps.ArrayMapIterator.Next` | libutils/array_map.c:137-152 | each call hands out one more binding until all have been seen once |
| `HashMaps.ChainDecides` | libutils/hash_map.c:65-71 | with a hash that agrees with key equality, a search of one chain decides for the whole table |
| `HashMaps.FlatUpdate` | libutils/hash_map.c:108-184 | changing one chain changes the table's bindings by exactly that chain's difference |
| `HashMaps.GrowthIsRoomy` | libutils/hash_map.c:29-103 | right after doubling, both thresholds are at least a fortieth of the size away |
| `HashMaps.ShrinkIsRoomy` | libutils/hash_map.c:29-103 | right after halving, both thresholds are at least a fortieth of the size away |
| `HashMaps.HashMap.constructor` | libutils/hash_map.c:34-63 | an empty valid table whose initial size is the least power of two that is not below the size asked for, brought within the limits |
| `HashMaps.HashMap.BucketOf` | libutils/hash_map.c:65-71 | the hash modulo the size, a valid bucket |
| `HashMaps.HashMap.Resize` | libutils/hash_map.c:73-103 | every binding sits in the right bucket of the new table and none is lost or doubled |
| `HashMaps.HashMap.Insert` | libutils/hash_map.c:108-145 | updates the bindings at one key; keeps size a power of two between the initial size and 2^30 and the load below the threshold unless at the maximum; the size doubles if and only if a binding was added, the load is then above the threshold and the size is not the maximum |
| `HashMaps.HashMap.Remove` | libutils/hash_map.c:147-184 | removes exactly the binding of the key, with the same invariant; the size halves if and only if a binding went, the load is then below the lower threshold and the size is above the initial one |
| `HashMaps.HashMap.Get` | libutils/hash_map.c:186-201 | the one binding with an equal key |
| `HashMaps.HashMap.Clear` | libutils/hash_map.c:235-246 | destroys every binding once and keeps the table |
| `HashMaps.HashMapIterator.Next` | libutils/hash_map.c:325-345 | each call hands out one more binding until all have been seen once |
| `HashRun.Run` | libutils/hash_map.c:34-246 | over every run the table holds the replayed map and conserves what it was given, and at every moment its size is the one the history determines |
| `HashRun.Spacing` | libutils/hash_map.c:73-184 | over every history the size so determined is a power of two within the bounds that only doubles or halves, and resizes in a row are at least a fortieth of the size apart unless a clear without a later growth came before |
| `HashRun.Distance` | libutils/hash_map.c:73-184 | without a clear, if operations i < j of a history resize the table and none between does, 40 * (j - i) >= the size in between |
| `HashRun.WorkIsLinear` | libutils/hash_map.c:73-184 | without a clear, all resizes of a history of n operations together walk at most 40 * n buckets |
| `Maps.Map.constructor` | libutils/map.c:80-109 | an empty valid map |
| `Maps.Map.Size` | libutils/map.c:111-123 | the number of bindings |
| `Maps.Map.ConvertToHashMap` | libutils/map.c:125-150 | the change of representation keeps every binding and destroys none |
| `Maps.Map.Insert` | libutils/map.c:152-174 | in both representations and across the conversion: updates at one key, reports replacement exactly, destroys exactly what was replaced |
| `Maps.Map.Remove` | libutils/map.c:217-229 | removes exactly the key's binding, reports it exactly and destroys it |
| `Maps.Map.Get` | libutils/map.c:180-215 | the value bound to an equal key |
| `Maps.Map.Clear` | libutils/map.c:231-243 | destroys every binding once |
| `Maps.MapIterator.Next` | libutils/map.c:316-344 | visits every stored pair exactly once in both representations |
| `Maps.ContainsSameKeys` | libutils/map.c:277-294 | one inclusion and a count: true if and only if the key sets are equal |
| `Maps.Run` | libutils/map.c:80-243 | every run behaves as one mathematical map, and what is stored and what was destroyed together are exactly what was handed over |
| `CsvRoundTrip.RecordRoundTrip` | libutils/csv_parser.c:74-311 | the field parser returns exactly the fields of any written record closed by CRLF, whatever they contain |
| `CsvRoundTrip.OpenRecordRoundTrip` | libutils/csv_parser.c:206-291 | without CRLF the record is returned if and only if it does not end in an empty field after a quoted one |
| `CsvRoundTrip.StaleExample` | libutils/csv_parser.c:206-291 | an empty last field after a quoted one is read as the quoted text |
| `CsvRoundTrip.FirstRecord` | libutils/csv_parser.c:325-366 | the splitter cuts the file exactly behind the first written record, in spite of line ends inside quotes |
| `CsvRoundTrip.FileRoundTrip` | libutils/csv_parser.c:313-366 | splitting and parsing a written file gives back exactly the records |
| `CsvReading.Reading` | libutils/csv_parser.c:74-311 | every text is read as the fields written in it, unquoted or quoted with blanks around the quotes; as malformed if it ends inside quotes or has something after a character that cannot stand there; and as undefined if exactly one blank stands between a closing quote and its comma |
| `CsvReading.Written` | libutils/csv_parser.c:74-311 | every text is fields with commas behind them and one of the three ends |
| `CsvReading.MalformedIff` | libutils/csv_parser.c:74-311 | malformed if and only if the text ends inside quotes, or something follows a quote in unquoted text or a character other than a blank or a comma behind a quoted field, and no field before has the single blank |
| `CsvReading.UndefinedIff` | libutils/csv_parser.c:240-262 | the buffer is copied without its terminator if and only if exactly one blank stands between a closing quote and its comma |
| `CsvReading.RecordIff` | libutils/csv_parser.c:74-311 | exactly when a record, in whatever form its fields are written, is read as their texts |
| `CsvReading.WrittenIs` | libutils/csv_writer.c:60-81 | a field is written in quotes if and only if it has a quote, a comma, a carriage return or a line feed |
| `CsvReading.SplitsAtLineEnd` | libutils/csv_parser.c:325-366 | the splitter cuts behind the first CRLF with an even number of quotes before it, or takes all there is |
| `Csv.WriteCsvEscapedString` | libutils/csv_writer.c:135-148 | the text in quotes with every quote doubled |
| `Csv.CsvWriter.Field` | libutils/csv_writer.c:60-81 | a separator if needed, and the field, quoted exactly when it contains a special character |
| `Csv.CsvWriter.NewRecord` | libutils/csv_writer.c:96-102 | ends the line with CRLF |
| `Csv.CsvWriter.Close` | libutils/csv_writer.c:106-115 | ends an open last line if asked to |
| `Csv.WriteFile` | libutils/csv_writer.c:60-115 | writes every record closed by CRLF |
| `Csv.File.GetCsvLineNext` | libutils/csv_parser.c:325-366 | reads one record up to a CRLF outside quotes and advances by exactly that much |
| `Csv.LaunchCsvAutomata` | libutils/csv_parser.c:74-311 | the loop over the text buffer, with its cursor and stale contents, computes the field automaton, whose reading of every text is `CsvReading.Reading` |
| `Csv.ReadFile` | libutils/csv_parser.c:313-366 | reading line by line until the end gives the parsed records |
| `Csv.WriteThenRead` | libutils/csv_parser.c:313-366 | writing records without NUL and reading the file returns exactly the records |
| `JsonStrings.ReadEncoded` | libutils/json.c:2184-2253 | the string parser stops at the closing quote of any encoded string |
| `JsonStrings.KeyRoundTrip` | libutils/json.c:2680-2687 | a key survives encoding and parsing if and only if it consists of printable ASCII and the five short-escaped control characters |
| `JsonStrings.ValueRoundTrip` | libutils/json.c:2389-2438 | a string value, unescaped twice, survives if and only if no backslash in it begins an escape |
| `JsonStrings.BackslashNIsLost` | libutils/json.c:2389-2438 | a backslash and an n come back as a line feed |
| `JsonStrings.BackslashesDoNotGrow` | libutils/json.c:1072-1130 | reading back never adds a backslash |
| `JsonStrings.NoNewFront` | libutils/json.c:1072-1130 | reading back cannot put text without a backslash before a string |
| `JsonRoundTrip.NumberReads` | libutils/json.c:2261-2387 | a number lexeme is read to the same value when a separator or the end follows |
| `JsonRoundTrip.PrimReads` | libutils/json.c:1715-1739 | every printed primitive is read back, strings with their second unescaping |
| `JsonRoundTrip.Reads` | libutils/json.c:1741-2055 | every printed element, in either style and at any indent, is read to its end inside any context |
| `JsonTheorems.BackIff` | libutils/json.c:2389-2438 | reading back changes nothing if and only if all string values and keys survive |
| `JsonTheorems.CanonicalValid` | libutils/json.c:1829-1883 | sorting the members keeps an element well formed and does not affect whether it survives |
| `JsonTheorems.RoundTrip` | libutils/json.c:2864-2927 | parsing the printed text succeeds, consumes all of it, and gives the element with members in key order if and only if its strings and keys survive |
| `JsonTheorems.SameTextIff` | libutils/json.c:1904-2055 | surviving elements print the same text if and only if they differ only in the order of members |
| `JsonCanon.SortHolds` | libutils/json.c:1843-1848 | sorting keeps exactly the members and puts the names in increasing order |
| `JsonCanon.IncreasingIsUnique` | libutils/json.c:1843-1848 | there is only one sequence of given members with increasing names |
| `JsonCanon.CanonicalIff` | libutils/json.c:1829-1883 | two elements have one canonical form if and only if they are equal up to the order of members at every level |
| `JsonCanon.CanonicalPrinting` | libutils/json.c:1829-2018 | elements equal up to the order of members print identical text in both styles |
| `JsonCanon.AppendedUnique` | libutils/json.c:1268-1338 | appending under a key keeps keys unique, holds the new member and loses no other |
| `JsonCanon.CompareIff` | libutils/json.c:282-424 | comparing gives zero if and only if the elements are equal up to the order of members and the kind of primitives |
| `JsonCanon.CompareIsCanonical` | libutils/json.c:282-424 | comparing gives zero if and only if the canonical forms agree, although members are looked up in one direction |
| `JsonCanon.CompareEquivalence` | libutils/json.c:282-424 | with unique keys, which appending keeps, the comparison is an equivalence relation although it looks members up in one direction |
| `JsonReading.GrammarNumber` | libutils/json.c:2261-2387 | every number of the grammar in section 6 of RFC 8259 is accepted with its lexeme kept, as a real if it has a fraction |
| `JsonReading.NumberKeepsLexeme` | libutils/json.c:2261-2387 | an accepted number keeps exactly the characters consumed |
| `JsonReading.ParseValid` | libutils/json.c:2891-2927 | whatever text is accepted, the element is well formed with unique keys |
| `JsonReading.Reprint` | libutils/json.c:2864-2927 | any accepted text can be printed and parsed again, with the same element in key order if and only if its strings and keys survive |
| `SeqSort.Partition` | libutils/sequence.c:249-289 | the two cursors meet with nothing above the pivot on the left, nothing below it on the right, and progress on both sides |
| `SeqSort.QuickSortRecursive` | libutils/sequence.c:257-289 | the part of the array is sorted, a permutation of what it was, and nothing outside it changes |
| `SeqSort.Sort` | libutils/sequence.c:291-295 | the array is sorted and a permutation of what it was |
| `JsonEscapes.StringReads` | libutils/json.c:2184-2253 | every string of section 7 of RFC 8259, given by characters, escape letters and codes, is read up to its closing quote, with each letter as the character it stands for and each code as it is |
| `JsonEscapes.StringAccepted` | libutils/json.c:2184-2253 | whatever is accepted as a string is made of characters and pairs of a backslash and any character |
| `JsonEscapes.DecodedMeans` | libutils/json.c:1072-1130 | the decoder reads letters behind a backslash, codes up to 255, dropped and lone backslashes as what they stand for |
| `JsonEscapes.Parted` | libutils/json.c:1072-1130 | every text is made of such parts |
| `JsonEscapes.ValueReads` | libutils/json.c:2389-2438 | a value written without an escaped backslash is what its parts stand for, but codes above 255 lose their backslash only |
| `JsonEscapes.EncodedIs` | libutils/json.c:980-1024 | the encoder writes a string of that grammar: quotes, backslashes and five control characters behind a backslash, other printable characters as they are, the rest as codes in lower case |
| `JsonGrammar.DocumentMeans` | libutils/json.c:2389-2927 | every document of RFC 8259, with blanks wherever they may be, is accepted to its end and means what it says; of members with one name the last counts |
| `JsonAccept.NumberAccepted` | libutils/json.c:2261-2387 | whatever is accepted as a number has each character where it may follow those before it, and ends in a digit |
| `JsonAccept.NumberTaken` | libutils/json.c:2261-2387 | every such number is accepted, with its kind, when a separator or the end follows |
| `JsonAccept.AcceptedIff` | libutils/json.c:2389-2927 | a text is accepted, as an element and with what is left, if and only if it is blanks, a value of the stated grammar of tokens that means that element, and space |
| `JsonLayout.PrettyText` | libutils/json.c:1715-1925 | the pretty text is the element's lines, each behind a line feed and two blanks for every level |
| `JsonLayout.CompactText` | libutils/json.c:1927-2055 | the compact text is the same lines on one line, without the blank behind a colon |
| `JsonWriter.EncodeStringWriter` | libutils/json.c:980-1024 | the loop writes the encoding of every character |
| `JsonWriter.DecodeStringWriter` | libutils/json.c:1072-1130 | the loop writes the decoded text |
| `JsonWriter.PrimitiveWrite` | libutils/json.c:1715-1739 | the primitive at its indent |
| `JsonWriter.ArrayWrite` | libutils/json.c:1741-1792 | the pretty text of the array, and what is left is its canonical form |
| `JsonWriter.SortChildren` | libutils/json.c:1843-1848 | sorting by key keeps exactly the members, in increasing order |
| `JsonWriter.ObjectWrite` | libutils/json.c:1829-1883 | the pretty text of the sorted object, and what is left is its canonical form |
| `JsonWriter.Write` | libutils/json.c:1904-1925 | the pretty text of the canonical form at any indent |
| `JsonWriter.ArrayWriteCompact` | libutils/json.c:1927-1970 | the compact text of the array |
| `JsonWriter.ObjectWriteCompact` | libutils/json.c:1972-2018 | the compact text of the sorted object |
| `JsonWriter.WriteCompact` | libutils/json.c:2037-2055 | the compact text of the canonical form |
| `JsonParser.ParseAsString` | libutils/json.c:2184-2253 | the cursor loop computes the string reading, which `JsonEscapes.StringReads` and `JsonEscapes.StringAccepted` characterise |
| `JsonParser.ParseAsNumber` | libutils/json.c:2261-2387 | the cursor loop with its flags computes the number reading of the specification |
| `JsonParser.ParseAsArray` | libutils/json.c:2440-2590 | the loop computes the array reading, with all its error cases |
| `JsonParser.ParseAsObject` | libutils/json.c:2621-2862 | the loop computes the object reading, with all its error cases |
| `JsonParser.UnquotedKeyWithColon` | libutils/json.c:2592-2619 | finds an unquoted key exactly when a colon follows the word |
| `JsonParser.AppendElement` | libutils/json.c:1268-1338 | replaces an earlier member with the key and keeps keys unique |
| `JsonParser.ParseText` | libutils/json.c:2891-2927 | skips whitespace and dispatches on the first character |
| `JsonParser.ParseWhole` | libutils/json.c:2869-2889 | fails when anything but whitespace follows the element; what is accepted and what it means is `JsonAccept.AcceptedIff` |
| `JsonParser.WriteThenParse` | libutils/json.c:1904-2927 | writing with the loops and parsing with the loops gives the canonical element, unchanged if and only if its strings and keys survive |
| `Dll.LinkLastHolds` | libutils/list.c:258-285 | linking a node at the end gives the chain extended by it |
| `Dll.LinkFirstHolds` | libutils/list.c:229-256 | linking a node at the front gives the chain with it first |
| `Dll.UnlinkHolds` | libutils/list.c:416-444 | unlinking any node gives the chain without it |
| `Dll.UnlinkBeside` | libutils/list.c:416-444 | unlinking leaves every disjoint chain intact |
| `RefCount.CountIsUsers` | libutils/refcount.c:57-137 | the user count is the number of users attached |
| `RefCount.RefCounts.New` | libutils/refcount.c:29-39 | a new count without users |
| `RefCount.RefCounts.Attach` | libutils/refcount.c:57-78 | attaches exactly one user and keeps every user list consistent |
| `RefCount.RefCounts.Detach` | libutils/refcount.c:80-132 | detaches exactly the given user, and refuses to detach the last one |
| `RefCount.RefCounts.IsShared` | libutils/refcount.c:134-137 | true if and only if more than one user is attached |
| `RefCount.RefCounts.Destroy` | libutils/refcount.c:41-55 | removes the count with its last user |
| `ListNodes.DroppedAt` | libutils/list.c:416-453 | removing a node removes exactly one value from one chain |
| `ListNodes.FreedTexts` | libutils/list.c:161-194 | freeing a chain leaves the values of every other chain alone |
| `ListHeap.ChangedWorld` | libutils/list.c:229-285 | a change through the only list of a chain leaves every other list's contents alone |
| `ListHeap.MovedViews` | libutils/list.c:77-141 | moving a list to a copy of its chain changes no list's contents |
| `ListHeap.SecondSearch` | libutils/list.c:348-385 | after detaching, the second search finds the same place, or nothing if payloads are compared by address and were copied |
| `ListHeap.Lists.New` | libutils/list.c:143-159 | adds an empty list |
| `ListHeap.Lists.Copy` | libutils/list.c:196-227 | the copy has the same contents, shares the chain, and exists if and only if there is a copy function |
| `ListHeap.Lists.CopyChain` | libutils/list.c:88-131 | the deep copy has the same values on fresh nodes and payloads, and nothing else changes |
| `ListHeap.Lists.Detach` | libutils/list.c:77-141 | afterwards the list is the only user of its chain, and no list's contents changed |
| `ListHeap.Lists.Append` | libutils/list.c:258-285 | this list gains the value at its end and no other list changes |
| `ListHeap.Lists.Prepend` | libutils/list.c:229-256 | this list gains the value at its front and no other list changes |
| `ListHeap.Lists.FindNode` | libutils/list.c:293-325 | the first node whose payload matches |
| `ListHeap.Lists.Remove` | libutils/list.c:333-456 | removes the first match from this list only; missing if and only if there is none; lost if and only if there is one, payloads are compared by address and the chain is shared |
| `ListHeap.Lists.Destroy` | libutils/list.c:161-194 | this list is gone, no other list changes, and a shared chain is not touched |
| `ListMeaning.ForgetsGroups` | libutils/list.c:77-456 | an operation fails if and only if it removes, by address, a payload of a chain that the list shares; any other does to the contents what value semantics says |
| `ListMeaning.RunForgetsGroups` | libutils/list.c:77-456 | a run is lost if and only if one of its operations fails in that way; a run that is not lost leaves exactly what value semantics says |
| `ListMeaning.ComparedNeverLost` | libutils/list.c:333-385 | no run is lost in which every list has a comparison function |
| `ListRun.Run` | libutils/list.c:77-456 | after every run on any number of lists, with and without comparison, copy and destroy functions, each list holds what the meaning of the run says, lists share a chain if and only if it says so, and a removal was lost if and only if it says so |
| `ListRun.CountsAreLists` | libutils/refcount.c:57-137 | the user count of a chain is the number of lists on it, and chains of different counts are disjoint |
| `ListRun.RemoveKey` | libutils/list.c:333-456 | with any allocated payload, the removal of the first match, or a lost one if it compares by address on a shared chain |
| `ListRun.HeldIsFound` | libutils/list.c:293-325 | a payload that a list holds is found by its address in that list's chain only, at its own place |
| `ListRun.SharedRemoveIsLost` | libutils/list.c:348-385 | a shared list without a comparison function does not find the payload it holds |
| `InetParse.QuadReads` | libcompat/inet_pton.c:79-118 | every dotted quad, leading zeros included, is read as its four octets |
| `InetParse.FullForm` | libcompat/inet_pton.c:134-217 | eight groups, or six and a dotted quad, are read as they stand (form 1 and form 3 of section 2.2 of RFC 4291) |
| `InetParse.GapForm` | libcompat/inet_pton.c:134-217 | groups around `::` are read with zeros between; when nothing is left out, the bytes after the gap are cleared |
| `InetParse.GapAsWritten` | libcompat/inet_pton.c:199-212 | a text with `::` is read as written if and only if the `::` stands for at least one byte or all bytes behind it are zero |
| `InetParse.GapExample` | libcompat/inet_pton.c:199-212 | the text 1:2:3:4:5:6:7::8 is read as 1:2:3:4:5:6:7:0 |
| `InetParse.DecimalAsHex` | libcompat/inet_pton.c:156-192 | an octet read first as a hexadecimal group never overflows it |
| `InetAccept.HexTable` | libcompat/inet_pton.c:139-161 | the digits are read by their place in the table, in either case |
| `InetAccept.Pton4Exactly` | libcompat/inet_pton.c:79-118 | a text is read as four octets if and only if it is four decimal octets of at most 255 between dots |
| `InetAccept.Reads` | libcompat/inet_pton.c:134-217 | every form of an address, in full or with `::`, with or without a quad and with or without a colon behind the last group, is read as the bytes it stands for |
| `InetAccept.Pton6Exactly` | libcompat/inet_pton.c:134-217 | a text is accepted, as an address, if and only if it is one of these forms and stands for that address |
| `InetAccept.LoneColonIff` | libcompat/inet_pton.c:167-183 | an accepted text is of a form without a colon behind the last group if and only if it does not end in a single colon |
| `InetPrint.HexTextShortest` | libcompat/inet_ntop.c:150-178 | a word is written in lower-case hexadecimal digits without a zero in front |
| `InetPrint.EmbeddedIff` | libcompat/inet_ntop.c:163-171 | four octets are written at the end if and only if the first five words are zero and the sixth is zero with a seventh that is not, or all ones |
| `InetPrint.RoundTrip` | libcompat/inet_ntop.c:102-189 | the parser undoes the printer, whichever run of zero words is left out |
| `InetPrint.RenderFits` | libcompat/inet_ntop.c:102-189 | the text and its terminator fit 46 bytes |
| `InetPrint.BestIsUnique` | libcompat/inet_ntop.c:124-145 | there is exactly one leftmost longest run of at least two zero words (section 4.2 of RFC 5952) |
| `InetPrint.QuadTextLeast` | libcompat/inet_ntop.c:77-92 | the printed dotted quad is the only shortest text that is read as its octets |
| `Inet.InetPton4` | libcompat/inet_pton.c:79-118 | the loop computes the dotted-quad reading, which accepts exactly the quads (`InetAccept.Pton4Exactly`) |
| `Inet.ShiftUp` | libcompat/inet_pton.c:199-212 | the shift in place puts zeros into the gap |
| `Inet.InetPton6` | libcompat/inet_pton.c:134-217 | the loops compute the address reading, which accepts exactly the stated forms (`InetAccept.Pton6Exactly`) |
| `Inet.FindRun` | libcompat/inet_ntop.c:124-145 | finds the leftmost longest run of at least two zero words, or none |
| `Inet.Format` | libcompat/inet_ntop.c:150-178 | the loop writes groups, `::` and an embedded IPv4 tail as the text form has them |
| `Inet.InetNtop4` | libcompat/inet_ntop.c:77-92 | the one shortest text that the parser reads as these octets, of at most 15 characters; nothing if and only if no text of them fits with its terminator |
| `Inet.InetNtop6` | libcompat/inet_ntop.c:102-189 | the text of the address with its best run left out, which parses back to the address; nothing exactly if it does not fit |
| `Inet.NtopThenPton` | libcompat/inet_ntop.c:102-189 | printing and parsing returns every 16-byte address |
| `ChdirProtocol.InsideOk` | libcompat/generic_at.c:80-121 | every step of the lock holder keeps the invariant |
| `ChdirProtocol.StepOk` | libcompat/generic_at.c:66-139 | every step of every thread keeps the invariant |
| `ChdirProtocol.Stranding` | libcompat/generic_at.c:110-134 | the base changes with a failed return only, and then to the directory that caller had asked for |
| `ChdirProtocol.AllReachable` | libcompat/generic_at.c:66-139 | the invariant holds in every reachable state of every interleaving of any number of threads |
| `ChdirProtocol.Safety` | libcompat/generic_at.c:66-139 | the function always runs in the directory asked for, and without one in the base of its time, which is the original directory or where the last failed return left the process; with the lock free the working directory is that base, hence the original one if and only if no return has failed or the last did there, and every descriptor is closed; at most one thread is inside |
| `ChdirProtocol.LostExample` | libcompat/generic_at.c:110-134 | a return that fails leaves the lock free with the process elsewhere |
| `ChdirProtocol.HolderProgress` | libcompat/generic_at.c:66-139 | the lock holder can always go on, gets closer to unlocking with each of its steps, and is never disturbed by others |
| `ChdirCalls.OneCall` | libcompat/generic_at.c:66-139 | in every interleaving, between two moments with the lock free in which one thread had it, exactly one of two things happened: that thread's function was called once, in the directory it had asked for or, without one, in the working directory as it was; or the request, which then had a directory, was refused, and the process did not move |
| `ChdirCalls.CanBeServed` | libcompat/generic_at.c:66-139 | whatever happened before, a thread waiting for the free lock can be served without a failure: its function is called and the process is back where it was |
| `SparseCopy.FullWrite` | libutils/file_lib.c:266-290 | all data is written at the offset in spite of short and interrupted writes |
| `SparseCopy.FullRead` | libutils/file_lib.c:292-321 | reads as much as was asked for, or all there is, in spite of short and interrupted reads |
| `SparseCopy.FileSparseWrite` | libutils/file_lib.c:1511-1541 | a block of zeros only moves the offset, any other block is written |
| `SparseCopy.Shovel` | libutils/file_lib.c:1563-1611 | after the loop the destination, with trailing holes counted as zeros, is the source |
| `SparseCopy.FileSparseClose` | libutils/file_lib.c:1836-1857 | a hole at the end becomes real and the length exact |
| `SparseCopy.SparseCopyAndClose` | libutils/file_lib.c:1511-1857 | for every content, block size and pattern of short or interrupted transfers the destination equals the source byte for byte |
| `Braces.OnePairLess` | libutils/glob_lib.c:41-101 | each recursive call has exactly one opening and one closing brace less |
| `Braces.FindBraces` | libutils/glob_lib.c:52-64 | the loop finds the first closing brace with an opening one before it and the nearest such |
| `Braces.ExpandBraces` | libutils/glob_lib.c:41-101 | terminates, and adds exactly the expansions to the set |
| `Braces.NoPairLeft` | libutils/glob_lib.c:41-101 | no result has an opening brace with a closing one after it |
| `Braces.FindsFirst` | libutils/glob_lib.c:52-64 | on the text of a nested pattern the pair found is the first innermost group |
| `Braces.ChoiceMeans` | libutils/glob_lib.c:77-97 | choosing among the alternatives of the first innermost group keeps the meaning of the pattern |
| `Braces.ExpandMeans` | libutils/glob_lib.c:41-101 | on the text of any nested brace pattern the result is exactly the set of strings it stands for |
| `Braces.ExpandAny` | libutils/glob_lib.c:41-101 | a text without an opening brace before a closing one stands for itself, and any other for what it stands for with its first pair replaced by one of the pieces in it |
| `Strings.StrCmpIs` | libutils/json.c:1797-1806 | the order of texts is decided by the first difference, and a beginning comes first |
| `Strings.SplitJoins` | libutils/string_sequence.c:75-97 | the pieces are without the separator and give the text with it between them |
| `Strings.JoinedSplits` | libutils/string_sequence.c:75-97 | pieces without the separator are found again |
| `Strings.StringSplit` | libutils/string_sequence.c:75-97 | the pieces between separators, empty ones kept |
| `GlobWalk.IsWildcardPattern` | libutils/glob_lib.c:280-300 | true if and only if a metacharacter occurs |
| `GlobWalk.PathWalkCallback` | libutils/glob_lib.c:437-557 | crosses out directories that do not match, pops a component, reports files for the last component and the directory when none is left |
| `GlobWalk.PathWalk` | libutils/file_lib.c:523-624 | the recursion with the callback collects the walk of the specification, in order |
| `GlobWalk.WalkFinds` | libutils/glob_lib.c:437-557 | a path is collected if and only if it exists and matches component by component |
| `GlobWalk.BelowIs` | libutils/glob_lib.c:437-557 | what is found is called by the names below the start with slashes between them, behind the start and a slash, or alone below the working directory |
| `GlobWalk.PeelKeepsMatches` | libutils/glob_lib.c:594-646 | the walk from the deepest literal directory collects the same sequence as the walk with nothing peeled |
| `GlobWalk.PeelLiteralPrefix` | libutils/glob_lib.c:594-646 | the start directory, the components left, and nothing exactly when the prefix is not a directory |
| `GlobWalk.FindOne` | libutils/glob_lib.c:700-757 | peeling and walking reports exactly what matches |
| `GlobFind.IsAbsoluteFileName` | libutils/file_lib.c:388-412 | a slash after any leading quotes |
| `GlobFind.AbsoluteIff` | libutils/file_lib.c:388-412 | a name is absolute if and only if its first character that is not a quote is a slash |
| `GlobFind.ComponentLaws` | libutils/glob_lib.c:664-699 | the components are the names between slashes, however many slashes there are |
| `GlobFind.FindPattern` | libutils/glob_lib.c:664-757 | splitting, filtering and walking for one pattern finds exactly what matches it |
| `GlobFind.Find` | libutils/glob_lib.c:648-765 | each expansion is walked for once, and the sorted result is exactly what matches one of them |
| `GlobFind.FindNested` | libutils/glob_lib.c:648-765 | for a nested brace pattern the result is exactly what matches one of the strings it stands for |
| `PrintfText.DigitsDenote` | libcompat/snprintf.c:1419-1432 | the digits in base 8, 10 or 16 denote the value |
| `PrintfText.SixtyFourBits` | libcompat/snprintf.c:1419-1432 | the digits of any 64-bit value fit the conversion buffer |
| `PrintfText.IntTextLength` | libcompat/snprintf.c:976-1074 | exactly max(width, sign + prefix + max(precision, digits)) characters |
| `PrintfText.IntTextParts` | libcompat/snprintf.c:976-1074 | blanks on one side only; `-` exactly for a negative signed value, `+` or a blank under their flags; `0x` or `0X` exactly for a nonzero hexadecimal value in the alternative form; and a numeral that denotes the magnitude |
| `PrintfDirective.DirectiveMeans` | libcompat/snprintf.c:538-939 | a directive written with flags, a width and a precision as digits or from arguments, modifier and conversion has exactly that effect on the rest of the output |
| `PrintfDirective.WidthTooLarge` | libcompat/snprintf.c:614-636 | a width above the largest int ends the output there, with an error |
| `PrintfDirective.PrecisionTooLarge` | libcompat/snprintf.c:645-667 | so does a precision |
| `PrintfMeaning.ConvertedPrints` | libcompat/snprintf.c:706-1074 | a directive prints what its text says: an integer as the one value of the argument's type congruent to the argument, with sign, prefix, base, case of digits, least number of digits, zeros and blanks by its flags, width and precision; the longest prefix of a string within the precision, padded on the side the flag says; a character; a percent sign |
| `PrintfMeaning.PrintsOnly` | libcompat/snprintf.c:706-1074 | by that description a directive prints one text only |
| `PrintfMeaning.FormatMeans` | libcompat/snprintf.c:538-939 | a format of plain text and directives writes a text if and only if it is the one its pieces print, each with the next arguments |
| `PrintfMeaning.StandardIntIff` | libcompat/snprintf.c:976-1074 | an integer is printed as section 7.19.6.1 of C99 says if and only if it is not zero under the precision zero, or is octal in the alternative form |
| `PrintfMeaning.StandardCharIff` | libcompat/snprintf.c:837-840 | a character is printed as the standard says if and only if its width is at most one |
| `Printf.Buffer.OutChar` | libcompat/snprintf.c:518-523 | counts every character and stores those that leave room for the terminator |
| `Printf.Buffer.FmtStr` | libcompat/snprintf.c:941-973 | the string cut at the precision and padded to the width, null as `(null)` |
| `Printf.Buffer.FmtInt` | libcompat/snprintf.c:975-1074 | the countdown loops emit the integer text, whose parts are `PrintfText.IntTextParts` |
| `Printf.Convert` | libcompat/snprintf.c:1419-1432 | the digits from last to first, all of them |
| `Printf.Loop` | libcompat/snprintf.c:538-939 | the state machine over the format emits the output that `PrintfMeaning.FormatMeans` characterises |
| `Printf.Vsnprintf` | libcompat/snprintf.c:538-939 | the length of the unbounded output (`PrintfMeaning.FormatMeans`) is returned, and its first min(length, size - 1) characters and a NUL are stored, as in section 7.19.6.5 of C99 |
| `Printf.SizeDoesNotMatter` | libcompat/snprintf.c:538-939 | the returned length does not depend on the buffer, and buffers agree as far as the smaller one reaches |
| `Printf.Vasprintf` | libcompat/snprintf.c:1498-1511 | the text is never truncated |

## Left out

- Red-black tree: `RBTreeCopy` (with an odd number of kept entries its middle-out loop does not copy the last one), copying and freeing of keys and values, and reuse of node memory: the arena only grows. The key comparator is a total order, so the default comparison of pointers is not modelled.
- RbIterator.Equal: function values cannot be compared, so whether the addresses of the comparators agree is a parameter.
- HashMaps.HashMap.Resize: chains are sequences of bindings rather than linked items, so the reuse of item memory is not captured; the order in which bindings enter the chains is that of the source.
- Bits.UpperPowerOfTwo: arguments above 2^32, for which the source folds too few bits; a hash map never asks for more than 2^30.
- Maps: soft destruction, statistics, and iteration while the map is being changed.
- Csv.LaunchCsvAutomata: copying a buffer that was never terminated is the outcome `Undefined` of the specification rather than some text.
- Csv.File.GetCsvLineNext: reading errors and the growth of the line buffer.
- JSON: elements are values, so the in-place sorting that printing does to an object is returned as the element left behind, and sharing between elements is not captured; lookups of variables while parsing, copying, merging, selection, YAML, JSON5 and files are not modelled; `isalnum` is that of the C locale; which of the errors a rejected text gets is said by the reading functions only.
- JsonParser.ParseAsString: a backslash directly before the terminator, where the source steps over the end of the text, is the outcome `Overrun`.
- Lists: iterators, the change counter, null payloads; the copy function allocates a fresh equal payload. A run ends with a lost removal, because the source then fails an assertion.
- HashRun.Spacing: nothing is said about the distance between resizes after a clear, until a growth, because clearing keeps the table as large as it was.
- RefCount.RefCounts.Attach: a user that is attached twice.
- Inet.InetPton6: errno and the choice of address family.
- Braces.ExpandBraces: the text is rewritten as a value instead of being cut in place; the set of results is a value that is passed along.
- GlobWalk.PathWalkCallback: sequences of names and components are values returned, not edited in place; matching a component is a parameter, because translating it depends on a regular-expression engine; components `.` and `..`, backslashes, symbolic links, directories that cannot be listed and the Windows branches are not modelled.
- GlobFind.Find: the iteration order of the set of patterns is arbitrary.
- Printf.Loop: floating point, `%n`, `%p`, the quote flag, the `L` modifier, the most negative integer, and missing or mismatched arguments are the outcome `Unmodelled`.
- SparseCopy.SparseCopyAndClose: special system calls, `fsync`, and counts that do not fit the C types; a transfer that fails for good is only promised to be reported.
- ChdirProtocol.Safety: errno, the cleanup callback, and errors of the lock itself.
- The rest of the library: queues, ring buffers, other sequence and string functions, IP address classes, templates, logging, file locks, safe opening and hashing.
