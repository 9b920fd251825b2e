# act: the dictionary, its ternary search tree and the Huffman codec, in Dafny

act is an auto-completion program. Its core has three parts:

- a **ternary search tree** (`src/tstree.c`) that stores byte strings with an occurrence count each;
- a **dictionary** (`src/dict.c`) on top of it that stores case-folded words of at least two letters, lists the most used words under a prefix, exports every word as text (one line per occurrence) and loads words back from such a text;
- a **Huffman codec** (`src/huffman.c`) that compresses a buffer into the `HUFF` file format and decompresses it again.

The letter classes and case conversions of `src/alpha.h` are shared by the dictionary.

How the model is laid out:

- **Tree and dictionary.** The tree's linked nodes become an arena: a `seq<Node>` addressed by index, with `NIL` for `NULL`. It is held by the class `TernaryTree.TernarySearchTree`, whose methods update it in place. Ghost labels give the word that every node spells; a ghost map gives the stored words with their counts. C strings are NUL-terminated runs of bytes in an `array<byte>`. The dictionary works on those arrays in place: it folds case, cuts the text at word boundaries and copies lines with `memcpy`.
- **Huffman codec.** The file descriptors become byte sequences held by the classes `HuffmanBuffers.WriteBuffer` and `HuffmanBuffers.ReadBuffer`. The priority queue is the class `HuffmanQueue.PriorityQueue` over a fixed array of 512 slots. The compression tree is the array of signed parent links of the source. The decoding tree is the array of child pairs of the source.

What is proved:

- Over the unbounded integers of the model the C code does what its comments promise. Section "Findings" lists the two places where it does not.
- The compressed file read back yields the original data (`HuffmanCodec.RoundTrip`).
- When every stored word is made of letters only, the exported text read back into an empty dictionary yields the stored words with their counts (`DictSave.SavedLoads`, `Packing.SavedRoundTrip`). Every word the import itself stores is of that kind (`DictText.WordsPlain`). A word that `dict_add` accepted with another byte in it does not come back (`DictSave.SavedNonLetterWord`, under Findings).
- The selection of `dict_get_most_used` returns the `number` most frequent matching words, in descending order of count, ties in visit order (`Selection.SelectSpec`, `Packing.MostUsedWords`).
- Every tree operation keeps the tree's invariant. That invariant covers the search-tree order of siblings, the word each node spells and the map of stored words.

## Model

| member | source | states |
|---|---|---|
| Alpha.UpperToLowerCase | src/alpha.h:65 | an upper-case letter becomes a lower-case letter 32 below it |
| Alpha.LowerToUpperCase | src/alpha.h:68 | a lower-case letter becomes an upper-case letter that lowers back to it |
| Alpha.FoldWord | src/dict.c:137-139 | the folded word has the same length and each byte folded: upper-case letters lowered, every other byte kept |
| Alpha.LettersSplitByCase | src/alpha.h:43-62 | a byte is a letter exactly when it is upper or lower case, and never both |
| Alpha.CaseConversionRoundTrip | src/alpha.h:65-68 | lowering then raising (and raising then lowering) gives the letter back |
| Alpha.NonLetterLatin1 | src/alpha.h:43-48 | the Latin-1 signs 0xD7, 0xF7 and the letters 0xDF, 0xFF without a case partner are no letters |
| Alpha.FoldCaseProperties | src/alpha.h:55-65 | folding a byte leaves no upper case, keeps letterhood, changes exactly the upper-case letters and is idempotent |
| Alpha.FoldWordIdempotent | src/dict.c:137-139 | a folded word has no upper case, folding a folded word changes nothing, folding twice is folding once |
| Common.AddOneKeys | src/tstree.c:212-215 | one more occurrence of a word adds a key exactly when the word is new, so the number of keys (`tree->count`) grows by one only when the count was 0 |
| TernaryNodes.Search | src/tstree.c:413-415 | the sibling search ends on NIL or on a node holding the character sought |
| TernaryNodes.Find | src/tstree.c:403-416 | the search for a word ends on NIL or on a node holding its last character |
| TernaryNodes.LevelSound | src/tstree.c:392-422 | the node `tstree_get_node` reaches for a prefix starts a level whose words extend the prefix by one character |
| TernaryNodes.FindSound | src/tstree.c:403-416 | the node found for a word spells that word |
| TernaryNodes.FindExact | src/tstree.c:403-416 | in a well-formed tree the search for a word ends on node i exactly when node i spells that word |
| TernaryNodes.LevelExists | src/tstree.c:392-422 | a prefix has a level exactly when some node spells a longer word that starts with it |
| TernaryNodes.WalkExact | src/tstree.c:427-446 | the recursive walk from a level visits exactly the counted nodes whose words extend the prefix |
| TernaryNodes.WalkDistinct | src/tstree.c:427-446 | the walk visits no node twice |
| TernaryNodes.AttachOk | src/tstree.c:186-209 | linking a fresh node where a NIL link was keeps the tree well formed |
| TernaryNodes.Bumped | src/tstree.c:212-215 | changing a node's count keeps the tree well formed and every search result |
| TernaryNodes.EmptyOk | src/tstree.c:103-119 | the empty tree satisfies the invariant |
| TernaryNodes.EmptyIff | src/tstree.c:138-142 | no stored word, no node and no root are the same condition; otherwise the root is node 0 spelling one character |
| TernaryNodes.WalkUntilStops | src/tstree.c:427-446 | the walk with a callback stops at the first node the callback refuses, having handed over exactly the nodes before it |
| TernaryTree.TernarySearchTree.constructor | src/tstree.c:103-119 | a new tree is valid, with no node and no stored word |
| TernaryTree.TernarySearchTree.GetRoot | src/tstree.c:138-142 | the root is NIL exactly when no word is stored; otherwise node 0 |
| TernaryTree.TernarySearchTree.GetDepth | src/tstree.c:147-151 | the depth bounds the length of every stored word and is reached by one of them (0 when empty) |
| TernaryTree.TernarySearchTree.GetKeyNumber | src/tstree.c:156-160 | the key number is the number of distinct stored words |
| TernaryTree.TernarySearchTree.NodeGetDepth | src/tstree.c:322-326 | a node's depth is the length of the word it spells |
| TernaryTree.TernarySearchTree.NodeGetCount | src/tstree.c:331-335 | a node's count is the stored count of its word, 0 when the word is not stored |
| TernaryTree.TernarySearchTree.AddKey | src/tstree.c:165-224 | one occurrence of the key is added; the key counter grows only for a new key, the depth is the maximum key length, the node returned spells the key with its new count, and every existing node keeps its word |
| TernaryTree.TernarySearchTree.GetNode | src/tstree.c:392-422 | the node returned is the level of the prefix |
| TernaryTree.TernarySearchTree.GetKeys | src/tstree.c:229-253 | no level means failure with no visit; otherwise the callback is handed the listed nodes until it refuses one |
| TernaryTree.TernarySearchTree.NodeGetKeyInBuffer | src/tstree.c:286-317 | the buffer receives the node's word, cut to the room the size leaves, followed by a NUL, and nothing else changes |
| TernaryTree.TernarySearchTree.NodeGetKey | src/tstree.c:258-281 | a fresh buffer holds the node's word and a NUL |
| TernaryTree.FillKey | src/tstree.c:286-317 | the key-building loop on the arena writes the (cut) word and a NUL at the index given |
| TernaryTree.KeyLength | src/tstree.c:297-304 | the characters written are the whole word or as many as the size leaves room for |
| TernaryTree.CopyWord | src/dict.c:251 | writing a node's word with the default size appends the word and a NUL to what stood before the index |
| TernaryTree.ListedExact | src/tstree.c:229-253 | a prefix has a listing exactly when a stored word extends it strictly; the listing holds no node twice and exactly the nodes of stored words starting with the prefix |
| TernaryTree.ListedMember | src/tstree.c:229-253 | a node is listed for a prefix exactly when its word is stored and starts with the prefix |
| TernaryTree.ListedDistinct | src/tstree.c:229-253 | the traversal hands over no node twice |
| TernaryTree.ListedHead | src/tstree.c:240-248 | the listing starts with the node of the prefix itself when that is a stored word, then the walk from its level |
| TernaryTree.ListKeys | src/tstree.c:229-253 | the traversal on the arena: failure without visits when the prefix has no level, otherwise the listed nodes until the callback refuses one |
| TernaryTree.LevelOf | src/tstree.c:392-422 | the loop of `tstree_get_node` returns the level of the prefix |
| TernaryTree.SeekChar | src/tstree.c:413-415 | the sibling loop returns the node holding the character, or NIL |
| TernaryTree.Insert | src/tstree.c:165-224 | the insertion on values keeps the invariant and adds one occurrence of the key, with the counters of `AddKey` |
| TernaryTree.Descend | src/tstree.c:185-210 | the character loop reaches, creating what is missing, the node that spells the key, storing nothing |
| TernaryTree.Count | src/tstree.c:212-220 | bumping the final node's count adds one occurrence and updates the key counter and the depth |
| TernaryTree.Step | src/tstree.c:186-209 | one character of the key: the walk moves on to the node spelling one more character |
| TernaryTree.AddRoot | src/tstree.c:186-189 | the first character of the first key becomes the root, a node as `tstree_node_new` (src/tstree.c:347-367) makes it: count 0, no links, depth 1 |
| TernaryTree.AddChild | src/tstree.c:186-191 | a node without a child gets a fresh child for the next character, with count 0, no links and a depth one below its parent |
| TernaryTree.AddSibling | src/tstree.c:197-208 | a fresh sibling, with count 0 and no links, goes on the lower or higher side where the search fell off |
| TernaryTree.SeekSibling | src/tstree.c:197-201 | the sibling search stops on the character or on a NIL link on its side |
| DictText.ExportLength | src/dict.c:403-404 | the exported text is as long as the size the string callback accumulates |
| DictText.RunEnd | src/dict.c:313-314 | a run of letters ends at the end of the text or at a byte that is no letter |
| DictText.TallyConcat | src/dict.c:302-326 | tallying two word lists one after the other is tallying their concatenation |
| DictText.TallyCopies | src/dict.c:258-266 | tallying k copies of a word adds k to its count |
| DictText.LineWords | src/dict.c:291-330 | a plain word followed by a line feed is read back as that word first |
| DictText.RepeatWords | src/dict.c:258-266 | k lines of a plain word are read back as k copies of it |
| DictText.ExportWords | src/dict.c:250-271 | the export of plain words is read back as each word as often as its count, in order |
| DictText.RepeatNoNul | src/dict.c:258-266 | repeating a line without NUL gives no NUL |
| DictText.ExportNoNul | src/dict.c:250-271 | the export of plain words holds no NUL, so the NUL appended ends it |
| DictText.KeysOfEntries | src/dict.c:250-271 | for entries of distinct words, the map they make gives each word its count and holds nothing else |
| DictText.TallyKeys | src/dict.c:291-330 | tallying the listing of distinct new words with positive counts adds exactly their map |
| DictText.WordsPlain | src/dict.c:303-329 | every word the import finds is plain: two letters or more, none upper case |
| DictText.FoundPlain | src/dict.c:303-329 | the same for the scan from any position on |
| DictText.NonLetterExport | src/dict.c:303-329 | the export of "c3po" with count 1 reads back as "po" with count 1 |
| DictText.RoundTrip | src/dict.c:291-330 | reading back the export of distinct plain words with positive counts gives exactly their map |
| DictText.ImportExport | src/dict.c:291-330 | reading back the export of plain words tallies each word as often as its count |
| Selection.Slot | src/dict.c:357-359 | the insertion slot is the first kept node of a count below the new one; all before it count at least as much |
| Selection.Trim | src/dict.c:368-370 | trimming keeps a prefix of at most `max` nodes |
| Selection.Rank | src/dict.c:183-184 | a node's rank in the visit order is below the length exactly when it was visited, and points at it |
| Selection.KeepRejected | src/dict.c:362 | a node that finds no slot leaves the kept nodes ranked |
| Selection.KeepInserted | src/dict.c:362-386 | a node placed in a slot keeps the kept nodes ranked |
| Selection.InsertSorted | src/dict.c:374-385 | inserting a new node at its slot keeps the kept nodes in descending count, ties in visit order |
| Selection.KeepRanked | src/dict.c:342-390 | one callback keeps the kept nodes the best `max` of those visited |
| Selection.SelectRanked | src/dict.c:342-390 | after any visit sequence the kept nodes are ranked |
| Selection.SelectSpec | src/dict.c:342-390 | the kept nodes are min(visits, max) distinct visited nodes in descending count, ties in visit order, and no dropped node beats a kept one |
| Selection.WeightConcat | src/dict.c:369-384 | the size of two lists of kept nodes is the sum of their sizes |
| Slots.SlotAt | src/dict.c:357-359 | the index where the search loop stops is the insertion slot |
| Slots.ShiftUp | src/dict.c:374-380 | the shift loop moves the slots from i up to the top up by one |
| Slots.ShiftIn | src/dict.c:374-385 | the shift followed by the store puts the node at slot i |
| Slots.PlacedShifted | src/dict.c:363-385 | placing into a taken slot keeps the slot array, kept nodes and size consistent, minus the dropped word |
| Slots.PlacedFree | src/dict.c:381-385 | placing into the first free slot keeps them consistent and adds the new word's size |
| Slots.InsertWeight | src/dict.c:369-384 | the size after the insertion is the old one plus the new word's minus the dropped word's |
| Slots.ShiftStart | src/dict.c:364-372 | the start index of the shift loop in the source's 32-bit unsigned arithmetic |
| Slots.ShiftStartIntended | src/dict.c:364-380 | with two slots or more the loop as written copies the same slots as the corrected one |
| Slots.ShiftStartUnderflow | src/dict.c:364-380 | with one slot holding a count-1 word, a count-2 word starts the loop as written at index UINT_MAX |
| Packing.PackedAt | src/dict.c:190-196 | the k-th word stands in the packed buffer at its offset, followed by a NUL |
| Packing.PackStep | src/dict.c:194-195 | one more word appends it and a NUL, and its offset is the length packed so far |
| Packing.PackedWeight | src/dict.c:380-384 | the packed words take exactly the size the choosing callback accumulated |
| Packing.ExportStep | src/dict.c:250-271 | the lines of one more collected node follow the text written so far |
| Packing.VolumeExport | src/dict.c:403-404 | the size the string callback accumulates is the length of the export |
| Packing.ListedSound | src/tstree.c:229-253 | the nodes listed for a prefix are distinct nodes of stored words that extend it, with their counts |
| Packing.ListedWords | src/tstree.c:229-253 | the words of the listed nodes are exactly the stored words extending the prefix, one node each |
| Packing.ListedAll | src/dict.c:244-245 | the empty prefix has a listing exactly when a word is stored, and it lists every stored word once |
| Packing.ChosenSound | src/dict.c:183-184 | the chosen nodes are at most `number` distinct nodes of stored words extending the prefix |
| Packing.SelectedSound | src/dict.c:342-390 | choosing from nodes of stored words extending the prefix keeps those properties |
| Packing.MostUsed | src/dict.c:148-213 | the words `dict_get_most_used` returns, at most `number` |
| Packing.MostUsedWords | src/dict.c:148-213 | they are min(matches, number) distinct stored words extending the prefix, in descending count, and no match left out counts more than one returned |
| Packing.SelectedWords | src/dict.c:342-390 | the same on the words of any distinct list of the matching nodes |
| Packing.KeyNonEmpty | src/tstree.c:177 | no stored word is empty |
| Packing.SavedRoundTrip | src/dict.c:219-330 | when every stored word is plain (letters only, no upper case), reading back the export of the word and count of every listed node gives exactly the stored words with their counts |
| Packing.EntriesKeys | src/dict.c:244-271 | the entries of a full listing have distinct words and make the stored map |
| Dict.Len | src/dict.c:137 | `strlen`: the first NUL from the index on |
| Dict.LenAppended | src/dict.c:274-275 | bytes without NUL followed by a NUL are a C string of their length |
| Dict.FoldedAt | src/dict.c:137-139 | folding a stretch of bytes keeps the length |
| Dict.FoldString | src/dict.c:137-139 | the folding loop lowers every upper-case letter of the string in place and returns its length |
| Dict.FoldedWithin | src/dict.c:137-139 | bytes folded inside a stretch and unchanged outside are the folded bytes |
| Dict.CallbackData.Choose | src/dict.c:173-180 | the choosing set-up: `number` slots, the first NIL, no node kept, size 0 |
| Dict.CallbackData.Collect | src/dict.c:234-241 | the collecting set-up: room for the key number, no node collected |
| Dict.CallbackData.UsedCallback | src/dict.c:342-390 | the callback (with the corrected shift) leaves the kept nodes as one selection step gives and keeps the slots consistent |
| Dict.CallbackData.FindSlot | src/dict.c:357-359 | the search loop returns the insertion slot, which is taken exactly when it holds a kept node |
| Dict.CallbackData.PlaceShifted | src/dict.c:363-385 | insertion into a taken slot: the kept nodes become the node inserted at the slot, trimmed to `max` |
| Dict.CallbackData.PlaceFree | src/dict.c:381-385 | insertion into the first free slot: the node is appended and a NIL follows when there is room |
| Dict.CallbackData.StringCallback | src/dict.c:395-409 | the node is appended to the collected nodes and the size grows by its lines |
| Dict.StoppedAccepted | src/dict.c:389 | a traversal whose callback always accepts runs to its end |
| DictObject.Dictionary.constructor | src/dict.c:91-105 | a new dictionary is valid and empty |
| DictObject.Dictionary.Add | src/dict.c:123-143 | a string shorter than two characters is refused and left alone; otherwise it is folded in place and one occurrence of the folded word is stored |
| DictObject.Dictionary.AddWordsFromString | src/dict.c:291-330 | the string is folded run by run in place and the words are the tally of the runs of two letters or more, in order |
| DictObject.Dictionary.AddRun | src/dict.c:317-325 | a run of letters is cut with a NUL, added and restored: the run is folded and counted once |
| DictObject.Dictionary.Store | src/dict.c:142 | storing a storable word adds one occurrence and keeps the dictionary valid |
| DictObject.Dictionary.GetMostUsed | src/dict.c:148-213 | the prefix is folded in place; no result exactly when the prefix has no level; otherwise fresh arrays holding the most used words packed with their offsets and NIL padding, `number` 0 meaning every word |
| DictObject.Dictionary.Gather | src/dict.c:183-207 | the traversal and copy for a folded prefix give that result |
| DictObject.Dictionary.GetWordsIntoString | src/dict.c:219-285 | no result exactly when the dictionary is empty; otherwise a fresh buffer holding the export of every word and a NUL |
| DictObject.Pick | src/dict.c:183-207 | the result arrays exist exactly when the traversal succeeded, and then hold the chosen words |
| DictObject.GatherFacts | src/dict.c:183-186 | the traversal succeeds exactly when the prefix has a level, and the chosen nodes spell the most used words |
| DictObject.CopyOut | src/dict.c:187-207 | the copy loop packs the chosen words and their offsets, NIL in the unused slots |
| DictObject.TakeWord | src/dict.c:132-139 | a string shorter than two characters is refused; otherwise it is folded in place and returned folded |
| DictObject.FoldPrefix | src/dict.c:160-166 | a present prefix is folded in place; an absent one is the empty prefix |
| DictObject.Prefix | src/dict.c:160-166 | the folded prefix has the string's length and no upper case |
| DictObject.Choose | src/dict.c:176-184 | handing the visited nodes to the choosing callback keeps exactly their selection |
| DictObject.ChosenFacts | src/dict.c:185-196 | the chosen nodes spell the most used words and their size is the packed length |
| DictObject.AddStorable | src/dict.c:132-142 | adding a storable word keeps every stored word storable |
| DictObject.LenShort | src/dict.c:133 | a string is shorter than two characters exactly when its first or second byte is the NUL |
| DictSave.NonLetterStorable | src/dict.c:133-142 | `dict_add` accepts "c3po", which is not plain |
| DictSave.SavedOne | src/dict.c:219-285 | a dictionary holding a single word saves the lines of that word alone |
| DictSave.SavedNonLetterWord | src/dict.c:133-142 | a dictionary holding "c3po" once saves a text that reads back as "po" once, not as the stored words |
| DictSave.SaveFacts | src/dict.c:243-246 | the traversal runs to its end exactly when a word is stored, and hands over every stored word's node |
| DictSave.SavedLoads | src/dict.c:219-330 | the saved text with its NUL is a C string of its whole length whose words tally to the stored counts |
| DictSave.CollectAll | src/dict.c:243-246 | the string callback collects exactly the visited nodes |
| DictSave.WriteOut | src/dict.c:246-279 | no buffer exactly when the traversal failed; otherwise a fresh buffer holding the export of the collected nodes and a NUL |
| DictSave.WriteEntries | src/dict.c:250-271 | the copy loop writes the lines of each collected node one after the other |
| DictSave.WriteLines | src/dict.c:251-270 | one node: its word and a line feed, once per occurrence |
| DictSave.CopyLines | src/dict.c:258-266 | the `memcpy` loop repeats the first line until it stands `count` times |
| DictSave.CopiedLine | src/dict.c:264 | one copy grows the text by the line and keeps the line |
| DictSave.MemCopy | src/dict.c:264 | `memcpy` between two apart ranges of one buffer copies the bytes and changes nothing else |
| DictLoad.ScanStart | src/dict.c:302 | the scan starts at the beginning of the untouched string with no word found |
| DictLoad.ScanSkip | src/dict.c:305-307 | a byte that is no letter is passed over |
| DictLoad.ScanShort | src/dict.c:312-317 | a single letter is passed over |
| DictLoad.ScanRun | src/dict.c:312-325 | a run of two letters or more is found as its folded word and folded in place |
| DictLoad.ScanEnd | src/dict.c:303-329 | at the NUL every word is found and the string is folded |
| DictLoad.TallyOne | src/dict.c:320 | one more word found is one more occurrence tallied |
| DictLoad.SkipBlanks | src/dict.c:305-309 | the blank loop stops at the next letter, or at the NUL where the import ends |
| DictLoad.RunEndAt | src/dict.c:312-314 | the letter loop stops where the run ends |
| DictLoad.RestoreRun | src/dict.c:318-324 | saving the byte after the run, writing a NUL, folding and restoring folds just the run |
| DictLoad.LenIs | src/dict.c:318-320 | with the NUL written, the C string at the run's start is the run |
| HuffmanBits.LowBitsValue | src/huffman.c:698 | the n low bits of a number below 2^n give the number back |
| HuffmanBits.LowBitsInjective | src/huffman.c:698 | two numbers below 2^n with the same n low bits are equal |
| HuffmanBits.LittleEndian32 | src/huffman.c:755-758 | the four size bytes of the header store the size least significant first |
| HuffmanBits.LittleEndian32RoundTrip | src/huffman.c:583-586 | reading the four size bytes gives the size written |
| HuffmanBits.Header | src/huffman.c:749-758 | the header is the magic `HUFF` followed by the size |
| HuffmanBits.EmittedIsReverse | src/huffman.c:708-731 | writing a code built leaf to root emits its bits root to leaf |
| HuffmanBits.AppendPending | src/huffman.c:698-699 | or-ing data above the pending bits appends its bits |
| HuffmanBits.FlushPending | src/huffman.c:645-655 | writing out the low byte of the pending bits keeps the bit stream |
| HuffmanBits.FinishPending | src/huffman.c:670-677 | the last partial byte is padded with zero bits |
| HuffmanBits.LoadByte | src/huffman.c:550-552 | a byte loaded above the remaining bits keeps the bit stream |
| HuffmanBits.TakeBit | src/huffman.c:98-101 | the low bit of the bit buffer is the next bit of the stream |
| HuffmanBits.TakeByte | src/huffman.c:111-115 | the low byte of the bit buffer is the next eight bits |
| HuffmanBuffers.WriteBuffer.constructor | src/huffman.c:736-775 | a new write buffer holds the header of the size and no bits |
| HuffmanBuffers.WriteBuffer.Flush | src/huffman.c:640-659 | flushing moves whole bytes out and keeps the bits written |
| HuffmanBuffers.WriteBuffer.WriteBits | src/huffman.c:691-703 | the given low bits of the data are appended to the bit stream |
| HuffmanBuffers.WriteBuffer.WriteCode | src/huffman.c:708-731 | the bits of a code are appended in emission order |
| HuffmanBuffers.WriteBuffer.Finish | src/huffman.c:664-685 | the file is the header followed by the bits written and the zero padding of the last byte |
| HuffmanBuffers.ReadBuffer.constructor | src/huffman.c:567-569 | a new read buffer holds the file with nothing read |
| HuffmanBuffers.ReadBuffer.Init | src/huffman.c:561-604 | success exactly when the file has the magic and (size 0 or a ninth byte); the size is the one in the header; the bits to read are those after the header |
| HuffmanBuffers.ReadBuffer.ReadByte | src/huffman.c:529-556 | a byte is loaded exactly when one is left, and the bit stream still to read is unchanged |
| HuffmanBuffers.ReadBuffer.EnsureBits | src/huffman.c:104-108 | n bits are made available exactly when they are buffered or a byte is left; failure means fewer than n bits remain |
| HuffmanBuffers.ReadBuffer.TheBit | src/huffman.c:98 | the bit in front is the next bit of the stream |
| HuffmanBuffers.ReadBuffer.GotBit | src/huffman.c:101 | dropping the bit in front moves the stream on by one |
| HuffmanBuffers.ReadBuffer.TheByte | src/huffman.c:111 | the eight bits in front are the next eight bits of the stream |
| HuffmanBuffers.ReadBuffer.GotByte | src/huffman.c:114-115 | dropping eight bits moves the stream on by eight |
| HuffmanQueue.HeapMin | src/huffman.c:491 | the top of a heap has the least frequency of all its elements |
| HuffmanQueue.PriorityQueue.constructor | src/huffman.c:446-450 | a new queue is empty |
| HuffmanQueue.PriorityQueue.SiftUp | src/huffman.c:468-475 | moving an element up restores the heap order and keeps the elements |
| HuffmanQueue.PriorityQueue.SinkStep | src/huffman.c:500-512 | one step down swaps with the child of least frequency, the left one on a tie |
| HuffmanQueue.PriorityQueue.SiftDown | src/huffman.c:495-513 | moving an element down restores the heap order and keeps the elements |
| HuffmanQueue.PriorityQueue.Push | src/huffman.c:455-476 | the element is added and the heap order kept |
| HuffmanQueue.PriorityQueue.Pop | src/huffman.c:481-517 | an element of least frequency is removed and returned and the heap order kept |
| HuffmanTree.NodesFacts | src/huffman.c:373-396 | a linked tree has its root among its nodes, leaves exactly below 256 and one leaf more than inner nodes |
| HuffmanTree.InnerBound | src/huffman.c:62 | a linked tree has at most 255 inner nodes |
| HuffmanTree.PathTo | src/huffman.c:405-417 | a leaf's path has at most one bit per inner node and at least one below an inner root |
| HuffmanTree.LeafChain | src/huffman.c:405-417 | following the parent links from a leaf to the root gives its path reversed |
| HuffmanTree.PathsPrefixFree | src/huffman.c:398-419 | no leaf's path is a prefix of another's |
| HuffmanTree.TreeTableValid | src/huffman.c:373-419 | the codes of a tree whose leaves are the present bytes are a valid table: present bytes get a code of at most 255 bits, no code is a prefix of another, at most 255 inner prefixes |
| HuffmanTree.SingleTableValid | src/huffman.c:392-396 | with one byte value present, its 1-bit code is a valid table |
| HuffmanFormat.Entry | src/huffman.c:423-424 | a table entry is the 8-bit code length followed by the code |
| HuffmanFormat.EncodedLength | src/huffman.c:571-586 | a compressed file starts with the magic and stores the data length |
| HuffmanEncoder.StrLen | src/huffman.c:352-354 | the length of the string is the index of its first NUL |
| HuffmanEncoder.Input | src/huffman.c:347-355 | the data compressed: the `size` first bytes, or the C string when `size` is `(unsigned int) -1` |
| HuffmanEncoder.CountFrequencies | src/huffman.c:343-355 | each byte value's frequency is its number of occurrences in the data |
| HuffmanEncoder.PresentSymbols | src/huffman.c:369-371 | the byte values of nonzero frequency are those of the data |
| HuffmanEncoder.FillQueue | src/huffman.c:365-371 | the queue holds one leaf per present byte value |
| HuffmanEncoder.PopTwo | src/huffman.c:376-377 | the two pops take an element of the queue of least frequency, then one of least frequency among the rest, and remove exactly those two; every queued element indexes a node |
| HuffmanEncoder.MergeTwo | src/huffman.c:376-387 | two distinct roots are taken from the queue, the first of least frequency and the second of least frequency among the rest; the new node gets the sum of their frequencies and becomes their parent by the 0 and the 1 link; the queue holds the new node in their place, as the forest of trees does |
| HuffmanEncoder.AddMerged | src/huffman.c:381-386 | the new node gets the summed frequency, the two children their signed links, and it joins the queue |
| HuffmanEncoder.MergeGrove | src/huffman.c:376-387 | merging two trees of the forest keeps it a forest over the same leaves, with one tree less |
| HuffmanEncoder.BuildTree | src/huffman.c:365-396 | the tree built has the present byte values as leaves and a root with parent 0; a single value hangs under node 256 |
| HuffmanEncoder.TakeRoot | src/huffman.c:391 | the last tree in the queue is the whole tree and its root gets parent 0 |
| HuffmanEncoder.TakeSingle | src/huffman.c:392-396 | a single byte value is hung under the degenerate root 256 |
| HuffmanEncoder.PushBit | src/huffman.c:411-414 | shifting a bit into the code bytes appends it to the code |
| HuffmanEncoder.WalkUp | src/huffman.c:405-417 | the walk from a leaf to the root stores the chain of branch bits |
| HuffmanEncoder.BuildCodes | src/huffman.c:398-419 | every present byte value gets the code of its chain, every other size 0 |
| HuffmanEncoder.TreeCodes | src/huffman.c:398-419 | the codes built carry the table of the tree |
| HuffmanEncoder.SingleCodes | src/huffman.c:392-419 | with a single byte value the codes carry its 1-bit table |
| HuffmanEncoder.WriteEntry | src/huffman.c:423-424 | one table entry: the length byte and the code when it is not empty |
| HuffmanEncoder.WriteTable | src/huffman.c:421-425 | the 256 entries of the table are written in order |
| HuffmanEncoder.WriteData | src/huffman.c:427-430 | the code of every data byte is written in order |
| HuffmanEncoder.EmptyTableValid | src/huffman.c:361-363 | the empty data has the empty table |
| HuffmanEncoder.MakeCodes | src/huffman.c:365-419 | nonempty data gets codes carrying a valid table for it |
| HuffmanEncoder.HuffmanWrite | src/huffman.c:324-434 | the file written is the compressed form of the data under a valid table |
| HuffmanEncoder.WriteCompressed | src/huffman.c:421-433 | the table, the codes and the padding make the compressed form |
| HuffmanEncoder.WriteStream | src/huffman.c:421-430 | the bits written are the table entries followed by the codes of the data |
| HuffmanTrie.TrieInit | src/huffman.c:251-253 | a decoding tree of one empty root with the next free node 2 holds the paths of no code yet |
| HuffmanTrie.SameCode | src/huffman.c:284-286 | two byte values of a valid table never share a nonempty code, so no leaf is placed twice |
| HuffmanTrie.ValidDecodable | src/huffman.c:256-288 | a valid table can be rebuilt into a decoding tree |
| HuffmanTrie.CreateStep | src/huffman.c:268-277 | an uncreated branch on a code's path gets the next free node, within the 511 nodes |
| HuffmanTrie.BitStep | src/huffman.c:266-281 | one inner bit of a code either creates the branch with the next free node (at most 256 so far) or follows the branch that exists |
| HuffmanTrie.LastBitStep | src/huffman.c:284-286 | the last bit of a code stores the leaf and completes the entry |
| HuffmanTrie.DescendStep | src/huffman.c:278-279 | a created branch on a code's path leads to the node of one more bit |
| HuffmanTrie.LeafStep | src/huffman.c:284-286 | the last bit of a code stores the byte value as a leaf |
| HuffmanTrie.EntryStart | src/huffman.c:258-263 | each entry starts with its 8-bit code length, followed by the code |
| HuffmanTrie.WalkBit | src/huffman.c:296-307 | following one bit of a code from the root moves on along the code, to its byte value at the end |
| HuffmanTrie.DataStep | src/huffman.c:291-311 | the bits of the data decode one byte after the other |
| HuffmanDecoder.NextBit | src/huffman.c:91-101 | a bit is read exactly when one remains, and it is the next bit |
| HuffmanDecoder.NextLength | src/huffman.c:258-260 | a length byte is read exactly when eight bits remain |
| HuffmanDecoder.FollowBit | src/huffman.c:266-281 | one bit of a code while the tree is built: create or follow the branch, setting only the child of that bit |
| HuffmanDecoder.PlaceLeaf | src/huffman.c:284-286 | the last bit of a code places the byte value |
| HuffmanDecoder.InsertCode | src/huffman.c:263-287 | a code read from the table is inserted along its path |
| HuffmanDecoder.ReadEntry | src/huffman.c:256-288 | one table entry: its length and, when nonzero, its code inserted |
| HuffmanDecoder.ReadTable | src/huffman.c:250-288 | reading the table of a valid file rebuilds its decoding tree and leaves the data bits |
| HuffmanDecoder.DecodeSymbol | src/huffman.c:292-310 | the walk from the root reads one code and yields its byte value |
| HuffmanDecoder.ReadData | src/huffman.c:290-311 | the data of a valid file decodes to the data compressed |
| HuffmanDecoder.HuffmanRead | src/huffman.c:215-318 | no magic means failure; the size is the one in the header; a file that encodes data under a valid table reads back as that data |
| HuffmanCodec.RoundTrip | src/huffman.c:215-434 | the file `huffman_write` makes from the data reads back with `huffman_read` as the same data |

## Left out

- Allocation failure. Every `malloc` in the core is modelled as succeeding: a new node, the result buffers, the callback arrays. So the `NULL` paths of `tstree_add_key`, `dict_new`, `dict_get_most_used`, `dict_get_words_into_string`, `tstree_node_get_key` and `huffman_read` are not modelled. `free`, `tstree_delete`, `tstree_node_delete` and `dict_delete` are left out too; Dafny's memory is garbage-collected.
- File I/O (`open`, `creat`, `read`, `write`, `close`):
  - the file is the byte sequence a `ReadBuffer` is made from, or the one a `WriteBuffer` builds;
  - the 1024-byte file buffer of the source is collapsed into that sequence;
  - a failed `read` or `write` is not modelled.
- The `assert` calls of the source are preconditions in the model.
- Concurrency: the traversal of `tstree_get_keys` passes its callback and data through static variables. The model passes the callback as a parameter.
- The callback is a parameter of the pure traversal. The model replays the visited nodes through the dictionary's callbacks after the walk, in the same order. Both callbacks always return `TRUE`, so the traversal is never cut short by them.
- Integer widths. Counts, sizes, depths and the tree's counters are modelled as unbounded. `Dict.Storable` demands a word shorter than `UINT_MAX - 1`, so the `size` of `tstree_node_get_key_in_buffer` never wraps. `DictObject.Dictionary.AddWordsFromString` likewise demands a whole text shorter than `UINT_MAX - 1`. The source asks only that each word be short enough for `dict_add`; the model bounds the whole text so that every run cut out of it is storable. Wrap-around in these counters is not modelled.
- The one piece of unsigned arithmetic modelled is the shift start of `dict_used_callback`. It is under Findings.
- `char` is taken as `unsigned char`. In `huffman_write`, `tree[(int) buffer[i]]` and `codes + (int) buffer[i]` would index below the arrays for bytes 0x80 to 0xFF on a platform where `char` is signed. The model indexes by the unsigned byte value.
- The failure branch of `dict_add` inside `dict_add_words_from_string` cannot be reached in the model. Every run it passes has at least two letters, and the insertion always succeeds because allocation is not modelled.
- When the result array of `dict_get_most_used` cannot receive a word, the source frees it. `tstree_node_get_key_in_buffer` always returns `TRUE`, so that branch is dead and is not modelled. The same holds for the `break` of the copy loop of `dict_get_words_into_string`.
- `dict_get_words_into_string` allocates `tstree_get_key_number` slots, and the model gives the collecting callback the same room. For an empty dictionary the source first allocates the callback array with 0 slots, and then either returns at once when that `malloc(0)` gives `NULL`, or the traversal fails. The result is `NULL` either way, and the model takes the second path.
- Dict.CallbackData.PlaceShifted: the size loses the dropped word's length and gains the stored word's in a single update before the slot array moves. The source subtracts before the shift and adds after it. The final state is the same.
- Only the final contents of the `memcpy` destinations in `dict_get_words_into_string` are stated. Their order of writes is not.
- DictObject.Dictionary.GetMostUsed: the source returns one block holding `number` `char *` entries followed by the characters of the words, and those entries address that same block. The model returns two arrays, the offsets of the words and the characters. It does not capture the aliasing inside the block.
- Packing.SavedRoundTrip: stated only for dictionaries whose stored words are all plain. `dict_add` also stores strings with bytes that are not letters, and their export does not read back as the stored words (Findings).
- DictSave.SavedLoads: the same restriction. The saved text is always a C string of its whole length, but only plain words tally back to their counts.
- The two inline comments of `tstree_add_key` at `src/tstree.c:187` and `src/tstree.c:193` are swapped relative to the branches they stand in. The model follows the code: a node without a child gets a new child, otherwise the sibling chain is searched.
- `tstree_get_keys` with a prefix that is a stored word but is extended by no other stored word returns `FALSE`. `tstree_get_node` finds no child level there. As a result, `dict_get_most_used` returns `NULL` for such a prefix. The model keeps this behaviour (`TernaryTree.TernarySearchTree.GetKeys`, `DictObject.Dictionary.GetMostUsed`).
- The parent of the level node is visited first whenever the prefix is not empty and is itself a stored word. `node->depth > 1` holds for every non-empty prefix. A description as "a prefix more than one character deep" would exclude one-letter prefixes; the model follows the code.
- HuffmanDecoder.HuffmanRead: for a file whose header gives size 0, the source returns `TRUE` without assigning `*buffer`. The model returns empty data.
- HuffmanDecoder.DecodeSymbol, HuffmanDecoder.FollowBit: the decoder's detection of a corrupt file is modelled on three paths: the missing bits, the node counter reaching `NUM_NODES + 1`, and a walk landing on an uncreated branch. Only the successful path is tied to the compressed form. The contract proves that a valid file is read back. It does not say which corrupt files are refused.
- Ties in the Huffman priority queue are broken by the heap's own order, as in the source. The contracts state only that a popped element has least frequency, not which of several equal ones it is.

## Findings

| source | as written | input that shows it | evidently intended | confidence | as-written member | corrected member |
|---|---|---|---|---|---|---|
| src/dict.c:364-380 | when every slot is taken, the shift of `dict_used_callback` starts at `j = max - 2`, computed in `unsigned int`; with `max == 1` that is `UINT_MAX`, so the `do … while` loop reads `nodes[UINT_MAX]`, far past the one-slot array, writes it to `nodes[j + 1]`, which wraps to slot 0, and keeps going down, since with `i` 0 the test `j >= i` always holds, until `j` reaches 0 and the loop breaks | `dict_get_most_used(dict, word, 1)` on a dictionary whose first visited match has count 1 and whose second has count 2 (`Slots.ShiftStartUnderflow`) | with one slot the new, more frequent word simply replaces the kept one, as with two or more slots the shift stays inside the array (`Slots.ShiftStartIntended`) | not executed | Slots.ShiftStart | Dict.CallbackData.PlaceShifted |
| src/dict.c:133-142 | `dict_add` stores any string of two bytes or more, folded, while `dict_add_words_from_string` (src/dict.c:303-329) keeps only runs of two letters or more; so the text `dict_get_words_into_string` saves does not load back into the same words when one of them holds a byte that is not a letter, a line feed among them | a dictionary holding "c3po" once saves the line "c3po", which loads back as "po" once (`DictSave.SavedNonLetterWord`, `DictText.NonLetterExport`) | saving and loading give back the dictionary; this holds when every stored word is made of letters, as every word the import stores is (`DictText.WordsPlain`) | not executed | DictSave.SavedNonLetterWord | Packing.SavedRoundTrip |
