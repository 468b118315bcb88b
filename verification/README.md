# Latasia, verified

A Dafny model of the self-contained parts of Latasia, a C framework for network
servers: its intrusive red-black tree and the map and timer heap on top of it, its
string algorithms, its string-only JSON codec, the frames in which JSON messages
travel, the pool allocator, base64, the lock that workers share for accepting
connections, and the session table and NAT classifier of its peer-to-peer module.
`dafny verify dfyconfig.toml` checks everything.

The code that is modelled works in place, and so does the model: nodes with parent
pointers, arrays, chains and circular lists in the heap, changed by loops. Each
operation is proved against a mathematical value (a tree seen along a path, a
sequence, a finite map, a grammar), and the promises of the program are proved
about those values. Every lemma is marked `{:induction false}`, so each induction is
written out in its body.

| files | what they model |
|---|---|
| `RbShape`, `RbRotate`, `RbInsert`, `RbErase`, `RbWalk`, `RbReplace` | `src/rbtree.c`: rotations, both fix-up loops, erase, walks, replacement |
| `RbMap`, `RbtTimer` | `src/rbmap.c` as a finite map, `src/rbt_timer.c` as a timer heap |
| `ByteString`, `AdvString`, `Charmap`, `Kmp` | `src/adv_string.c`: key order, in-place filters, the byte set, substring search |
| `Sjson`, `SjsonMachine` | the grammar of the JSON dialect, and the decoder as a pushdown machine |
| `SjsonTree`, `SjsonForest`, `SjsonDecode`, `SjsonEncode` | `src/simple_json.c` on the heap: objects are red-black trees, nested objects are linked before they are filled |
| `SjsonOrder`, `SjsonBuild`, `SjsonRoundTrip` | objects as maps, the functions that build them, canonical encoding, round trips |
| `Optional`, `Sequences` | a value that may be missing, and sequences the other way round |
| `Buffer`, `Framing` | `src/buffer.c` at a fixed capacity, `src/protocol_sjsonb.c` |
| `MemPool`, `Base64` | `src/mem_pool.c`, `src/base64.c` |
| `AcceptLock` | the accept lock of `src/modules/latasia.c` under every interleaving |
| `Dlist`, `Sessions`, `NatType` | `include/list.h`, and the sessions of `src/modules/mod_app_p2p_fsm.c` |

How the C is read:

- The packed `rb_parent_color` word is two fields. The slot that `iter` points to during a descent is a parent and a side. A container's own fields are the `item` of its node.
- A tree is seen as a context (a path from the root to a hole) and the subtree in the hole; a loop that moves `node` and `parent` up moves this pair. The loops of the two fix-ups are split into one method for each branch, and the branches on the right are proved by mirroring.
- Strings are byte sequences; a `lts_str_t` that is changed in place is a buffer with a start and a length. The strings that the decoder shares with its input are the bytes that it has read.
- White space is removed from the whole input of the decoder before anything else, also inside quotes, so the grammar (`Sjson.Text`) is about stripped bytes. It has strings only, no escapes, and an optional trailing comma in lists and objects. The first of two equal keys wins. Lists are built by prepending.
- Two keys that differ by a NUL can compare equal (`ByteString.CompareZero`), so what the trees of an object stand for is stated for NUL-free keys. Which texts are accepted, and that the trees are red-black trees, is stated for all inputs.
- Ghost parameters name the objects in the heap (`Items`) and what the finished ones stand for (`Den`).
- What the system decides is a parameter: the address that `posix_memalign` returns, the result of `process_events`, the time, reports and requests in decoded form.

Where the code differs from what one would expect, the model follows the code:

- The search string of a frame has three bytes, because `lts_string` leaves out the last one of the magic number. The first one or two bytes of a frame are therefore thrown away (`Framing.IncompleteFrame`).
- After a frame the cursor advances by the header and the content, whatever offset the header gives.
- `lts_buffer_drop_accessed` moves as many bytes as have been read instead of as many as are pending (`Buffer.DropKeeps`, `Buffer.DropLoses`).
- The sum of offset and length in a header is taken in 32 bits, so a header can send the decoder 4 GiB ahead (`Framing.SliceInside`, `Framing.OffsetWraps`).
- The encoder writes frames with more than 4096 bytes of text, or with quotes or white space in it, which the decoder does not give back (`Framing.Decodable`).
- A chained block of a pool has 16 bytes less room than `max_size`, so a request for more than that from a new block runs past its end (`MemPool.NewExtent`), and then the block seems to have room for everything (`MemPool.NeverFull`, `MemPool.RunOver`).
- The end of a pool's first block is aligned only if its size is (`MemPool.OddEnd`).
- `__kmp_next` writes entry 1 for every pattern, also for one of fewer than two bytes, for which the caller has allocated one entry or none (`Kmp.KmpNext`, `Kmp.Find`); the model's table has the entry.
- `lts_sjson_encode` needs a piece of memory one byte larger than the text, so with a pool of 4096 bytes it gives -1 for a text of 4048 bytes or more, whatever the buffer (`SjsonEncode.Encode`, `Framing.Encode`).
- `base64_encode_len` announces 0 for empty input, for which one byte is written (`Base64.EncodeLenIsRight`).
- A report with port 0 makes the next one from the other side fail the assertion that the stored port is not 0 (`NatType.Session.OnReport`, `NatType.Feed`, `NatType.ZeroPort`).
- The flag of a master report counts only if it opens a round (`NatType.FlagAt`, `NatType.FlagOfAnswerIgnored`).
- A connection that logs in twice and closes leaves a session that points to it (`Sessions.LoginTwice`; `Sessions.Table.Closing` says exactly when).

## Model

| member | source | states |
|---|---|---|
| `RbShape.Node.constructor` | include/rbtree.h:142-147 | a fresh node is black, childless and its own parent, the mark for "in no tree" |
| `RbShape.Root.constructor` | include/rbtree.h:141 | the empty root is a valid red-black tree |
| `RbShape.LeftRotationShape` | src/rbtree.c:28-49 | a rotation of any subtree in any context gives well-linked nodes again, with the same in-order sequence and the same nodes |
| `RbShape.RightRotationShape` | src/rbtree.c:51-72 | the same for the other rotation, by mirroring |
| `RbRotate.RotateLeft` | src/rbtree.c:28-49 | the pointer assignments rewrite exactly the links of a left rotation, the root cell included |
| `RbRotate.RotateRight` | src/rbtree.c:51-72 | the pointer assignments rewrite exactly the links of a right rotation |
| `RbInsert.FlipStep` | src/rbtree.c:84-94 | recolouring with a red uncle moves the one red-red edge two levels up and keeps black heights and order |
| `RbInsert.OuterLeftStep` | src/rbtree.c:105-107 | recolouring and rotating at the grandparent removes the red-red edge and keeps the black height |
| `RbInsert.InsertFlip` | src/rbtree.c:84-94 | one round with a red uncle keeps the loop invariant, two levels higher |
| `RbInsert.InsertLeftSide` | src/rbtree.c:96-107 | one round with a black uncle on the left side restores the loop invariant with a black parent |
| `RbInsert.InsertRightSide` | src/rbtree.c:121-132 | the mirrored round |
| `RbInsert.InsertFinish` | src/rbtree.c:136 | blackening the root completes a valid red-black tree |
| `RbInsert.InsertColor` | src/rbtree.c:74-137 | the loop terminates and leaves a red-black tree over the same nodes in the same order |
| `RbInsert.InsertAt` | include/rbtree.h:171-179 | linking a red leaf in any free slot and fixing up gives a valid tree: one node more, at exactly that position of the order |
| `RbErase.ErasePointers` | src/rbtree.c:147-158 | in every round the sibling exists and, after its red case, its tested children are nodes of the tree: no null access |
| `RbErase.EraseLeftSide` | src/rbtree.c:147-180 | one round on the left side either moves the missing black level up or removes it |
| `RbErase.EraseRightSide` | src/rbtree.c:181-214 | the mirrored round |
| `RbErase.EraseFinish` | src/rbtree.c:216-217 | the final blackening completes the repair |
| `RbErase.EraseColor` | src/rbtree.c:139-218 | the loop terminates and repairs a tree that lacks one black level at one place, keeping nodes and order |
| `RbErase.FindSuccessor` | src/rbtree.c:233-235 | the descent ends at the leftmost node of the right subtree |
| `RbErase.SpliceOut` | src/rbtree.c:267-280 | a node with at most one child is unlinked: parent, child and root cell are redirected and nothing else |
| `RbErase.MoveSuccessor` | src/rbtree.c:237-262 | the successor takes over place, colour and links of the erased node, in both cases of its parent |
| `RbErase.EraseOneChild` | src/rbtree.c:267-280 | the shape that is left: the same tree without the node, with a level missing exactly if a black node went |
| `RbErase.EraseTwoChildren` | src/rbtree.c:229-264 | the same after the successor has moved |
| `RbErase.Erase` | src/rbtree.c:220-285 | rb_erase on any valid tree removes exactly the given node from the in-order sequence and leaves a valid red-black tree |
| `RbWalk.First` | src/rbtree.c:290-300 | the first node in order, null for the empty tree |
| `RbWalk.Last` | src/rbtree.c:302-312 | the last node in order |
| `RbWalk.Next` | src/rbtree.c:314-340 | the in-order successor, null at the end or for a node in no tree |
| `RbWalk.Prev` | src/rbtree.c:342-364 | the in-order predecessor |
| `RbWalk.InOrderDistinct` | src/rbtree.c:290-340 | the walk meets every node once |
| `RbWalk.HeightBound` | src/rbtree.c:74-285 | a red-black tree of n nodes has height at most 2 log2(n + 1) |
| `RbWalk.Paths` | src/rbtree.c:74-285 | a red-black tree path by path: its root is not red, no red node hangs below a red one, and all paths to a free place have the same number of black nodes |
| `RbWalk.PathLength` | src/rbtree.c:74-285 | no path is longer than the height |
| `RbWalk.MemberParent` | include/rbtree.h:146 | no node of a tree is its own parent |
| `RbReplace.ReplaceNode` | src/rbtree.c:366-388 | the new node stands exactly where the victim stood; the tree stays valid |
| `RbMap.Map.constructor` | include/rbmap.h:37 | the empty map |
| `RbMap.Map.Search` | src/rbmap.c:4-22 | the member with the key, or null exactly if there is none |
| `RbMap.Map.Link` | src/rbmap.c:25-49 | -1 exactly if the key is present; else the node goes to its place in the increasing key order |
| `RbMap.Map.Add` | src/rbmap.c:52-65 | succeeds exactly for a node in no map with an absent key; nothing changes otherwise |
| `RbMap.Map.Del` | src/rbmap.c:68-81 | removes the holder of the key, which becomes its own parent; null exactly if the key is absent |
| `RbMap.Map.SafeDel` | src/rbmap.c:84-103 | removes this node only: never another node with the same key; null exactly in that case |
| `RbMap.Map.Get` | src/rbmap.c:106-109 | the holder of the key, or null if it is absent |
| `RbMap.Map.Min` | src/rbmap.c:112-121 | the member with the least key |
| `RbMap.Map.SelfParented` | include/rbmap.h:27-31 | a node that is its own parent is in no map |
| `RbMap.Map.MembersAreContents` | include/rbmap.h:33-36 | the counter is the number of keys of the finite map, and each key has one holder |
| `RbMap.ModelAt` | src/rbmap.c:4-22 | the finite map that a walk stands for has exactly its keys and holders |
| `RbMap.Map.Do` | src/rbmap.c:52-121 | every operation answers as the finite map does and changes it the same way; self-parented nodes stay exactly the non-members |
| `RbMap.Map.Run` | src/rbmap.c:52-121 | the same for every sequence of add, del, safe_del, get and min, and no path in the tree is longer than 2 log2(nsize + 1) |
| `RbtTimer.Add` | src/rbt_timer.c:14-17 | arms an unarmed timer at a free deadline |
| `RbtTimer.Reset` | src/rbt_timer.c:20-29 | moves the node to the deadline if no other node holds it, else leaves it unarmed; other nodes keep theirs |
| `RbtTimer.Del` | src/rbt_timer.c:32-35 | disarms this timer, and only this one |
| `RbtTimer.Min` | src/rbt_timer.c:38-47 | the earliest timer |
| `RbtTimer.TriedExactly` | src/modules/mod_event_core.c:167-171 | the deadlines that are tried count up by 1, and 0 comes after 2^64 - 1 |
| `RbtTimer.FirstFreeIsLeast` | src/modules/mod_event_core.c:166-172 | unless the counter wraps, the deadline found is the least one from the start on that no other node holds |
| `RbtTimer.ResetFrom` | src/modules/mod_event_core.c:166-172 | the retry loop terminates at the first free deadline from the start on; all other nodes are unchanged |
| `RbtTimer.Drain` | src/modules/latasia.c:443-452 | the timers that are due fire once each, in deadline order, and only those |
| `ByteString.StrCompare` | src/adv_string.c:212-236 | the difference of the first two bytes that differ; of a string and a longer one that starts with it, the next byte of the longer one, or its negative; 0 for equal strings |
| `ByteString.FirstDifference` | src/adv_string.c:216-221 | bytes are ordered as numbers, and the first two that differ decide |
| `ByteString.ProperPrefix` | src/adv_string.c:228-233 | a longer string that starts with a string is greater, by its next byte |
| `ByteString.CompareAntisymmetric` | src/adv_string.c:212-236 | swapping the arguments negates the result |
| `ByteString.CompareZero` | src/adv_string.c:224-233 | two strings compare equal exactly if they are equal, or one is the other followed by a NUL and anything |
| `ByteString.NulBreaksTheOrder` | src/adv_string.c:229-233 | with NULs, comparing equal is not transitive |
| `ByteString.CompareEqual` | src/adv_string.c:212-236 | NUL-free strings compare equal exactly if they are equal |
| `ByteString.CompareTransitive` | src/adv_string.c:212-236 | the order is transitive on NUL-free strings |
| `AdvString.ReverseRegion` | src/adv_string.c:13-24 | the bytes of the region the other way round, all others as they were |
| `AdvString.FilterStep` | src/adv_string.c:341-351 | exchanging a dropped run with the kept run after it keeps the invariant of the filter |
| `AdvString.FilterMulti` | src/adv_string.c:299-355 | the order-preserving subsequence of the bytes not in the set, the number removed, the terminator, and nothing outside the string |
| `AdvString.Filter` | src/adv_string.c:244-296 | the same for one byte |
| `Charmap.Clean` | include/adv_string.h:37-41 | the empty set of bytes |
| `Charmap.Set` | include/adv_string.h:43-47 | adds exactly one byte to the set |
| `Charmap.IsSet` | include/adv_string.h:49-53 | membership |
| `Charmap.SetBits` | include/adv_string.h:43-53 | byte c is in the set exactly if bit c % 8 of byte c / 8 is 1 |
| `Charmap.CountBitsIsOnes` | include/adv_string.h:24-35 | the five masked additions count the set bits of a word |
| `Charmap.Count` | include/adv_string.h:55-65 | the size of the set |
| `Kmp.BorderOfBorder` | src/adv_string.c:36-46 | a shorter border of a prefix is a border of the longer one |
| `Kmp.NextCandidate` | src/adv_string.c:40-45 | after a mismatch the next candidate border is the failure entry |
| `Kmp.KmpNext` | src/adv_string.c:26-48 | entry j is the length of the longest proper border of the first j bytes, -1 for j = 0; and the last entry written, which is past a table of one entry for each byte exactly for patterns of fewer than two bytes |
| `Kmp.MatchGivesBorder` | src/adv_string.c:190-197 | a match that overlaps the matched bytes starts at a border |
| `Kmp.Find` | src/adv_string.c:171-209 | the least match position from the offset on, relative to it, or -1 exactly if there is none; at most 2n rounds; and the code writes past the table it has allocated exactly for patterns of fewer than two bytes |
| `SjsonMachine.RunItems` | src/simple_json.c:511-616 | the elements of a list are read in one pass and end up reversed in front of those already there |
| `SjsonMachine.RunValue` | src/simple_json.c:443-584 | from any state with any stack, reading the text of a value adds what it denotes to the open object |
| `SjsonMachine.RunMembers` | src/simple_json.c:383-645 | reading the members and the closing brace closes the object with the members that they denote |
| `SjsonMachine.ParseItems` | src/simple_json.c:511-616 | what is accepted inside brackets is a list of the grammar |
| `SjsonMachine.ParseMembers` | src/simple_json.c:383-645 | what is accepted after an opening brace is a member list of the grammar, with the optional trailing comma |
| `SjsonMachine.Accepted` | src/simple_json.c:370-647 | every text of the grammar is accepted, with the members it denotes |
| `SjsonMachine.Derivation` | src/simple_json.c:370-647 | every accepted text has a derivation |
| `SjsonMachine.AcceptsExactlyTheGrammar` | src/simple_json.c:353-648 | the machine with its explicit stack accepts exactly the grammar, with nothing after the closing brace |
| `SjsonMachine.TrailingComma` | src/simple_json.c:383-441 | the optional comma of an object is one byte (44) more before the closing brace |
| `SjsonMachine.TrailingItemComma` | src/simple_json.c:511-616 | and that of a list one before the closing bracket |
| `SjsonTree.JsonObj.constructor` | include/simple_json.h:41-45 | the empty object |
| `SjsonTree.BracketStep` | src/simple_json.c:41-54 | each comparison narrows the part of the walk in which the key can be |
| `SjsonTree.Search` | src/simple_json.c:32-62 | the member that compares equal, or the node itself; linked, it is in the tree at the slot of its key, and the tree stays a red-black tree |
| `SjsonTree.PopMin` | src/simple_json.c:211-226 | takes the first member off the walk |
| `SjsonForest.PlacedMembers` | src/simple_json.c:56-59 | a node linked at the slot of its key adds its member to the ordered members |
| `SjsonForest.PresentMembers` | src/simple_json.c:51-53 | a key that is present keeps its value |
| `SjsonForest.SearchedMembers` | src/simple_json.c:32-62 | in a well-ordered object the search inserts, and the object stays well ordered |
| `SjsonForest.AddStep` | src/simple_json.c:567-578 | adding a string or a list keeps heap and machine in agreement |
| `SjsonForest.OpenStep` | src/simple_json.c:479-503 | a nested object that is linked before it is filled, or left detached on a duplicate key, keeps them in agreement |
| `SjsonForest.CloseStep` | src/simple_json.c:390-397 | closing an object gives its parent the finished value, or none if it was detached |
| `SjsonDecode.Link` | src/simple_json.c:540-543 | linking into one object leaves every other object alone |
| `SjsonDecode.WhiteSpace` | src/simple_json.c:355 | white space is the bytes 9, 10, 13 and 32, and nothing else |
| `SjsonDecode.StrippedByte` | src/simple_json.c:367-368 | wherever it stands in the input, such a byte is dropped, and every other byte stays |
| `SjsonDecode.Attach` | src/simple_json.c:567-578 | a finished string or list goes to the innermost open object |
| `SjsonDecode.Open` | src/simple_json.c:474-503 | a nested object is linked, pushed, and becomes the innermost |
| `SjsonDecode.Pop` | src/simple_json.c:390-397 | a closing brace leaves the innermost object, or ends the text |
| `SjsonDecode.ReadKey` | src/simple_json.c:372-441 | the states outside values take the step of the machine, and no abort is reached |
| `SjsonDecode.ReadValue` | src/simple_json.c:443-509 | the start of a value takes the step of the machine |
| `SjsonDecode.ReadList` | src/simple_json.c:511-616 | the states between list elements take the step of the machine, and no abort is reached |
| `SjsonDecode.ReadString` | src/simple_json.c:552-584 | the state inside a string takes the step of the machine, through non-null nodes only |
| `SjsonDecode.ReadByte` | src/simple_json.c:370-645 | every round of the loop is a step of the machine on the heap |
| `SjsonDecode.Decode` | src/simple_json.c:353-648 | 0 exactly if the stripped input is in the grammar; with NUL-free keys the red-black trees built in the heap stand for the members it denotes |
| `SjsonEncode.ListSize` | src/simple_json.c:180-193 | the predicted length of a list |
| `SjsonEncode.EncodeSize` | src/simple_json.c:147-208 | the predicted length is the length of the text, at every depth |
| `SjsonEncode.PutList` | src/simple_json.c:274-294 | writes the text of a list at the offset and nothing else |
| `SjsonEncode.PutMember` | src/simple_json.c:238-315 | writes one member and the comma after it, and moves to the next node of the walk |
| `SjsonEncode.EncodeInto` | src/simple_json.c:229-321 | writes exactly the text of the object at the offset, leaves all other bytes, and returns the new offset |
| `SjsonEncode.Encode` | src/simple_json.c:324-350 | -1 exactly if the pool gives no piece with room for the text and one more byte; else a buffer of that size that starts with the text, and the written length is the predicted one |
| `SjsonEncode.MembersLayout` | src/simple_json.c:229-321 | the bytes of an object: quotes 34, colon 58, comma 44 between two members and nowhere else, braces 123 and 125 |
| `SjsonEncode.ValueLayout` | src/simple_json.c:246-305 | the bytes of a string, a list (brackets 91 and 93) and a nested object |
| `SjsonEncode.ItemsLayout` | src/simple_json.c:274-294 | the bytes of the elements of a list |
| `SjsonEncode.NoLastComma` | src/simple_json.c:229-321 | no comma stands before a closing bracket or brace |
| `SjsonEncode.Example` | src/simple_json.c:229-321 | the 22 bytes of one object |
| `SjsonOrder.SameMap` | src/simple_json.c:237-315 | well-ordered members are determined by which value each key has |
| `SjsonOrder.SameObjectEqual` | src/simple_json.c:237-315 | the same for nested objects |
| `SjsonOrder.InsertLookup` | src/simple_json.c:32-62 | insertion adds a key with its value and keeps the value of every key that was there |
| `SjsonOrder.InsertSorted` | src/simple_json.c:32-62 | insertion keeps the order |
| `SjsonOrder.OrderOfInsertion` | src/simple_json.c:66-131 | adding the same members in another order gives the same walk |
| `SjsonBuild.AddKv` | src/simple_json.c:107-131 | a string member is added to the ordered members of the object, and null is returned exactly if its key was there |
| `SjsonBuild.AddSjson` | src/simple_json.c:74-94 | a nested object is linked while it is empty: whatever members it gets later stand under the key, if that was new |
| `SjsonBuild.BuildKvs` | src/simple_json.c:107-131 | a run of additions to a new object builds the members added one after the other |
| `SjsonBuild.BuildTwice` | src/simple_json.c:107-350 | two objects built in the heap from the same members in different orders are printed to the same bytes, the text of these members |
| `SjsonRoundTrip.ParseMeaning` | src/simple_json.c:353-648 | decoding yields a value exactly for texts of the grammar, and the heap stands for it |
| `SjsonRoundTrip.ParseWhiteSpace` | src/simple_json.c:355-368 | a tab, a line feed, a carriage return or a space makes no difference anywhere in the input |
| `SjsonRoundTrip.Example` | src/tests/test_sjson.c:88-105 | the value of one text with a space, a list and two trailing commas |
| `SjsonRoundTrip.TrailingCommaAccepted` | src/simple_json.c:383-441 | a comma before the closing brace makes no difference |
| `SjsonRoundTrip.RoundTrip` | src/simple_json.c:229-648 | decoding an encoding gives the object with every list reversed |
| `SjsonRoundTrip.ParsedPlain` | src/simple_json.c:353-648 | whatever is decoded holds no quote and no white space, at any depth |
| `SjsonRoundTrip.RoundTripExactly` | src/simple_json.c:229-648 | exactly which objects come back with every list reversed: those without quotes and white space |
| `SjsonRoundTrip.TwoRoundTrips` | src/simple_json.c:229-648 | two round trips are the identity |
| `SjsonRoundTrip.IdentityRoundTrip` | src/simple_json.c:229-648 | one round trip is the identity exactly if every list, at every depth, equals its reverse |
| `SjsonRoundTrip.EncodingIsCanonical` | src/simple_json.c:229-321 | equal content gives equal bytes, and equal bytes come from equal content |
| `SjsonRoundTrip.DecodedRoundTrip` | src/simple_json.c:353-648 | every object decoded with NUL-free keys meets the conditions of the round trip |
| `SjsonRoundTrip.EncodeThenDecode` | src/simple_json.c:324-648 | through the heap: the bytes written by the printer are accepted, and the new trees stand for the turned object |
| `SjsonRoundTrip.HeapSorted` | src/simple_json.c:32-62 | objects whose walks are well ordered in the heap, at every depth, stand for the well-ordered members that the round trips are about |
| `SjsonRoundTrip.DenotedFinished` | src/simple_json.c:353-648 | a decoded object and those below it are ready to be printed |
| `SjsonRoundTrip.DecodeThenEncode` | src/tests/test_sjson.c:67-85 | through the heap: what has been decoded from a text with NUL-free keys is printed to the canonical text of its value |
| `Buffer.Buffer.constructor` | src/buffer.c:12-34 | an empty buffer of the given size |
| `Buffer.Buffer.Space` | include/buffer.h:41-44 | what has been read, what is pending and what is free make up the buffer |
| `Buffer.Buffer.Clear` | include/buffer.h:51-55 | nothing is pending |
| `Buffer.Buffer.Append` | src/buffer.c:73-76 | the bytes follow the pending ones |
| `Buffer.Buffer.DropAccessed` | src/buffer.c:80-91 | exactly which bytes are pending after a drop that moves as many bytes as have been read |
| `Buffer.DropKeeps` | src/buffer.c:80-91 | a drop keeps the pending bytes exactly if there are no more of them than have been read, or the overlap repeats; in particular when nothing has been read |
| `Buffer.DropLoses` | src/buffer.c:84 | one byte read and two pending: a pending byte is lost |
| `Framing.NtohlHtonl` | src/protocol_sjsonb.c:38-42 | the byte orders invert each other |
| `Framing.HeaderRoundTrip` | src/protocol_sjsonb.c:37-42 | a header that is written is read back, with anything after it |
| `Framing.WireFormat` | src/protocol_sjsonb.c:36-42 | every byte of a frame: magic number, version 1000, offset 20, the length in base 256, checksum 0, and the content |
| `Framing.HeaderFields` | src/protocol_sjsonb.c:98-105 | the five fields of a header that is read, most significant byte first |
| `Framing.FirstMagic` | src/protocol_sjsonb.c:75 | the least position of the three search bytes, or -1 |
| `Framing.FindMagic` | src/protocol_sjsonb.c:80-84 | the search in the pending bytes finds that position |
| `Framing.Seek` | src/protocol_sjsonb.c:77-117 | the resynchronising loop terminates at the first acceptable header, an incomplete one, or an empty buffer |
| `Framing.HeaderAccepted` | src/protocol_sjsonb.c:93-124 | which headers are passed over, by 4 bytes: another version than 1000, an offset below 20, a length below 2 or above 4096; when more bytes are waited for; and which frame is found |
| `Framing.SliceInside` | src/protocol_sjsonb.c:122-132 | once the check of the length has passed, the slice that is decoded lies in the buffer exactly if the sum of offset and length has not wrapped |
| `Framing.OffsetWraps` | src/protocol_sjsonb.c:122-132 | a header that passes every check while its content would be 4 GiB further on |
| `Framing.DecodeContent` | src/protocol_sjsonb.c:127-133 | the content is decoded in place: the stripped bytes, a terminator if any were removed, white space for the rest, and no byte outside it changes |
| `Framing.Decode` | src/protocol_sjsonb.c:61-141 | one call: an object exactly if the content found is in the grammar, the value it stands for, and the bytes still pending, also when white space was removed from them; and exactly when the code leaves the buffer |
| `Framing.CursorMoves` | src/protocol_sjsonb.c:135-140 | a rejected frame is passed over by 4 bytes, an accepted one by 20 and its length |
| `Framing.MakeRoom` | src/protocol_sjsonb.c:46-52 | room for n bytes exactly if pending and new bytes fit the capacity together |
| `Framing.Encode` | src/protocol_sjsonb.c:21-58 | -1 with the buffer untouched if the pool has no piece for the text; else 0 exactly if the frame fits; then the pending bytes (after a drop, if one was needed) are followed by the frame; and where they start |
| `Framing.LocateFrame` | src/protocol_sjsonb.c:77-124 | a frame at the first magic bytes is found with its offset and length |
| `Framing.GarbageBefore` | src/protocol_sjsonb.c:84-90 | garbage without the search bytes never forms them together with the start of a frame |
| `Framing.FirstFrame` | src/protocol_sjsonb.c:77-140 | after any garbage the first frame is decoded to its turned object and exactly the bytes behind it stay pending |
| `Framing.Decodable` | src/protocol_sjsonb.c:21-141 | exactly which objects the decoder gives back from the frame the encoder writes: at most 4096 bytes of text, no quotes, no white space |
| `Framing.Stream` | src/protocol_sjsonb.c:61-141 | n frames after garbage: n calls yield the n objects in order, and nothing stays pending |
| `Framing.DecodeAll` | src/protocol_sjsonb.c:61-141 | a run of n calls on one buffer: the n results as trees that the heap holds at the end, and the bytes that the n calls leave |
| `Framing.EncodeAll` | src/protocol_sjsonb.c:21-58 | a run of calls of the encoder puts the frames one after the other behind the pending bytes |
| `Framing.Transmit` | src/protocol_sjsonb.c:21-141 | n objects encoded into an empty buffer come back from n calls of the decoder as trees in the heap, in order and turned; nothing stays pending, and the objects sent are still there |
| `Framing.OnlyGarbage` | src/protocol_sjsonb.c:85-89 | bytes without the search bytes are thrown away |
| `Framing.IncompleteFrame` | src/protocol_sjsonb.c:85-96 | the first k bytes of a frame stay pending as a whole exactly if k >= 3 (or k = 0) |
| `MemPool.Align` | include/common.h:41-43 | the least multiple of the word size from n on |
| `MemPool.Pool.constructor` | src/mem_pool.c:91-120 | a pool of one block with nothing handed out, for every size; valid exactly if the size is raised to the least one or a multiple of the word size |
| `MemPool.OddEnd` | src/mem_pool.c:110-144 | aligning what has been handed out stays within the end of the first block exactly for such sizes |
| `MemPool.TakeStep` | src/mem_pool.c:138-142 | serving from a block with room keeps all regions inside their blocks and apart, in spite of the alignment of the first block |
| `MemPool.Take` | src/mem_pool.c:138-144 | the region starts at the old end of the block, whose end moves, and the end of the first block is aligned |
| `MemPool.ServedExactly` | src/mem_pool.c:139-142 | the end of the serving block moves by exactly the size, that of the first block then to the next multiple of 8, and no other block changes |
| `MemPool.AddedExactly` | src/mem_pool.c:53-72 | where a new block ends and how much of it is taken by the header and the request |
| `MemPool.RoomExactly` | src/mem_pool.c:133 | the room that is compared is the difference of two addresses as a number of 64 bits without sign |
| `MemPool.NewExtent` | src/mem_pool.c:53-72 | a new block stays within its end exactly if the request is at most max_size - 16 |
| `MemPool.Hang` | src/mem_pool.c:74-85 | hanging a block in raises the failure counts to those of the longer chain and moves the start |
| `MemPool.PallocBlock` | src/mem_pool.c:44-88 | on any pool: the region in the new block and the longer chain; a valid pool stays valid exactly if the request is at most max_size - 16 |
| `MemPool.Search` | src/mem_pool.c:131-136 | the first block with room, as an unsigned number, from the start on, after inspecting at most six |
| `MemPool.Palloc` | src/mem_pool.c:123-149 | on any pool: which block serves a request, null exactly when it must be, and how far each block has been handed out then; a valid pool stays valid, its regions inside and apart, exactly if the request does not overrun a new block |
| `MemPool.AnswerExactly` | src/mem_pool.c:123-149 | the answer by the first of the last six blocks that has room, or 48 bytes into a new one; null for more than max_size, or without a new block |
| `MemPool.TwoRequests` | src/mem_pool.c:91-149 | a new pool of 4096 bytes at p gives p + 48 for 5 bytes and then p + 56 for 8 |
| `MemPool.Steady` | src/mem_pool.c:44-149 | one request on well-placed blocks: either it overruns a new block, or all regions stay inside their blocks and pairwise apart |
| `MemPool.OverrunStays` | src/mem_pool.c:123-149 | an overrun block stays overrun |
| `MemPool.Run` | src/mem_pool.c:123-149 | the same over every sequence of requests: a valid pool stays valid exactly if no request overruns a new block |
| `MemPool.FirstBlockAligned` | src/mem_pool.c:138-144 | every region of the first block starts at a multiple of 8, over every sequence of requests |
| `MemPool.NeverFull` | src/mem_pool.c:133 | once the last block has been overrun no request of a run fails and no block is added, as long as the requests do not use up the addresses |
| `MemPool.RunOver` | src/mem_pool.c:44-149 | the same in the heap, after a request of more than max_size - 16 from a new block |
| `MemPool.Reachable` | src/mem_pool.c:74-85 | however long the chain, at most six blocks are reachable, counts never increase along it, and the skipped blocks are those with count 5 |
| `Base64.TablesInvert` | src/base64.c:90-178 | the decoding table inverts the alphabet |
| `Base64.Alphabet` | src/base64.c:177-178 | the 64 characters of the alphabet, the padding and the terminator, as characters (section 4 of RFC 4648) |
| `Base64.GroupInverts` | src/base64.c:145-200 | the shifts of the decoder invert those of the encoder |
| `Base64.GroupBits` | src/base64.c:193-200 | the four characters are the 24 bits of the group, six at a time (section 4 of RFC 4648) |
| `Base64.EncodeLenIsRight` | src/base64.c:181-184 | the announced length is the written one exactly for non-empty input |
| `Base64.Encode` | src/base64.c:187-218 | writes the encoding and the terminator, returns their length, and touches nothing behind |
| `Base64.TestVectors` | src/base64.c:187-218 | three of the test vectors in section 10 of RFC 4648 |
| `Base64.DecodeLen` | src/base64.c:112-126 | the decoded bytes, the terminator, and one more for each character missing in the last group |
| `Base64.Decode` | src/base64.c:129-174 | writes the bytes of the leading alphabet characters and a terminator, and returns their number |
| `Base64.RoundTrip` | src/base64.c:129-218 | decoding an encoding returns the same bytes, for every byte string |
| `AcceptLock.StepEffect` | src/modules/latasia.c:289-322 | one read or compare-and-swap: the word changes exactly when holding changes |
| `AcceptLock.StepKeeps` | src/modules/latasia.c:467-527 | every step of every worker keeps the invariant |
| `AcceptLock.RunKeeps` | src/modules/latasia.c:467-527 | so does every interleaving |
| `AcceptLock.MutualExclusion` | src/modules/latasia.c:289-322 | with any number of workers: at most one holder, the top bit set exactly if there is one, the low bits 0, and none held by a worker that has left |
| `AcceptLock.WordOf` | src/modules/latasia.c:289-322 | in every run the word is 0x80000000 while somebody holds the lock, and 0 otherwise |
| `AcceptLock.LockedBits` | src/modules/latasia.c:296-299 | taking the lock sets the top bit of any word and no other |
| `AcceptLock.UnlockedBits` | src/modules/latasia.c:312-318 | giving it back clears the top bit, and the low bits count down unless they are 0 |
| `AcceptLock.Decision` | src/modules/latasia.c:468-502 | when a worker leaves, when it tries to get the lock, and when it polls at once |
| `AcceptLock.Leaves` | src/modules/latasia.c:467-511 | a worker leaves in no other step than when it has to quit, or its poll has returned something else than 0 |
| `AcceptLock.RestOfRound` | src/modules/latasia.c:502-511 | from the poll on, uninterrupted: the lock is given back if it was held, and the worker leaves or starts again, by the result of the poll |
| `AcceptLock.UnlockSucceeds` | src/modules/latasia.c:306-322 | the loop of the unlock succeeds at its first attempt |
| `AcceptLock.FreeLockIsTaken` | src/modules/latasia.c:289-303 | an uninterrupted attempt gets the lock exactly if nobody holds it |
| `NatType.Session.constructor` | src/modules/mod_app_p2p_fsm.c:63-81 | a new session is idle and its type unknown |
| `NatType.Session.OnReport` | src/modules/mod_app_p2p_fsm.c:242-299 | after any sequence of reports the fields are what the history says; an answer gives the symmetric type for two different ports and else the one of the flag, nothing else changes the type; the assertion holds exactly unless the report answers one with port 0 |
| `NatType.CompletesAfter` | src/modules/mod_app_p2p_fsm.c:255-294 | a report completes a round exactly if the one before it came from the other side and completed none |
| `NatType.CompletesByAlternation` | src/modules/mod_app_p2p_fsm.c:255-294 | which reports complete rounds, from the sides alone: every second one of a run of alternating sides |
| `NatType.Feed` | src/modules/mod_app_p2p_fsm.c:242-299 | over every sequence of reports: the assertions hold exactly if no completing report follows one with port 0 |
| `NatType.ZeroPort` | src/modules/mod_app_p2p_fsm.c:262 | after any history, a round opened by a report with port 0 and answered at once ends in a failed assertion |
| `NatType.ZeroPortReplaced` | src/modules/mod_app_p2p_fsm.c:255-262 | but not if a second report of that side has replaced the port |
| `NatType.VerdictAt` | src/modules/mod_app_p2p_fsm.c:262-292 | the type comes from the ports of the two reports at the end of the last completed round, and the flag before it |
| `NatType.VerdictOf` | src/modules/mod_app_p2p_fsm.c:262-292 | symmetric exactly for two different ports at the end of the last completed round, and for equal ones by the flag |
| `NatType.NeverFullCone` | src/modules/mod_app_p2p_fsm.c:242-299 | no history is classified as a full cone |
| `NatType.FlagAt` | src/modules/mod_app_p2p_fsm.c:242-251 | the flag is that of the last master report that opened a round, false if there is none |
| `NatType.FlagOfAnswerIgnored` | src/modules/mod_app_p2p_fsm.c:262-270 | in a round that the vice opened the flag of the master does not count |
| `NatType.KnownStaysKnown` | src/modules/mod_app_p2p_fsm.c:263-269 | a known type never becomes unknown |
| `NatType.KnownAfterRound` | src/modules/mod_app_p2p_fsm.c:263-269 | the type is known exactly if some round has completed |
| `NatType.OneSide` | src/modules/mod_app_p2p_fsm.c:255-260 | the reports of an open round all come from one side |
| `Dlist.DNode.constructor` | include/list.h:106-111 | a list of one head |
| `Dlist.AddTail` | include/list.h:113-128 | the circle with the node at its end |
| `Dlist.Del` | include/list.h:181-188 | the circle without the node |
| `Dlist.Empty` | include/list.h:130-135 | whether there is no node but the head |
| `Sessions.Table.constructor` | src/modules/mod_app_p2p_fsm.c:416-418 | all slots free, no session |
| `Sessions.NewTable` | src/modules/mod_app_p2p_fsm.c:416-430 | the loop that puts every slot on the free list, in order |
| `Sessions.MoveSlot` | src/modules/mod_app_p2p_fsm.c:101-115 | moving a list node keeps every slot on exactly one list and the total |
| `Sessions.Table.TakeSlot` | src/modules/mod_app_p2p_fsm.c:97-103 | the first free slot becomes the last used one; the others keep their order |
| `Sessions.Table.PutSlot` | src/modules/mod_app_p2p_fsm.c:114-115 | a used slot becomes free, no other moves |
| `Sessions.Table.Register` | src/modules/mod_app_p2p_fsm.c:556-563 | a new key gets a slot and is in the map, or nothing changes when no slot is free |
| `Sessions.Table.Login` | src/modules/mod_app_p2p_fsm.c:526-565 | the reply, the connection that is kicked, the new owner of the session and the session the connection points to; sessions and connections stay paired exactly if the connection has no other live login |
| `Sessions.Table.Logout` | src/modules/mod_app_p2p_fsm.c:759-783 | only the connection of the session can end it; its slot becomes free and its key leaves the map |
| `Sessions.Table.Closing` | src/modules/mod_app_p2p_fsm.c:455-466 | only the session that points to this connection is unbound; no used session is left pointing to it exactly if each that did is the one it last logged in to |
| `Sessions.Serve` | src/modules/mod_app_p2p_fsm.c:455-783 | while sessions and connections are paired every event is answered, and changes the table, as a finite map from keys to connections with a number of free slots; they stay paired exactly if a login that succeeds comes over a connection with no other session |
| `Sessions.ServeAll` | src/modules/mod_app_p2p_fsm.c:455-783 | every run of events keeps the table in order; one in which every step is like that is answered as by the finite map, and keeps sessions and connections paired |
| `Sessions.ProperPolite` | src/modules/mod_app_p2p_fsm.c:526-565 | a run is like that if each connection logs in with one key only |
| `Sessions.ChangeOfKey` | src/modules/mod_app_p2p_fsm.c:526-783 | or with another key after it has logged out |
| `Sessions.LoginTwice` | src/modules/mod_app_p2p_fsm.c:455-565 | a connection that logs in with two new keys and closes leaves a used session that points to it |

## Left out

- SjsonDecode.Decode: memory never runs out, so the branches for a failed allocation are not modelled; the elements of a list and the stack of open objects are sequences, not chains of nodes; for keys that hold a NUL only acceptance and the validity of the trees are stated, not the content.
- SjsonTree.Search: with keys that hold a NUL, the position of a new node is where the descent ends, and nothing is said about the order.
- SjsonEncode.Encode: the elements of a list are a sequence, not a chain of nodes.
- Framing.Decode: what is read outside the buffer when the sum of offset and length wraps is not modelled, nor a failed allocation; of the white space removed from a content, the order in which it stays behind is not stated.
- Framing.Encode: content of 4 GiB or more is not excluded by the code, and its length field is then reduced to 32 bits as in the code.
- Buffer.Buffer.Append: the growing of a full buffer (`src/buffer.c:39-71`) is not modelled: it leaves `seek` in the memory that the buffer has left. The encoder makes sure that there is room.
- MemPool.Palloc: arithmetic on addresses does not wrap; `lts_destroy_pool` is not modelled.
- Kmp.Find: positions are not reduced to `int`.
- RbtTimer.Drain: callbacks are not run; the one callback of the program (`src/modules/mod_event_core.c:567-573`) closes a connection, which takes its timer out again and arms none.
- RbtTimer.ResetFrom: the counter of the loop wraps at the width of `uintptr_t`, also where the source keeps it in an `int64_t`.
- AcceptLock.MutualExclusion: a worker that dies while it holds the lock is not modelled; compare-and-swap is atomic and memory is sequentially consistent.
- NatType.Session.OnReport: an assertion that fails ends the process; the model says that it fails and goes on.
- Sessions.Table.Login: a session is named by the hash of its name, so names with equal hashes are one session; the map is a value here, its trees being the subject of `RbMap`; replies and timers of connections appear only as the connection whose closing is scheduled.
- Lookup of an absent key in an object returns the probe node in the source (`src/simple_json.c:136-144`); `lts_sjson_get_obj_node` is not modelled separately from the search.
- SjsonBuild.AddKv: strings are values, so the copies that the builders make are not modelled, nor a failed allocation.
- `lts_str_split`, `lts_str_trim`, `lts_str_hollow`, number formatting and the string wrappers around base64.
- Merging and iterating of the circular lists, single-list removal, `src/hashtable.c`, spin locks.
- Sockets, event polling, signals, processes, shared memory, threads, redis, logging, configuration files, and the HTTP and demonstration modules.
