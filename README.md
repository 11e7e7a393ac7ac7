# librope in Dafny: a UTF-8 rope over a skip list

librope keeps a UTF-8 string in a rope. The rope is a skip list of nodes,
and each node holds up to `ROPE_NODE_STR_SIZE` (136) bytes of text. Every
node has a height. At each of its levels it has a link to the next node
that is at least that tall, and the number of characters the link skips.
The head node lives inside the `rope` structure. The rope also keeps its
total character and byte counts. Positions count Unicode codepoints, not
bytes. `rope_insert` refuses a string that is not well-formed UTF-8.
`rope_del` removes a range of codepoints, and a range that reaches past the
end is cut to the end.

The model is built in layers:

- `Utf8`: well-formed UTF-8 as RFC 3629 defines it. This means no overlong
  forms, no surrogates and nothing above U+10FFFF. The module has the
  codepoint count, the byte offset of a codepoint, and decoding and encoding
  with their round trips. It also has the scanners that insertion runs over
  a C string.
- `Text`: what insertion and deletion do to the text, on its bytes, and the
  same change on the codepoints those bytes decode to.
- `RopeNodes`: `rope_skip_node`, `rope_node` and the configuration
  constants. Nodes live in an arena, a map from node ids to node values. A
  pointer becomes an id, and the null pointer becomes `None`.
- `SkipIndex`, `SkipLinks`: which link each level of each node must hold.
  This is computed from the nodes' heights and character counts in list
  order.
- `Chunks`, `RopeState`: the invariant of a rope arena. It relates the
  layout of each node, its links and skip sizes, and the totals to the
  level-0 order of the nodes. The text is the in-use bytes of the nodes,
  one node after the other.
- `Ropes`: the arena operations and the class `Rope`, which holds the
  public interface of rope.h.

The arena operations are imperative, like the C code they stand for:

- the descent that finds a position;
- resizing a node and patching the skip sizes on the update path;
- splitting a node;
- linking new nodes in and unlinking emptied ones;
- the level-0 walks of `ROPE_FOREACH`, `rope_copy` and `rope_write_cstr`.

Each of these is proved against the text it leaves behind.

The random node heights that `ROPE_BIAS` would draw are a parameter. It is
a sequence of heights that insertion uses in order and wraps around.

## Model

| member | source | states |
|---|---|---|
| `Utf8.LeadWidth` | rope.h:118-120 | the width a lead byte announces is at most 4, and it is 0 exactly for the bytes that start no character (80-C1 and F5-FF) |
| `Utf8.Step` | rope.h:118-120 | the scan moves at least one byte and stays inside the string; on a well-formed character it moves by that character's width |
| `Utf8.EncodeCharDecodes` | rope.h:118-120 | every scalar value encodes to one well-formed character, which decodes back to that value |
| `Utf8.CharAtEncodes` | rope.h:118-120 | every well-formed character decodes to a scalar value whose shortest encoding is exactly its bytes |
| `Utf8.OneChar` | rope.h:118-120 | the bytes of one well-formed character are valid UTF-8 that hold one codepoint |
| `Utf8.AppendValid` | rope.h:122-123 | joining a well-formed prefix to a string is well-formed exactly when the string is; the counts add and the codepoints concatenate |
| `Utf8.ByteOffsetPrefix` | rope.h:122-123 | the byte offset of a codepoint of a well-formed prefix does not change when more bytes follow |
| `Utf8.ByteOffsetAppend` | rope.h:122-123 | offsets into the second part of a concatenation shift by the length of the well-formed first part |
| `Utf8.SplitValid` | rope.h:122-127 | cutting well-formed text before codepoint k gives two well-formed halves, of k codepoints and of the rest |
| `Utf8.ByteOffsetAdd` | rope.h:122-127 | the offset of codepoint i+j is the offset of i plus the offset of j in the text after it |
| `Utf8.ByteOffsetNext` | rope.h:122-127 | going to the next codepoint moves by the width of the character that starts there |
| `Utf8.ByteOffsetEnd` | rope.h:125-127 | every position at or past the last codepoint has the whole length as its offset |
| `Utf8.EncodeDecode` | rope.h:118-120 | decoding well-formed bytes and encoding the result gives the bytes back, with one codepoint per counted character |
| `Utf8.DecodeEncode` | rope.h:118-120 | encoding scalar values gives well-formed bytes that decode back to those values |
| `Utf8.SplitDecode` | rope.h:122-127 | cutting the bytes before codepoint k cuts the decoded codepoints at k |
| `Utf8.CStr` | rope.h:122-123 | the string argument is the bytes before the first NUL (the whole buffer if it has none); none of them is 0 |
| `Utf8.CStrLength` | rope.h:122-123 | strlen gives the length of that C string |
| `Utf8.Validate` | rope.h:118-123 | the scan says yes exactly for well-formed UTF-8 and counts its codepoints |
| `Utf8.ScanCStr` | rope.h:118-123 | measures the C string argument, decides whether it is well-formed, and counts its codepoints |
| `Utf8.CountBytes` | rope.h:51-62 | walking k characters into a node's in-use bytes reaches the byte offset of codepoint k |
| `Text.ByteOffsetClamp` | rope.h:122-123 | a position past the end of the text stands for the end |
| `Text.InsertCharsValid` | rope.h:122-123 | inserting well-formed bytes keeps the text well-formed and adds their codepoints and bytes to the counts |
| `Text.InsertCharsDecode` | rope.h:122-123 | inserting at pos puts the inserted codepoints between the first min(pos, count) codepoints of the text and the rest |
| `Text.RemoveCharsValid` | rope.h:125-127 | deleting keeps the text well-formed and removes only the codepoints of the range that lie inside the text |
| `Text.RemoveCharsDecode` | rope.h:125-127 | deleting removes exactly the codepoints from min(pos, count) up to min(pos+num, count) |
| `Text.RemoveInserted` | rope.h:122-127 | deleting what was just inserted, at the position it went to, gives back the original text |
| `Text.RemoveClamp` | rope.h:125-127 | deleting past the end has no more effect than deleting the range cut to the end |
| `Text.RemoveNothing` | rope.h:125-127 | deleting zero characters leaves the text as it is |
| `Text.RemoveTwice` | rope.h:125-127 | two deletions at the same position are one deletion of both ranges, which is what deleting node by node relies on |
| `SkipIndex.NextAt` | rope.h:40-49 | the level-L link of node i goes to the first later node taller than L, or to null |
| `SkipIndex.PrevAt` | rope.h:40-49 | the node whose level-L link passes over a gap is the last node before the gap that is taller than L |
| `SkipIndex.Insert` | rope.h:122-123 | a new node goes in at one place in the order, and every other node keeps its order |
| `SkipIndex.Remove` | rope.h:125-127 | an unlinked node leaves the order, and every other node keeps its order |
| `SkipIndex.InsertRemove` | rope.h:122-127 | putting a removed node back where it was gives the order back |
| `RopeState.EmptyInv` | rope.h:83-84 | a rope whose only node is an empty head keeps the invariant and holds no text |
| `RopeState.InvContent` | rope.h:64-77 | the text of a rope that keeps the invariant is well-formed UTF-8, and num_chars counts its codepoints |
| `RopeState.InvSearchable` | rope.h:40-49 | every skip size is the number of characters between a node and the node its link points to, and num_chars is the total |
| `RopeState.NodeChars` | rope.h:40 | the level-0 skip size of a node is the number of characters in its buffer |
| `RopeState.InvCopied` | rope.h:95-96 | a copy of the chain's nodes, under the same ids, keeps the invariant and holds the same text |
| `Chunks.ConcatValid` | rope.h:64-77 | the joined node texts are well-formed, and their codepoint count is the sum of the nodes' counts |
| `Chunks.ConcatRemove` | rope.h:125-127 | unlinking a node removes exactly its bytes from the text |
| `Chunks.ConcatInsert` | rope.h:122-123 | linking in a node puts exactly its bytes into the text at its place |
| `Chunks.InsertInChunk` | rope.h:122-123 | inserting at a position inside a node changes only that node's part of the text |
| `Chunks.RemoveInChunk` | rope.h:125-127 | deleting a range inside one node changes only that node's part of the text |
| `Chunks.RemoveChunk` | rope.h:125-127 | deleting all of a node's characters, from its start, removes that node's bytes |
| `Ropes.EmptyNode` | rope.h:51-62 | a newly allocated node holds no text, has the requested height, and all its links are null with zero skip |
| `Ropes.Memcpy` | rope.h:108-111 | the source goes into the destination from the given index on, and nothing else changes |
| `Ropes.CopyChain` | rope.h:108-111 | the level-0 walk writes the concatenated node texts to the front of the buffer and leaves the rest |
| `Ropes.SeekIn` | rope.h:40-49 | the descent ends at the node that holds the position and records, at each level, the last node before it and the characters from that node's start to the position |
| `Ropes.ResizeNode` | rope.h:40-62 | replacing one node's bytes keeps the invariant; the skip sizes on the update path change by the change in characters and nothing else does |
| `Ropes.GrowHead` | rope.h:57-62 | the head grows to the height of a new node, and the text and the counts stay the same |
| `Ropes.LinkIn` | rope.h:40-49 | a new node is spliced in at every level below its height; the links above it pass over it and count its characters |
| `Ropes.NewNodeIn` | rope.h:122-123 | a new node holding s goes in after the update path; the totals grow by s, and the text gains s at that place |
| `Ropes.InsertNode` | rope.h:122-123 | a node of a new height goes in at the gap with the text and the counts updated, and the update path now follows it |
| `Ropes.NextChunk` | rope.h:21-25 | the next piece of the string fills a node without cutting a character in two, and stops only at the end or where the next character would not fit |
| `Ropes.InsertChunks` | rope.h:122-123 | a long string goes in as a run of full nodes; the text gains it at the gap |
| `Ropes.CutNode` | rope.h:122-123 | cutting a node at a character boundary keeps its front in place and drops its tail |
| `Ropes.TrimTail` | rope.h:122-123 | a split node keeps its front; the tail it gives up is well-formed, fits one node and has the stated number of characters |
| `Ropes.InsertSplit` | rope.h:122-123 | inserting into the middle of a node that cannot take the string splits it: front, the string in new nodes, tail |
| `Ropes.InsertTail` | rope.h:122-123 | the tail of a split node, when it is not empty, goes back in as a node of its own, so the text is front, tail, back |
| `Ropes.InsertHere` | rope.h:122-123 | a string that fits the node at the position goes into that node, and the text is the insertion at that position |
| `Ropes.InsertIn` | rope.h:122-123 | insertion on the arena keeps the invariant, and the text becomes the text with the string inserted at the position |
| `Ropes.CutOut` | rope.h:125-127 | deleting r characters from a node's buffer leaves the in-use bytes with that range removed, well-formed and r characters shorter |
| `Ropes.TrimNode` | rope.h:125-127 | deleting inside one node keeps the invariant and removes exactly that range from the text |
| `Ropes.UnlinkIn` | rope.h:40-49 | unlinking a node at every level of its height lets the previous nodes' links pass over it with its characters taken off |
| `Ropes.UnlinkNode` | rope.h:125-127 | a node whose characters are all deleted leaves the list, and its bytes leave the text |
| `Ropes.DeleteStep` | rope.h:125-127 | one step of deletion removes part or all of the next node; the text is the deletion of everything removed so far |
| `Ropes.DeleteAfter` | rope.h:125-127 | deleting node by node from a gap keeps the invariant and removes exactly num characters at the position |
| `Ropes.Locate` | rope.h:125-127 | finds the node that holds the position, with the offset into it and the update path after it |
| `Ropes.DeleteFrom` | rope.h:125-127 | deleting from an offset inside a node trims that node and then deletes the rest from the nodes after it |
| `Ropes.DeleteAtEnd` | rope.h:125-127 | deleting from the end of a node leaves that node alone and removes exactly num characters from the nodes after it |
| `Ropes.DeleteIn` | rope.h:125-127 | deletion of a range that lies inside the text keeps the invariant and removes exactly that range |
| `Ropes.DeleteRange` | rope.h:125-127 | deletion of any range, even one that reaches past the end, removes the codepoints inside the text, and num_chars drops by that many |
| `Ropes.WalkSegments` | rope.h:129-138 | the walk from the head along the level-0 links until null visits every node of the chain once, in order, and sums the level-0 skip sizes and byte counts |
| `Ropes.Segments` | rope.h:129-138 | on an arena that keeps the invariant, the walk yields the nodes' texts in list order, and its sums are num_chars and num_bytes |
| `Ropes.CopyNodes` | rope.h:95-96 | copying the nodes of the chain gives an arena that keeps the invariant with the same text and holds nothing else |
| `Ropes.Rope.constructor` | rope.h:83-84 | rope_new gives an empty rope: no text, no characters, no bytes |
| `Ropes.Rope.WithUtf8` | rope.h:91-93 | the new rope holds the string when it is well-formed UTF-8, and is empty otherwise, as new followed by insert at 0 would leave it |
| `Ropes.Rope.Copy` | rope.h:95-96 | the copy is a new rope with the same text and totals |
| `Ropes.Rope.Holding` | rope.h:64-77 | a rope made from an arena that keeps the invariant holds the arena's text and totals |
| `Ropes.Rope.Content` | rope.h:64-77 | the text of a rope is well-formed UTF-8; num_chars is its codepoint count and num_bytes its length |
| `Ropes.Rope.CharCount` | rope.h:101-102 | the character count is the number of codepoints in the text |
| `Ropes.Rope.ByteCount` | rope.h:104-106 | the byte count is the length of the text in UTF-8 |
| `Ropes.Rope.WriteCstr` | rope.h:108-111 | writes the text and a NUL, returns byte count + 1, and leaves the rest of the destination unchanged |
| `Ropes.Rope.CreateCstr` | rope.h:113-116 | a new buffer that holds the text followed by a NUL |
| `Ropes.Rope.Insert` | rope.h:118-123 | returns ROPE_INVALID_UTF8, with nothing changed, exactly when the string is not well-formed; otherwise the text gets the string at the position and the counts grow by its codepoints and bytes |
| `Ropes.Rope.Delete` | rope.h:125-127 | the text loses the num codepoints from pos on; a range past the end removes only what is there, and num_chars drops by that many |
| `Ropes.Rope.Foreach` | rope.h:129-138 | ROPE_FOREACH visits the nodes from the head in level-0 order; their texts joined are the rope's text, and they add up to the totals |
| `Ropes.Rope.NodeData` | rope.h:140-143 | a node's data is its 136-byte buffer, whose in-use prefix is well-formed UTF-8 |
| `Ropes.Rope.NodeNumBytes` | rope.h:145-149 | a node's bytes in use are its part of the text; at most 136, and never zero except in the head |
| `Ropes.Rope.NodeChars` | rope.h:151-154 | the level-0 skip size of a node is the number of codepoints in its in-use bytes |
| `Ropes.Rope.Seek` | rope.h:40-49 | on the rope, the descent finds the node that holds the position and the update path to it |

## Left out

- The implementation file `rope.c` is not part of this model. The algorithms modelled are the ones the header's layout implies and that librope is documented to use:
  - the descent along the skip links;
  - insertion that fills the node at the position, or else splits it and adds full new nodes;
  - deletion node by node, with emptied nodes unlinked.
- `rope_new2` and the allocator fields of `rope` (rope.h:71-73, 86-89): the arena stands for memory, so allocation cannot fail and there are no custom allocators.
- `rope_free` (rope.h:98-99): freeing a node is its removal from the arena map; there is no allocator to call.
- `ROPE_BIAS` (rope.h:27-30): the random choice of node heights is a parameter. It is a sequence of heights, each from 1 to `ROPE_MAX_HEIGHT`, that insertion uses in order and wraps around. The head grows to the tallest height in use and does not go one level above it.
- Thread safety (rope.h:8-9): ropes are not synchronized, and the model is sequential.
- `_rope_check` and `_rope_print` (rope.h:156-163): debugging aids, not modelled. `Valid` plays the role of `_rope_check`.
- Ropes.Rope.CharCount: the `uint32_t` totals, skip sizes and positions are unbounded naturals. Wrap-around past 2^32 characters or bytes is not modelled.
- Ropes.Rope.Insert: the position is a natural number. A position past the end inserts at the end, and the model does not treat that as an error.
- Ropes.Rope.WithUtf8: on a string that is not well-formed UTF-8 the rope is empty, as `rope_new` followed by a refused `rope_insert` leaves it. The header states no other behaviour.
- Ropes.Rope.WriteCstr: it requires a destination of at least byte count + 1 bytes, which the C function assumes without checking.
- Ropes.Rope.Copy: pointers are node ids in an arena, and the copy is a new object with a copy of the arena. The claim that the two ropes share no memory is modelled by value, not by addresses.
- Ropes.Rope.NodeData: the C function returns a pointer to a node's buffer. The model returns the buffer's bytes for a node id of the chain. Writes through that pointer are not modelled.
- `ROPE_FOREACH` visits nodes by pointer. `Foreach` returns the nodes' in-use texts in visiting order.
