/**
  The rope itself (`rope` in rope.h): the totals, the arena of nodes with
  the head inline, and the operations of the public interface.

  The ghost field `order` is the level-0 chain, the order in which
  `ROPE_FOREACH` visits the nodes; the invariant `Valid` ties the nodes,
  their links and the totals to it, and `Content` is the text: the in-use
  bytes of the chain's nodes, one after the other.
 */
module Ropes {

  import opened Seqs
  import opened Utf8
  import opened SkipIndex
  import opened RopeNodes
  import opened SkipLinks
  import opened Chunks
  import opened Text
  import opened RopeState

  /** ROPE_RESULT. */
  datatype RopeResult = Ok | InvalidUtf8

  /** A node with an empty buffer and `height` null links, as a fresh allocation is filled in. */
  function EmptyNode(height: uint8): (n: Node)
    requires 1 <= height as nat <= MAX_HEIGHT
    ensures NodeOk(n) && InUse(n) == [] && n.height == height
    ensures n.nexts == seq(height as nat, _ => SkipEntry(0, None))
  {
    assert seq(NODE_STR_SIZE, _ => 0)[..0] == [];
    Node(seq(NODE_STR_SIZE, _ => 0), 0, height, seq(height as nat, _ => SkipEntry(0, None)))
  }

  /** memcpy: `src` is copied into `dest` from index `at` on; nothing else changes. */
  method Memcpy(dest: array<uint8>, at: nat, src: seq<uint8>)
    requires at + |src| <= dest.Length
    modifies dest
    ensures dest[..at + |src|] == old(dest[..at]) + src
    ensures forall j :: at + |src| <= j < dest.Length ==> dest[j] == old(dest[j])
  {
    forall j | 0 <= j < |src| {
      dest[at + j] := src[j];
    }
    assert dest[..at + |src|] == dest[..at] + dest[at..at + |src|];
  }

  /**
    The loop of rope_write_cstr: a walk along the level-0 links from the
    head, copying each node's in-use bytes to `dest` after the previous
    ones. Returns the number of bytes copied.
   */
  method CopyChain(nodes: map<NodeId, Node>, ghost ids: seq<NodeId>, ghost ds: seq<seq<uint8>>, dest: array<uint8>) returns (at: nat)
    requires Chain(nodes, ids, ds) && |Concat(ds, 0, |ds|)| < dest.Length
    modifies dest
    ensures at == |Concat(ds, 0, |ds|)|
    ensures dest[..at] == Concat(ds, 0, |ds|)
    ensures dest[at..] == old(dest[at..])
  {
    ghost var total := |Concat(ds, 0, |ids|)|;
    var iter: Option<NodeId> := Some(HEAD);
    ghost var i := 0;
    at := 0;
    while iter.Some?
      invariant i <= |ids|
      invariant iter == if i < |ids| then Some(ids[i]) else None
      invariant at == |Concat(ds, 0, i)| <= total
      invariant dest[..at] == Concat(ds, 0, i)
      invariant forall j :: total <= j < dest.Length ==> dest[j] == old(dest[j])
      decreases |ids| - i
    {
      ChainAt(nodes, ids, ds, i);
      var node := nodes[iter.value];
      var len := node.numBytes as nat;
      assert at + len <= total by {
        ConcatSplit(ds, 0, i + 1, |ds|);
      }
      Memcpy(dest, at, node.str[..len]);
      assert Concat(ds, 0, i + 1) == Concat(ds, 0, i) + ds[i];
      at := at + len;
      iter := node.nexts[0].next;
      i := i + 1;
    }
  }

  /**
    iter_at_char_pos: the search from the top level of the head. On each
    level it moves right while the position lies beyond the next link's
    span (`offset > skip`), then records the node and the remaining offset
    on that level and drops a level. It ends in node `ids[k]`, after its
    start and no further than its end (a position on a boundary ends in the
    node before it), and `path` is the update path of the point just after
    node `k`, for position `pos`.
   */
  method SeekIn(nodes: map<NodeId, Node>, ghost ids: seq<NodeId>, ghost hts: seq<nat>, ghost lens: seq<nat>, pos: nat)
      returns (e: NodeId, path: seq<IterEntry>, ghost k: nat)
    requires Searchable(nodes, ids, hts, lens) && pos <= Pre(lens, |lens|)
    ensures k < |ids| && e == ids[k]
    ensures PathAt(ids, hts, lens, k + 1, pos, path)
    ensures Pre(lens, k) <= pos <= Pre(lens, k + 1)
    ensures k > 0 ==> Pre(lens, k) < pos
  {
    var H := |nodes[HEAD].nexts|;
    e := HEAD;
    var L: nat := H - 1;
    var offset := pos;
    path := seq(H, _ => IterEntry(HEAD, 0));
    ghost var i: nat := 0;
    ghost var idx: seq<nat> := seq(H, _ => 0);
    while true
      invariant L < H == |path| == |idx| && i < |ids| && e == ids[i] && hts[i] > L
      invariant offset + Pre(lens, i) == pos && (i == 0 || Pre(lens, i) < pos)
      invariant Recorded(ids, hts, lens, pos, path, idx, i, L + 1)
      decreases L, |ids| - i
    {
      assert LevelOk(nodes, ids, hts, lens, L);
      assert EntryOk(nodes, ids, hts, lens, i, L);
      var next := nodes[e].nexts[L];
      ghost var j := NextAt(hts, i, L);
      PreMono(lens, i, j);
      if offset > next.skipSize {
        assert j < |ids| by {
          PreMono(lens, j, |ids|);
        }
        SeekRight(ids, hts, lens, pos, path, idx, i, L);
        offset := offset - next.skipSize;
        e := next.next.value;
        i := j;
      } else {
        SeekDown(ids, hts, lens, pos, path, idx, i, L, offset);
        path := path[L := IterEntry(e, offset)];
        idx := idx[L := i];
        if L == 0 {
          break;
        }
        L := L - 1;
      }
    }
    k := i;
    SeekDone(ids, hts, lens, pos, path, idx, k);
  }

  /**
    update_offset_list, for a node whose character count changed by
    `delta`, from `lens[k]` to `chars`: every skip entry that spans node
    `k` changes by `delta`. Below node `k`'s height these are node `k`'s own
    entries, above it the entries of the path's nodes, on the path of
    the gap before node `k` (`g == k`) or after it (`g == k + 1`). Only
    skip entries change.
   */
  method UpdateOffsets(nodes: map<NodeId, Node>, ghost ids: seq<NodeId>, ghost hts: seq<nat>, ghost lens: seq<nat>,
                       e: NodeId, path: seq<IterEntry>, ghost k: nat, ghost g: nat, ghost pos: nat,
                       delta: int, ghost chars: nat)
      returns (nodes': map<NodeId, Node>)
    requires |ids| == |hts| == |lens| && k < |ids| && e == ids[k] && Distinct(ids) && chars == lens[k] + delta
    requires 0 < g <= |ids| && (g == k || g == k + 1) && PathAt(ids, hts, lens, g, pos, path)
    requires e in nodes && |nodes[e].nexts| == hts[k] && LevelsOk(nodes, ids, hts, lens, 0, hts[0])
    ensures LevelsOk(nodes', ids, hts, lens[k := chars], 0, hts[0])
    ensures EntriesOnly(nodes, nodes')
  {
    var H := |path|;
    var height := |nodes[e].nexts|;
    nodes' := nodes;
    var L := 0;
    while L < H
      invariant L <= H
      invariant LevelsOk(nodes', ids, hts, lens[k := chars], 0, L) && LevelsOk(nodes', ids, hts, lens, L, H)
      invariant EntriesOnly(nodes, nodes')
    {
      var id := if L < height then e else path[L].node;
      ResizeTarget(ids, hts, lens, g, pos, path, k, L);
      ResizeStep(nodes', ids, hts, lens, k, chars, L, H, id);
      var x := nodes'[id].nexts[L];
      var entry := SkipEntry(x.skipSize + delta, x.next);
      EntriesOnlyStep(nodes, nodes', id, L, entry);
      nodes' := SetEntry(nodes', id, L, entry);
      L := L + 1;
    }
  }

  /**
    One level of insert_at's linking: `p` is the path's entry at level `L`
    for gap `g`. Below the new node's height `h` the path's node links to
    `y` and `y` takes over its old link; above, the path node's entry
    spans `c` more characters. `pe` is the new path's entry at this level.
   */
  method LinkLevel(ghost nodes0: map<NodeId, Node>, nodes: map<NodeId, Node>, ghost ids: seq<NodeId>,
                   ghost hts: seq<nat>, ghost lens: seq<nat>, ghost g: nat, y: NodeId, h: nat, c: nat,
                   L: nat, ghost H: nat, p: IterEntry)
      returns (nodes': map<NodeId, Node>, pe: IterEntry)
    requires |ids| == |hts| == |lens| && 0 < g <= |ids| && L < H == hts[0] && Distinct(ids)
    requires forall i :: 0 <= i < |ids| ==> ids[i] != y
    requires EntriesOnly(nodes0, nodes) && y in nodes0 && |nodes0[y].nexts| == h
    requires p.node == ids[PrevAt(hts, g, L)] && p.skipSize + Pre(lens, PrevAt(hts, g, L)) == Pre(lens, g)
    requires LevelsOk(nodes, Insert(ids, g, y), Insert(hts, g, h), Insert(lens, g, c), 0, L)
    requires LevelsOk(nodes, ids, hts, lens, L, H)
    ensures EntriesOnly(nodes0, nodes')
    ensures LevelsOk(nodes', Insert(ids, g, y), Insert(hts, g, h), Insert(lens, g, c), 0, L + 1)
    ensures LevelsOk(nodes', ids, hts, lens, L + 1, H)
    ensures pe == if L < h then IterEntry(y, c) else IterEntry(p.node, p.skipSize + c)
  {
    if L < h {
      LinkStepBelow(nodes, ids, hts, lens, g, y, h, c, L, H);
      var x := nodes[p.node].nexts[L];
      var ey, ep := SkipEntry(c + x.skipSize - p.skipSize, x.next), SkipEntry(p.skipSize, Some(y));
      EntriesOnlyStep(nodes0, nodes, y, L, ey);
      nodes' := SetEntry(nodes, y, L, ey);
      EntriesOnlyStep(nodes0, nodes', p.node, L, ep);
      nodes' := SetEntry(nodes', p.node, L, ep);
      pe := IterEntry(y, c);
    } else {
      LinkStepAbove(nodes, ids, hts, lens, g, y, h, c, L, H);
      var x := nodes[p.node].nexts[L];
      var ep := SkipEntry(x.skipSize + c, x.next);
      EntriesOnlyStep(nodes0, nodes, p.node, L, ep);
      nodes' := SetEntry(nodes, p.node, L, ep);
      pe := IterEntry(p.node, p.skipSize + c);
    }
  }

  /**
    The linking part of insert_at: node `y`, already in the arena and
    holding `c` characters, goes in at gap `g`, whose path `path` was found
    for the character position of that gap, one level at a time
    (`LinkLevel`). The path returned is the path of the gap just after `y`.
   */
  method LinkIn(nodes: map<NodeId, Node>, ghost ids: seq<NodeId>, ghost hts: seq<nat>, ghost lens: seq<nat>,
                ghost g: nat, y: NodeId, c: nat, path: seq<IterEntry>)
      returns (nodes': map<NodeId, Node>, path': seq<IterEntry>)
    requires |ids| == |hts| == |lens| && 0 < g <= |ids| && Distinct(ids)
    requires forall i :: 0 <= i < |ids| ==> ids[i] != y
    requires y in nodes && |nodes[y].nexts| <= hts[0]
    requires PathAt(ids, hts, lens, g, Pre(lens, g), path)
    requires LevelsOk(nodes, ids, hts, lens, 0, hts[0])
    ensures LevelsOk(nodes', Insert(ids, g, y), Insert(hts, g, |nodes[y].nexts|), Insert(lens, g, c), 0, hts[0])
    ensures EntriesOnly(nodes, nodes')
    ensures PathAt(Insert(ids, g, y), Insert(hts, g, |nodes[y].nexts|), Insert(lens, g, c), g + 1,
                   Pre(Insert(lens, g, c), g + 1), path')
  {
    var H, h := |path|, |nodes[y].nexts|;
    nodes', path' := nodes, [];
    var L := 0;
    while L < H
      invariant L <= H && |path'| == L
      invariant EntriesOnly(nodes, nodes')
      invariant LevelsOk(nodes', Insert(ids, g, y), Insert(hts, g, h), Insert(lens, g, c), 0, L)
      invariant LevelsOk(nodes', ids, hts, lens, L, H)
      invariant forall M :: 0 <= M < L ==>
                  path'[M] == if M < h then IterEntry(y, c) else IterEntry(path[M].node, path[M].skipSize + c)
    {
      var pe;
      nodes', pe := LinkLevel(nodes, nodes', ids, hts, lens, g, y, h, c, L, H, path[L]);
      path' := path' + [pe];
      L := L + 1;
    }
    PathLinked(ids, hts, lens, g, path, y, h, c, path');
  }

  /**
    Node `e`, the `k`th of the list, gets the bytes `str[..num]` (the
    memmove and memcpy into its buffer and its new byte count), then
    update_offset_list patches every skip entry over it by its change in
    characters, `delta`, and the totals follow. `path` is the path of the
    gap just before or just after `e`, and stays so.
   */
  method ResizeNode(nodes: map<NodeId, Node>, ghost ids: seq<NodeId>, ghost nextId: nat, chars: nat, bytes: nat,
                    ghost k: nat, e: NodeId, path: seq<IterEntry>, ghost g: nat, ghost pos: nat,
                    str: seq<uint8>, num: uint16, delta: int)
      returns (nodes': map<NodeId, Node>, chars': nat, bytes': nat)
    requires Inv(nodes, ids, nextId, chars, bytes) && k < |ids| && e == ids[k] && 0 < g && (g == k || g == k + 1)
    requires PathAt(ids, Hts(nodes, ids), Lens(nodes, ids), g, pos, path)
    requires |str| == NODE_STR_SIZE && num as nat <= NODE_STR_SIZE && ValidUtf8(str[..num])
    requires CountChars(str[..num]) == Lens(nodes, ids)[k] + delta
    requires k > 0 ==> num > 0
    ensures Inv(nodes', ids, nextId, chars', bytes') && nodes'.Keys == nodes.Keys
    ensures Datas(nodes', ids) == Datas(nodes, ids)[k := str[..num]]
    ensures Hts(nodes', ids) == Hts(nodes, ids)
    ensures Lens(nodes', ids) == Lens(nodes, ids)[k := CountChars(str[..num])]
    ensures PathAt(ids, Hts(nodes', ids), Lens(nodes', ids), g, pos, path)
  {
    ghost var hts, lens, ds := Hts(nodes, ids), Lens(nodes, ids), Datas(nodes, ids);
    ghost var c := CountChars(str[..num]);
    InvSearchable(nodes, ids, nextId, chars, bytes);
    TotalsCover(nodes, ids, nextId, chars, bytes, k);
    SetData(nodes, ids, lens, hts[0], k, str, num);
    var nodes1 := nodes[e := nodes[e].(str := str, numBytes := num)];
    nodes' := UpdateOffsets(nodes1, ids, hts, lens, e, path, k, g, pos, delta, c);
    EntriesOnlyShape(nodes1, nodes', ids);
    chars', bytes' := chars + delta, bytes - nodes[e].numBytes as nat + num as nat;
    ResizeDone(nodes, nodes', ids, nextId, chars, bytes, chars', bytes', k, str[..num]);
    PathResized(ids, hts, lens, g, pos, path, k, c);
    CountsUpdate(ds, k, str[..num]);
  }

  /**
    The first part of insert_at: while the head is lower than the new
    node's `height`, it grows by a level whose entry spans the whole text
    and links nowhere, and the path of gap `g` (for position `pos`) gains
    the head at that level.
   */
  method GrowHead(nodes: map<NodeId, Node>, ghost ids: seq<NodeId>, ghost nextId: nat, chars: nat, ghost bytes: nat,
                  height: uint8, ghost g: nat, pos: nat, path: seq<IterEntry>)
      returns (nodes': map<NodeId, Node>, path': seq<IterEntry>)
    requires Inv(nodes, ids, nextId, chars, bytes) && height as nat <= MAX_HEIGHT && 0 < g <= |ids|
    requires PathAt(ids, Hts(nodes, ids), Lens(nodes, ids), g, pos, path)
    ensures Inv(nodes', ids, nextId, chars, bytes) && nodes'.Keys == nodes.Keys
    ensures Datas(nodes', ids) == Datas(nodes, ids) && Lens(nodes', ids) == Lens(nodes, ids)
    ensures Hts(nodes', ids)[0] >= height as nat
    ensures PathAt(ids, Hts(nodes', ids), Lens(nodes', ids), g, pos, path')
  {
    nodes', path' := nodes, path;
    while nodes'[HEAD].height < height
      invariant Inv(nodes', ids, nextId, chars, bytes) && nodes'.Keys == nodes.Keys
      invariant Datas(nodes', ids) == Datas(nodes, ids)
      invariant PathAt(ids, Hts(nodes', ids), Lens(nodes', ids), g, pos, path')
      decreases height as int - nodes'[HEAD].height as int
    {
      ghost var hts := Hts(nodes', ids);
      InvSearchable(nodes', ids, nextId, chars, bytes);
      PathGrown(ids, hts, Lens(nodes', ids), g, pos, path');
      var n := nodes'[HEAD];
      var grown := nodes'[HEAD := n.(height := n.height + 1, nexts := n.nexts + [SkipEntry(chars, None)])];
      GrowStep(nodes', grown, ids, nextId, chars, bytes);
      nodes' := grown;
      path' := path' + [IterEntry(HEAD, pos)];
    }
    assert Hts(nodes', ids)[0] == nodes'[HEAD].height as nat;
    SameLens(nodes, nodes', ids);
  }

  /**
    A fresh node `n` holding `s`, added to the arena as `nextId` and linked
    in at gap `g` on every level of its height (the outcome of `LinkIn`),
    leaves a well-formed rope one chunk longer.
   */
  lemma NewNodeLinked(nodes: map<NodeId, Node>, nodes': map<NodeId, Node>, ids: seq<NodeId>, nextId: nat,
                      chars: nat, bytes: nat, g: nat, hts: seq<nat>, lens: seq<nat>,
                      n: Node, s: seq<uint8>, c: nat, height: uint8)
    requires Inv(nodes, ids, nextId, chars, bytes) && 0 < g <= |ids|
    requires hts == Hts(nodes, ids) && lens == Lens(nodes, ids) && 1 <= height as nat <= hts[0]
    requires NodeOk(n) && InUse(n) == s && n.numBytes as nat == |s| > 0 && n.height == height
    requires |n.nexts| == height as nat && ValidUtf8(s) && c == CountChars(s)
    requires EntriesOnly(nodes[nextId := n], nodes')
    requires LevelsOk(nodes', Insert(ids, g, nextId), Insert(hts, g, |nodes[nextId := n][nextId].nexts|),
                      Insert(lens, g, c), 0, hts[0])
    ensures Inv(nodes', Insert(ids, g, nextId), nextId + 1, chars + c, bytes + |s|)
    ensures Datas(nodes', Insert(ids, g, nextId)) == Insert(Datas(nodes, ids), g, s)
    ensures Lens(nodes', Insert(ids, g, nextId)) == Insert(lens, g, c)
    ensures Hts(nodes', Insert(ids, g, nextId)) == Insert(hts, g, height as nat)
  {
    var y, ids' := nextId, Insert(ids, g, nextId);
    InvSearchable(nodes, ids, nextId, chars, bytes);
    assert Shape(nodes', ids) && Datas(nodes', ids) == Datas(nodes, ids) && Hts(nodes', ids) == hts by {
      AddNode(nodes, ids, hts[0], y, n);
      EntriesOnlyShape(nodes[y := n], nodes', ids);
    }
    assert InUse(nodes'[y]) == s && NodeOk(nodes'[y]) && nodes'.Keys == nodes.Keys + {y};
    assert Shape(nodes', ids') && Linked(nodes', ids') && Datas(nodes', ids') == Insert(Datas(nodes, ids), g, s) by {
      LinkLinked(nodes, nodes', ids, nextId, g, y);
    }
    assert Inv(nodes', ids', nextId + 1, chars + c, bytes + |s|) by {
      LinkDone(nodes, nodes', ids, nextId, chars, bytes, g, y);
    }
    assert Lens(nodes', ids') == Insert(lens, g, c) by {
      LinkTotals(nodes, nodes', ids, g, y);
    }
    InsertShape(nodes', ids, g, y);
  }

  /**
    The rest of insert_at, on the arena: a node of height `height` (no
    taller than the head) holding `s` gets the fresh id `nextId` and is
    linked in at gap `g` (`PlaceNode`); the totals grow by its characters
    and bytes, and the id counter moves on.
   */
  method NewNodeIn(nodes: map<NodeId, Node>, ghost ids: seq<NodeId>, nextId: nat, chars: nat, bytes: nat,
                   ghost g: nat, pos: nat, path: seq<IterEntry>, s: seq<uint8>, c: nat, height: uint8)
      returns (nodes': map<NodeId, Node>, ghost ids': seq<NodeId>, nextId': nat, chars': nat, bytes': nat,
               pos': nat, path': seq<IterEntry>)
    requires Inv(nodes, ids, nextId, chars, bytes) && 0 < g <= |ids| && pos == Pre(Lens(nodes, ids), g)
    requires PathAt(ids, Hts(nodes, ids), Lens(nodes, ids), g, pos, path)
    requires 0 < |s| <= NODE_STR_SIZE && ValidUtf8(s) && c == CountChars(s)
    requires 1 <= height as nat <= Hts(nodes, ids)[0]
    ensures ids' == Insert(ids, g, nextId) && nextId' == nextId + 1
    ensures chars' == chars + c && bytes' == bytes + |s| && pos' == pos + c
    ensures GapAt(nodes', ids', nextId', chars', bytes', g + 1, pos', path')
    ensures Datas(nodes', ids') == Insert(Datas(nodes, ids), g, s)
    ensures Lens(nodes', ids') == Insert(Lens(nodes, ids), g, c)
  {
    var n := FilledNode(s, height);
    nodes', path' := PlaceNode(nodes, ids, nextId, chars, bytes, g, pos, path, n, s, c, height);
    ids', nextId', chars', bytes', pos' := Insert(ids, g, nextId), nextId + 1, chars + c, bytes + |s|, pos + c;
  }

  /** A newly allocated node of height `height` whose buffer starts with `s`, the rest zero (the memcpy into it). */
  function FilledNode(s: seq<uint8>, height: uint8): (n: Node)
    requires 0 < |s| <= NODE_STR_SIZE && ValidUtf8(s) && 1 <= height as nat <= MAX_HEIGHT
    ensures NodeOk(n) && InUse(n) == s && n.numBytes as nat == |s| && n.height == height
    ensures n.nexts == seq(height as nat, _ => SkipEntry(0, None))
  {
    var n := EmptyNode(height).(str := s + seq(NODE_STR_SIZE - |s|, _ => 0), numBytes := |s|);
    assert n.str[..n.numBytes] == s;
    n
  }

  /** Node `n`, holding `s`, gets the id `nextId` and is linked in at gap `g` (`LinkIn`); the arena keeps the invariant with it in the list. */
  method PlaceNode(nodes: map<NodeId, Node>, ghost ids: seq<NodeId>, nextId: nat, ghost chars: nat, ghost bytes: nat,
                   ghost g: nat, ghost pos: nat, path: seq<IterEntry>, n: Node, ghost s: seq<uint8>, c: nat, ghost height: uint8)
      returns (nodes': map<NodeId, Node>, path': seq<IterEntry>)
    requires Inv(nodes, ids, nextId, chars, bytes) && 0 < g <= |ids| && pos == Pre(Lens(nodes, ids), g)
    requires PathAt(ids, Hts(nodes, ids), Lens(nodes, ids), g, pos, path)
    requires NodeOk(n) && InUse(n) == s && n.numBytes as nat == |s| > 0 && n.height == height
    requires ValidUtf8(s) && c == CountChars(s) && 1 <= height as nat <= Hts(nodes, ids)[0]
    ensures GapAt(nodes', Insert(ids, g, nextId), nextId + 1, chars + c, bytes + |s|, g + 1, pos + c, path')
    ensures Datas(nodes', Insert(ids, g, nextId)) == Insert(Datas(nodes, ids), g, s)
    ensures Lens(nodes', Insert(ids, g, nextId)) == Insert(Lens(nodes, ids), g, c)
  {
    ghost var hts, lens := Hts(nodes, ids), Lens(nodes, ids);
    InvSearchable(nodes, ids, nextId, chars, bytes);
    var nodes1 := nodes[nextId := n];
    assert Shape(nodes1, ids) && LevelsOk(nodes1, ids, hts, lens, 0, hts[0]) by {
      AddNode(nodes, ids, hts[0], nextId, n);
    }
    nodes', path' := LinkIn(nodes1, ids, hts, lens, g, nextId, c, path);
    NewNodeGap(nodes, nodes', ids, nextId, chars, bytes, g, hts, lens, n, s, c, height, pos, path');
  }

  /** The arena after `LinkIn` keeps the invariant with the new node in the list, and `path'` is the path of the gap after it. */
  lemma NewNodeGap(nodes: map<NodeId, Node>, nodes': map<NodeId, Node>, ids: seq<NodeId>, nextId: nat,
                   chars: nat, bytes: nat, g: nat, hts: seq<nat>, lens: seq<nat>,
                   n: Node, s: seq<uint8>, c: nat, height: uint8, pos: nat, path': seq<IterEntry>)
    requires Inv(nodes, ids, nextId, chars, bytes) && 0 < g <= |ids|
    requires hts == Hts(nodes, ids) && lens == Lens(nodes, ids) && 1 <= height as nat <= hts[0] && pos == Pre(lens, g)
    requires NodeOk(n) && InUse(n) == s && n.numBytes as nat == |s| > 0 && n.height == height
    requires |n.nexts| == height as nat && ValidUtf8(s) && c == CountChars(s)
    requires EntriesOnly(nodes[nextId := n], nodes')
    requires LevelsOk(nodes', Insert(ids, g, nextId), Insert(hts, g, |nodes[nextId := n][nextId].nexts|),
                      Insert(lens, g, c), 0, hts[0])
    requires PathAt(Insert(ids, g, nextId), Insert(hts, g, |nodes[nextId := n][nextId].nexts|), Insert(lens, g, c), g + 1,
                    Pre(Insert(lens, g, c), g + 1), path')
    ensures GapAt(nodes', Insert(ids, g, nextId), nextId + 1, chars + c, bytes + |s|, g + 1, pos + c, path')
    ensures Datas(nodes', Insert(ids, g, nextId)) == Insert(Datas(nodes, ids), g, s)
    ensures Lens(nodes', Insert(ids, g, nextId)) == Insert(lens, g, c)
  {
    var ids' := Insert(ids, g, nextId);
    NewNodeLinked(nodes, nodes', ids, nextId, chars, bytes, g, hts, lens, n, s, c, height);
    PreAfterInsert(lens, Lens(nodes', ids'), g, c, pos);
    PathAtSame(ids', Insert(hts, g, height as nat), Insert(lens, g, c), Hts(nodes', ids'), Lens(nodes', ids'),
               g + 1, Pre(Insert(lens, g, c), g + 1), pos + c, path');
  }

  /** insert_at on the arena: the head grows to the new node's height (`GrowHead`), then the node goes in (`NewNodeIn`). */
  method InsertNode(nodes: map<NodeId, Node>, ghost ids: seq<NodeId>, nextId: nat, chars: nat, bytes: nat,
                    ghost g: nat, pos: nat, path: seq<IterEntry>, s: seq<uint8>, c: nat, height: uint8)
      returns (nodes': map<NodeId, Node>, ghost ids': seq<NodeId>, nextId': nat, chars': nat, bytes': nat,
               pos': nat, path': seq<IterEntry>)
    requires GapAt(nodes, ids, nextId, chars, bytes, g, pos, path)
    requires 0 < |s| <= NODE_STR_SIZE && ValidUtf8(s) && c == CountChars(s)
    requires 1 <= height as nat <= MAX_HEIGHT
    ensures ids' == Insert(ids, g, nextId) && nextId' == nextId + 1
    ensures chars' == chars + c && bytes' == bytes + |s| && pos' == pos + c
    ensures GapAt(nodes', ids', nextId', chars', bytes', g + 1, pos', path')
    ensures Datas(nodes', ids') == Insert(Datas(nodes, ids), g, s)
    ensures Lens(nodes', ids') == Insert(Lens(nodes, ids), g, c)
  {
    var grownNodes, grown := GrowHead(nodes, ids, nextId, chars, bytes, height, g, pos, path);
    nodes', ids', nextId', chars', bytes', pos', path' := NewNodeIn(grownNodes, ids, nextId, chars, bytes, g, pos, grown, s, c, height);
  }

  /** Heights for new nodes, used one after the other, round and round; each from 1 to ROPE_MAX_HEIGHT. */
  predicate HeightsOk(heights: seq<uint8>) {
    && 0 < |heights|
    && forall i :: 0 <= i < |heights| ==> 1 <= heights[i] as nat <= MAX_HEIGHT
  }

  /**
    The inner loop of rope_insert_at_iter's splitting: from byte `at` of
    `s`, whole characters are taken while they fit a node's buffer. The
    piece is never empty, is valid UTF-8 of `nc` characters, and ends at
    the end of `s` or where the next character would overflow the buffer;
    `next` is the byte after it.
   */
  method NextChunk(s: seq<uint8>, at: nat) returns (nb: nat, nc: nat, next: nat)
    requires at < |s| && ValidFrom(s, at)
    ensures 0 < nb <= NODE_STR_SIZE && next == at + nb <= |s| && ValidFrom(s, next)
    ensures ValidUtf8(s[at..next]) && CountChars(s[at..next]) == nc
    ensures next == |s| || nb + LeadWidth(s[next]) > NODE_STR_SIZE
  {
    nb, nc := 0, 0;
    while at + nb < |s|
      invariant at + nb <= |s| && nb <= NODE_STR_SIZE && ValidFrom(s, at + nb)
      invariant ValidUtf8(s[at..at + nb]) && CountChars(s[at..at + nb]) == nc
      decreases |s| - nb
    {
      var cs := LeadWidth(s[at + nb]);
      if cs + nb > NODE_STR_SIZE {
        break;
      }
      GrowRun(s, at, nb, nc, nb + cs);
      nb, nc := nb + cs, nc + 1;
    }
    next := at + nb;
  }

  /**
    One round of rope_insert_at_iter's splitting loop: the piece of `s`
    from byte `at` on that fits a node (`NextChunk`) goes in as a new node
    at gap `g` (`InsertNode`), with the height `heights[j]`, counted round
    and round.
   */
  method InsertPiece(nodes: map<NodeId, Node>, ghost ids: seq<NodeId>, nextId: nat, chars: nat, bytes: nat,
                     ghost g: nat, pos: nat, path: seq<IterEntry>, s: seq<uint8>, at: nat, heights: seq<uint8>, j: nat,
                     ghost before: seq<uint8>, ghost after: seq<uint8>)
      returns (nodes': map<NodeId, Node>, ghost ids': seq<NodeId>, nextId': nat, chars': nat, bytes': nat,
               pos': nat, path': seq<IterEntry>, at': nat)
    requires GapAt(nodes, ids, nextId, chars, bytes, g, pos, path)
    requires at < |s| && ValidFrom(s, at) && HeightsOk(heights)
    requires Around(Datas(nodes, ids), g, before + s[..at], after)
    ensures at < at' <= |s| && ValidFrom(s, at')
    ensures GapAt(nodes', ids', nextId', chars', bytes', g + 1, pos', path')
    ensures Around(Datas(nodes', ids'), g + 1, before + s[..at'], after)
  {
    var nb, nc;
    nb, nc, at' := NextChunk(s, at);
    var chunk := s[at..at'];
    nodes', ids', nextId', chars', bytes', pos', path' :=
      InsertNode(nodes, ids, nextId, chars, bytes, g, pos, path, chunk, nc, heights[j % |heights|]);
    assert Around(Datas(nodes', ids'), g + 1, before + s[..at'], after) by {
      AroundInsert(Datas(nodes, ids), Datas(nodes', ids'), g, chunk, before + s[..at], after);
      AppendTake(before, s, at, at');
    }
  }

  /**
    The splitting loop of rope_insert_at_iter: `s` is cut into pieces of
    whole characters that fit a node, and each goes in as a new node after
    the previous one (`InsertPiece`), from gap `g` on, the point at
    character position `pos`. The heights come from `heights` from index
    `j` on. The text before the gap gains `s`; the text after it is as it
    was.
   */
  method InsertChunks(nodes: map<NodeId, Node>, ghost ids: seq<NodeId>, nextId: nat, chars: nat, bytes: nat,
                      ghost g: nat, pos: nat, path: seq<IterEntry>, s: seq<uint8>, heights: seq<uint8>, j: nat)
      returns (nodes': map<NodeId, Node>, ghost ids': seq<NodeId>, nextId': nat, chars': nat, bytes': nat,
               ghost g': nat, pos': nat, path': seq<IterEntry>, j': nat)
    requires GapAt(nodes, ids, nextId, chars, bytes, g, pos, path)
    requires ValidUtf8(s) && HeightsOk(heights)
    ensures GapAt(nodes', ids', nextId', chars', bytes', g', pos', path')
    ensures Around(Datas(nodes', ids'), g', Concat(Datas(nodes, ids), 0, g) + s, Concat(Datas(nodes, ids), g, |ids|))
  {
    ghost var before, after := Concat(Datas(nodes, ids), 0, g), Concat(Datas(nodes, ids), g, |ids|);
    nodes', ids', nextId', chars', bytes', g', pos', path', j' := nodes, ids, nextId, chars, bytes, g, pos, path, j;
    var at := 0;
    assert before + s[..0] == before;
    while at < |s|
      invariant at <= |s| && ValidFrom(s, at)
      invariant GapAt(nodes', ids', nextId', chars', bytes', g', pos', path')
      invariant Around(Datas(nodes', ids'), g', before + s[..at], after)
      decreases |s| - at
    {
      nodes', ids', nextId', chars', bytes', pos', path', at :=
        InsertPiece(nodes', ids', nextId', chars', bytes', g', pos', path', s, at, heights, j', before, after);
      g', j' := g' + 1, j' + 1;
    }
    assert s[..at] == s;
  }

  /**
    Node `k` cut back to the bytes before its character `off` (byte
    `offB`), which lies inside it: the node keeps `num_bytes = offB`, and
    the skip sizes on the path and the totals lose the characters and
    bytes cut off.
   */
  method CutNode(nodes: map<NodeId, Node>, ghost ids: seq<NodeId>, ghost nextId: nat, chars: nat, bytes: nat,
                 ghost k: nat, e: NodeId, path: seq<IterEntry>, ghost pos: nat, off: nat, offB: nat)
      returns (nodes': map<NodeId, Node>, chars': nat, bytes': nat)
    requires Inv(nodes, ids, nextId, chars, bytes) && k < |ids| && e == ids[k]
    requires PathAt(ids, Hts(nodes, ids), Lens(nodes, ids), k + 1, pos, path)
    requires off <= Lens(nodes, ids)[k] && pos == Pre(Lens(nodes, ids), k) + off && (k > 0 ==> off > 0)
    requires offB == ByteOffset(Datas(nodes, ids)[k], off)
    ensures GapAt(nodes', ids, nextId, chars', bytes', k + 1, pos, path)
    ensures Concat(Datas(nodes', ids), 0, k + 1) == Concat(Datas(nodes, ids), 0, k) + Datas(nodes, ids)[k][..offB]
    ensures Concat(Datas(nodes', ids), k + 1, |ids|) == Concat(Datas(nodes, ids), k + 1, |ids|)
  {
    ghost var ds, lens := Datas(nodes, ids), Lens(nodes, ids);
    var n := nodes[e];
    CutPrep(nodes, ids, nextId, chars, bytes, k, off, offB);
    nodes', chars', bytes' := ResizeNode(nodes, ids, nextId, chars, bytes, k, e, path, k + 1, pos,
                                         n.str, offB as uint16, off - n.nexts[0].skipSize);
    CutDone(ds, Datas(nodes', ids), lens, Lens(nodes', ids), k, n.str[..offB], off, pos);
  }

  /** What cutting node `k` at character `off` (byte `offB`) needs of the node. */
  lemma CutPrep(nodes: map<NodeId, Node>, ids: seq<NodeId>, nextId: nat, chars: nat, bytes: nat, k: nat, off: nat, offB: nat)
    requires Inv(nodes, ids, nextId, chars, bytes) && k < |ids|
    requires off <= Lens(nodes, ids)[k] && (k > 0 ==> off > 0)
    requires offB == ByteOffset(Datas(nodes, ids)[k], off)
    ensures var n := nodes[ids[k]];
            && |n.str| == NODE_STR_SIZE && offB <= n.numBytes as nat <= NODE_STR_SIZE
            && ValidUtf8(n.str[..offB]) && CountChars(n.str[..offB]) == off
            && n.str[..offB] == Datas(nodes, ids)[k][..offB]
            && n.nexts[0].skipSize == Lens(nodes, ids)[k]
    ensures k > 0 ==> offB > 0
  {
    var d := Datas(nodes, ids)[k];
    var n := nodes[ids[k]];
    assert NodeOk(n) && d == n.str[..n.numBytes];
    NodeChars(nodes, ids, k);
    SplitValid(d, off);
    assert n.str[..offB] == d[..offB];
    assert k > 0 ==> offB > 0 by {
      assert d[..0] == [];
    }
  }

  /** After the cut: the text up to node `k` ends in its kept front `x`, the rest is as it was, and `pos` is the end of node `k`. */
  lemma CutDone(ds: seq<seq<uint8>>, ds': seq<seq<uint8>>, lens: seq<nat>, lens': seq<nat>, k: nat, x: seq<uint8>, off: nat, pos: nat)
    requires k < |ds| == |lens| && ds' == ds[k := x] && lens' == lens[k := off] && pos == Pre(lens, k) + off
    ensures Concat(ds', 0, k + 1) == Concat(ds, 0, k) + x
    ensures Concat(ds', k + 1, |ds|) == Concat(ds, k + 1, |ds|)
    ensures pos == Pre(lens', k + 1)
  {
    ConcatUpdateParts(ds, k, x);
    PreUpdate(lens, k, off, k + 1);
  }

  /**
    The first half of a split insertion in rope_insert_at_iter: the bytes
    of node `k` after its character `off` (byte `offB`) are kept aside as
    `tail`, and the node is cut back to the bytes before them
    (`CutNode`). Nothing is cut when the offset is already at the node's
    end.
   */
  method TrimTail(nodes: map<NodeId, Node>, ghost ids: seq<NodeId>, ghost nextId: nat, chars: nat, bytes: nat,
                  ghost k: nat, e: NodeId, path: seq<IterEntry>, ghost pos: nat, off: nat, offB: nat)
      returns (nodes': map<NodeId, Node>, chars': nat, bytes': nat, tail: seq<uint8>, tailChars: nat)
    requires Inv(nodes, ids, nextId, chars, bytes) && k < |ids| && e == ids[k]
    requires PathAt(ids, Hts(nodes, ids), Lens(nodes, ids), k + 1, pos, path)
    requires off <= Lens(nodes, ids)[k] && pos == Pre(Lens(nodes, ids), k) + off && (k > 0 ==> off > 0)
    requires offB == ByteOffset(Datas(nodes, ids)[k], off)
    ensures GapAt(nodes', ids, nextId, chars', bytes', k + 1, pos, path)
    ensures tail == Datas(nodes, ids)[k][offB..] && |tail| <= NODE_STR_SIZE
    ensures ValidUtf8(tail) && CountChars(tail) == tailChars
    ensures Concat(Datas(nodes', ids), 0, k + 1) == Concat(Datas(nodes, ids), 0, k) + Datas(nodes, ids)[k][..offB]
    ensures Concat(Datas(nodes', ids), k + 1, |ids|) == Concat(Datas(nodes, ids), k + 1, |ids|)
  {
    ghost var ds := Datas(nodes, ids);
    ghost var d := ds[k];
    var n := nodes[e];
    assert NodeOk(n) && d == n.str[..n.numBytes];
    NodeChars(nodes, ids, k);
    SplitValid(d, off);
    tail, tailChars := n.str[offB..n.numBytes], n.nexts[0].skipSize - off;
    assert tail == d[offB..];
    if offB < n.numBytes as nat {
      nodes', chars', bytes' := CutNode(nodes, ids, nextId, chars, bytes, k, e, path, pos, off, offB);
    } else {
      nodes', chars', bytes' := nodes, chars, bytes;
      assert d[..offB] == d;
      ConcatSplit(ds, 0, k, k + 1);
      ConcatOne(ds, k);
    }
  }

  /**
    A split insertion, as rope_insert_at_iter does it when the bytes do
    not fit node `k`: the node's tail after character `off` is cut off
    (`TrimTail`), the new bytes go in as new nodes after it
    (`InsertChunks`), and the tail follows as a node of its own.
   */
  method InsertSplit(nodes: map<NodeId, Node>, ghost ids: seq<NodeId>, nextId: nat, chars: nat, bytes: nat,
                     ghost k: nat, e: NodeId, path: seq<IterEntry>, pos: nat, off: nat, offB: nat,
                     s: seq<uint8>, heights: seq<uint8>)
      returns (nodes': map<NodeId, Node>, ghost ids': seq<NodeId>, nextId': nat, chars': nat, bytes': nat,
               ghost g': nat, pos': nat, path': seq<IterEntry>)
    requires Inv(nodes, ids, nextId, chars, bytes) && k < |ids| && e == ids[k]
    requires PathAt(ids, Hts(nodes, ids), Lens(nodes, ids), k + 1, pos, path)
    requires off <= Lens(nodes, ids)[k] && pos == Pre(Lens(nodes, ids), k) + off && (k > 0 ==> off > 0)
    requires offB == ByteOffset(Datas(nodes, ids)[k], off)
    requires ValidUtf8(s) && HeightsOk(heights)
    ensures GapAt(nodes', ids', nextId', chars', bytes', g', pos', path')
    ensures Concat(Datas(nodes', ids'), 0, |ids'|)
              == Concat(Datas(nodes, ids), 0, k) + Datas(nodes, ids)[k][..offB] + s + Datas(nodes, ids)[k][offB..]
                 + Concat(Datas(nodes, ids), k + 1, |ids|)
  {
    ghost var ds := Datas(nodes, ids);
    var nodes1, chars1, bytes1, tail, tailChars := TrimTail(nodes, ids, nextId, chars, bytes, k, e, path, pos, off, offB);
    var j;
    nodes', ids', nextId', chars', bytes', g', pos', path', j :=
      InsertChunks(nodes1, ids, nextId, chars1, bytes1, k + 1, pos, path, s, heights, 0);
    ghost var front, back := Concat(ds, 0, k) + ds[k][..offB] + s, Concat(ds, k + 1, |ids|);
    nodes', ids', nextId', chars', bytes', g', pos', path' :=
      InsertTail(nodes', ids', nextId', chars', bytes', g', pos', path', tail, tailChars, heights[j % |heights|], front, back);
  }

  /**
    The last step of a split insertion: the bytes cut off the node's end
    (`tail`), when there are any, go back in as a node of their own, after
    the inserted text.
   */
  method InsertTail(nodes: map<NodeId, Node>, ghost ids: seq<NodeId>, nextId: nat, chars: nat, bytes: nat,
                    ghost g: nat, pos: nat, path: seq<IterEntry>, tail: seq<uint8>, c: nat, height: uint8,
                    ghost front: seq<uint8>, ghost back: seq<uint8>)
      returns (nodes': map<NodeId, Node>, ghost ids': seq<NodeId>, nextId': nat, chars': nat, bytes': nat,
               ghost g': nat, pos': nat, path': seq<IterEntry>)
    requires GapAt(nodes, ids, nextId, chars, bytes, g, pos, path)
    requires |tail| <= NODE_STR_SIZE && ValidUtf8(tail) && c == CountChars(tail)
    requires 1 <= height as nat <= MAX_HEIGHT
    requires Around(Datas(nodes, ids), g, front, back)
    ensures GapAt(nodes', ids', nextId', chars', bytes', g', pos', path')
    ensures Concat(Datas(nodes', ids'), 0, |ids'|) == front + tail + back
  {
    if |tail| > 0 {
      nodes', ids', nextId', chars', bytes', pos', path' :=
        InsertNode(nodes, ids, nextId, chars, bytes, g, pos, path, tail, c, height);
      g' := g + 1;
      AroundInsert(Datas(nodes, ids), Datas(nodes', ids'), g, tail, front, back);
      AroundJoin(Datas(nodes', ids'), g', |ids'|, front + tail, back);
    } else {
      nodes', ids', nextId', chars', bytes', g', pos', path' := nodes, ids, nextId, chars, bytes, g, pos, path;
      AroundJoin(Datas(nodes, ids), g, |ids|, front, back);
      assert front + tail == front;
    }
  }

  /**
    An insertion that fits node `k`, as rope_insert_at_iter does it when
    there is room: the node's bytes after byte `offB` (its character `off`)
    move up by `|s|` and `s` is copied in between (the memmove and memcpy;
    the buffer beyond the new byte count keeps what it held), then the node
    is resized (`ResizeNode`). The text gains `s` at position `pos`.
   */
  method InsertHere(nodes: map<NodeId, Node>, ghost ids: seq<NodeId>, ghost nextId: nat, chars: nat, bytes: nat,
                    ghost k: nat, e: NodeId, path: seq<IterEntry>, ghost pos: nat, off: nat, offB: nat, s: seq<uint8>)
      returns (nodes': map<NodeId, Node>, chars': nat, bytes': nat)
    requires Inv(nodes, ids, nextId, chars, bytes) && k < |ids| && e == ids[k]
    requires PathAt(ids, Hts(nodes, ids), Lens(nodes, ids), k + 1, pos, path)
    requires off <= Lens(nodes, ids)[k] && pos == Pre(Lens(nodes, ids), k) + off
    requires offB == ByteOffset(Datas(nodes, ids)[k], off)
    requires ValidUtf8(s) && nodes[e].numBytes as nat + |s| <= NODE_STR_SIZE
    ensures Inv(nodes', ids, nextId, chars', bytes')
    ensures Concat(Datas(nodes', ids), 0, |ids|) == InsertChars(Concat(Datas(nodes, ids), 0, |ids|), pos, s)
  {
    ghost var ds := Datas(nodes, ids);
    ghost var d := ds[k];
    var n := nodes[e];
    assert NodeOk(n) && d == n.str[..n.numBytes] && (k > 0 ==> n.numBytes > 0);
    var num := n.numBytes as nat + |s|;
    var str := n.str[..offB] + s + n.str[offB..n.numBytes] + n.str[num..];
    assert str[..num] == InsertChars(d, off, s) by {
      assert str[..num] == n.str[..offB] + s + n.str[offB..n.numBytes];
      assert n.str[..offB] == d[..offB] && n.str[offB..n.numBytes] == d[offB..];
    }
    InsertCharsValid(d, off, s);
    nodes', chars', bytes' := ResizeNode(nodes, ids, nextId, chars, bytes, k, e, path, k + 1, pos,
                                         str, num as uint16, CountChars(s));
    ShapeValid(nodes, ids);
    InsertWithinAt(Datas(nodes, ids), Datas(nodes', ids), |ids|, k, off, s, str[..num], pos);
  }

  /**
    rope_insert_at_iter on the arena, for a position `pos` within the text:
    the search finds node `k` and the offset into it (`SeekIn`); the bytes
    go into that node when they fit (`InsertHere`), and otherwise the node
    is split and the bytes go into new nodes (`InsertSplit`). The text
    gains `s` at `pos`.
   */
  method InsertIn(nodes: map<NodeId, Node>, ghost ids: seq<NodeId>, nextId: nat, chars: nat, bytes: nat,
                  pos: nat, s: seq<uint8>, heights: seq<uint8>)
      returns (nodes': map<NodeId, Node>, ghost ids': seq<NodeId>, nextId': nat, chars': nat, bytes': nat)
    requires Inv(nodes, ids, nextId, chars, bytes) && pos <= chars && ValidUtf8(s) && HeightsOk(heights)
    ensures Inv(nodes', ids', nextId', chars', bytes')
    ensures Concat(Datas(nodes', ids'), 0, |ids'|) == InsertChars(Concat(Datas(nodes, ids), 0, |ids|), pos, s)
  {
    ghost var hts, lens, ds := Hts(nodes, ids), Lens(nodes, ids), Datas(nodes, ids);
    InvSearchable(nodes, ids, nextId, chars, bytes);
    var e, path, k := SeekIn(nodes, ids, hts, lens, pos);
    assert NodeOk(nodes[e]);
    PathBase(ids, hts, lens, k, pos, path);
    var off := path[0].skipSize;
    var n := nodes[e];
    assert ds[k] == n.str[..n.numBytes] && ValidUtf8(ds[k]) && lens[k] == CountChars(ds[k]);
    var offB := CountBytes(n.str, n.numBytes as nat, off);
    if n.numBytes as nat + |s| <= NODE_STR_SIZE {
      nodes', chars', bytes' := InsertHere(nodes, ids, nextId, chars, bytes, k, e, path, pos, off, offB, s);
      ids', nextId' := ids, nextId;
    } else {
      ghost var g, path';
      var pos';
      nodes', ids', nextId', chars', bytes', g, pos', path' :=
        InsertSplit(nodes, ids, nextId, chars, bytes, k, e, path, pos, off, offB, s, heights);
      ShapeValid(nodes, ids);
      SplitWithin(Datas(nodes, ids), |ids|, k, off, offB, s, pos);
    }
  }

  /**
    The memmove of a trim: the bytes of node `n` from its character
    `off + r` on move down to where its character `off` starts, and the
    byte count drops by the bytes of the `r` characters between. The
    buffer beyond the new byte count keeps what it held.
   */
  method CutOut(n: Node, off: nat, r: nat) returns (str: seq<uint8>, num: uint16)
    requires NodeOk(n) && off + r <= CountChars(InUse(n))
    ensures |str| == NODE_STR_SIZE && num <= n.numBytes
    ensures str[..num] == RemoveChars(InUse(n), off, r)
    ensures ValidUtf8(str[..num]) && CountChars(str[..num]) + r == CountChars(InUse(n))
    ensures num == 0 ==> r == CountChars(InUse(n))
  {
    var size := n.numBytes as nat;
    var lb, rb := CutRange(n, off, r);
    str := n.str[..lb] + n.str[lb + rb..size] + n.str[size - rb..];
    num := (size - rb) as uint16;
    CutResult(n.str, size, lb, rb, off, r, str, num as nat);
  }

  /** The bytes of node `n` taken by its characters before `off` (`lb`) and by the `r` characters after them (`rb`). */
  method CutRange(n: Node, off: nat, r: nat) returns (lb: nat, rb: nat)
    requires NodeOk(n) && off + r <= CountChars(InUse(n))
    ensures lb == ByteOffset(InUse(n), off) && lb + rb == ByteOffset(InUse(n), off + r)
  {
    ghost var d := InUse(n);
    var size := n.numBytes as nat;
    lb := CountBytes(n.str, size, off);
    SplitValid(d, off);
    assert n.str[lb..][..size - lb] == d[lb..];
    rb := CountBytes(n.str[lb..], size - lb, r);
    ByteOffsetAdd(d, off, r);
  }

  /**
    The buffer of `CutOut`: the bytes before the range, then those after
    it, then filler to the buffer's length. Its first `num` bytes are the
    text with the range removed.
   */
  lemma CutResult(buf: seq<uint8>, size: nat, lb: nat, rb: nat, off: nat, r: nat, str: seq<uint8>, num: nat)
    requires size <= |buf| == NODE_STR_SIZE && ValidUtf8(buf[..size]) && off + r <= CountChars(buf[..size])
    requires lb == ByteOffset(buf[..size], off) && lb + rb == ByteOffset(buf[..size], off + r)
    requires str == buf[..lb] + buf[lb + rb..size] + buf[size - rb..] && num == size - rb
    ensures |str| == NODE_STR_SIZE && num <= size
    ensures str[..num] == RemoveChars(buf[..size], off, r)
    ensures ValidUtf8(str[..num]) && CountChars(str[..num]) + r == CountChars(buf[..size])
    ensures num == 0 ==> r == CountChars(buf[..size])
  {
    var d := buf[..size];
    assert str[..num] == RemoveChars(d, off, r) by {
      assert str[..num] == buf[..lb] + buf[lb + rb..size];
      assert buf[..lb] == d[..lb] && buf[lb + rb..size] == d[lb + rb..];
    }
    RemoveCharsValid(d, off, r);
    assert num == 0 ==> r == CountChars(d) by {
      assert str[..0] == [];
    }
  }

  /**
    The trim in rope_del_at_iter: the `r` characters of node `k` from its
    character `off` on are removed (`CutOut`), then the node is resized
    (`ResizeNode`). `path` is the path of the gap just before or just
    after the node, for the position `pos` of the removed range, and
    stays so. The text loses those characters; the node starts where it
    did, and ends at `pos` when the rest of it went.
   */
  method TrimNode(nodes: map<NodeId, Node>, ghost ids: seq<NodeId>, ghost nextId: nat, chars: nat, bytes: nat,
                  ghost k: nat, e: NodeId, path: seq<IterEntry>, ghost g: nat, ghost pos: nat, off: nat, r: nat)
      returns (nodes': map<NodeId, Node>, chars': nat, bytes': nat)
    requires Inv(nodes, ids, nextId, chars, bytes) && k < |ids| && e == ids[k] && 0 < g && (g == k || g == k + 1)
    requires PathAt(ids, Hts(nodes, ids), Lens(nodes, ids), g, pos, path)
    requires off + r <= Lens(nodes, ids)[k] && (k > 0 ==> r < Lens(nodes, ids)[k])
    requires pos == Pre(Lens(nodes, ids), k) + off
    ensures Inv(nodes', ids, nextId, chars', bytes')
    ensures PathAt(ids, Hts(nodes', ids), Lens(nodes', ids), g, pos, path)
    ensures Pre(Lens(nodes', ids), k) == Pre(Lens(nodes, ids), k)
    ensures off + r == Lens(nodes, ids)[k] ==> Pre(Lens(nodes', ids), k + 1) == pos
    ensures Concat(Datas(nodes', ids), 0, |ids|) == RemoveChars(Concat(Datas(nodes, ids), 0, |ids|), pos, r)
  {
    ghost var ds, lens := Datas(nodes, ids), Lens(nodes, ids);
    var n := nodes[e];
    assert NodeOk(n) && InUse(n) == ds[k] && lens[k] == CountChars(ds[k]);
    var str, num := CutOut(n, off, r);
    ghost var x := str[..num];
    ghost var v := CountChars(x);
    nodes', chars', bytes' := ResizeNode(nodes, ids, nextId, chars, bytes, k, e, path, g, pos,
                                         str, num, -(r as int));
    assert Lens(nodes', ids) == lens[k := v];
    PreUpdate(lens, k, v, k);
    PreUpdate(lens, k, v, k + 1);
    assert Concat(Datas(nodes', ids), 0, |ids|) == RemoveChars(Concat(ds, 0, |ids|), pos, r) by {
      ShapeValid(nodes, ids);
      RemoveWithinAt(ds, Datas(nodes', ids), |ids|, k, off, r, x, pos);
    }
  }

  /**
    One level of the unlinking in rope_del_at_iter, for node `e` (the
    `k`th, of height `h` and `c` characters) and the path's entry `p` at
    level `L` of the gap before it: below `h` the path's node takes over
    `e`'s link and the characters it spanned beyond `e`; above, the path
    node's link spans `c` characters fewer.
   */
  method UnlinkLevel(ghost nodes0: map<NodeId, Node>, nodes: map<NodeId, Node>, ghost ids: seq<NodeId>,
                     ghost hts: seq<nat>, ghost lens: seq<nat>, ghost k: nat, e: NodeId, h: nat, c: nat,
                     L: nat, ghost H: nat, p: IterEntry)
      returns (nodes': map<NodeId, Node>)
    requires |ids| == |hts| == |lens| && 0 < k < |ids| && L < H == hts[0] && Distinct(ids)
    requires e == ids[k] && h == hts[k] && c == lens[k]
    requires EntriesOnly(nodes0, nodes) && p.node == ids[PrevAt(hts, k, L)]
    requires LevelsOk(nodes, Remove(ids, k), Remove(hts, k), Remove(lens, k), 0, L)
    requires LevelsOk(nodes, ids, hts, lens, L, H)
    ensures EntriesOnly(nodes0, nodes')
    ensures LevelsOk(nodes', Remove(ids, k), Remove(hts, k), Remove(lens, k), 0, L + 1)
    ensures LevelsOk(nodes', ids, hts, lens, L + 1, H)
  {
    if L < h {
      UnlinkStepBelow(nodes, ids, hts, lens, k, L, H);
      var x, z := nodes[p.node].nexts[L], nodes[e].nexts[L];
      var ep := SkipEntry(x.skipSize + z.skipSize - c, z.next);
      EntriesOnlyStep(nodes0, nodes, p.node, L, ep);
      nodes' := SetEntry(nodes, p.node, L, ep);
    } else {
      UnlinkStepAbove(nodes, ids, hts, lens, k, L, H);
      var x := nodes[p.node].nexts[L];
      var ep := SkipEntry(x.skipSize - c, x.next);
      EntriesOnlyStep(nodes0, nodes, p.node, L, ep);
      nodes' := SetEntry(nodes, p.node, L, ep);
    }
  }

  /**
    The unlinking in rope_del_at_iter: node `e`, the `k`th, leaves every
    level of the list (`UnlinkLevel`), with `path` the path of the gap
    just before it. Only skip entries change; `e` itself stays in the
    arena until it is freed.
   */
  method UnlinkIn(nodes: map<NodeId, Node>, ghost ids: seq<NodeId>, ghost hts: seq<nat>, ghost lens: seq<nat>,
                  ghost k: nat, e: NodeId, path: seq<IterEntry>, ghost pos: nat)
      returns (nodes': map<NodeId, Node>)
    requires |ids| == |hts| == |lens| && 0 < k < |ids| && Distinct(ids) && e == ids[k] && e in nodes
    requires hts[k] == |nodes[e].nexts| && 0 < hts[k] && lens[k] == nodes[e].nexts[0].skipSize
    requires PathAt(ids, hts, lens, k, pos, path)
    requires LevelsOk(nodes, ids, hts, lens, 0, hts[0])
    ensures LevelsOk(nodes', Remove(ids, k), Remove(hts, k), Remove(lens, k), 0, hts[0])
    ensures EntriesOnly(nodes, nodes')
  {
    var H, h, c := |path|, |nodes[e].nexts|, nodes[e].nexts[0].skipSize;
    nodes' := nodes;
    var L := 0;
    while L < H
      invariant L <= H && EntriesOnly(nodes, nodes')
      invariant LevelsOk(nodes', Remove(ids, k), Remove(hts, k), Remove(lens, k), 0, L)
      invariant LevelsOk(nodes', ids, hts, lens, L, H)
    {
      nodes' := UnlinkLevel(nodes, nodes', ids, hts, lens, k, e, h, c, L, H, path[L]);
      L := L + 1;
    }
  }

  /**
    A node emptied by a deletion, the `g`th, holding `c` characters,
    leaves the list (`UnlinkIn`) and the arena (it is freed), and the
    totals lose its characters and bytes. `path`, the path of the gap
    before it, is then the path of the gap where it was, and the text
    loses its `c` characters from `pos` on.
   */
  method UnlinkNode(nodes: map<NodeId, Node>, ghost ids: seq<NodeId>, ghost nextId: nat, chars: nat, bytes: nat,
                    ghost g: nat, e: NodeId, c: nat, path: seq<IterEntry>, ghost pos: nat)
      returns (nodes': map<NodeId, Node>, ghost ids': seq<NodeId>, chars': nat, bytes': nat)
    requires GapAt(nodes, ids, nextId, chars, bytes, g, pos, path) && g < |ids| && e == ids[g]
    requires c == Lens(nodes, ids)[g]
    ensures GapAt(nodes', ids', nextId, chars', bytes', g, pos, path) && |ids'| + 1 == |ids|
    ensures Concat(Datas(nodes', ids'), 0, |ids'|) == RemoveChars(Concat(Datas(nodes, ids), 0, |ids|), pos, c)
  {
    ghost var hts, lens, ds := Hts(nodes, ids), Lens(nodes, ids), Datas(nodes, ids);
    InvSearchable(nodes, ids, nextId, chars, bytes);
    TotalsCover(nodes, ids, nextId, chars, bytes, g);
    Level0(nodes, ids, g);
    var n := nodes[e];
    assert NodeOk(n) && InUse(n) == ds[g];
    var nodes1 := UnlinkIn(nodes, ids, hts, lens, g, e, path, pos);
    EntriesOnlyShape(nodes, nodes1, ids);
    nodes', ids' := nodes1 - {e}, Remove(ids, g);
    chars', bytes' := chars - c, bytes - n.numBytes as nat;
    UnlinkDone(nodes, nodes1, ids, nextId, chars, bytes, chars', bytes', g);
    PathUnlinked(ids, hts, lens, g, pos, path);
    PreRemove(lens, g, g);
    assert pos == Pre(Counts(ds), g) && c == CountChars(ds[g]);
    assert Concat(Datas(nodes', ids'), 0, |ids'|) == RemoveChars(Concat(ds, 0, |ids|), pos, c) by {
      ShapeValid(nodes, ids);
      RemoveNodeAt(ds, Datas(nodes', ids'), |ids'|, g, pos, c);
    }
  }

  /**
    The node after gap `g`, found as the level-0 successor of the path's
    level-0 node, and its character count, read from its level-0 skip
    size. There is one, as the gap lies before the end of the text.
   */
  method NodeAfter(nodes: map<NodeId, Node>, ghost ids: seq<NodeId>, ghost nextId: nat, ghost chars: nat,
                   ghost bytes: nat, ghost g: nat, path: seq<IterEntry>, ghost pos: nat)
      returns (e: NodeId, c: nat)
    requires GapAt(nodes, ids, nextId, chars, bytes, g, pos, path) && pos < chars
    ensures g < |ids| && e == ids[g] && c == Lens(nodes, ids)[g]
  {
    ghost var hts, lens := Hts(nodes, ids), Lens(nodes, ids);
    InvSearchable(nodes, ids, nextId, chars, bytes);
    assert g < |ids| by {
      if g == |ids| {
        assert false;
      }
    }
    PathBase(ids, hts, lens, g - 1, pos, path);
    Level0(nodes, ids, g - 1);
    Level0(nodes, ids, g);
    e := nodes[path[0].node].nexts[0].next.value;
    c := nodes[e].nexts[0].skipSize;
  }

  /**
    One round of the loop of rope_del_at_iter, at a node boundary (gap
    `g`, position `pos`) with `len` characters still to go: the node
    after the boundary goes if all its characters do (`UnlinkNode`), and
    is otherwise trimmed at its start (`TrimNode`). `removed` characters
    went: all of the node's, or the rest of the range. The text was
    `text` with `done` characters from `pos` on removed, and is then
    `text` with `done'` removed, `done + removed`.
   */
  method DeleteStep(nodes: map<NodeId, Node>, ghost ids: seq<NodeId>, ghost nextId: nat, chars: nat, bytes: nat,
                    ghost g: nat, path: seq<IterEntry>, ghost pos: nat, len: nat,
                    ghost text: seq<uint8>, ghost done: nat)
      returns (nodes': map<NodeId, Node>, ghost ids': seq<NodeId>, chars': nat, bytes': nat,
               removed: nat, ghost done': nat)
    requires GapAt(nodes, ids, nextId, chars, bytes, g, pos, path) && 0 < len
    requires ValidUtf8(text) && pos + done + len <= CountChars(text)
    requires Concat(Datas(nodes, ids), 0, |ids|) == RemoveChars(text, pos, done)
    ensures GapAt(nodes', ids', nextId, chars', bytes', g, pos, path)
    ensures removed <= len && (removed == len || |ids'| + 1 == |ids|) && done' == done + removed
    ensures Concat(Datas(nodes', ids'), 0, |ids'|) == RemoveChars(text, pos, done')
  {
    ghost var cur := Concat(Datas(nodes, ids), 0, |ids|);
    assert pos + len <= chars by {
      InvContent(nodes, ids, nextId, chars, bytes);
      RemoveCharsValid(text, pos, done);
    }
    var e, c := NodeAfter(nodes, ids, nextId, chars, bytes, g, path, pos);
    if len >= c {
      nodes', ids', chars', bytes' := UnlinkNode(nodes, ids, nextId, chars, bytes, g, e, c, path, pos);
      removed, done' := c, done + c;
      RemoveStep(text, pos, done, c, done', cur, Concat(Datas(nodes', ids'), 0, |ids'|));
    } else {
      nodes', chars', bytes' := TrimNode(nodes, ids, nextId, chars, bytes, g, e, path, g, pos, 0, len);
      ids', removed, done' := ids, len, done + len;
      RemoveStep(text, pos, done, len, done', cur, Concat(Datas(nodes', ids'), 0, |ids'|));
    }
  }

  /**
    The loop of rope_del_at_iter from a node boundary on: `num` more
    characters go from gap `g` (at position `pos`) on, a node at a time
    (`DeleteStep`). The text is `text` with `done` characters from `pos`
    on removed, and then with `done + num`.
   */
  method DeleteAfter(nodes: map<NodeId, Node>, ghost ids: seq<NodeId>, ghost nextId: nat, chars: nat, bytes: nat,
                     ghost g: nat, path: seq<IterEntry>, ghost pos: nat, num: nat,
                     ghost text: seq<uint8>, ghost done: nat)
      returns (nodes': map<NodeId, Node>, ghost ids': seq<NodeId>, chars': nat, bytes': nat, ghost gone: nat)
    requires GapAt(nodes, ids, nextId, chars, bytes, g, pos, path)
    requires ValidUtf8(text) && pos + done + num <= CountChars(text)
    requires Concat(Datas(nodes, ids), 0, |ids|) == RemoveChars(text, pos, done)
    ensures Inv(nodes', ids', nextId, chars', bytes') && gone == done + num
    ensures Concat(Datas(nodes', ids'), 0, |ids'|) == RemoveChars(text, pos, gone)
  {
    nodes', ids', chars', bytes' := nodes, ids, chars, bytes;
    var len := num;
    gone := done;
    while len > 0
      invariant GapAt(nodes', ids', nextId, chars', bytes', g, pos, path)
      invariant gone + len == done + num
      invariant Concat(Datas(nodes', ids'), 0, |ids'|) == RemoveChars(text, pos, gone)
      decreases len, |ids'| - g
    {
      var removed;
      nodes', ids', chars', bytes', removed, gone := DeleteStep(nodes', ids', nextId, chars', bytes', g, path, pos, len, text, gone);
      len := len - removed;
    }
  }

  /**
    iter_at_char_pos followed by a look at the node found: node `k`
    (`e`), the path of the gap after it for `pos` (`SeekIn`), the offset
    `off` of `pos` into the node and the node's character count `c`.
   */
  method Locate(nodes: map<NodeId, Node>, ghost ids: seq<NodeId>, ghost nextId: nat, ghost chars: nat,
                ghost bytes: nat, pos: nat)
      returns (e: NodeId, path: seq<IterEntry>, ghost k: nat, off: nat, c: nat)
    requires Inv(nodes, ids, nextId, chars, bytes) && pos <= chars
    ensures k < |ids| && e == ids[k] && c == Lens(nodes, ids)[k]
    ensures PathAt(ids, Hts(nodes, ids), Lens(nodes, ids), k + 1, pos, path)
    ensures pos == Pre(Lens(nodes, ids), k) + off && off <= c && (k > 0 ==> off > 0)
  {
    ghost var hts, lens := Hts(nodes, ids), Lens(nodes, ids);
    InvSearchable(nodes, ids, nextId, chars, bytes);
    e, path, k := SeekIn(nodes, ids, hts, lens, pos);
    PathBase(ids, hts, lens, k, pos, path);
    Level0(nodes, ids, k);
    off := path[0].skipSize;
    c := nodes[e].nexts[0].skipSize;
  }

  /**
    rope_del from inside node `k`, at its character `off`, which is not
    the node's last: the characters of the range that lie in node `k` are
    trimmed off (`TrimNode`), and when more are to go, they go from the
    end of node `k` on (`DeleteAfter`).
   */
  method DeleteFrom(nodes: map<NodeId, Node>, ghost ids: seq<NodeId>, ghost nextId: nat, chars: nat, bytes: nat,
                    ghost k: nat, e: NodeId, path: seq<IterEntry>, pos: nat, off: nat, c: nat, num: nat,
                    ghost text: seq<uint8>)
      returns (nodes': map<NodeId, Node>, ghost ids': seq<NodeId>, chars': nat, bytes': nat)
    requires Inv(nodes, ids, nextId, chars, bytes) && k < |ids| && e == ids[k] && c == Lens(nodes, ids)[k]
    requires PathAt(ids, Hts(nodes, ids), Lens(nodes, ids), k + 1, pos, path)
    requires pos == Pre(Lens(nodes, ids), k) + off && off < c && (k > 0 ==> off > 0)
    requires text == Concat(Datas(nodes, ids), 0, |ids|) && ValidUtf8(text) && pos + num <= CountChars(text)
    ensures Inv(nodes', ids', nextId, chars', bytes')
    ensures Concat(Datas(nodes', ids'), 0, |ids'|) == RemoveChars(text, pos, num)
  {
    var first := Min(num, c - off);
    nodes', chars', bytes' := TrimNode(nodes, ids, nextId, chars, bytes, k, e, path, k + 1, pos, off, first);
    ids' := ids;
    if first < num {
      ghost var gone;
      nodes', ids', chars', bytes', gone := DeleteAfter(nodes', ids, nextId, chars', bytes', k + 1, path, pos, num - first, text, first);
      assert gone == num;
    } else {
      assert first == num;
    }
  }

  /**
    rope_del on the arena, for a range within the text: the search finds
    the node `k` holding `pos` and the offset of `pos` in it (`Locate`).
    When `pos` is at the end of that node, the range goes from the gap
    after it on (`DeleteAfter`); otherwise it starts inside the node
    (`DeleteFrom`). The text loses the `num` characters from `pos` on.
   */
  method DeleteIn(nodes: map<NodeId, Node>, ghost ids: seq<NodeId>, ghost nextId: nat, chars: nat, bytes: nat,
                  pos: nat, num: nat)
      returns (nodes': map<NodeId, Node>, ghost ids': seq<NodeId>, chars': nat, bytes': nat)
    requires Inv(nodes, ids, nextId, chars, bytes) && pos + num <= chars
    ensures Inv(nodes', ids', nextId, chars', bytes')
    ensures Concat(Datas(nodes', ids'), 0, |ids'|) == RemoveChars(Concat(Datas(nodes, ids), 0, |ids|), pos, num)
  {
    ghost var text := Concat(Datas(nodes, ids), 0, |ids|);
    InvContent(nodes, ids, nextId, chars, bytes);
    var e, path, off, c;
    ghost var k;
    e, path, k, off, c := Locate(nodes, ids, nextId, chars, bytes, pos);
    if off < c {
      nodes', ids', chars', bytes' := DeleteFrom(nodes, ids, nextId, chars, bytes, k, e, path, pos, off, c, num, text);
    } else {
      nodes', ids', chars', bytes' := DeleteAtEnd(nodes, ids, nextId, chars, bytes, k, path, pos, num, text);
    }
  }

  /**
    rope_del from the end of node `k`: nothing of node `k` goes, and the
    `num` characters go from the gap after it on (`DeleteAfter`).
   */
  method DeleteAtEnd(nodes: map<NodeId, Node>, ghost ids: seq<NodeId>, ghost nextId: nat, chars: nat, bytes: nat,
                     ghost k: nat, path: seq<IterEntry>, pos: nat, num: nat, ghost text: seq<uint8>)
      returns (nodes': map<NodeId, Node>, ghost ids': seq<NodeId>, chars': nat, bytes': nat)
    requires Inv(nodes, ids, nextId, chars, bytes) && k < |ids| && pos == Pre(Lens(nodes, ids), k + 1)
    requires PathAt(ids, Hts(nodes, ids), Lens(nodes, ids), k + 1, pos, path)
    requires text == Concat(Datas(nodes, ids), 0, |ids|) && ValidUtf8(text) && pos + num <= CountChars(text)
    ensures Inv(nodes', ids', nextId, chars', bytes')
    ensures Concat(Datas(nodes', ids'), 0, |ids'|) == RemoveChars(text, pos, num)
  {
    ghost var gone;
    RemoveNothing(text, pos, 0, RemoveChars(text, pos, 0));
    nodes', ids', chars', bytes', gone := DeleteAfter(nodes, ids, nextId, chars, bytes, k + 1, path, pos, num, text, 0);
    assert gone == num;
  }

  /**
    rope_del on the arena: the range is first cut to the text (a start
    past the end stands for the end, and a range reaching past it ends
    there), then deleted (`DeleteIn`).
   */
  method DeleteRange(nodes: map<NodeId, Node>, ghost ids: seq<NodeId>, ghost nextId: nat, chars: nat, bytes: nat,
                     pos: nat, num: nat)
      returns (nodes': map<NodeId, Node>, ghost ids': seq<NodeId>, chars': nat, bytes': nat)
    requires Inv(nodes, ids, nextId, chars, bytes)
    ensures Inv(nodes', ids', nextId, chars', bytes')
    ensures Concat(Datas(nodes', ids'), 0, |ids'|) == RemoveChars(Concat(Datas(nodes, ids), 0, |ids|), pos, num)
    ensures chars' == chars - (Min(pos + num, chars) - Min(pos, chars))
  {
    ghost var text := Concat(Datas(nodes, ids), 0, |ids|);
    InvContent(nodes, ids, nextId, chars, bytes);
    var p := Min(pos, chars);
    var n := Min(num, chars - p);
    nodes', ids', chars', bytes' := DeleteIn(nodes, ids, nextId, chars, bytes, p, n);
    assert chars' == CountChars(Concat(Datas(nodes', ids'), 0, |ids'|)) by {
      InvContent(nodes', ids', nextId, chars', bytes');
    }
    ClampedRemove(text, pos, num, p, n, Concat(Datas(nodes', ids'), 0, |ids'|));
  }

  /**
    The walk of rope_copy: from the head along the level-0 links, each
    node is copied into a new arena under its id, links and bytes alike.
    The copy holds the list and nothing else, and keeps the invariant.
   */
  method CopyNodes(nodes: map<NodeId, Node>, ghost ids: seq<NodeId>, ghost nextId: nat, ghost chars: nat, ghost bytes: nat)
      returns (copy: map<NodeId, Node>)
    requires Inv(nodes, ids, nextId, chars, bytes)
    ensures Inv(copy, ids, nextId, chars, bytes)
    ensures Datas(copy, ids) == Datas(nodes, ids)
    ensures forall id :: id in copy ==> id in ids
  {
    ghost var ds := Datas(nodes, ids);
    InvChain(nodes, ids, nextId, chars, bytes);
    var iter: Option<NodeId> := Some(HEAD);
    ghost var i := 0;
    copy := map[];
    while iter.Some?
      invariant i <= |ids|
      invariant iter == if i < |ids| then Some(ids[i]) else None
      invariant forall j :: 0 <= j < i ==> ids[j] in copy && copy[ids[j]] == nodes[ids[j]]
      invariant forall id :: id in copy ==> id in nodes && id in ids[..i]
      decreases |ids| - i
    {
      ChainAt(nodes, ids, ds, i);
      var n := nodes[iter.value];
      copy := copy[iter.value := n];
      iter := n.nexts[0].next;
      i := i + 1;
    }
    InvCopied(nodes, copy, ids, nextId, chars, bytes);
  }

  /**
    The loop of ROPE_FOREACH: from the head along the level-0 links until
    null, collecting each node's in-use bytes and adding up its level-0
    skip size (`lens`) and its byte count.
   */
  method WalkSegments(nodes: map<NodeId, Node>, ghost ids: seq<NodeId>, ghost ds: seq<seq<uint8>>, ghost lens: seq<nat>)
      returns (segs: seq<seq<uint8>>, chars: nat, bytes: nat)
    requires Chain(nodes, ids, ds) && |lens| == |ids|
    requires forall i :: 0 <= i < |ids| ==> nodes[ids[i]].nexts[0].skipSize == lens[i]
    ensures segs == ds
    ensures chars == Pre(lens, |ids|) && bytes == |Concat(ds, 0, |ds|)|
  {
    var iter: Option<NodeId> := Some(HEAD);
    ghost var i := 0;
    segs, chars, bytes := [], 0, 0;
    while iter.Some?
      invariant i <= |ids|
      invariant iter == if i < |ids| then Some(ids[i]) else None
      invariant segs == ds[..i]
      invariant chars == Pre(lens, i) && bytes == |Concat(ds, 0, i)|
      decreases |ids| - i
    {
      ChainAt(nodes, ids, ds, i);
      var n := nodes[iter.value];
      assert ds[..i + 1] == ds[..i] + [n.str[..n.numBytes]];
      segs := segs + [n.str[..n.numBytes]];
      chars := chars + n.nexts[0].skipSize;
      bytes := bytes + n.numBytes as nat;
      iter := n.nexts[0].next;
      i := i + 1;
    }
    assert segs == ds;
  }

  /** ROPE_FOREACH over an arena that keeps the invariant: the nodes' texts in list order, and the totals. */
  method Segments(nodes: map<NodeId, Node>, ghost ids: seq<NodeId>, ghost nextId: nat, ghost numChars: nat, ghost numBytes: nat)
      returns (segs: seq<seq<uint8>>, chars: nat, bytes: nat)
    requires Inv(nodes, ids, nextId, numChars, numBytes)
    ensures segs == Datas(nodes, ids)
    ensures chars == numChars && bytes == numBytes
  {
    ghost var lens := Lens(nodes, ids);
    InvChain(nodes, ids, nextId, numChars, numBytes);
    forall i | 0 <= i < |ids|
      ensures nodes[ids[i]].nexts[0].skipSize == lens[i]
    {
      Level0(nodes, ids, i);
    }
    segs, chars, bytes := WalkSegments(nodes, ids, Datas(nodes, ids), lens);
  }

  class Rope {
    /** num_chars: the characters in the rope. */
    var numChars: nat
    /** num_bytes: the bytes those characters take up. */
    var numBytes: nat
    /** The nodes; `nodes[HEAD]` is the head stored inline in the rope. */
    var nodes: map<NodeId, Node>
    /** The id the next allocated node gets. */
    var nextId: nat
    /** The level-0 chain, head first. */
    ghost var order: seq<NodeId>

    ghost predicate Valid()
      reads this
    {
      Inv(nodes, order, nextId, numChars, numBytes)
    }

    /** The text: the in-use bytes of the nodes, in list order. It is well-formed UTF-8 and the totals describe it. */
    ghost function Content(): (c: seq<uint8>)
      reads this
      requires Valid()
      ensures ValidUtf8(c) && CountChars(c) == numChars && |c| == numBytes
    {
      InvContent(nodes, order, nextId, numChars, numBytes);
      Concat(Datas(nodes, order), 0, |order|)
    }

    /** rope_new: an empty rope, a head of height 1 and nothing else. */
    constructor ()
      ensures Valid() && Content() == [] && numChars == 0 && numBytes == 0
    {
      numChars, numBytes := 0, 0;
      nodes := map[HEAD := EmptyNode(1)];
      nextId := HEAD + 1;
      order := [HEAD];
      new;
      EmptyInv(EmptyNode(1));
    }

    /**
      rope_new_with_utf8: a new rope, into which the C string `str` is
      inserted at position 0. The rope holds the string when it is valid
      UTF-8 and is empty otherwise, as the insertion then does nothing.
      `heights` stands for the random heights of the new nodes.
     */
    constructor WithUtf8(str: seq<uint8>, heights: seq<uint8>)
      requires HeightsOk(heights)
      ensures Valid()
      ensures Content() == if ValidUtf8(CStr(str)) then CStr(str) else []
    {
      var empty := map[HEAD := EmptyNode(1)];
      EmptyInv(EmptyNode(1));
      var ok, nb, nc := ScanCStr(str);
      if ok {
        ghost var ids;
        var nodes', nextId', chars', bytes';
        nodes', ids, nextId', chars', bytes' := InsertIn(empty, [HEAD], HEAD + 1, 0, 0, 0, str[..nb], heights);
        assert InsertChars([], 0, str[..nb]) == str[..nb];
        numChars, numBytes, nodes, nextId, order := chars', bytes', nodes', nextId', ids;
      } else {
        numChars, numBytes, nodes, nextId, order := 0, 0, empty, HEAD + 1, [HEAD];
      }
    }

    /**
      rope_copy: a new rope with copies of this rope's nodes (`CopyNodes`)
      and the same totals, so the same text; the two share nothing, and
      changing one leaves the other as it is.
     */
    method Copy() returns (r: Rope)
      requires Valid()
      ensures fresh(r) && r.Valid()
      ensures r.Content() == Content() && r.numChars == numChars && r.numBytes == numBytes
    {
      var copy := CopyNodes(nodes, order, nextId, numChars, numBytes);
      r := new Rope.Holding(copy, order, nextId, numChars, numBytes);
    }

    /** A rope over an arena that already keeps the invariant. */
    constructor Holding(nodes: map<NodeId, Node>, ghost order: seq<NodeId>, nextId: nat, numChars: nat, numBytes: nat)
      requires Inv(nodes, order, nextId, numChars, numBytes)
      ensures Valid() && Content() == Concat(Datas(nodes, order), 0, |order|)
      ensures this.numChars == numChars && this.numBytes == numBytes
    {
      this.nodes, this.order, this.nextId, this.numChars, this.numBytes := nodes, order, nextId, numChars, numBytes;
    }

    /** rope_char_count. */
    function CharCount(): (n: nat)
      reads this
      requires Valid()
      ensures n == CountChars(Content())
    {
      numChars
    }

    /** rope_byte_count. */
    function ByteCount(): (n: nat)
      reads this
      requires Valid()
      ensures n == |Content()|
    {
      numBytes
    }

    /** rope_node_data: the buffer of a node of the list, whose in-use prefix is well-formed. */
    function NodeData(id: NodeId): (r: seq<uint8>)
      reads this
      requires Valid() && id in order && id in nodes
      ensures |r| == NODE_STR_SIZE && ValidUtf8(r[..nodes[id].numBytes])
    {
      nodes[id].str
    }

    /** rope_node_num_bytes: the bytes in use, at most the capacity, and never none except in the head. */
    function NodeNumBytes(id: NodeId): (r: nat)
      reads this
      requires Valid() && id in order && id in nodes
      ensures r <= NODE_STR_SIZE && r == |InUse(nodes[id])|
      ensures id != HEAD ==> r > 0
    {
      nodes[id].numBytes as nat
    }

    /** rope_node_chars: read from the level-0 skip size, it is the number of characters in the node. */
    function NodeChars(id: NodeId): (r: nat)
      reads this
      requires Valid() && id in order && id in nodes
      ensures r == CountChars(InUse(nodes[id]))
    {
      RopeState.NodeChars(nodes, order, IndexOf(order, id));
      nodes[id].nexts[0].skipSize
    }

    /**
      ROPE_FOREACH: visits the nodes by following the level-0 links from the
      head until the null link. It meets the chain in order, so the bytes it
      collects are the text, and the characters and bytes it adds up are the
      rope's totals.
     */
    method Foreach() returns (segs: seq<seq<uint8>>, chars: nat, bytes: nat)
      requires Valid()
      ensures segs == Datas(nodes, order) && Concat(segs, 0, |segs|) == Content()
      ensures chars == numChars && bytes == numBytes
    {
      segs, chars, bytes := Segments(nodes, order, nextId, numChars, numBytes);
    }

    /**
      rope_write_cstr: copies the text into `dest` and terminates it with a
      NUL; returns the bytes written, the byte count plus one. Nothing of
      `dest` after that is touched.
     */
    method WriteCstr(dest: array<uint8>) returns (n: nat)
      requires Valid() && numBytes < dest.Length
      modifies dest
      ensures n == numBytes + 1
      ensures dest[..n] == Content() + [0]
      ensures dest[n..] == old(dest[n..])
    {
      InvChain(nodes, order, nextId, numChars, numBytes);
      var at := CopyChain(nodes, order, Datas(nodes, order), dest);
      dest[at] := 0;
      n := at + 1;
      assert dest[..n] == dest[..at] + [0];
    }

    /** rope_create_cstr: a new buffer of byte-count-plus-one bytes holding the text and a NUL. */
    method CreateCstr() returns (s: array<uint8>)
      requires Valid()
      ensures fresh(s) && s[..] == Content() + [0]
    {
      s := new uint8[numBytes + 1];
      var n := WriteCstr(s);
      assert s[..] == s[..n];
    }

    /**
      rope_insert: the C string `str` goes in at character `pos`, or at
      the end when `pos` is past it. Bytes that are not valid UTF-8 are
      refused with `InvalidUtf8` and leave the rope as it was. `heights`
      stands for the random heights of the nodes the insertion creates.
     */
    method Insert(pos: nat, str: seq<uint8>, heights: seq<uint8>) returns (r: RopeResult)
      requires Valid() && HeightsOk(heights)
      modifies this
      ensures Valid()
      ensures r == InvalidUtf8 <==> !ValidUtf8(CStr(str))
      ensures r == InvalidUtf8 ==> unchanged(this)
      ensures r == Ok ==> Content() == InsertChars(old(Content()), pos, CStr(str))
      ensures r == Ok ==> numChars == old(numChars) + CountChars(CStr(str)) && numBytes == old(numBytes) + |CStr(str)|
    {
      var ok, nb, nc := ScanCStr(str);
      if !ok {
        return InvalidUtf8;
      }
      ghost var text := Content();
      var p := Min(pos, numChars);
      ByteOffsetClamp(text, pos);
      nodes, order, nextId, numChars, numBytes := InsertIn(nodes, order, nextId, numChars, numBytes, p, str[..nb], heights);
      InsertCharsValid(text, pos, str[..nb]);
      r := Ok;
    }

    /**
      rope_del: the `num` characters from `pos` on go; the part of the
      range past the end of the text is ignored.
     */
    method Delete(pos: nat, num: nat)
      requires Valid()
      modifies this
      ensures Valid()
      ensures Content() == RemoveChars(old(Content()), pos, num)
      ensures numChars == old(numChars) - (Min(pos + num, old(numChars)) - Min(pos, old(numChars)))
    {
      nodes, order, numChars, numBytes := DeleteRange(nodes, order, nextId, numChars, numBytes, pos, num);
    }

    /** iter_at_char_pos, on the rope: see `SeekIn`. */
    method Seek(pos: nat) returns (e: NodeId, path: seq<IterEntry>, ghost k: nat)
      requires Valid() && pos <= numChars
      ensures k < |order| && e == order[k]
      ensures PathAt(order, Hts(nodes, order), Lens(nodes, order), k + 1, pos, path)
      ensures Pre(Lens(nodes, order), k) <= pos <= Pre(Lens(nodes, order), k + 1)
      ensures k > 0 ==> Pre(Lens(nodes, order), k) < pos
    {
      InvSearchable(nodes, order, nextId, numChars, numBytes);
      e, path, k := SeekIn(nodes, order, Hts(nodes, order), Lens(nodes, order), pos);
    }
  }
}
