/**
  The representation invariant of a rope, stated on its arena of nodes and
  its level-0 chain of node ids, and the steps that keep it: giving one
  node new bytes, growing the head by a level, linking a new node in and
  unlinking one. The rope's methods make these changes one skip entry at
  a time; each lemma here says that one such change, or the end of a
  series of them, leaves the structure correct.
 */
module RopeState {

  import opened Utf8
  import opened SkipIndex
  import opened RopeNodes
  import opened SkipLinks
  import opened Chunks

  /** The chain starts at the head, names each node once, and every node it names is well formed. */
  ghost predicate Shape(nodes: map<NodeId, Node>, ids: seq<NodeId>) {
    && 0 < |ids| && ids[0] == HEAD && Distinct(ids)
    && forall i :: 0 <= i < |ids| ==> ids[i] in nodes && NodeOk(nodes[ids[i]])
  }

  /** The in-use bytes of the chain's nodes, in order. */
  ghost function Datas(nodes: map<NodeId, Node>, ids: seq<NodeId>): (ds: seq<seq<uint8>>)
    requires Shape(nodes, ids)
    ensures |ds| == |ids|
    ensures forall i :: 0 <= i < |ids| ==> ds[i] == InUse(nodes[ids[i]])
  {
    seq(|ids|, i requires 0 <= i < |ids| => InUse(nodes[ids[i]]))
  }

  /** The heights of the chain's nodes, in order. */
  ghost function Hts(nodes: map<NodeId, Node>, ids: seq<NodeId>): (hts: seq<nat>)
    requires Shape(nodes, ids)
    ensures |hts| == |ids|
    ensures forall i :: 0 <= i < |ids| ==> hts[i] == nodes[ids[i]].height as nat
  {
    seq(|ids|, i requires 0 <= i < |ids| => nodes[ids[i]].height as nat)
  }

  /** The character counts of the chain's nodes, in order. */
  ghost function Lens(nodes: map<NodeId, Node>, ids: seq<NodeId>): (lens: seq<nat>)
    requires Shape(nodes, ids)
    ensures |lens| == |ids|
  {
    Counts(Datas(nodes, ids))
  }

  /** Levels `lo` up to `hi` are linked correctly. (Bound to a name, as in `GapAt`, so that it is checked as one fact.) */
  ghost predicate LevelsOk(nodes: map<NodeId, Node>, ids: seq<NodeId>, hts: seq<nat>, lens: seq<nat>, lo: nat, hi: nat)
    requires |ids| == |hts| == |lens|
  {
    var ok := forall L :: lo <= L < hi ==> LevelOk(nodes, ids, hts, lens, L);
    ok
  }

  /** No node is taller than the head, and every level of the head is linked correctly. */
  ghost predicate Linked(nodes: map<NodeId, Node>, ids: seq<NodeId>)
    requires Shape(nodes, ids)
  {
    var hts := Hts(nodes, ids);
    && (forall i :: 0 <= i < |ids| ==> hts[i] <= hts[0])
    && LevelsOk(nodes, ids, hts, Lens(nodes, ids), 0, hts[0])
  }

  /** The invariant of a rope with these nodes, this chain, this next fresh id and these totals. */
  ghost predicate Inv(nodes: map<NodeId, Node>, ids: seq<NodeId>, nextId: nat, numChars: nat, numBytes: nat) {
    var ok :=
      && Shape(nodes, ids)
      && Linked(nodes, ids)
      && (forall i :: 0 < i < |ids| ==> nodes[ids[i]].numBytes > 0)
      && (forall id :: id in nodes ==> id < nextId)
      && numChars == Pre(Lens(nodes, ids), |ids|)
      && numBytes == |Concat(Datas(nodes, ids), 0, |ids|)|;
    ok
  }

  /** A rope of the head alone, a node of height 1 with no bytes, is well formed and empty. */
  lemma EmptyInv(n: Node)
    requires NodeOk(n) && InUse(n) == [] && n.nexts == [SkipEntry(0, None)]
    ensures Inv(map[HEAD := n], [HEAD], HEAD + 1, 0, 0)
    ensures Datas(map[HEAD := n], [HEAD]) == [[]]
  {
    var nodes, ids := map[HEAD := n], [HEAD];
    assert Shape(nodes, ids);
    var hts, lens := Hts(nodes, ids), Lens(nodes, ids);
    assert hts == [1] && Datas(nodes, ids) == [[]];
    assert lens == [0];
    assert NextAt(hts, 0, 0) == 1;
    assert EntryOk(nodes, ids, hts, lens, 0, 0);
    assert LevelOk(nodes, ids, hts, lens, 0);
    LinkedFrom(nodes, ids, hts, lens);
    InvIntro(nodes, ids, HEAD + 1, 0, 0);
  }

  /** The invariant from its parts, so that callers need not unfold it. */
  lemma InvIntro(nodes: map<NodeId, Node>, ids: seq<NodeId>, nextId: nat, numChars: nat, numBytes: nat)
    requires Shape(nodes, ids) && Linked(nodes, ids)
    requires forall i :: 0 < i < |ids| ==> nodes[ids[i]].numBytes > 0
    requires forall id :: id in nodes ==> id < nextId
    requires numChars == Pre(Lens(nodes, ids), |ids|) && numBytes == |Concat(Datas(nodes, ids), 0, |ids|)|
    ensures Inv(nodes, ids, nextId, numChars, numBytes)
  {
  }

  /**
    `path` is the update path of gap `g` (the point just before node `g`)
    for character position `pos`: at each level of the head, the last node
    before the gap that reaches that level, and the characters from that
    node's start to `pos`.
   */
  ghost predicate PathAt(ids: seq<NodeId>, hts: seq<nat>, lens: seq<nat>, g: nat, pos: nat, path: seq<IterEntry>)
    requires |ids| == |hts| == |lens| && 0 < g <= |ids|
  {
    && |path| == hts[0]
    && forall L :: 0 <= L < |path| ==>
         path[L].node == ids[PrevAt(hts, g, L)] && path[L].skipSize + Pre(lens, PrevAt(hts, g, L)) == pos
  }

  /** An update path stays one under equal chains and positions (stated on the caller's own terms). */
  lemma PathAtSame(ids: seq<NodeId>, hts: seq<nat>, lens: seq<nat>, hts': seq<nat>, lens': seq<nat>,
                   g: nat, pos: nat, pos': nat, path: seq<IterEntry>)
    requires |ids| == |hts| == |lens| && 0 < g <= |ids| && hts' == hts && lens' == lens && pos' == pos
    requires PathAt(ids, hts, lens, g, pos, path)
    ensures |ids| == |hts'| == |lens'| && PathAt(ids, hts', lens', g, pos', path)
  {
  }

  /**
    A well-formed rope together with the update path of its gap `g`, which
    lies at character `pos`. (The body is bound to a name so that a caller
    that has it checks it as one fact rather than part by part.)
   */
  ghost predicate GapAt(nodes: map<NodeId, Node>, ids: seq<NodeId>, nextId: nat, numChars: nat, numBytes: nat,
                        g: nat, pos: nat, path: seq<IterEntry>) {
    var ready :=
      && Inv(nodes, ids, nextId, numChars, numBytes) && 0 < g <= |ids| && pos == Pre(Lens(nodes, ids), g)
      && PathAt(ids, Hts(nodes, ids), Lens(nodes, ids), g, pos, path);
    ready
  }

  // ---------------------------------------------------------------------------
  // What the invariant gives

  lemma ShapeValid(nodes: map<NodeId, Node>, ids: seq<NodeId>)
    requires Shape(nodes, ids)
    ensures AllValid(Datas(nodes, ids))
  {
    var ds := Datas(nodes, ids);
    forall k | 0 <= k < |ds|
      ensures ValidUtf8(ds[k])
    {
      assert NodeOk(nodes[ids[k]]);
    }
  }

  /** The text is valid UTF-8 and holds as many characters as the totals say. */
  lemma InvContent(nodes: map<NodeId, Node>, ids: seq<NodeId>, nextId: nat, numChars: nat, numBytes: nat)
    requires Inv(nodes, ids, nextId, numChars, numBytes)
    ensures ValidUtf8(Concat(Datas(nodes, ids), 0, |ids|))
    ensures CountChars(Concat(Datas(nodes, ids), 0, |ids|)) == numChars
  {
    ShapeValid(nodes, ids);
    ConcatValid(Datas(nodes, ids), |ids|);
  }

  /** At level 0 every node links to the next node of the chain and spans its own characters. */
  lemma Level0(nodes: map<NodeId, Node>, ids: seq<NodeId>, i: nat)
    requires Shape(nodes, ids) && Linked(nodes, ids) && i < |ids|
    ensures nodes[ids[i]].nexts[0] == SkipEntry(Lens(nodes, ids)[i], if i + 1 < |ids| then Some(ids[i + 1]) else None)
  {
    var hts, lens := Hts(nodes, ids), Lens(nodes, ids);
    assert NodeOk(nodes[ids[0]]) && NodeOk(nodes[ids[i]]);
    assert LevelOk(nodes, ids, hts, lens, 0);
    assert EntryOk(nodes, ids, hts, lens, i, 0);
    if i + 1 < |ids| {
      assert NodeOk(nodes[ids[i + 1]]);
    }
    NextAtUnique(hts, i, 0, i + 1);
  }

  /** What a search from the head relies on: every level of the head is linked correctly. */
  ghost predicate Searchable(nodes: map<NodeId, Node>, ids: seq<NodeId>, hts: seq<nat>, lens: seq<nat>) {
    && 0 < |ids| == |hts| == |lens| && ids[0] == HEAD && HEAD in nodes
    && 0 < hts[0] == |nodes[HEAD].nexts|
    && (forall i :: 0 <= i < |ids| ==> 0 < hts[i] <= hts[0])
    && LevelsOk(nodes, ids, hts, lens, 0, hts[0])
  }

  lemma InvSearchable(nodes: map<NodeId, Node>, ids: seq<NodeId>, nextId: nat, numChars: nat, numBytes: nat)
    requires Inv(nodes, ids, nextId, numChars, numBytes)
    ensures Searchable(nodes, ids, Hts(nodes, ids), Lens(nodes, ids))
    ensures numChars == Pre(Lens(nodes, ids), |ids|)
  {
    assert NodeOk(nodes[ids[0]]);
  }

  /**
    The levels from `lo` up of a search for position `pos` that stands at
    node `i`: level `M` was left from node `idx[M]`, whose level-`M` link
    reaches past node `i` and not below `pos`, and `path` records that node
    and the offset of `pos` from its start.
   */
  ghost predicate Recorded(ids: seq<NodeId>, hts: seq<nat>, lens: seq<nat>, pos: nat,
                           path: seq<IterEntry>, idx: seq<nat>, i: nat, lo: nat)
    requires |ids| == |hts| == |lens| && i < |ids| && |idx| == |path|
  {
    forall M: nat :: lo <= M < |path| ==>
      && idx[M] <= i < NextAt(hts, idx[M], M) && hts[idx[M]] > M
      && pos <= Pre(lens, NextAt(hts, idx[M], M))
      && path[M].node == ids[idx[M]] && path[M].skipSize + Pre(lens, idx[M]) == pos
  }

  /** Moving right on level `L` to a node that starts before `pos` keeps the levels above. */
  lemma SeekRight(ids: seq<NodeId>, hts: seq<nat>, lens: seq<nat>, pos: nat,
                  path: seq<IterEntry>, idx: seq<nat>, i: nat, L: nat)
    requires |ids| == |hts| == |lens| && i < |ids| && |idx| == |path|
    requires Recorded(ids, hts, lens, pos, path, idx, i, L + 1)
    requires NextAt(hts, i, L) < |ids| && Pre(lens, NextAt(hts, i, L)) < pos
    ensures Recorded(ids, hts, lens, pos, path, idx, NextAt(hts, i, L), L + 1)
  {
    var j := NextAt(hts, i, L);
    forall M: nat | L + 1 <= M < |path|
      ensures j < NextAt(hts, idx[M], M)
    {
      if NextAt(hts, idx[M], M) <= j {
        PreMono(lens, NextAt(hts, idx[M], M), j);
      }
    }
  }

  /** Dropping from level `L` at node `i`, whose link there reaches `pos`, records level `L`. */
  lemma SeekDown(ids: seq<NodeId>, hts: seq<nat>, lens: seq<nat>, pos: nat,
                 path: seq<IterEntry>, idx: seq<nat>, i: nat, L: nat, offset: nat)
    requires |ids| == |hts| == |lens| && i < |ids| && |idx| == |path| && L < |path| && hts[i] > L
    requires Recorded(ids, hts, lens, pos, path, idx, i, L + 1)
    requires offset + Pre(lens, i) == pos && pos <= Pre(lens, NextAt(hts, i, L))
    ensures Recorded(ids, hts, lens, pos, path[L := IterEntry(ids[i], offset)], idx[L := i], i, L)
  {}

  /** A search that has recorded every level at node `k` ends with the update path just after node `k`. */
  lemma SeekDone(ids: seq<NodeId>, hts: seq<nat>, lens: seq<nat>, pos: nat,
                 path: seq<IterEntry>, idx: seq<nat>, k: nat)
    requires |ids| == |hts| == |lens| && k < |ids| && |idx| == |path| == hts[0] > 0
    requires forall i :: 0 <= i < |hts| ==> hts[i] > 0
    requires Recorded(ids, hts, lens, pos, path, idx, k, 0)
    ensures PathAt(ids, hts, lens, k + 1, pos, path)
    ensures pos <= Pre(lens, k + 1)
  {
    forall M: nat | M < hts[0]
      ensures path[M].node == ids[PrevAt(hts, k + 1, M)]
      ensures path[M].skipSize + Pre(lens, PrevAt(hts, k + 1, M)) == pos
    {
      PrevAtUnique(hts, k + 1, M, idx[M]);
    }
    assert pos <= Pre(lens, NextAt(hts, idx[0], 0)) && idx[0] <= k < NextAt(hts, idx[0], 0);
    assert idx[0] == k;
    NextAtUnique(hts, k, 0, k + 1);
  }

  /** Each node's characters and bytes are part of the totals. */
  lemma TotalsCover(nodes: map<NodeId, Node>, ids: seq<NodeId>, nextId: nat, numChars: nat, numBytes: nat, k: nat)
    requires Inv(nodes, ids, nextId, numChars, numBytes) && k < |ids|
    ensures Lens(nodes, ids)[k] <= numChars && |Datas(nodes, ids)[k]| <= numBytes
  {
    PreMono(Lens(nodes, ids), k + 1, |ids|);
    ConcatAround(Datas(nodes, ids), k);
  }

  /** At level 0 the path of the gap after node `k` is node `k` itself and the offset into it. */
  lemma PathBase(ids: seq<NodeId>, hts: seq<nat>, lens: seq<nat>, k: nat, pos: nat, path: seq<IterEntry>)
    requires |ids| == |hts| == |lens| && k < |ids| && 0 < hts[k] && 0 < hts[0]
    requires PathAt(ids, hts, lens, k + 1, pos, path)
    ensures 0 < |path| && path[0].node == ids[k] && path[0].skipSize + Pre(lens, k) == pos
  {
    PrevAtUnique(hts, k + 1, 0, k);
  }

  /** A node's level-0 skip size is the number of characters in its bytes. */
  lemma NodeChars(nodes: map<NodeId, Node>, ids: seq<NodeId>, i: nat)
    requires Shape(nodes, ids) && Linked(nodes, ids) && i < |ids|
    ensures nodes[ids[i]].nexts[0].skipSize == CountChars(InUse(nodes[ids[i]]))
  {
    Level0(nodes, ids, i);
  }

  /** What a walk along the level-0 links relies on: they visit the chain in order and end in null, and node `i` holds the bytes `ds[i]`. */
  ghost predicate Chain(nodes: map<NodeId, Node>, ids: seq<NodeId>, ds: seq<seq<uint8>>) {
    && 0 < |ids| == |ds| && ids[0] == HEAD
    && forall i :: 0 <= i < |ids| ==>
         && ids[i] in nodes && nodes[ids[i]].numBytes as nat <= |nodes[ids[i]].str| && 0 < |nodes[ids[i]].nexts|
         && nodes[ids[i]].str[..nodes[ids[i]].numBytes] == ds[i]
         && nodes[ids[i]].nexts[0].next == if i + 1 < |ids| then Some(ids[i + 1]) else None
  }

  /** Node `i` of a chain, spelled out. */
  lemma ChainAt(nodes: map<NodeId, Node>, ids: seq<NodeId>, ds: seq<seq<uint8>>, i: nat)
    requires Chain(nodes, ids, ds) && i < |ids|
    ensures ids[i] in nodes && nodes[ids[i]].numBytes as nat <= |nodes[ids[i]].str| && 0 < |nodes[ids[i]].nexts|
    ensures nodes[ids[i]].str[..nodes[ids[i]].numBytes] == ds[i]
    ensures nodes[ids[i]].nexts[0].next == if i + 1 < |ids| then Some(ids[i + 1]) else None
  {
  }

  lemma InvChain(nodes: map<NodeId, Node>, ids: seq<NodeId>, nextId: nat, numChars: nat, numBytes: nat)
    requires Inv(nodes, ids, nextId, numChars, numBytes)
    ensures Chain(nodes, ids, Datas(nodes, ids))
  {
    forall i | 0 <= i < |ids|
      ensures nodes[ids[i]].nexts[0].next == if i + 1 < |ids| then Some(ids[i + 1]) else None
    {
      Level0(nodes, ids, i);
    }
  }

  /** An arena holding the chain's nodes as they are, and nothing the old arena lacked, keeps the invariant. */
  lemma InvCopied(nodes: map<NodeId, Node>, copy: map<NodeId, Node>, ids: seq<NodeId>, nextId: nat, chars: nat, bytes: nat)
    requires Inv(nodes, ids, nextId, chars, bytes)
    requires forall i :: 0 <= i < |ids| ==> ids[i] in copy && copy[ids[i]] == nodes[ids[i]]
    requires copy.Keys <= nodes.Keys
    ensures Inv(copy, ids, nextId, chars, bytes)
    ensures Datas(copy, ids) == Datas(nodes, ids)
  {
    assert Shape(copy, ids);
    var hts, lens := Hts(nodes, ids), Lens(nodes, ids);
    assert Datas(copy, ids) == Datas(nodes, ids);
    assert Hts(copy, ids) == hts;
    assert Lens(copy, ids) == lens;
    forall L | 0 <= L < hts[0]
      ensures LevelOk(copy, ids, hts, lens, L)
    {
      assert LevelOk(nodes, ids, hts, lens, L);
      LevelFrame(nodes, copy, ids, hts, lens, L);
    }
    LinkedFrom(copy, ids, hts, lens);
    InvIntro(copy, ids, nextId, chars, bytes);
  }

  // ---------------------------------------------------------------------------
  // Single changes to the arena

  /** Writing one skip entry changes neither the chain's bytes nor its heights. */
  lemma SetEntryKeeps(nodes: map<NodeId, Node>, ids: seq<NodeId>, id: NodeId, L: nat, e: SkipEntry)
    requires Shape(nodes, ids) && id in nodes && L < |nodes[id].nexts|
    ensures var nodes' := SetEntry(nodes, id, L, e);
            && nodes'.Keys == nodes.Keys && Shape(nodes', ids)
            && Datas(nodes', ids) == Datas(nodes, ids) && Hts(nodes', ids) == Hts(nodes, ids)
  {
    var nodes' := SetEntry(nodes, id, L, e);
    forall i | 0 <= i < |ids|
      ensures ids[i] in nodes' && NodeOk(nodes'[ids[i]])
      ensures InUse(nodes'[ids[i]]) == InUse(nodes[ids[i]]) && nodes'[ids[i]].height == nodes[ids[i]].height
    {
      assert NodeOk(nodes[ids[i]]);
    }
  }

  /** Giving node `k` new bytes changes only its bytes and no link. */
  lemma SetData(nodes: map<NodeId, Node>, ids: seq<NodeId>, lens: seq<nat>, H: nat, k: nat, str: seq<uint8>, num: uint16)
    requires Shape(nodes, ids) && k < |ids| && |lens| == |ids|
    requires |str| == NODE_STR_SIZE && num as nat <= NODE_STR_SIZE && ValidUtf8(str[..num])
    requires LevelsOk(nodes, ids, Hts(nodes, ids), lens, 0, H)
    ensures var nodes' := nodes[ids[k] := nodes[ids[k]].(str := str, numBytes := num)];
            && nodes'.Keys == nodes.Keys && Shape(nodes', ids)
            && Datas(nodes', ids) == Datas(nodes, ids)[k := str[..num]] && Hts(nodes', ids) == Hts(nodes, ids)
            && LevelsOk(nodes', ids, Hts(nodes, ids), lens, 0, H)
  {
    var nodes' := nodes[ids[k] := nodes[ids[k]].(str := str, numBytes := num)];
    forall i | 0 <= i < |ids|
      ensures ids[i] in nodes' && NodeOk(nodes'[ids[i]]) && nodes'[ids[i]].nexts == nodes[ids[i]].nexts
      ensures InUse(nodes'[ids[i]]) == (if i == k then str[..num] else InUse(nodes[ids[i]]))
      ensures nodes'[ids[i]].height == nodes[ids[i]].height
    {
      assert NodeOk(nodes[ids[i]]);
      if i < k {
        assert ids[i] != ids[k];
      } else if i > k {
        assert ids[k] != ids[i];
      }
    }
    forall L | 0 <= L < H
      ensures LevelOk(nodes', ids, Hts(nodes, ids), lens, L)
    {
      LevelFrame(nodes, nodes', ids, Hts(nodes, ids), lens, L);
    }
  }

  /** Patching the skip entry that spans node `k` at level `L`, after `k` got `v` characters. */
  lemma ResizeStep(nodes: map<NodeId, Node>, ids: seq<NodeId>, hts: seq<nat>, lens: seq<nat>,
                   k: nat, v: nat, L: nat, H: nat, id: NodeId)
    requires |ids| == |hts| == |lens| && k < |ids| && L < H == hts[0] && Distinct(ids)
    requires LevelsOk(nodes, ids, hts, lens[k := v], 0, L) && LevelsOk(nodes, ids, hts, lens, L, H)
    requires id == ids[PrevAt(hts, k + 1, L)]
    ensures id in nodes && L < |nodes[id].nexts| && nodes[id].nexts[L].skipSize + v >= lens[k]
    ensures var x := nodes[id].nexts[L];
            var nodes' := SetEntry(nodes, id, L, SkipEntry(x.skipSize + v - lens[k], x.next));
            LevelsOk(nodes', ids, hts, lens[k := v], 0, L + 1) && LevelsOk(nodes', ids, hts, lens, L + 1, H)
  {
    assert LevelOk(nodes, ids, hts, lens, L);
    ResizeLevel(nodes, ids, hts, lens, L, k, v);
    var x := nodes[id].nexts[L];
    var e := SkipEntry(x.skipSize + v - lens[k], x.next);
    var nodes', lens' := SetEntry(nodes, id, L, e), lens[k := v];
    forall M | 0 <= M < L
      ensures LevelOk(nodes', ids, hts, lens', M)
    {
      SetEntryOther(nodes, ids, hts, lens', M, id, L, e);
    }
    forall M | L < M < H
      ensures LevelOk(nodes', ids, hts, lens, M)
    {
      SetEntryOther(nodes, ids, hts, lens, M, id, L, e);
    }
  }

  /** The node whose level-`L` entry spans node `k`: `k` itself below its height, the path's node above it. */
  lemma ResizeTarget(ids: seq<NodeId>, hts: seq<nat>, lens: seq<nat>, g: nat, pos: nat, path: seq<IterEntry>, k: nat, L: nat)
    requires |ids| == |hts| == |lens| && k < |ids| && 0 < g <= |ids| && (g == k || g == k + 1)
    requires PathAt(ids, hts, lens, g, pos, path) && L < hts[0]
    ensures ids[PrevAt(hts, k + 1, L)] == if L < hts[k] then ids[k] else path[L].node
  {
    if L < hts[k] {
      PrevAtUnique(hts, k + 1, L, k);
    } else if g == k {
      PrevAtStep(hts, k, L);
    }
  }

  /** `nodes'` differs from `nodes` at most in skip entries: the same nodes, bytes and heights. */
  ghost predicate EntriesOnly(nodes: map<NodeId, Node>, nodes': map<NodeId, Node>) {
    && nodes'.Keys == nodes.Keys
    && forall id :: id in nodes ==>
         && nodes'[id].str == nodes[id].str && nodes'[id].numBytes == nodes[id].numBytes
         && nodes'[id].height == nodes[id].height && |nodes'[id].nexts| == |nodes[id].nexts|
  }

  /** Writing one skip entry changes skip entries only. */
  lemma EntriesOnlyStep(nodes0: map<NodeId, Node>, nodes: map<NodeId, Node>, id: NodeId, L: nat, e: SkipEntry)
    requires EntriesOnly(nodes0, nodes) && id in nodes && L < |nodes[id].nexts|
    ensures EntriesOnly(nodes0, SetEntry(nodes, id, L, e))
  {}

  /** Skip entries play no part in the chain's shape, bytes or heights. */
  lemma EntriesOnlyShape(nodes: map<NodeId, Node>, nodes': map<NodeId, Node>, ids: seq<NodeId>)
    requires Shape(nodes, ids) && EntriesOnly(nodes, nodes')
    ensures Shape(nodes', ids) && Datas(nodes', ids) == Datas(nodes, ids) && Hts(nodes', ids) == Hts(nodes, ids)
  {
    forall i | 0 <= i < |ids|
      ensures NodeOk(nodes'[ids[i]]) && InUse(nodes'[ids[i]]) == InUse(nodes[ids[i]])
    {
      assert NodeOk(nodes[ids[i]]);
    }
  }

  /** The invariant after node `k` got the bytes `d` and every skip entry spanning it was patched. */
  lemma ResizeDone(nodes: map<NodeId, Node>, nodes': map<NodeId, Node>, ids: seq<NodeId>, nextId: nat,
                   chars: nat, bytes: nat, chars': nat, bytes': nat, k: nat, d: seq<uint8>)
    requires Inv(nodes, ids, nextId, chars, bytes) && k < |ids| && (k > 0 ==> |d| > 0)
    requires Shape(nodes', ids) && nodes'.Keys == nodes.Keys
    requires Datas(nodes', ids) == Datas(nodes, ids)[k := d] && Hts(nodes', ids) == Hts(nodes, ids)
    requires LevelsOk(nodes', ids, Hts(nodes, ids), Lens(nodes, ids)[k := CountChars(d)], 0, Hts(nodes, ids)[0])
    requires chars' + Lens(nodes, ids)[k] == chars + CountChars(d)
    requires bytes' + |Datas(nodes, ids)[k]| == bytes + |d|
    ensures Inv(nodes', ids, nextId, chars', bytes')
  {
    var ds, lens := Datas(nodes, ids), Lens(nodes, ids);
    CountsUpdate(ds, k, d);
    assert Lens(nodes', ids) == lens[k := CountChars(d)];
    PreUpdate(lens, k, CountChars(d), |lens|);
    ConcatAround(ds, k);
    ConcatUpdate(ds, k, d);
    forall i | 0 < i < |ids|
      ensures nodes'[ids[i]].numBytes > 0
    {
      assert |InUse(nodes'[ids[i]])| == |Datas(nodes', ids)[i]|;
      if i != k {
        assert |InUse(nodes[ids[i]])| == |ds[i]|;
      }
    }
  }

  /** A path stays the path of its gap when a node at or after the gap's predecessor is resized. */
  lemma PathResized(ids: seq<NodeId>, hts: seq<nat>, lens: seq<nat>, g: nat, pos: nat, path: seq<IterEntry>, k: nat, v: nat)
    requires |ids| == |hts| == |lens| && 0 < g <= |ids| && g <= k + 1 && k < |ids|
    requires PathAt(ids, hts, lens, g, pos, path)
    ensures PathAt(ids, hts, lens[k := v], g, pos, path)
  {
    forall L | 0 <= L < |path|
      ensures path[L].skipSize + Pre(lens[k := v], PrevAt(hts, g, L)) == pos
    {
      PreUpdate(lens, k, v, PrevAt(hts, g, L));
    }
  }

  // ---------------------------------------------------------------------------
  // Growing the head

  /** The head one level taller changes no bytes and only the head's height. */
  lemma GrowShape(nodes: map<NodeId, Node>, ids: seq<NodeId>, e: SkipEntry)
    requires Shape(nodes, ids) && nodes[HEAD].height as nat < MAX_HEIGHT
    ensures var n := nodes[HEAD];
            var nodes' := nodes[HEAD := n.(height := n.height + 1, nexts := n.nexts + [e])];
            && nodes'.Keys == nodes.Keys && Shape(nodes', ids)
            && Datas(nodes', ids) == Datas(nodes, ids)
            && Hts(nodes', ids) == Hts(nodes, ids)[0 := n.height as nat + 1]
  {
    var n := nodes[HEAD];
    assert NodeOk(n);
    var nodes' := nodes[HEAD := n.(height := n.height + 1, nexts := n.nexts + [e])];
    forall i | 0 <= i < |ids|
      ensures ids[i] in nodes' && NodeOk(nodes'[ids[i]]) && InUse(nodes'[ids[i]]) == InUse(nodes[ids[i]])
      ensures nodes'[ids[i]].height as nat == Hts(nodes, ids)[0 := n.height as nat + 1][i]
    {
      if i > 0 {
        assert ids[0] != ids[i];
        assert NodeOk(nodes[ids[i]]);
      }
    }
  }

  /** Arenas whose chains hold the same bytes have the same character counts. */
  lemma SameLens(nodes: map<NodeId, Node>, nodes': map<NodeId, Node>, ids: seq<NodeId>)
    requires Shape(nodes, ids) && Shape(nodes', ids) && Datas(nodes', ids) == Datas(nodes, ids)
    ensures Lens(nodes', ids) == Lens(nodes, ids)
  {}

  /** The two halves of `Linked`, stated on given heights and counts. */
  lemma LinkedFrom(nodes: map<NodeId, Node>, ids: seq<NodeId>, hts: seq<nat>, lens: seq<nat>)
    requires Shape(nodes, ids) && hts == Hts(nodes, ids) && lens == Lens(nodes, ids)
    requires forall i :: 0 <= i < |ids| ==> hts[i] <= hts[0]
    requires LevelsOk(nodes, ids, hts, lens, 0, hts[0])
    ensures Linked(nodes, ids)
  {}

  /** An arena with the same chain bytes and keys that is linked correctly keeps the invariant. */
  lemma InvFrom(nodes: map<NodeId, Node>, nodes': map<NodeId, Node>, ids: seq<NodeId>, nextId: nat, chars: nat, bytes: nat)
    requires Inv(nodes, ids, nextId, chars, bytes)
    requires Shape(nodes', ids) && nodes'.Keys == nodes.Keys && Datas(nodes', ids) == Datas(nodes, ids)
    requires Linked(nodes', ids)
    ensures Inv(nodes', ids, nextId, chars, bytes)
  {
    forall i | 0 < i < |ids|
      ensures nodes'[ids[i]].numBytes > 0
    {
      assert |InUse(nodes'[ids[i]])| == |Datas(nodes, ids)[i]| == |InUse(nodes[ids[i]])|;
    }
  }

  /** A level the head already had keeps its entries when the head grows. */
  lemma GrowFrame(nodes: map<NodeId, Node>, ids: seq<NodeId>, hts: seq<nat>, lens: seq<nat>, e: SkipEntry, L: nat)
    requires Shape(nodes, ids) && |hts| == |lens| == |ids| && L < |nodes[HEAD].nexts|
    requires LevelOk(nodes, ids, hts, lens, L)
    ensures var n := nodes[HEAD];
            LevelOk(nodes[HEAD := n.(height := n.height + 1, nexts := n.nexts + [e])], ids, hts, lens, L)
  {
    var n := nodes[HEAD];
    var nodes' := nodes[HEAD := n.(height := n.height + 1, nexts := n.nexts + [e])];
    forall i | 0 <= i < |ids| && hts[i] > L
      ensures SameEntry(nodes, nodes', ids[i], L)
    {
      if ids[i] == HEAD {
        assert (n.nexts + [e])[L] == n.nexts[L];
      }
    }
    LevelFrame(nodes, nodes', ids, hts, lens, L);
  }

  /** A level the head already had stays linked correctly when the head grows. */
  lemma GrowLevel(nodes: map<NodeId, Node>, ids: seq<NodeId>, hts: seq<nat>, lens: seq<nat>, e: SkipEntry, L: nat)
    requires Shape(nodes, ids) && |hts| == |lens| == |ids| && hts[0] == |nodes[HEAD].nexts| && L < hts[0]
    requires LevelOk(nodes, ids, hts, lens, L)
    ensures var n := nodes[HEAD];
            LevelOk(nodes[HEAD := n.(height := n.height + 1, nexts := n.nexts + [e])], ids, hts[0 := hts[0] + 1], lens, L)
  {
    var n := nodes[HEAD];
    var nodes' := nodes[HEAD := n.(height := n.height + 1, nexts := n.nexts + [e])];
    assert LevelOk(nodes', ids, hts, lens, L) by {
      GrowFrame(nodes, ids, hts, lens, e, L);
    }
    GrowOld(nodes', ids, hts, lens, L, hts[0] + 1);
  }

  /** Every level of the head one level taller is linked correctly. */
  lemma GrowLevels(nodes: map<NodeId, Node>, nodes': map<NodeId, Node>, ids: seq<NodeId>, hts: seq<nat>, hts': seq<nat>,
                   lens: seq<nat>, e: SkipEntry)
    requires Shape(nodes, ids) && |hts| == |lens| == |ids| && hts[0] == |nodes[HEAD].nexts|
    requires forall i :: 0 < i < |ids| ==> hts[i] <= hts[0]
    requires LevelsOk(nodes, ids, hts, lens, 0, hts[0])
    requires e == SkipEntry(Pre(lens, |lens|), None)
    requires nodes' == nodes[HEAD := nodes[HEAD].(height := nodes[HEAD].height + 1, nexts := nodes[HEAD].nexts + [e])]
    requires hts' == hts[0 := hts[0] + 1]
    ensures LevelsOk(nodes', ids, hts', lens, 0, hts'[0])
  {
    var n := nodes[HEAD];
    var H := hts[0];
    assert hts'[0] == H + 1;
    assert forall L :: 0 <= L < H ==> LevelOk(nodes', ids, hts', lens, L) by {
      forall L | 0 <= L < H
        ensures LevelOk(nodes', ids, hts', lens, L)
      {
        GrowLevel(nodes, ids, hts, lens, e, L);
      }
    }
    assert LevelOk(nodes', ids, hts', lens, H) by {
      assert HEAD in nodes' && nodes'[HEAD].nexts[H] == e by {
        assert (n.nexts + [e])[H] == e;
      }
      GrowNew(nodes', ids, hts', lens, H);
    }
  }

  /** The head one level taller; its new level spans the whole text and links nowhere. */
  lemma GrowStep(nodes: map<NodeId, Node>, nodes': map<NodeId, Node>, ids: seq<NodeId>, nextId: nat, chars: nat, bytes: nat)
    requires Inv(nodes, ids, nextId, chars, bytes) && Hts(nodes, ids)[0] < MAX_HEIGHT
    requires nodes' == nodes[HEAD := nodes[HEAD].(height := nodes[HEAD].height + 1,
                                                  nexts := nodes[HEAD].nexts + [SkipEntry(chars, None)])]
    ensures Inv(nodes', ids, nextId, chars, bytes)
    ensures Datas(nodes', ids) == Datas(nodes, ids)
    ensures Hts(nodes', ids) == Hts(nodes, ids)[0 := Hts(nodes, ids)[0] + 1]
  {
    var n := nodes[HEAD];
    var e := SkipEntry(chars, None);
    var hts, lens := Hts(nodes, ids), Lens(nodes, ids);
    var hts' := hts[0 := hts[0] + 1];
    assert n.height as nat == hts[0] && hts[0] == |n.nexts| by {
      assert NodeOk(n);
    }
    assert nodes'.Keys == nodes.Keys && Shape(nodes', ids) && Datas(nodes', ids) == Datas(nodes, ids)
        && Hts(nodes', ids) == hts' by {
      GrowShape(nodes, ids, e);
    }
    assert Lens(nodes', ids) == lens by {
      SameLens(nodes, nodes', ids);
    }
    assert LevelsOk(nodes', ids, hts', lens, 0, hts'[0]) by {
      GrowLevels(nodes, nodes', ids, hts, hts', lens, e);
    }
    assert forall i :: 0 <= i < |ids| ==> hts'[i] <= hts'[0];
    LinkedFrom(nodes', ids, hts', lens);
    InvFrom(nodes, nodes', ids, nextId, chars, bytes);
  }

  /** The path of a gap, extended by the head at the head's new level. */
  lemma PathGrown(ids: seq<NodeId>, hts: seq<nat>, lens: seq<nat>, g: nat, pos: nat, path: seq<IterEntry>)
    requires |ids| == |hts| == |lens| && 0 < g <= |ids| && ids[0] == HEAD
    requires forall i :: 0 <= i < |hts| ==> hts[i] <= hts[0]
    requires PathAt(ids, hts, lens, g, pos, path)
    ensures PathAt(ids, hts[0 := hts[0] + 1], lens, g, pos, path + [IterEntry(HEAD, pos)])
  {
    var H := hts[0];
    var hts', path' := hts[0 := H + 1], path + [IterEntry(HEAD, pos)];
    forall L | 0 <= L < |path'|
      ensures path'[L].node == ids[PrevAt(hts', g, L)] && path'[L].skipSize + Pre(lens, PrevAt(hts', g, L)) == pos
    {
      if L < H {
        HeadHeight(hts, H + 1, L, 0, g);
      } else {
        PrevAtUnique(hts', g, L, 0);
      }
    }
  }

  // ---------------------------------------------------------------------------
  // Linking a node in

  /** A fresh node added to the arena, not yet linked, disturbs nothing. */
  lemma AddNode(nodes: map<NodeId, Node>, ids: seq<NodeId>, H: nat, y: NodeId, n: Node)
    requires Shape(nodes, ids) && y !in nodes
    requires LevelsOk(nodes, ids, Hts(nodes, ids), Lens(nodes, ids), 0, H)
    ensures var nodes' := nodes[y := n];
            && nodes'.Keys == nodes.Keys + {y} && Shape(nodes', ids)
            && Datas(nodes', ids) == Datas(nodes, ids) && Hts(nodes', ids) == Hts(nodes, ids)
            && LevelsOk(nodes', ids, Hts(nodes, ids), Lens(nodes, ids), 0, H)
  {
    var nodes' := nodes[y := n];
    forall i | 0 <= i < |ids|
      ensures ids[i] != y
    {}
    assert Datas(nodes', ids) == Datas(nodes, ids);
    assert Hts(nodes', ids) == Hts(nodes, ids);
    forall L | 0 <= L < H
      ensures LevelOk(nodes', ids, Hts(nodes, ids), Lens(nodes, ids), L)
    {
      LevelFrame(nodes, nodes', ids, Hts(nodes, ids), Lens(nodes, ids), L);
    }
  }

  /** Linking node `y` in at gap `g` at a level below its height: the previous node now links to it. */
  lemma LinkStepBelow(nodes: map<NodeId, Node>, ids: seq<NodeId>, hts: seq<nat>, lens: seq<nat>,
                      g: nat, y: NodeId, h: nat, c: nat, L: nat, H: nat)
    requires |ids| == |hts| == |lens| && 0 < g <= |ids| && L < H == hts[0] && L < h && Distinct(ids)
    requires forall i :: 0 <= i < |ids| ==> ids[i] != y
    requires y in nodes && |nodes[y].nexts| == h
    requires LevelsOk(nodes, Insert(ids, g, y), Insert(hts, g, h), Insert(lens, g, c), 0, L)
    requires LevelsOk(nodes, ids, hts, lens, L, H)
    ensures var p := PrevAt(hts, g, L);
            && ids[p] in nodes && L < |nodes[ids[p]].nexts|
            && Pre(lens, p) <= Pre(lens, g) <= Pre(lens, p) + nodes[ids[p]].nexts[L].skipSize
            && var x, off := nodes[ids[p]].nexts[L], Pre(lens, g) - Pre(lens, p);
            && var nodes' := SetEntry(SetEntry(nodes, y, L, SkipEntry(c + x.skipSize - off, x.next)), ids[p], L, SkipEntry(off, Some(y)));
            && LevelsOk(nodes', Insert(ids, g, y), Insert(hts, g, h), Insert(lens, g, c), 0, L + 1)
            && LevelsOk(nodes', ids, hts, lens, L + 1, H)
  {
    var p := PrevAt(hts, g, L);
    assert LevelOk(nodes, ids, hts, lens, L);
    assert EntryOk(nodes, ids, hts, lens, p, L);
    PrevSpan(ids, hts, lens, L, g);
    LinkBelow(nodes, ids, hts, lens, L, g, y, h, c);
    var x, off := nodes[ids[p]].nexts[L], Pre(lens, g) - Pre(lens, p);
    var ey, ep := SkipEntry(c + x.skipSize - off, x.next), SkipEntry(off, Some(y));
    var nodes1 := SetEntry(nodes, y, L, ey);
    var nodes' := SetEntry(nodes1, ids[p], L, ep);
    assert nodes' == LinkedBelow(nodes, ids, hts, lens, L, g, y, c);
    var ids', hts', lens' := Insert(ids, g, y), Insert(hts, g, h), Insert(lens, g, c);
    forall M | 0 <= M < L
      ensures LevelOk(nodes', ids', hts', lens', M)
    {
      SetEntryOther(nodes, ids', hts', lens', M, y, L, ey);
      SetEntryOther(nodes1, ids', hts', lens', M, ids[p], L, ep);
    }
    forall M | L < M < H
      ensures LevelOk(nodes', ids, hts, lens, M)
    {
      SetEntryOther(nodes, ids, hts, lens, M, y, L, ey);
      SetEntryOther(nodes1, ids, hts, lens, M, ids[p], L, ep);
    }
  }

  /** Linking node `y` in at gap `g` at a level above its height: the link over the gap spans its characters too. */
  lemma LinkStepAbove(nodes: map<NodeId, Node>, ids: seq<NodeId>, hts: seq<nat>, lens: seq<nat>,
                      g: nat, y: NodeId, h: nat, c: nat, L: nat, H: nat)
    requires |ids| == |hts| == |lens| && 0 < g <= |ids| && L < H == hts[0] && h <= L && Distinct(ids)
    requires LevelsOk(nodes, Insert(ids, g, y), Insert(hts, g, h), Insert(lens, g, c), 0, L)
    requires LevelsOk(nodes, ids, hts, lens, L, H)
    ensures var p := PrevAt(hts, g, L);
            && ids[p] in nodes && L < |nodes[ids[p]].nexts|
            && var x := nodes[ids[p]].nexts[L];
            && var nodes' := SetEntry(nodes, ids[p], L, SkipEntry(x.skipSize + c, x.next));
            && LevelsOk(nodes', Insert(ids, g, y), Insert(hts, g, h), Insert(lens, g, c), 0, L + 1)
            && LevelsOk(nodes', ids, hts, lens, L + 1, H)
  {
    var p := PrevAt(hts, g, L);
    assert LevelOk(nodes, ids, hts, lens, L);
    assert EntryOk(nodes, ids, hts, lens, p, L);
    LinkAbove(nodes, ids, hts, lens, L, g, y, h, c);
    var x := nodes[ids[p]].nexts[L];
    var ep := SkipEntry(x.skipSize + c, x.next);
    var nodes' := SetEntry(nodes, ids[p], L, ep);
    assert nodes' == LinkedAbove(nodes, ids, hts, lens, L, g, c);
    var ids', hts', lens' := Insert(ids, g, y), Insert(hts, g, h), Insert(lens, g, c);
    forall M | 0 <= M < L
      ensures LevelOk(nodes', ids', hts', lens', M)
    {
      SetEntryOther(nodes, ids', hts', lens', M, ids[p], L, ep);
    }
    forall M | L < M < H
      ensures LevelOk(nodes', ids, hts, lens, M)
    {
      SetEntryOther(nodes, ids, hts, lens, M, ids[p], L, ep);
    }
  }

  /** The chain with node `y` inserted at gap `g`: its bytes and height go in at `g`. */
  lemma InsertShape(nodes: map<NodeId, Node>, ids: seq<NodeId>, g: nat, y: NodeId)
    requires Shape(nodes, ids) && 0 < g <= |ids| && y in nodes && NodeOk(nodes[y])
    requires forall i :: 0 <= i < |ids| ==> ids[i] != y
    ensures Shape(nodes, Insert(ids, g, y))
    ensures Datas(nodes, Insert(ids, g, y)) == Insert(Datas(nodes, ids), g, InUse(nodes[y]))
    ensures Hts(nodes, Insert(ids, g, y)) == Insert(Hts(nodes, ids), g, nodes[y].height as nat)
  {
    var ids' := Insert(ids, g, y);
    forall a, b | 0 <= a < b < |ids'|
      ensures ids'[a] != ids'[b]
    {
      if a == g {
        assert ids'[b] == ids[b - 1];
      } else if b == g {
        assert ids'[a] == ids[a];
      } else {
        var a', b' := if a < g then a else a - 1, if b < g then b else b - 1;
        assert ids'[a] == ids[a'] && ids'[b] == ids[b'];
      }
    }
  }

  /** Nodes keep their bytes when only their links change, so a linked-in nonempty node keeps every node but the head nonempty. */
  lemma LinkNonEmpty(nodes0: map<NodeId, Node>, nodes: map<NodeId, Node>, ids: seq<NodeId>, g: nat, y: NodeId)
    requires Shape(nodes0, ids) && Shape(nodes, ids) && Datas(nodes, ids) == Datas(nodes0, ids) && 0 < g <= |ids|
    requires forall i :: 0 < i < |ids| ==> nodes0[ids[i]].numBytes > 0
    requires y in nodes && nodes[y].numBytes > 0
    ensures forall i :: 0 < i < |Insert(ids, g, y)| ==> nodes[Insert(ids, g, y)[i]].numBytes > 0
  {
    var ids' := Insert(ids, g, y);
    var ds := Datas(nodes0, ids);
    forall i | 0 < i < |ids|
      ensures nodes[ids[i]].numBytes > 0
    {
      assert |InUse(nodes[ids[i]])| == |ds[i]| == |InUse(nodes0[ids[i]])|;
    }
    forall i | 0 < i < |ids'|
      ensures nodes[ids'[i]].numBytes > 0
    {
      if i > g {
        assert ids'[i] == ids[i - 1];
      } else if i < g {
        assert ids'[i] == ids[i];
      }
    }
  }

  /** The counts and totals of a chain with one more chunk at gap `g`. */
  lemma LinkTotals(nodes0: map<NodeId, Node>, nodes: map<NodeId, Node>, ids: seq<NodeId>, g: nat, y: NodeId)
    requires Shape(nodes0, ids) && g <= |ids| && Shape(nodes, Insert(ids, g, y)) && y in nodes
    requires Datas(nodes, Insert(ids, g, y)) == Insert(Datas(nodes0, ids), g, InUse(nodes[y]))
    ensures Lens(nodes, Insert(ids, g, y)) == Insert(Lens(nodes0, ids), g, CountChars(InUse(nodes[y])))
    ensures Pre(Lens(nodes, Insert(ids, g, y)), |ids| + 1) == Pre(Lens(nodes0, ids), |ids|) + CountChars(InUse(nodes[y]))
    ensures |Concat(Datas(nodes, Insert(ids, g, y)), 0, |ids| + 1)| == |Concat(Datas(nodes0, ids), 0, |ids|)| + nodes[y].numBytes as nat
  {
    var ds, d := Datas(nodes0, ids), InUse(nodes[y]);
    CountsInsert(ds, g, d);
    InsertTotals(ds, g, d);
  }

  /** Node `y`, fresh in the arena and linked in at gap `g` on every level, makes a linked chain one longer. */
  lemma LinkLinked(nodes0: map<NodeId, Node>, nodes: map<NodeId, Node>, ids: seq<NodeId>, nextId: nat, g: nat, y: NodeId)
    requires Shape(nodes0, ids) && 0 < g <= |ids| && y == nextId
    requires forall i :: 0 <= i < |ids| ==> Hts(nodes0, ids)[i] <= Hts(nodes0, ids)[0]
    requires forall id :: id in nodes0 ==> id < nextId
    requires Shape(nodes, ids) && Datas(nodes, ids) == Datas(nodes0, ids) && Hts(nodes, ids) == Hts(nodes0, ids)
    requires y in nodes && NodeOk(nodes[y]) && nodes[y].height as nat <= Hts(nodes0, ids)[0]
    requires LevelsOk(nodes, Insert(ids, g, y), Insert(Hts(nodes0, ids), g, nodes[y].height as nat),
                      Insert(Lens(nodes0, ids), g, CountChars(InUse(nodes[y]))), 0, Hts(nodes0, ids)[0])
    ensures Shape(nodes, Insert(ids, g, y)) && Linked(nodes, Insert(ids, g, y))
    ensures Datas(nodes, Insert(ids, g, y)) == Insert(Datas(nodes0, ids), g, InUse(nodes[y]))
  {
    var ids' := Insert(ids, g, y);
    var hts, lens := Hts(nodes0, ids), Lens(nodes0, ids);
    var h, c := nodes[y].height as nat, CountChars(InUse(nodes[y]));
    assert forall i :: 0 <= i < |ids| ==> ids[i] != y;
    InsertShape(nodes, ids, g, y);
    assert Lens(nodes, ids') == Insert(lens, g, c) by {
      CountsInsert(Datas(nodes0, ids), g, InUse(nodes[y]));
    }
    var hts' := Insert(hts, g, h);
    assert forall i :: 0 <= i < |ids'| ==> hts'[i] <= hts'[0] by {
      assert forall i :: 0 <= i < |ids| ==> hts[i] <= hts[0];
    }
    LinkedFrom(nodes, ids', hts', Insert(lens, g, c));
  }

  /** The invariant after node `y` was added to the arena and linked in at gap `g` (by `LinkLinked`). */
  lemma LinkDone(nodes0: map<NodeId, Node>, nodes: map<NodeId, Node>, ids: seq<NodeId>, nextId: nat,
                 chars: nat, bytes: nat, g: nat, y: NodeId)
    requires Shape(nodes0, ids) && 0 < g <= |ids| && y == nextId
    requires forall i :: 0 < i < |ids| ==> nodes0[ids[i]].numBytes > 0
    requires forall id :: id in nodes0 ==> id < nextId
    requires chars == Pre(Lens(nodes0, ids), |ids|) && bytes == |Concat(Datas(nodes0, ids), 0, |ids|)|
    requires Shape(nodes, ids) && nodes.Keys == nodes0.Keys + {y} && Datas(nodes, ids) == Datas(nodes0, ids)
    requires y in nodes && nodes[y].numBytes > 0
    requires Shape(nodes, Insert(ids, g, y)) && Linked(nodes, Insert(ids, g, y))
    requires Datas(nodes, Insert(ids, g, y)) == Insert(Datas(nodes0, ids), g, InUse(nodes[y]))
    ensures Inv(nodes, Insert(ids, g, y), nextId + 1, chars + CountChars(InUse(nodes[y])), bytes + nodes[y].numBytes as nat)
  {
    var ids' := Insert(ids, g, y);
    assert |ids'| == |ids| + 1;
    assert chars + CountChars(InUse(nodes[y])) == Pre(Lens(nodes, ids'), |ids'|)
        && bytes + nodes[y].numBytes as nat == |Concat(Datas(nodes, ids'), 0, |ids'|)| by {
      LinkTotals(nodes0, nodes, ids, g, y);
    }
    assert forall i :: 0 < i < |ids'| ==> nodes[ids'[i]].numBytes > 0 by {
      LinkNonEmpty(nodes0, nodes, ids, g, y);
    }
    assert forall id :: id in nodes ==> id < nextId + 1;
    InvIntro(nodes, ids', nextId + 1, chars + CountChars(InUse(nodes[y])), bytes + nodes[y].numBytes as nat);
  }

  /** After a node of height `h` and `c` characters is linked in at gap `g`, the path moves past it. */
  lemma PathLinked(ids: seq<NodeId>, hts: seq<nat>, lens: seq<nat>, g: nat, path: seq<IterEntry>,
                   y: NodeId, h: nat, c: nat, path': seq<IterEntry>)
    requires |ids| == |hts| == |lens| && 0 < g <= |ids| && h <= hts[0]
    requires PathAt(ids, hts, lens, g, Pre(lens, g), path) && |path'| == |path|
    requires forall L :: 0 <= L < |path| ==>
               path'[L] == if L < h then IterEntry(y, c) else IterEntry(path[L].node, path[L].skipSize + c)
    ensures PathAt(Insert(ids, g, y), Insert(hts, g, h), Insert(lens, g, c), g + 1, Pre(Insert(lens, g, c), g + 1), path')
  {
    var ids', hts', lens' := Insert(ids, g, y), Insert(hts, g, h), Insert(lens, g, c);
    PreInsert(lens, g, c, g + 1);
    forall L | 0 <= L < |path'|
      ensures path'[L].node == ids'[PrevAt(hts', g + 1, L)]
      ensures path'[L].skipSize + Pre(lens', PrevAt(hts', g + 1, L)) == Pre(lens', g + 1)
    {
      PrevAtInsert(hts, g, h, L);
      var p := PrevAt(hts, g, L);
      PreInsert(lens, g, c, p);
      PreInsert(lens, g, c, g);
    }
  }

  // ---------------------------------------------------------------------------
  // Unlinking a node

  /** Unlinking node `k` at a level below its height: the previous node takes over its link. */
  lemma UnlinkStepBelow(nodes: map<NodeId, Node>, ids: seq<NodeId>, hts: seq<nat>, lens: seq<nat>, k: nat, L: nat, H: nat)
    requires |ids| == |hts| == |lens| && 0 < k < |ids| && L < H == hts[0] && L < hts[k] && Distinct(ids)
    requires LevelsOk(nodes, Remove(ids, k), Remove(hts, k), Remove(lens, k), 0, L)
    requires LevelsOk(nodes, ids, hts, lens, L, H)
    ensures var p := PrevAt(hts, k, L);
            && ids[p] in nodes && L < |nodes[ids[p]].nexts| && ids[k] in nodes && L < |nodes[ids[k]].nexts|
            && var x, z := nodes[ids[p]].nexts[L], nodes[ids[k]].nexts[L];
            && x.skipSize + z.skipSize >= lens[k]
            && var nodes' := SetEntry(nodes, ids[p], L, SkipEntry(x.skipSize + z.skipSize - lens[k], z.next));
            && LevelsOk(nodes', Remove(ids, k), Remove(hts, k), Remove(lens, k), 0, L + 1)
            && LevelsOk(nodes', ids, hts, lens, L + 1, H)
  {
    var p := PrevAt(hts, k, L);
    assert LevelOk(nodes, ids, hts, lens, L);
    assert EntryOk(nodes, ids, hts, lens, p, L);
    assert EntryOk(nodes, ids, hts, lens, k, L);
    ExpectedOwn(ids, hts, lens, L, k);
    UnlinkBelow(nodes, ids, hts, lens, L, k);
    var x, z := nodes[ids[p]].nexts[L], nodes[ids[k]].nexts[L];
    var ep := SkipEntry(x.skipSize + z.skipSize - lens[k], z.next);
    var nodes' := SetEntry(nodes, ids[p], L, ep);
    assert nodes' == UnlinkedBelow(nodes, ids, hts, lens, L, k);
    var ids', hts', lens' := Remove(ids, k), Remove(hts, k), Remove(lens, k);
    forall M | 0 <= M < L
      ensures LevelOk(nodes', ids', hts', lens', M)
    {
      SetEntryOther(nodes, ids', hts', lens', M, ids[p], L, ep);
    }
    forall M | L < M < H
      ensures LevelOk(nodes', ids, hts, lens, M)
    {
      SetEntryOther(nodes, ids, hts, lens, M, ids[p], L, ep);
    }
  }

  /** Unlinking node `k` at a level above its height: the link over it no longer spans its characters. */
  lemma UnlinkStepAbove(nodes: map<NodeId, Node>, ids: seq<NodeId>, hts: seq<nat>, lens: seq<nat>, k: nat, L: nat, H: nat)
    requires |ids| == |hts| == |lens| && 0 < k < |ids| && L < H == hts[0] && hts[k] <= L && Distinct(ids)
    requires LevelsOk(nodes, Remove(ids, k), Remove(hts, k), Remove(lens, k), 0, L)
    requires LevelsOk(nodes, ids, hts, lens, L, H)
    ensures var p := PrevAt(hts, k, L);
            && ids[p] in nodes && L < |nodes[ids[p]].nexts|
            && var x := nodes[ids[p]].nexts[L];
            && x.skipSize >= lens[k]
            && var nodes' := SetEntry(nodes, ids[p], L, SkipEntry(x.skipSize - lens[k], x.next));
            && LevelsOk(nodes', Remove(ids, k), Remove(hts, k), Remove(lens, k), 0, L + 1)
            && LevelsOk(nodes', ids, hts, lens, L + 1, H)
  {
    var p := PrevAt(hts, k, L);
    assert LevelOk(nodes, ids, hts, lens, L);
    assert EntryOk(nodes, ids, hts, lens, p, L);
    ExpectedRemoveOver(ids, hts, lens, L, k);
    UnlinkAbove(nodes, ids, hts, lens, L, k);
    var x := nodes[ids[p]].nexts[L];
    var nodes' := UnlinkedAbove(nodes, ids, hts, lens, L, k);
    var ep := SkipEntry(x.skipSize - lens[k], x.next);
    assert nodes' == SetEntry(nodes, ids[p], L, ep);
    var ids', hts', lens' := Remove(ids, k), Remove(hts, k), Remove(lens, k);
    forall M | 0 <= M < L
      ensures LevelOk(nodes', ids', hts', lens', M)
    {
      SetEntryOther(nodes, ids', hts', lens', M, ids[p], L, ep);
    }
    forall M | L < M < H
      ensures LevelOk(nodes', ids, hts, lens, M)
    {
      SetEntryOther(nodes, ids, hts, lens, M, ids[p], L, ep);
    }
  }

  /** The chain without node `k`, in an arena without it. */
  lemma RemoveShape(nodes: map<NodeId, Node>, ids: seq<NodeId>, k: nat)
    requires Shape(nodes, ids) && 0 < k < |ids|
    ensures Shape(nodes - {ids[k]}, Remove(ids, k))
    ensures Datas(nodes - {ids[k]}, Remove(ids, k)) == Remove(Datas(nodes, ids), k)
    ensures Hts(nodes - {ids[k]}, Remove(ids, k)) == Remove(Hts(nodes, ids), k)
  {
    var nodes' := nodes - {ids[k]};
    var ids' := Remove(ids, k);
    forall i | 0 <= i < |ids'|
      ensures ids'[i] != ids[k] && ids'[i] in nodes' && nodes'[ids'[i]] == nodes[ids'[i]]
    {
      if i < k {
        assert ids'[i] == ids[i];
      } else {
        assert ids'[i] == ids[i + 1];
      }
    }
  }

  /** Once node `k` is unlinked on every level and dropped from the arena, the rest of the chain is well formed and linked. */
  lemma UnlinkLinked(nodes0: map<NodeId, Node>, nodes: map<NodeId, Node>, ids: seq<NodeId>, k: nat)
    requires Shape(nodes0, ids) && 0 < k < |ids| && Linked(nodes0, ids)
    requires Shape(nodes, ids)
    requires Datas(nodes, ids) == Datas(nodes0, ids) && Hts(nodes, ids) == Hts(nodes0, ids)
    requires LevelsOk(nodes, Remove(ids, k), Remove(Hts(nodes0, ids), k), Remove(Lens(nodes0, ids), k), 0, Hts(nodes0, ids)[0])
    ensures Shape(nodes - {ids[k]}, Remove(ids, k)) && Linked(nodes - {ids[k]}, Remove(ids, k))
    ensures Datas(nodes - {ids[k]}, Remove(ids, k)) == Remove(Datas(nodes0, ids), k)
    ensures Lens(nodes - {ids[k]}, Remove(ids, k)) == Remove(Lens(nodes0, ids), k)
    ensures Hts(nodes - {ids[k]}, Remove(ids, k)) == Remove(Hts(nodes0, ids), k)
  {
    var nodes', ids' := nodes - {ids[k]}, Remove(ids, k);
    var ds, hts, lens := Datas(nodes0, ids), Hts(nodes0, ids), Lens(nodes0, ids);
    var hts', lens' := Remove(hts, k), Remove(lens, k);
    assert Shape(nodes', ids') && Datas(nodes', ids') == Remove(ds, k) && Hts(nodes', ids') == hts' by {
      RemoveShape(nodes, ids, k);
    }
    assert Lens(nodes', ids') == lens' by {
      CountsRemove(ds, k);
    }
    forall L | 0 <= L < hts[0]
      ensures LevelOk(nodes', ids', hts', lens', L)
    {
      DropNode(nodes, ids, hts, lens, L, k);
    }
    assert forall i :: 0 <= i < |ids'| ==> hts'[i] <= hts'[0];
    LinkedFrom(nodes', ids', hts', lens');
  }

  /** The invariant after node `k` was unlinked on every level and dropped from the arena. */
  lemma UnlinkDone(nodes0: map<NodeId, Node>, nodes: map<NodeId, Node>, ids: seq<NodeId>, nextId: nat,
                   chars: nat, bytes: nat, chars': nat, bytes': nat, k: nat)
    requires Inv(nodes0, ids, nextId, chars, bytes) && 0 < k < |ids|
    requires Shape(nodes, ids) && nodes.Keys == nodes0.Keys
    requires Datas(nodes, ids) == Datas(nodes0, ids) && Hts(nodes, ids) == Hts(nodes0, ids)
    requires LevelsOk(nodes, Remove(ids, k), Remove(Hts(nodes0, ids), k), Remove(Lens(nodes0, ids), k), 0, Hts(nodes0, ids)[0])
    requires chars' + Lens(nodes0, ids)[k] == chars && bytes' + |Datas(nodes0, ids)[k]| == bytes
    ensures Inv(nodes - {ids[k]}, Remove(ids, k), nextId, chars', bytes')
    ensures Datas(nodes - {ids[k]}, Remove(ids, k)) == Remove(Datas(nodes0, ids), k)
    ensures Lens(nodes - {ids[k]}, Remove(ids, k)) == Remove(Lens(nodes0, ids), k)
    ensures Hts(nodes - {ids[k]}, Remove(ids, k)) == Remove(Hts(nodes0, ids), k)
  {
    var nodes', ids' := nodes - {ids[k]}, Remove(ids, k);
    var ds, lens := Datas(nodes0, ids), Lens(nodes0, ids);
    assert Shape(nodes', ids') && Linked(nodes', ids') && Datas(nodes', ids') == Remove(ds, k)
        && Lens(nodes', ids') == Remove(lens, k) && Hts(nodes', ids') == Remove(Hts(nodes0, ids), k) by {
      UnlinkLinked(nodes0, nodes, ids, k);
    }
    assert chars' == Pre(Remove(lens, k), |ids'|) by {
      PreRemoveAll(lens, k, |ids'|);
    }
    assert bytes' == |Concat(Remove(ds, k), 0, |ids'|)| by {
      RemoveBytes(ds, k, |ids'|);
    }
    assert forall i :: 0 < i < |ids'| ==> nodes'[ids'[i]].numBytes > 0 by {
      UnlinkNonEmpty(nodes0, nodes, ids, k);
    }
    InvIntro(nodes', ids', nextId, chars', bytes');
  }

  /** The nodes left in the chain after node `k` is dropped are still not empty. */
  lemma UnlinkNonEmpty(nodes0: map<NodeId, Node>, nodes: map<NodeId, Node>, ids: seq<NodeId>, k: nat)
    requires Shape(nodes0, ids) && Shape(nodes, ids) && 0 < k < |ids|
    requires Datas(nodes, ids) == Datas(nodes0, ids)
    requires forall i :: 0 < i < |ids| ==> nodes0[ids[i]].numBytes > 0
    requires Shape(nodes - {ids[k]}, Remove(ids, k))
    ensures forall i :: 0 < i < |ids| - 1 ==> (nodes - {ids[k]})[Remove(ids, k)[i]].numBytes > 0
  {
    var nodes', ids', ds := nodes - {ids[k]}, Remove(ids, k), Datas(nodes0, ids);
    forall i | 0 < i < |ids'|
      ensures nodes'[ids'[i]].numBytes > 0
    {
      var j := if i < k then i else i + 1;
      assert ids'[i] == ids[j];
      assert |InUse(nodes[ids[j]])| == |ds[j]| == |InUse(nodes0[ids[j]])|;
    }
  }

  /** The path of the gap before node `k` stays the path of that gap once `k` is gone. */
  lemma PathUnlinked(ids: seq<NodeId>, hts: seq<nat>, lens: seq<nat>, k: nat, pos: nat, path: seq<IterEntry>)
    requires |ids| == |hts| == |lens| && 0 < k < |ids|
    requires PathAt(ids, hts, lens, k, pos, path)
    ensures PathAt(Remove(ids, k), Remove(hts, k), Remove(lens, k), k, pos, path)
  {
    forall L | 0 <= L < |path|
      ensures path[L].node == Remove(ids, k)[PrevAt(Remove(hts, k), k, L)]
      ensures path[L].skipSize + Pre(Remove(lens, k), PrevAt(Remove(hts, k), k, L)) == pos
    {
      PrevAtRemove(hts, k, L);
      PreRemove(lens, k, PrevAt(hts, k, L));
    }
  }
}
