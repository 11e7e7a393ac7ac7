/**
  The link invariant of the skip list, one level at a time.

  The nodes of the level-0 chain are `ids` (index 0 is the head), with
  heights `hts` and character counts `lens`. At level `L` every node
  taller than `L` links to the next node taller than `L` (null at the end
  of the list) and its skip size counts the characters from its own start
  to that node's start. Each lemma below says how one or two entries of
  one level must change for the level to stay correct when a node is
  resized, linked in, unlinked or when the head grows; the rope's
  methods apply them level by level.
 */
module SkipLinks {

  import opened SkipIndex
  import opened RopeNodes

  ghost predicate Distinct(ids: seq<NodeId>) {
    forall a, b :: 0 <= a < b < |ids| ==> ids[a] != ids[b]
  }

  /** The entry node `i` must hold at level `L`. */
  ghost function Expected(ids: seq<NodeId>, hts: seq<nat>, lens: seq<nat>, i: nat, L: nat): SkipEntry
    requires |ids| == |hts| == |lens| && i < |ids|
  {
    var j := NextAt(hts, i, L);
    PreMono(lens, i, j);
    SkipEntry(Pre(lens, j) - Pre(lens, i), if j < |ids| then Some(ids[j]) else None)
  }

  ghost predicate EntryOk(nodes: map<NodeId, Node>, ids: seq<NodeId>, hts: seq<nat>, lens: seq<nat>, i: nat, L: nat)
    requires |ids| == |hts| == |lens| && i < |ids|
  {
    && ids[i] in nodes
    && L < |nodes[ids[i]].nexts|
    && nodes[ids[i]].nexts[L] == Expected(ids, hts, lens, i, L)
  }

  /** Level `L` of the skip list is linked correctly. */
  ghost predicate LevelOk(nodes: map<NodeId, Node>, ids: seq<NodeId>, hts: seq<nat>, lens: seq<nat>, L: nat)
    requires |ids| == |hts| == |lens|
  {
    forall i {:trigger EntryOk(nodes, ids, hts, lens, i, L)} :: 0 <= i < |ids| && hts[i] > L ==> EntryOk(nodes, ids, hts, lens, i, L)
  }

  /** Node `id` keeps its level-`L` entry from `nodes` to `nodes'`. */
  ghost predicate SameEntry(nodes: map<NodeId, Node>, nodes': map<NodeId, Node>, id: NodeId, L: nat) {
    id in nodes && L < |nodes[id].nexts| ==>
      id in nodes' && L < |nodes'[id].nexts| && nodes'[id].nexts[L] == nodes[id].nexts[L]
  }

  /** A level stays correct when the level-`L` entries of its nodes stay. */
  lemma LevelFrame(nodes: map<NodeId, Node>, nodes': map<NodeId, Node>, ids: seq<NodeId>, hts: seq<nat>, lens: seq<nat>, L: nat)
    requires |ids| == |hts| == |lens|
    requires LevelOk(nodes, ids, hts, lens, L)
    requires forall i :: 0 <= i < |ids| && hts[i] > L ==> SameEntry(nodes, nodes', ids[i], L)
    ensures LevelOk(nodes', ids, hts, lens, L)
  {
    forall i {:trigger EntryOk(nodes', ids, hts, lens, i, L)} | 0 <= i < |ids| && hts[i] > L
      ensures EntryOk(nodes', ids, hts, lens, i, L)
    {
      assert EntryOk(nodes, ids, hts, lens, i, L);
    }
  }

  /** An entry that a change moves from index `i` to index `i'` stays correct when what it must hold stays. */
  lemma EntryCarried(nodes: map<NodeId, Node>, nodes': map<NodeId, Node>,
                     ids: seq<NodeId>, hts: seq<nat>, lens: seq<nat>, i: nat,
                     ids': seq<NodeId>, hts': seq<nat>, lens': seq<nat>, i': nat, L: nat)
    requires |ids| == |hts| == |lens| && i < |ids| && |ids'| == |hts'| == |lens'| && i' < |ids'|
    requires EntryOk(nodes, ids, hts, lens, i, L)
    requires ids'[i'] == ids[i] && SameEntry(nodes, nodes', ids[i], L)
    requires Expected(ids', hts', lens', i', L) == Expected(ids, hts, lens, i, L)
    ensures EntryOk(nodes', ids', hts', lens', i', L)
  {}

  /** Writing an entry of another level leaves level `L` correct. */
  lemma SetEntryOther(nodes: map<NodeId, Node>, ids: seq<NodeId>, hts: seq<nat>, lens: seq<nat>, L: nat, id: NodeId, M: nat, e: SkipEntry)
    requires |ids| == |hts| == |lens| && M != L
    requires id in nodes && M < |nodes[id].nexts|
    requires LevelOk(nodes, ids, hts, lens, L)
    ensures LevelOk(SetEntry(nodes, id, M, e), ids, hts, lens, L)
  {
    var nodes' := SetEntry(nodes, id, M, e);
    LevelFrame(nodes, nodes', ids, hts, lens, L);
  }

  /** The level-`L` entry of the node before gap `g` spans the gap. */
  lemma PrevSpan(ids: seq<NodeId>, hts: seq<nat>, lens: seq<nat>, L: nat, g: nat)
    requires |ids| == |hts| == |lens| && 0 < g <= |ids| && hts[0] > L
    ensures var p := PrevAt(hts, g, L);
            Pre(lens, p) <= Pre(lens, g) <= Pre(lens, p) + Expected(ids, hts, lens, p, L).skipSize
  {
    var p := PrevAt(hts, g, L);
    PrevAtNext(hts, g, L);
    PreMono(lens, p, g);
    PreMono(lens, g, NextAt(hts, p, L));
  }

  // ---------------------------------------------------------------------------
  // Resizing node `k` from `lens[k]` to `v` characters: the one entry at
  // level `L` whose span covers node `k`, that of the last node up to `k`
  // taller than `L`, absorbs the change and every other entry stays.

  lemma ExpectedResizeCover(ids: seq<NodeId>, hts: seq<nat>, lens: seq<nat>, L: nat, k: nat, v: nat)
    requires |ids| == |hts| == |lens| && k < |ids| && hts[0] > L
    ensures var e := Expected(ids, hts, lens, PrevAt(hts, k + 1, L), L);
            && e.skipSize >= lens[k]
            && Expected(ids, hts, lens[k := v], PrevAt(hts, k + 1, L), L) == SkipEntry(e.skipSize + v - lens[k], e.next)
  {
    var p := PrevAt(hts, k + 1, L);
    PrevAtNext(hts, k + 1, L);
    var j := NextAt(hts, p, L);
    PreMono(lens, p, k);
    PreMono(lens, k + 1, j);
    PreUpdate(lens, k, v, p);
    PreUpdate(lens, k, v, j);
  }

  lemma ExpectedResizeOther(ids: seq<NodeId>, hts: seq<nat>, lens: seq<nat>, L: nat, k: nat, v: nat, i: nat)
    requires |ids| == |hts| == |lens| && k < |ids| && hts[0] > L
    requires i < |ids| && hts[i] > L && i != PrevAt(hts, k + 1, L)
    ensures Expected(ids, hts, lens[k := v], i, L) == Expected(ids, hts, lens, i, L)
  {
    LinkSide(hts, k + 1, L, i);
    var m := NextAt(hts, i, L);
    PreUpdate(lens, k, v, i);
    PreUpdate(lens, k, v, m);
    PreMono(lens, i, m);
  }

  // ---------------------------------------------------------------------------
  // Linking a node `y` with `c` characters and height `h` in at gap `g`.

  lemma ExpectedInsertBefore(ids: seq<NodeId>, hts: seq<nat>, lens: seq<nat>, L: nat, g: nat, y: NodeId, h: nat, c: nat, i: nat)
    requires |ids| == |hts| == |lens| && 0 < g <= |ids| && hts[0] > L
    requires i < g && hts[i] > L && i != PrevAt(hts, g, L)
    ensures Expected(Insert(ids, g, y), Insert(hts, g, h), Insert(lens, g, c), i, L) == Expected(ids, hts, lens, i, L)
  {
    LinkSide(hts, g, L, i);
    var m := NextAt(hts, i, L);
    NextAtInsertBefore(hts, g, h, L, i);
    PreInsert(lens, g, c, i);
    PreInsert(lens, g, c, m);
  }

  lemma ExpectedInsertAfter(ids: seq<NodeId>, hts: seq<nat>, lens: seq<nat>, L: nat, g: nat, y: NodeId, h: nat, c: nat, i: nat)
    requires |ids| == |hts| == |lens| && g <= i < |ids|
    ensures Expected(Insert(ids, g, y), Insert(hts, g, h), Insert(lens, g, c), i + 1, L) == Expected(ids, hts, lens, i, L)
  {
    var m := NextAt(hts, i, L);
    NextAtInsertAfter(hts, g, h, L, i);
    PreInsert(lens, g, c, i + 1);
    PreInsert(lens, g, c, m + 1);
  }

  /** At a level the new node reaches, the node before the gap now links to it with the characters up to the gap. */
  lemma ExpectedInsertPrev(ids: seq<NodeId>, hts: seq<nat>, lens: seq<nat>, L: nat, g: nat, y: NodeId, h: nat, c: nat)
    requires |ids| == |hts| == |lens| && 0 < g <= |ids| && hts[0] > L && h > L
    ensures var p := PrevAt(hts, g, L);
            Pre(lens, p) <= Pre(lens, g) &&
            Expected(Insert(ids, g, y), Insert(hts, g, h), Insert(lens, g, c), p, L) == SkipEntry(Pre(lens, g) - Pre(lens, p), Some(y))
  {
    var p := PrevAt(hts, g, L);
    PrevAtNext(hts, g, L);
    NextAtInsertTo(hts, g, h, L, p);
    PreInsert(lens, g, c, g);
    PreInsert(lens, g, c, p);
    PreMono(lens, p, g);
  }

  /** The new node takes over the link over the gap, with the rest of its span plus its own characters. */
  lemma ExpectedInsertNew(ids: seq<NodeId>, hts: seq<nat>, lens: seq<nat>, L: nat, g: nat, y: NodeId, h: nat, c: nat)
    requires |ids| == |hts| == |lens| && 0 < g <= |ids| && hts[0] > L
    ensures var p := PrevAt(hts, g, L);
            var e := Expected(ids, hts, lens, p, L);
            Pre(lens, p) <= Pre(lens, g) <= Pre(lens, p) + e.skipSize &&
            Expected(Insert(ids, g, y), Insert(hts, g, h), Insert(lens, g, c), g, L)
              == SkipEntry(c + e.skipSize - (Pre(lens, g) - Pre(lens, p)), e.next)
  {
    var p := PrevAt(hts, g, L);
    var j := NextAt(hts, p, L);
    var ids', hts', lens' := Insert(ids, g, y), Insert(hts, g, h), Insert(lens, g, c);
    assert g <= j && Pre(lens, p) <= Pre(lens, g) <= Pre(lens, j) by {
      PrevAtNext(hts, g, L);
      PreMono(lens, p, g);
      PreMono(lens, g, j);
    }
    assert NextAt(hts', g, L) == j + 1 by {
      NextAtInsertNew(hts, g, h, L);
    }
    assert Pre(lens', j + 1) == Pre(lens, j) + c by {
      PreInsert(lens, g, c, j + 1);
    }
    assert Pre(lens', g) == Pre(lens, g) by {
      PreInsert(lens, g, c, g);
    }
    assert j < |ids| ==> ids'[j + 1] == ids[j];
  }

  /** At a level above the new node, the link over the gap grows by the new node's characters. */
  lemma ExpectedInsertOver(ids: seq<NodeId>, hts: seq<nat>, lens: seq<nat>, L: nat, g: nat, y: NodeId, h: nat, c: nat)
    requires |ids| == |hts| == |lens| && 0 < g <= |ids| && hts[0] > L && h <= L
    ensures var p := PrevAt(hts, g, L);
            var e := Expected(ids, hts, lens, p, L);
            Expected(Insert(ids, g, y), Insert(hts, g, h), Insert(lens, g, c), p, L) == SkipEntry(e.skipSize + c, e.next)
  {
    var p := PrevAt(hts, g, L);
    PrevAtNext(hts, g, L);
    var j := NextAt(hts, p, L);
    NextAtInsertOver(hts, g, h, L, p);
    PreInsert(lens, g, c, j + 1);
    PreInsert(lens, g, c, p);
  }

  // ---------------------------------------------------------------------------
  // Unlinking node `k`, which is never the head.

  lemma ExpectedRemoveBefore(ids: seq<NodeId>, hts: seq<nat>, lens: seq<nat>, L: nat, k: nat, i: nat)
    requires |ids| == |hts| == |lens| && 0 < k < |ids| && hts[0] > L
    requires i < k && hts[i] > L && i != PrevAt(hts, k, L)
    ensures Expected(Remove(ids, k), Remove(hts, k), Remove(lens, k), i, L) == Expected(ids, hts, lens, i, L)
  {
    LinkSide(hts, k, L, i);
    var m := NextAt(hts, i, L);
    NextAtRemoveBefore(hts, k, L, i);
    PreRemove(lens, k, i);
    PreRemove(lens, k, m);
  }

  lemma ExpectedRemoveAfter(ids: seq<NodeId>, hts: seq<nat>, lens: seq<nat>, L: nat, k: nat, i: nat)
    requires |ids| == |hts| == |lens| && k < i < |ids|
    ensures Expected(Remove(ids, k), Remove(hts, k), Remove(lens, k), i - 1, L) == Expected(ids, hts, lens, i, L)
  {
    var m := NextAt(hts, i, L);
    NextAtRemoveAfter(hts, k, L, i);
    PreRemove(lens, k, i - 1);
    PreRemove(lens, k, m - 1);
    PreMono(lens, k + 1, i);
  }

  /** The characters spanned from node `p` to node `j` lose those of node `k` between them when it is removed. */
  lemma RemoveSpan(lens: seq<nat>, k: nat, p: nat, j: nat)
    requires p <= k < j <= |lens|
    ensures Pre(lens, p) + lens[k] <= Pre(lens, j)
    ensures Pre(Remove(lens, k), j - 1) - Pre(Remove(lens, k), p) == Pre(lens, j) - Pre(lens, p) - lens[k]
  {
    PreMono(lens, p, k);
    PreMono(lens, k + 1, j);
    PreRemove(lens, k, j - 1);
    PreRemove(lens, k, p);
  }

  /** A node's own characters lie within the span of each of its entries. */
  lemma ExpectedOwn(ids: seq<NodeId>, hts: seq<nat>, lens: seq<nat>, L: nat, i: nat)
    requires |ids| == |hts| == |lens| && i < |ids|
    ensures Expected(ids, hts, lens, i, L).skipSize >= lens[i]
  {
    PreMono(lens, i + 1, NextAt(hts, i, L));
  }

  lemma RemovePrevNext(ids: seq<NodeId>, hts: seq<nat>, lens: seq<nat>, L: nat, k: nat)
    requires |ids| == |hts| == |lens| && 0 < k < |ids| && hts[0] > L && hts[k] > L
    ensures Expected(Remove(ids, k), Remove(hts, k), Remove(lens, k), PrevAt(hts, k, L), L).next
              == Expected(ids, hts, lens, k, L).next
  {
    var p := PrevAt(hts, k, L);
    var j := NextAt(hts, k, L);
    PrevAtNext(hts, k, L);
    NextAtUnique(hts, p, L, k);
    NextAtRemoveTo(hts, k, L, p);
    assert j - 1 < |ids| - 1 ==> Remove(ids, k)[j - 1] == ids[j];
  }

  lemma RemovePrevSkip(ids: seq<NodeId>, hts: seq<nat>, lens: seq<nat>, L: nat, k: nat)
    requires |ids| == |hts| == |lens| && 0 < k < |ids| && hts[0] > L && hts[k] > L
    ensures Expected(Remove(ids, k), Remove(hts, k), Remove(lens, k), PrevAt(hts, k, L), L).skipSize
              == Expected(ids, hts, lens, PrevAt(hts, k, L), L).skipSize + Expected(ids, hts, lens, k, L).skipSize - lens[k]
  {
    var p := PrevAt(hts, k, L);
    var j := NextAt(hts, k, L);
    PrevAtNext(hts, k, L);
    NextAtUnique(hts, p, L, k);
    NextAtRemoveTo(hts, k, L, p);
    RemoveSpan(lens, k, p, j);
    RemoveSpan(lens, k, k, j);
    PreMono(lens, p, k);
  }

  /** At a level the removed node reaches, the node before it takes over its link and span, less its characters. */
  lemma ExpectedRemovePrev(ids: seq<NodeId>, hts: seq<nat>, lens: seq<nat>, L: nat, k: nat)
    requires |ids| == |hts| == |lens| && 0 < k < |ids| && hts[0] > L && hts[k] > L
    ensures var e := Expected(ids, hts, lens, PrevAt(hts, k, L), L);
            var x := Expected(ids, hts, lens, k, L);
            && x.skipSize >= lens[k]
            && Expected(Remove(ids, k), Remove(hts, k), Remove(lens, k), PrevAt(hts, k, L), L)
                 == SkipEntry(e.skipSize + x.skipSize - lens[k], x.next)
  {
    ExpectedOwn(ids, hts, lens, L, k);
    RemovePrevNext(ids, hts, lens, L, k);
    RemovePrevSkip(ids, hts, lens, L, k);
  }

  /** At a level above the removed node, the link over it shrinks by its characters. */
  lemma ExpectedRemoveOver(ids: seq<NodeId>, hts: seq<nat>, lens: seq<nat>, L: nat, k: nat)
    requires |ids| == |hts| == |lens| && 0 < k < |ids| && hts[0] > L && hts[k] <= L
    ensures var e := Expected(ids, hts, lens, PrevAt(hts, k, L), L);
            && e.skipSize >= lens[k]
            && Expected(Remove(ids, k), Remove(hts, k), Remove(lens, k), PrevAt(hts, k, L), L)
                 == SkipEntry(e.skipSize - lens[k], e.next)
  {
    var p := PrevAt(hts, k, L);
    PrevAtNext(hts, k, L);
    var j := NextAt(hts, p, L);
    PreMono(lens, p, k);
    PreMono(lens, k + 1, j);
    NextAtRemoveOver(hts, k, L, p);
    PreRemove(lens, k, j - 1);
    PreRemove(lens, k, p);
  }

  // ---------------------------------------------------------------------------
  // Whole levels: each change of the rope touches one or two entries of a
  // level; every other entry is carried over, possibly to a shifted index.

  lemma CarriedInsertBefore(nodes: map<NodeId, Node>, nodes': map<NodeId, Node>, ids: seq<NodeId>, hts: seq<nat>, lens: seq<nat>, L: nat,
                            g: nat, y: NodeId, h: nat, c: nat, i: nat)
    requires |ids| == |hts| == |lens| && 0 < g <= |ids| && hts[0] > L
    requires LevelOk(nodes, ids, hts, lens, L)
    requires i < g && hts[i] > L && i != PrevAt(hts, g, L) && SameEntry(nodes, nodes', ids[i], L)
    ensures EntryOk(nodes', Insert(ids, g, y), Insert(hts, g, h), Insert(lens, g, c), i, L)
  {
    assert EntryOk(nodes, ids, hts, lens, i, L);
    ExpectedInsertBefore(ids, hts, lens, L, g, y, h, c, i);
    EntryCarried(nodes, nodes', ids, hts, lens, i, Insert(ids, g, y), Insert(hts, g, h), Insert(lens, g, c), i, L);
  }

  lemma CarriedInsertAfter(nodes: map<NodeId, Node>, nodes': map<NodeId, Node>, ids: seq<NodeId>, hts: seq<nat>, lens: seq<nat>, L: nat,
                           g: nat, y: NodeId, h: nat, c: nat, i: nat)
    requires |ids| == |hts| == |lens| && g <= i < |ids|
    requires LevelOk(nodes, ids, hts, lens, L)
    requires hts[i] > L && SameEntry(nodes, nodes', ids[i], L)
    ensures EntryOk(nodes', Insert(ids, g, y), Insert(hts, g, h), Insert(lens, g, c), i + 1, L)
  {
    assert EntryOk(nodes, ids, hts, lens, i, L);
    ExpectedInsertAfter(ids, hts, lens, L, g, y, h, c, i);
    EntryCarried(nodes, nodes', ids, hts, lens, i, Insert(ids, g, y), Insert(hts, g, h), Insert(lens, g, c), i + 1, L);
  }

  lemma CarriedRemoveBefore(nodes: map<NodeId, Node>, nodes': map<NodeId, Node>, ids: seq<NodeId>, hts: seq<nat>, lens: seq<nat>, L: nat,
                            k: nat, i: nat)
    requires |ids| == |hts| == |lens| && 0 < k < |ids| && hts[0] > L
    requires LevelOk(nodes, ids, hts, lens, L)
    requires i < k && hts[i] > L && i != PrevAt(hts, k, L) && SameEntry(nodes, nodes', ids[i], L)
    ensures EntryOk(nodes', Remove(ids, k), Remove(hts, k), Remove(lens, k), i, L)
  {
    assert EntryOk(nodes, ids, hts, lens, i, L);
    ExpectedRemoveBefore(ids, hts, lens, L, k, i);
    EntryCarried(nodes, nodes', ids, hts, lens, i, Remove(ids, k), Remove(hts, k), Remove(lens, k), i, L);
  }

  lemma CarriedRemoveAfter(nodes: map<NodeId, Node>, nodes': map<NodeId, Node>, ids: seq<NodeId>, hts: seq<nat>, lens: seq<nat>, L: nat,
                           k: nat, i: nat)
    requires |ids| == |hts| == |lens| && k < i < |ids|
    requires LevelOk(nodes, ids, hts, lens, L)
    requires hts[i] > L && SameEntry(nodes, nodes', ids[i], L)
    ensures EntryOk(nodes', Remove(ids, k), Remove(hts, k), Remove(lens, k), i - 1, L)
  {
    assert EntryOk(nodes, ids, hts, lens, i, L);
    ExpectedRemoveAfter(ids, hts, lens, L, k, i);
    EntryCarried(nodes, nodes', ids, hts, lens, i, Remove(ids, k), Remove(hts, k), Remove(lens, k), i - 1, L);
  }

  lemma ResizeEntry(nodes: map<NodeId, Node>, ids: seq<NodeId>, hts: seq<nat>, lens: seq<nat>, L: nat, k: nat, v: nat, i: nat)
    requires |ids| == |hts| == |lens| && k < |ids| && hts[0] > L && Distinct(ids)
    requires LevelOk(nodes, ids, hts, lens, L)
    requires i < |ids| && hts[i] > L
    ensures var p := PrevAt(hts, k + 1, L);
            && ids[p] in nodes && L < |nodes[ids[p]].nexts|
            && var e := nodes[ids[p]].nexts[L];
               && e.skipSize + v >= lens[k]
               && EntryOk(SetEntry(nodes, ids[p], L, SkipEntry(e.skipSize + v - lens[k], e.next)), ids, hts, lens[k := v], i, L)
  {
    var p := PrevAt(hts, k + 1, L);
    assert EntryOk(nodes, ids, hts, lens, p, L);
    ExpectedResizeCover(ids, hts, lens, L, k, v);
    var e := nodes[ids[p]].nexts[L];
    var nodes' := SetEntry(nodes, ids[p], L, SkipEntry(e.skipSize + v - lens[k], e.next));
    if i != p {
      assert EntryOk(nodes, ids, hts, lens, i, L);
      assert ids[i] != ids[p];
      ExpectedResizeOther(ids, hts, lens, L, k, v, i);
      EntryCarried(nodes, nodes', ids, hts, lens, i, ids, hts, lens[k := v], i, L);
    }
  }

  /** Resizing node `k` to `v` characters: the entry covering it absorbs the difference. */
  lemma ResizeLevel(nodes: map<NodeId, Node>, ids: seq<NodeId>, hts: seq<nat>, lens: seq<nat>, L: nat, k: nat, v: nat)
    requires |ids| == |hts| == |lens| && k < |ids| && hts[0] > L && Distinct(ids)
    requires LevelOk(nodes, ids, hts, lens, L)
    ensures var p := PrevAt(hts, k + 1, L);
            && ids[p] in nodes && L < |nodes[ids[p]].nexts|
            && var e := nodes[ids[p]].nexts[L];
               && e.skipSize + v >= lens[k]
               && LevelOk(SetEntry(nodes, ids[p], L, SkipEntry(e.skipSize + v - lens[k], e.next)), ids, hts, lens[k := v], L)
  {
    var p := PrevAt(hts, k + 1, L);
    assert EntryOk(nodes, ids, hts, lens, p, L);
    ExpectedResizeCover(ids, hts, lens, L, k, v);
    var e := nodes[ids[p]].nexts[L];
    var nodes' := SetEntry(nodes, ids[p], L, SkipEntry(e.skipSize + v - lens[k], e.next));
    forall i {:trigger EntryOk(nodes', ids, hts, lens[k := v], i, L)} | 0 <= i < |ids| && hts[i] > L
      ensures EntryOk(nodes', ids, hts, lens[k := v], i, L)
    {
      ResizeEntry(nodes, ids, hts, lens, L, k, v, i);
    }
  }

  /** The new map of `LinkBelow`. */
  ghost function LinkedBelow(nodes: map<NodeId, Node>, ids: seq<NodeId>, hts: seq<nat>, lens: seq<nat>, L: nat, g: nat, y: NodeId, c: nat): map<NodeId, Node>
    requires |ids| == |hts| == |lens| && 0 < g <= |ids| && hts[0] > L
    requires y in nodes && L < |nodes[y].nexts|
    requires LevelOk(nodes, ids, hts, lens, L)
  {
    var p := PrevAt(hts, g, L);
    assert EntryOk(nodes, ids, hts, lens, p, L);
    PrevSpan(ids, hts, lens, L, g);
    var e := nodes[ids[p]].nexts[L];
    var off := Pre(lens, g) - Pre(lens, p);
    SetEntry(SetEntry(nodes, y, L, SkipEntry(c + e.skipSize - off, e.next)), ids[p], L, SkipEntry(off, Some(y)))
  }

  lemma LinkBelowPrev(nodes: map<NodeId, Node>, ids: seq<NodeId>, hts: seq<nat>, lens: seq<nat>, L: nat,
                      g: nat, y: NodeId, h: nat, c: nat)
    requires |ids| == |hts| == |lens| && 0 < g <= |ids| && hts[0] > L && L < h
    requires y in nodes && L < |nodes[y].nexts|
    requires LevelOk(nodes, ids, hts, lens, L)
    ensures EntryOk(LinkedBelow(nodes, ids, hts, lens, L, g, y, c), Insert(ids, g, y), Insert(hts, g, h), Insert(lens, g, c), PrevAt(hts, g, L), L)
  {
    assert EntryOk(nodes, ids, hts, lens, PrevAt(hts, g, L), L);
    ExpectedInsertPrev(ids, hts, lens, L, g, y, h, c);
  }

  lemma LinkBelowNew(nodes: map<NodeId, Node>, ids: seq<NodeId>, hts: seq<nat>, lens: seq<nat>, L: nat,
                     g: nat, y: NodeId, h: nat, c: nat)
    requires |ids| == |hts| == |lens| && 0 < g <= |ids| && hts[0] > L && L < h
    requires forall i :: 0 <= i < |ids| ==> ids[i] != y
    requires y in nodes && L < |nodes[y].nexts|
    requires LevelOk(nodes, ids, hts, lens, L)
    ensures EntryOk(LinkedBelow(nodes, ids, hts, lens, L, g, y, c), Insert(ids, g, y), Insert(hts, g, h), Insert(lens, g, c), g, L)
  {
    var p := PrevAt(hts, g, L);
    assert EntryOk(nodes, ids, hts, lens, p, L);
    assert ids[p] != y;
    ExpectedInsertNew(ids, hts, lens, L, g, y, h, c);
  }

  /**
    Linking node `y` in at gap `g`, at a level it reaches: it takes over the
    link over the gap, and the node before the gap links to it.
   */
  lemma LinkBelow(nodes: map<NodeId, Node>, ids: seq<NodeId>, hts: seq<nat>, lens: seq<nat>, L: nat,
                  g: nat, y: NodeId, h: nat, c: nat)
    requires |ids| == |hts| == |lens| && 0 < g <= |ids| && hts[0] > L && L < h && Distinct(ids)
    requires forall i :: 0 <= i < |ids| ==> ids[i] != y
    requires y in nodes && L < |nodes[y].nexts|
    requires LevelOk(nodes, ids, hts, lens, L)
    ensures LevelOk(LinkedBelow(nodes, ids, hts, lens, L, g, y, c), Insert(ids, g, y), Insert(hts, g, h), Insert(lens, g, c), L)
  {
    var p := PrevAt(hts, g, L);
    var nodes' := LinkedBelow(nodes, ids, hts, lens, L, g, y, c);
    var ids', hts', lens' := Insert(ids, g, y), Insert(hts, g, h), Insert(lens, g, c);
    forall i' {:trigger EntryOk(nodes', ids', hts', lens', i', L)} | 0 <= i' < |ids'| && hts'[i'] > L
      ensures EntryOk(nodes', ids', hts', lens', i', L)
    {
      if i' == g {
        LinkBelowNew(nodes, ids, hts, lens, L, g, y, h, c);
      } else if i' == p {
        LinkBelowPrev(nodes, ids, hts, lens, L, g, y, h, c);
      } else if i' < g {
        assert ids[i'] != ids[p] && ids[i'] != y;
        CarriedInsertBefore(nodes, nodes', ids, hts, lens, L, g, y, h, c, i');
      } else {
        assert ids[i' - 1] != ids[p] && ids[i' - 1] != y;
        CarriedInsertAfter(nodes, nodes', ids, hts, lens, L, g, y, h, c, i' - 1);
      }
    }
  }

  /** The new map of `LinkAbove`. */
  ghost function LinkedAbove(nodes: map<NodeId, Node>, ids: seq<NodeId>, hts: seq<nat>, lens: seq<nat>, L: nat, g: nat, c: nat): map<NodeId, Node>
    requires |ids| == |hts| == |lens| && 0 < g <= |ids| && hts[0] > L
    requires LevelOk(nodes, ids, hts, lens, L)
  {
    var p := PrevAt(hts, g, L);
    assert EntryOk(nodes, ids, hts, lens, p, L);
    var e := nodes[ids[p]].nexts[L];
    SetEntry(nodes, ids[p], L, SkipEntry(e.skipSize + c, e.next))
  }

  lemma LinkAbovePrev(nodes: map<NodeId, Node>, ids: seq<NodeId>, hts: seq<nat>, lens: seq<nat>, L: nat,
                      g: nat, y: NodeId, h: nat, c: nat)
    requires |ids| == |hts| == |lens| && 0 < g <= |ids| && hts[0] > L && h <= L
    requires LevelOk(nodes, ids, hts, lens, L)
    ensures EntryOk(LinkedAbove(nodes, ids, hts, lens, L, g, c), Insert(ids, g, y), Insert(hts, g, h), Insert(lens, g, c), PrevAt(hts, g, L), L)
  {
    assert EntryOk(nodes, ids, hts, lens, PrevAt(hts, g, L), L);
    ExpectedInsertOver(ids, hts, lens, L, g, y, h, c);
  }

  /** Linking node `y` in at gap `g`, at a level above it: the link over the gap grows by its characters. */
  lemma LinkAbove(nodes: map<NodeId, Node>, ids: seq<NodeId>, hts: seq<nat>, lens: seq<nat>, L: nat,
                  g: nat, y: NodeId, h: nat, c: nat)
    requires |ids| == |hts| == |lens| && 0 < g <= |ids| && hts[0] > L && h <= L && Distinct(ids)
    requires LevelOk(nodes, ids, hts, lens, L)
    ensures LevelOk(LinkedAbove(nodes, ids, hts, lens, L, g, c), Insert(ids, g, y), Insert(hts, g, h), Insert(lens, g, c), L)
  {
    var p := PrevAt(hts, g, L);
    var nodes' := LinkedAbove(nodes, ids, hts, lens, L, g, c);
    var ids', hts', lens' := Insert(ids, g, y), Insert(hts, g, h), Insert(lens, g, c);
    forall i' {:trigger EntryOk(nodes', ids', hts', lens', i', L)} | 0 <= i' < |ids'| && hts'[i'] > L
      ensures EntryOk(nodes', ids', hts', lens', i', L)
    {
      if i' == p {
        LinkAbovePrev(nodes, ids, hts, lens, L, g, y, h, c);
      } else if i' < g {
        assert ids[i'] != ids[p];
        CarriedInsertBefore(nodes, nodes', ids, hts, lens, L, g, y, h, c, i');
      } else {
        assert i' != g;
        assert ids[i' - 1] != ids[p];
        CarriedInsertAfter(nodes, nodes', ids, hts, lens, L, g, y, h, c, i' - 1);
      }
    }
  }

  /** The new map of `UnlinkBelow`. */
  ghost function UnlinkedBelow(nodes: map<NodeId, Node>, ids: seq<NodeId>, hts: seq<nat>, lens: seq<nat>, L: nat, k: nat): map<NodeId, Node>
    requires |ids| == |hts| == |lens| && 0 < k < |ids| && hts[0] > L && L < hts[k]
    requires LevelOk(nodes, ids, hts, lens, L)
  {
    var p := PrevAt(hts, k, L);
    assert EntryOk(nodes, ids, hts, lens, p, L);
    assert EntryOk(nodes, ids, hts, lens, k, L);
    ExpectedOwn(ids, hts, lens, L, k);
    var e := nodes[ids[p]].nexts[L];
    var x := nodes[ids[k]].nexts[L];
    SetEntry(nodes, ids[p], L, SkipEntry(e.skipSize + x.skipSize - lens[k], x.next))
  }

  lemma UnlinkBelowPrev(nodes: map<NodeId, Node>, ids: seq<NodeId>, hts: seq<nat>, lens: seq<nat>, L: nat, k: nat)
    requires |ids| == |hts| == |lens| && 0 < k < |ids| && hts[0] > L && L < hts[k]
    requires LevelOk(nodes, ids, hts, lens, L)
    ensures EntryOk(UnlinkedBelow(nodes, ids, hts, lens, L, k), Remove(ids, k), Remove(hts, k), Remove(lens, k), PrevAt(hts, k, L), L)
  {
    assert EntryOk(nodes, ids, hts, lens, PrevAt(hts, k, L), L);
    assert EntryOk(nodes, ids, hts, lens, k, L);
    ExpectedRemovePrev(ids, hts, lens, L, k);
  }

  /** Unlinking node `k` at a level it reaches: the node before it takes over its link. */
  lemma UnlinkBelow(nodes: map<NodeId, Node>, ids: seq<NodeId>, hts: seq<nat>, lens: seq<nat>, L: nat, k: nat)
    requires |ids| == |hts| == |lens| && 0 < k < |ids| && hts[0] > L && L < hts[k] && Distinct(ids)
    requires LevelOk(nodes, ids, hts, lens, L)
    ensures LevelOk(UnlinkedBelow(nodes, ids, hts, lens, L, k), Remove(ids, k), Remove(hts, k), Remove(lens, k), L)
  {
    var p := PrevAt(hts, k, L);
    var nodes' := UnlinkedBelow(nodes, ids, hts, lens, L, k);
    var ids', hts', lens' := Remove(ids, k), Remove(hts, k), Remove(lens, k);
    forall i' {:trigger EntryOk(nodes', ids', hts', lens', i', L)} | 0 <= i' < |ids'| && hts'[i'] > L
      ensures EntryOk(nodes', ids', hts', lens', i', L)
    {
      if i' == p {
        UnlinkBelowPrev(nodes, ids, hts, lens, L, k);
      } else if i' < k {
        assert ids[i'] != ids[p];
        CarriedRemoveBefore(nodes, nodes', ids, hts, lens, L, k, i');
      } else {
        assert ids[i' + 1] != ids[p];
        CarriedRemoveAfter(nodes, nodes', ids, hts, lens, L, k, i' + 1);
      }
    }
  }

  /** The new map of `UnlinkAbove`. */
  ghost function UnlinkedAbove(nodes: map<NodeId, Node>, ids: seq<NodeId>, hts: seq<nat>, lens: seq<nat>, L: nat, k: nat): map<NodeId, Node>
    requires |ids| == |hts| == |lens| && 0 < k < |ids| && hts[0] > L && hts[k] <= L
    requires LevelOk(nodes, ids, hts, lens, L)
  {
    var p := PrevAt(hts, k, L);
    assert EntryOk(nodes, ids, hts, lens, p, L);
    ExpectedRemoveOver(ids, hts, lens, L, k);
    var e := nodes[ids[p]].nexts[L];
    SetEntry(nodes, ids[p], L, SkipEntry(e.skipSize - lens[k], e.next))
  }

  lemma UnlinkAbovePrev(nodes: map<NodeId, Node>, ids: seq<NodeId>, hts: seq<nat>, lens: seq<nat>, L: nat, k: nat)
    requires |ids| == |hts| == |lens| && 0 < k < |ids| && hts[0] > L && hts[k] <= L
    requires LevelOk(nodes, ids, hts, lens, L)
    ensures EntryOk(UnlinkedAbove(nodes, ids, hts, lens, L, k), Remove(ids, k), Remove(hts, k), Remove(lens, k), PrevAt(hts, k, L), L)
  {
    assert EntryOk(nodes, ids, hts, lens, PrevAt(hts, k, L), L);
    ExpectedRemoveOver(ids, hts, lens, L, k);
  }

  /** Unlinking node `k` at a level above it: the link over it shrinks by its characters. */
  lemma UnlinkAbove(nodes: map<NodeId, Node>, ids: seq<NodeId>, hts: seq<nat>, lens: seq<nat>, L: nat, k: nat)
    requires |ids| == |hts| == |lens| && 0 < k < |ids| && hts[0] > L && hts[k] <= L && Distinct(ids)
    requires LevelOk(nodes, ids, hts, lens, L)
    ensures LevelOk(UnlinkedAbove(nodes, ids, hts, lens, L, k), Remove(ids, k), Remove(hts, k), Remove(lens, k), L)
  {
    var p := PrevAt(hts, k, L);
    var nodes' := UnlinkedAbove(nodes, ids, hts, lens, L, k);
    var ids', hts', lens' := Remove(ids, k), Remove(hts, k), Remove(lens, k);
    forall i' {:trigger EntryOk(nodes', ids', hts', lens', i', L)} | 0 <= i' < |ids'| && hts'[i'] > L
      ensures EntryOk(nodes', ids', hts', lens', i', L)
    {
      if i' == p {
        UnlinkAbovePrev(nodes, ids, hts, lens, L, k);
      } else if i' < k {
        assert ids[i'] != ids[p];
        CarriedRemoveBefore(nodes, nodes', ids, hts, lens, L, k, i');
      } else {
        assert ids[i' + 1] != ids[p];
        CarriedRemoveAfter(nodes, nodes', ids, hts, lens, L, k, i' + 1);
      }
    }
  }

  /** Dropping the unlinked node from the arena leaves the level correct. */
  lemma DropNode(nodes: map<NodeId, Node>, ids: seq<NodeId>, hts: seq<nat>, lens: seq<nat>, L: nat, k: nat)
    requires |ids| == |hts| == |lens| && k < |ids| && Distinct(ids)
    requires LevelOk(nodes, Remove(ids, k), Remove(hts, k), Remove(lens, k), L)
    ensures LevelOk(nodes - {ids[k]}, Remove(ids, k), Remove(hts, k), Remove(lens, k), L)
  {
    var ids' := Remove(ids, k);
    forall i | 0 <= i < |ids'|
      ensures ids'[i] != ids[k]
    {
      if i < k {
        assert ids'[i] == ids[i];
      } else {
        assert ids'[i] == ids[i + 1];
      }
    }
    LevelFrame(nodes, nodes - {ids[k]}, ids', Remove(hts, k), Remove(lens, k), L);
  }

  /** A level the head already had stays correct when the head grows. */
  lemma GrowOld(nodes: map<NodeId, Node>, ids: seq<NodeId>, hts: seq<nat>, lens: seq<nat>, L: nat, h: nat)
    requires |ids| == |hts| == |lens| && 0 < |ids| && hts[0] > L && h > L
    requires LevelOk(nodes, ids, hts, lens, L)
    ensures LevelOk(nodes, ids, hts[0 := h], lens, L)
  {
    forall i {:trigger EntryOk(nodes, ids, hts[0 := h], lens, i, L)} | 0 <= i < |ids| && hts[i] > L
      ensures EntryOk(nodes, ids, hts[0 := h], lens, i, L)
    {
      assert EntryOk(nodes, ids, hts, lens, i, L);
      HeadHeight(hts, h, L, i, 1);
    }
  }

  /** A level only the head reaches is correct when the head's entry there holds every character and a null link. */
  lemma GrowNew(nodes: map<NodeId, Node>, ids: seq<NodeId>, hts: seq<nat>, lens: seq<nat>, L: nat)
    requires |ids| == |hts| == |lens| && 0 < |ids| && hts[0] > L
    requires forall k :: 0 < k < |ids| ==> hts[k] <= L
    requires ids[0] in nodes && L < |nodes[ids[0]].nexts|
    requires nodes[ids[0]].nexts[L] == SkipEntry(Pre(lens, |lens|), None)
    ensures LevelOk(nodes, ids, hts, lens, L)
  {
    NextAtAbove(hts, 0, L);
  }
}
