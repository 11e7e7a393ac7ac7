/**
  The arithmetic of a skip list, on the sequence of its nodes' heights and
  character counts, listed in level-0 order (index 0 is the head).

  - `Pre(lens, k)`: characters before node `k`, the position where node
    `k` starts.
  - `NextAt(hts, i, L)`: the node that node `i`'s level-`L` link reaches,
    the first node after `i` taller than `L` (or `|hts|`, the null end).
  - `PrevAt(hts, g, L)`: the last node before index `g` taller than `L`,
    whose level-`L` link spans the gap in front of node `g`; the update
    path of a search is made of these.

  Each of them is pinned down by a uniqueness lemma, and the lemmas below
  say how they move when a node is resized, inserted or removed.
 */
module SkipIndex {

  /** The sum of the first `k` lengths. */
  function Pre(lens: seq<nat>, k: nat): nat
    requires k <= |lens|
  {
    if k == 0 then 0 else Pre(lens, k - 1) + lens[k - 1]
  }

  lemma {:induction false} PreMono(lens: seq<nat>, i: nat, j: nat)
    requires i <= j <= |lens|
    ensures Pre(lens, i) <= Pre(lens, j)
    decreases j
  {
    if i < j {
      PreMono(lens, i, j - 1);
    }
  }

  /** The first index after `i` whose height exceeds `L`, or `|hts|` if there is none. */
  function NextAt(hts: seq<nat>, i: nat, L: nat): (j: nat)
    requires i < |hts|
    ensures i < j <= |hts|
    ensures j < |hts| ==> hts[j] > L
    ensures forall k :: i < k < j ==> hts[k] <= L
    decreases |hts| - i
  {
    if i + 1 == |hts| || hts[i + 1] > L then i + 1 else NextAt(hts, i + 1, L)
  }

  /** The last index before `g` whose height exceeds `L`; the head (index 0) is tall enough. */
  function PrevAt(hts: seq<nat>, g: nat, L: nat): (p: nat)
    requires 0 < g <= |hts| && hts[0] > L
    ensures p < g && hts[p] > L
    ensures forall k :: p < k < g ==> hts[k] <= L
    decreases g
  {
    if hts[g - 1] > L then g - 1 else PrevAt(hts, g - 1, L)
  }

  lemma NextAtUnique(hts: seq<nat>, i: nat, L: nat, j: nat)
    requires i < j <= |hts|
    requires j < |hts| ==> hts[j] > L
    requires forall k :: i < k < j ==> hts[k] <= L
    ensures NextAt(hts, i, L) == j
  {
    var m := NextAt(hts, i, L);
  }

  lemma PrevAtUnique(hts: seq<nat>, g: nat, L: nat, p: nat)
    requires 0 < g <= |hts| && hts[0] > L
    requires p < g && hts[p] > L
    requires forall k :: p < k < g ==> hts[k] <= L
    ensures PrevAt(hts, g, L) == p
  {
    var m := PrevAt(hts, g, L);
  }

  /** The link of the node before a gap reaches past the gap. */
  lemma PrevAtNext(hts: seq<nat>, g: nat, L: nat)
    requires 0 < g <= |hts| && hts[0] > L
    ensures g <= NextAt(hts, PrevAt(hts, g, L), L)
  {
    var p := PrevAt(hts, g, L);
    var j := NextAt(hts, p, L);
  }

  /** The node before gap `g + 1` at a level the node `g` reaches is `g` itself, and the one before gap `g` otherwise. */
  lemma PrevAtStep(hts: seq<nat>, g: nat, L: nat)
    requires 0 < g < |hts| && hts[0] > L
    ensures PrevAt(hts, g + 1, L) == if hts[g] > L then g else PrevAt(hts, g, L)
  {}

  /** A node taller than `L` is either the node before gap `g`, or its level-`L` link stays on one side of the gap. */
  lemma LinkSide(hts: seq<nat>, g: nat, L: nat, i: nat)
    requires 0 < g <= |hts| && hts[0] > L
    requires i < |hts| && hts[i] > L && i != PrevAt(hts, g, L)
    ensures i < g ==> NextAt(hts, i, L) < g
  {
    var p := PrevAt(hts, g, L);
    if i < g {
      assert i < p;
      var j := NextAt(hts, i, L);
    }
  }

  // ---------------------------------------------------------------------------
  // Levels above every height.

  /** No link reaches past a level no node but the head is tall enough for. */
  lemma NextAtAbove(hts: seq<nat>, i: nat, L: nat)
    requires i < |hts|
    requires forall k :: 0 < k < |hts| ==> hts[k] <= L
    ensures NextAt(hts, i, L) == |hts|
  {
    NextAtUnique(hts, i, L, |hts|);
  }

  /** Changing the head's height changes no link, at any level the head reaches before and after. */
  lemma HeadHeight(hts: seq<nat>, h: nat, L: nat, i: nat, g: nat)
    requires i < |hts| && 0 < g <= |hts| && hts[0] > L && h > L
    ensures NextAt(hts[0 := h], i, L) == NextAt(hts, i, L)
    ensures PrevAt(hts[0 := h], g, L) == PrevAt(hts, g, L)
  {
    var hts' := hts[0 := h];
    NextAtUnique(hts', i, L, NextAt(hts, i, L));
    PrevAtUnique(hts', g, L, PrevAt(hts, g, L));
  }

  // ---------------------------------------------------------------------------
  // Resizing one node.

  /** Replacing length `k` by `v` moves every position after node `k` by the difference. */
  lemma {:induction false} PreUpdate(lens: seq<nat>, k: nat, v: nat, m: nat)
    requires k < |lens| && m <= |lens|
    ensures Pre(lens[k := v], m) == if m <= k then Pre(lens, m) else Pre(lens, m) - lens[k] + v
    decreases m
  {
    if m > 0 {
      PreUpdate(lens, k, v, m - 1);
    }
  }

  // ---------------------------------------------------------------------------
  // Inserting one node.

  function Insert<T>(s: seq<T>, g: nat, x: T): (r: seq<T>)
    requires g <= |s|
    ensures |r| == |s| + 1 && r[g] == x
    ensures forall k :: 0 <= k < g ==> r[k] == s[k]
    ensures forall k :: g < k < |r| ==> r[k] == s[k - 1]
  {
    s[..g] + [x] + s[g..]
  }

  /** What lies on either side of an inserted element is the list cut at the gap. */
  lemma InsertSlices<T>(s: seq<T>, g: nat, x: T)
    requires g <= |s|
    ensures Insert(s, g, x)[..g] == s[..g] && Insert(s, g, x)[g + 1..] == s[g..]
  {
  }

  /** Positions before the new node stay; positions after it move by its length. */
  lemma {:induction false} PreInsert(lens: seq<nat>, g: nat, c: nat, m: nat)
    requires g <= |lens| && m <= |lens| + 1
    ensures Pre(Insert(lens, g, c), m) == if m <= g then Pre(lens, m) else Pre(lens, m - 1) + c
    decreases m
  {
    if m > 0 {
      PreInsert(lens, g, c, m - 1);
    }
  }

  /** The position after a new node of length `c` at gap `g` is the position of the gap plus `c`. */
  lemma PreAfterInsert(lens: seq<nat>, lens': seq<nat>, g: nat, c: nat, pos: nat)
    requires g <= |lens| && lens' == Insert(lens, g, c) && pos == Pre(lens, g)
    ensures pos + c == Pre(lens', g + 1)
  {
    PreInsert(lens, g, c, g + 1);
  }

  /** A link that ends before the new node is unchanged. */
  lemma NextAtInsertBefore(hts: seq<nat>, g: nat, h: nat, L: nat, i: nat)
    requires g <= |hts| && i < g && NextAt(hts, i, L) < g
    ensures NextAt(Insert(hts, g, h), i, L) == NextAt(hts, i, L)
  {
    NextAtUnique(Insert(hts, g, h), i, L, NextAt(hts, i, L));
  }

  /** A link of a node after the new one moves with it. */
  lemma NextAtInsertAfter(hts: seq<nat>, g: nat, h: nat, L: nat, i: nat)
    requires g <= i < |hts|
    ensures NextAt(Insert(hts, g, h), i + 1, L) == NextAt(hts, i, L) + 1
  {
    var hts' := Insert(hts, g, h);
    var j := NextAt(hts, i, L);
    forall k | i + 1 < k < j + 1
      ensures hts'[k] <= L
    {
      assert hts'[k] == hts[k - 1];
    }
    NextAtUnique(hts', i + 1, L, j + 1);
  }

  /** The link over the gap of a node not taller than `L` now ends one further on. */
  lemma NextAtInsertOver(hts: seq<nat>, g: nat, h: nat, L: nat, i: nat)
    requires g <= |hts| && i < g && g <= NextAt(hts, i, L) && h <= L
    ensures NextAt(Insert(hts, g, h), i, L) == NextAt(hts, i, L) + 1
  {
    var hts' := Insert(hts, g, h);
    var j := NextAt(hts, i, L);
    forall k | i < k < j + 1
      ensures hts'[k] <= L
    {
      if k < g {
        assert hts'[k] == hts[k];
      } else if g < k {
        assert hts'[k] == hts[k - 1];
      }
    }
    NextAtUnique(hts', i, L, j + 1);
  }

  /** The link over the gap of a node taller than `L` now ends at the new node. */
  lemma NextAtInsertTo(hts: seq<nat>, g: nat, h: nat, L: nat, i: nat)
    requires g <= |hts| && i < g && g <= NextAt(hts, i, L) && h > L
    ensures NextAt(Insert(hts, g, h), i, L) == g
  {
    var hts' := Insert(hts, g, h);
    forall k | i < k < g
      ensures hts'[k] <= L
    {
      assert hts'[k] == hts[k];
    }
    NextAtUnique(hts', i, L, g);
  }

  /** The new node's link reaches where the link over its gap reached. */
  lemma NextAtInsertNew(hts: seq<nat>, g: nat, h: nat, L: nat)
    requires 0 < g <= |hts| && hts[0] > L
    ensures NextAt(Insert(hts, g, h), g, L) == NextAt(hts, PrevAt(hts, g, L), L) + 1
  {
    var hts' := Insert(hts, g, h);
    var p := PrevAt(hts, g, L);
    var j := NextAt(hts, p, L);
    PrevAtNext(hts, g, L);
    forall k | g < k < j + 1
      ensures hts'[k] <= L
    {
      assert hts'[k] == hts[k - 1];
    }
    NextAtUnique(hts', g, L, j + 1);
  }

  /** The node before the gap after the new node: the new node at its own levels, the old one above. */
  lemma PrevAtInsert(hts: seq<nat>, g: nat, h: nat, L: nat)
    requires 0 < g <= |hts| && hts[0] > L
    ensures PrevAt(Insert(hts, g, h), g + 1, L) == if h > L then g else PrevAt(hts, g, L)
    ensures h <= L ==> PrevAt(Insert(hts, g, h), g, L) == PrevAt(hts, g, L)
  {
    var hts' := Insert(hts, g, h);
    var p := PrevAt(hts, g, L);
    forall k | p < k < g
      ensures hts'[k] <= L
    {
      assert hts'[k] == hts[k];
    }
    assert hts'[p] == hts[p];
    PrevAtUnique(hts', g, L, p);
    if h > L {
      PrevAtUnique(hts', g + 1, L, g);
    } else {
      PrevAtUnique(hts', g + 1, L, p);
    }
  }

  // ---------------------------------------------------------------------------
  // Removing one node: inserting it back gives the old sequence.

  function Remove<T>(s: seq<T>, k: nat): (r: seq<T>)
    requires k < |s|
    ensures |r| == |s| - 1
    ensures forall m :: 0 <= m < k ==> r[m] == s[m]
    ensures forall m :: k <= m < |r| ==> r[m] == s[m + 1]
  {
    s[..k] + s[k + 1..]
  }

  /** What lies on either side of a removed element is the list cut around it. */
  lemma RemoveSlices<T>(s: seq<T>, k: nat)
    requires k < |s|
    ensures Remove(s, k)[..k] == s[..k] && Remove(s, k)[k..] == s[k + 1..]
  {
  }

  lemma InsertRemove<T>(s: seq<T>, k: nat)
    requires k < |s|
    ensures Insert(Remove(s, k), k, s[k]) == s
  {
    var r := Insert(Remove(s, k), k, s[k]);
    assert forall m :: 0 <= m < |s| ==> r[m] == s[m];
  }
  /** Positions before the removed node stay; positions after it move back by its length. */
  lemma PreRemove(lens: seq<nat>, k: nat, m: nat)
    requires k < |lens| && m < |lens|
    ensures Pre(Remove(lens, k), m) == if m <= k then Pre(lens, m) else Pre(lens, m + 1) - lens[k]
  {
    InsertRemove(lens, k);
    PreInsert(Remove(lens, k), k, lens[k], if m <= k then m else m + 1);
  }

  /** A removed entry takes its count from the total. */
  lemma PreRemoveAll(lens: seq<nat>, k: nat, n: nat)
    requires k < |lens| && n + 1 == |lens|
    ensures Pre(Remove(lens, k), n) + lens[k] == Pre(lens, |lens|)
  {
    PreRemove(lens, k, n);
  }

  /** A link that ends before the removed node is unchanged. */
  lemma NextAtRemoveBefore(hts: seq<nat>, k: nat, L: nat, i: nat)
    requires i < k < |hts| && NextAt(hts, i, L) < k
    ensures NextAt(Remove(hts, k), i, L) == NextAt(hts, i, L)
  {
    NextAtUnique(Remove(hts, k), i, L, NextAt(hts, i, L));
  }

  /** A link of a node after the removed one moves back with it. */
  lemma NextAtRemoveAfter(hts: seq<nat>, k: nat, L: nat, i: nat)
    requires k < i < |hts|
    ensures NextAt(Remove(hts, k), i - 1, L) == NextAt(hts, i, L) - 1
  {
    var hts' := Remove(hts, k);
    var j := NextAt(hts, i, L);
    forall m | i - 1 < m < j - 1
      ensures hts'[m] <= L
    {
      assert hts'[m] == hts[m + 1];
    }
    NextAtUnique(hts', i - 1, L, j - 1);
  }

  /** A link passing over the removed node now ends one node earlier. */
  lemma NextAtRemoveOver(hts: seq<nat>, k: nat, L: nat, i: nat)
    requires i < k < |hts| && k < NextAt(hts, i, L)
    ensures NextAt(Remove(hts, k), i, L) == NextAt(hts, i, L) - 1
  {
    var hts' := Remove(hts, k);
    var j := NextAt(hts, i, L);
    forall m | i < m < j - 1
      ensures hts'[m] <= L
    {
      if m < k {
        assert hts'[m] == hts[m];
      } else {
        assert hts'[m] == hts[m + 1];
      }
    }
    NextAtUnique(hts', i, L, j - 1);
  }

  /** A link that ended at the removed node now ends where the removed node's link ended. */
  lemma NextAtRemoveTo(hts: seq<nat>, k: nat, L: nat, i: nat)
    requires i < k < |hts| && NextAt(hts, i, L) == k
    ensures NextAt(Remove(hts, k), i, L) == NextAt(hts, k, L) - 1
  {
    var hts' := Remove(hts, k);
    var j := NextAt(hts, k, L);
    forall m | i < m < j - 1
      ensures hts'[m] <= L
    {
      if m < k {
        assert hts'[m] == hts[m];
      } else {
        assert hts'[m] == hts[m + 1];
      }
    }
    NextAtUnique(hts', i, L, j - 1);
  }

  /** The nodes before a gap are the same once the node after the gap is removed. */
  lemma PrevAtRemove(hts: seq<nat>, k: nat, L: nat)
    requires 0 < k < |hts| && hts[0] > L
    ensures PrevAt(Remove(hts, k), k, L) == PrevAt(hts, k, L)
  {
    var hts' := Remove(hts, k);
    var p := PrevAt(hts, k, L);
    assert hts'[p] == hts[p];
    forall m | p < m < k
      ensures hts'[m] <= L
    {
      assert hts'[m] == hts[m];
    }
    PrevAtUnique(hts', k, L, p);
  }
}
