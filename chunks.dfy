/**
  The text of a rope as the concatenation of its nodes' in-use bytes, in
  level-0 order, and how that concatenation changes when one chunk is
  replaced, inserted or removed.
 */
module Chunks {

  import opened Seqs
  import opened Utf8
  import opened SkipIndex
  import opened Text

  /** The bytes of chunks `i` up to (not including) `j`, in order. */
  function Concat(ds: seq<seq<uint8>>, i: nat, j: nat): seq<uint8>
    requires i <= j <= |ds|
    decreases j
  {
    if j == i then [] else Concat(ds, i, j - 1) + ds[j - 1]
  }

  ghost predicate AllValid(ds: seq<seq<uint8>>) {
    forall k :: 0 <= k < |ds| ==> ValidUtf8(ds[k])
  }

  /** The character count of each chunk. */
  function Counts(ds: seq<seq<uint8>>): (lens: seq<nat>)
    ensures |lens| == |ds|
    ensures forall k :: 0 <= k < |ds| ==> lens[k] == CountChars(ds[k])
  {
    seq(|ds|, k requires 0 <= k < |ds| => CountChars(ds[k]))
  }

  lemma CountsUpdate(ds: seq<seq<uint8>>, k: nat, d: seq<uint8>)
    requires k < |ds|
    ensures Counts(ds[k := d]) == Counts(ds)[k := CountChars(d)]
  {}

  lemma CountsInsert(ds: seq<seq<uint8>>, g: nat, d: seq<uint8>)
    requires g <= |ds|
    ensures Counts(Insert(ds, g, d)) == Insert(Counts(ds), g, CountChars(d))
  {}

  lemma CountsRemove(ds: seq<seq<uint8>>, k: nat)
    requires k < |ds|
    ensures Counts(Remove(ds, k)) == Remove(Counts(ds), k)
  {}

  lemma {:induction false} ConcatSplit(ds: seq<seq<uint8>>, i: nat, m: nat, j: nat)
    requires i <= m <= j <= |ds|
    ensures Concat(ds, i, j) == Concat(ds, i, m) + Concat(ds, m, j)
    decreases j
  {
    if j > m {
      ConcatSplit(ds, i, m, j - 1);
      AppendAssoc(Concat(ds, i, m), Concat(ds, m, j - 1), ds[j - 1]);
    }
  }

  /** Chunk lists that agree on a stretch have the same concatenation over it. */
  lemma {:induction false} ConcatSlices(ds: seq<seq<uint8>>, ds': seq<seq<uint8>>, i: nat, j: nat, i': nat, j': nat)
    requires i <= j <= |ds| && i' <= j' <= |ds'| && ds[i..j] == ds'[i'..j']
    ensures Concat(ds, i, j) == Concat(ds', i', j')
    decreases j
  {
    if j > i {
      assert ds[i..j - 1] == ds[i..j][..j - 1 - i];
      assert ds'[i'..j' - 1] == ds'[i'..j'][..j' - 1 - i'];
      assert ds[j - 1] == ds[i..j][j - 1 - i];
      assert ds'[j' - 1] == ds'[i'..j'][j' - 1 - i'];
      ConcatSlices(ds, ds', i, j - 1, i', j' - 1);
    }
  }

  lemma ConcatOne(ds: seq<seq<uint8>>, k: nat)
    requires k < |ds|
    ensures Concat(ds, k, k + 1) == ds[k]
  {
    assert Concat(ds, k, k + 1) == Concat(ds, k, k) + ds[k];
  }

  /** The whole text around chunk `k`. */
  lemma ConcatAround(ds: seq<seq<uint8>>, k: nat)
    requires k < |ds|
    ensures Concat(ds, 0, |ds|) == Concat(ds, 0, k) + ds[k] + Concat(ds, k + 1, |ds|)
  {
    ConcatSplit(ds, 0, k, |ds|);
    ConcatSplit(ds, k, k + 1, |ds|);
    ConcatOne(ds, k);
  }

  /** Valid chunks concatenate to valid text whose character count is the sum of theirs. */
  lemma {:induction false} ConcatValid(ds: seq<seq<uint8>>, j: nat)
    requires j <= |ds| && AllValid(ds)
    ensures ValidUtf8(Concat(ds, 0, j))
    ensures CountChars(Concat(ds, 0, j)) == Pre(Counts(ds), j)
    decreases j
  {
    if j > 0 {
      ConcatValid(ds, j - 1);
      AppendValid(Concat(ds, 0, j - 1), ds[j - 1]);
    }
  }

  /** Replacing chunk `k` replaces its bytes in the text. */
  lemma ConcatUpdate(ds: seq<seq<uint8>>, k: nat, d: seq<uint8>)
    requires k < |ds|
    ensures Concat(ds[k := d], 0, |ds|) == Concat(ds, 0, k) + d + Concat(ds, k + 1, |ds|)
  {
    var ds' := ds[k := d];
    ConcatAround(ds', k);
    UpdateSlices(ds, k, d);
    ConcatSlices(ds, ds', 0, k, 0, k);
    ConcatSlices(ds, ds', k + 1, |ds|, k + 1, |ds|);
  }

  /** Inserting chunk `d` at gap `g` inserts its bytes in the text. */
  lemma ConcatInsert(ds: seq<seq<uint8>>, g: nat, d: seq<uint8>)
    requires g <= |ds|
    ensures Concat(Insert(ds, g, d), 0, |ds| + 1) == Concat(ds, 0, g) + d + Concat(ds, g, |ds|)
  {
    var ds' := Insert(ds, g, d);
    assert Concat(ds', 0, |ds| + 1) == Concat(ds', 0, g) + d + Concat(ds', g + 1, |ds| + 1) by {
      ConcatAround(ds', g);
    }
    assert Concat(ds', 0, g) == Concat(ds, 0, g) by {
      InsertSlices(ds, g, d);
      ConcatSlices(ds, ds', 0, g, 0, g);
    }
    assert Concat(ds', g + 1, |ds| + 1) == Concat(ds, g, |ds|) by {
      InsertSlices(ds, g, d);
      ConcatSlices(ds, ds', g, |ds|, g + 1, |ds| + 1);
    }
  }

  /** `ConcatInsert`, stated of a list `ds'` already known to be the inserted one, `n` long. */
  lemma ConcatInsertWhole(ds: seq<seq<uint8>>, ds': seq<seq<uint8>>, g: nat, n: nat, d: seq<uint8>)
    requires g <= |ds|
    requires ds' == Insert(ds, g, d)
    requires n == |ds'|
    ensures Concat(ds', 0, n) == Concat(ds, 0, g) + d + Concat(ds, g, |ds|)
  {
    ConcatInsert(ds, g, d);
  }

  /** Removing chunk `k` removes its bytes from the text. */
  lemma ConcatRemove(ds: seq<seq<uint8>>, k: nat)
    requires k < |ds|
    ensures Concat(Remove(ds, k), 0, |ds| - 1) == Concat(ds, 0, k) + Concat(ds, k + 1, |ds|)
  {
    var ds' := Remove(ds, k);
    ConcatSplit(ds', 0, k, |ds'|);
    RemoveSlices(ds, k);
    ConcatSlices(ds', ds, 0, k, 0, k);
    ConcatSlices(ds', ds, k, |ds'|, k + 1, |ds|);
  }

  /**
    The text of `ds` before gap `g` is `before` and the text after it is
    `after`. (The body is bound to a name so that a caller that has it
    checks it as one fact rather than part by part.)
   */
  ghost predicate Around(ds: seq<seq<uint8>>, g: nat, before: seq<uint8>, after: seq<uint8>)
    requires g <= |ds|
  {
    var split := Concat(ds, 0, g) == before && Concat(ds, g, |ds|) == after;
    split
  }

  /** The text before the gap and the text after it make up the whole text. */
  lemma AroundJoin(ds: seq<seq<uint8>>, g: nat, n: nat, before: seq<uint8>, after: seq<uint8>)
    requires g <= |ds| == n && Around(ds, g, before, after)
    ensures Concat(ds, 0, n) == before + after
  {
    ConcatSplit(ds, 0, g, n);
  }

  /** A chunk inserted at the gap joins the text before it. */
  lemma AroundInsert(ds: seq<seq<uint8>>, ds': seq<seq<uint8>>, g: nat, d: seq<uint8>, before: seq<uint8>, after: seq<uint8>)
    requires g <= |ds| && ds' == Insert(ds, g, d) && Around(ds, g, before, after)
    ensures Around(ds', g + 1, before + d, after)
  {
    ConcatInsertParts(ds, g, d);
  }

  /** The chunks on either side of an inserted chunk keep their bytes. */
  lemma ConcatInsertParts(ds: seq<seq<uint8>>, g: nat, d: seq<uint8>)
    requires g <= |ds|
    ensures Concat(Insert(ds, g, d), 0, g + 1) == Concat(ds, 0, g) + d
    ensures Concat(Insert(ds, g, d), g + 1, |ds| + 1) == Concat(ds, g, |ds|)
  {
    var ds' := Insert(ds, g, d);
    assert Concat(ds', 0, g + 1) == Concat(ds', 0, g) + d;
    assert Concat(ds', 0, g) == Concat(ds, 0, g) by {
      InsertSlices(ds, g, d);
      ConcatSlices(ds, ds', 0, g, 0, g);
    }
    InsertSlices(ds, g, d);
    ConcatSlices(ds, ds', g, |ds|, g + 1, |ds| + 1);
  }

  /** The chunks with chunk `k` replaced by `x` give the text before it, `x`, and the text after it. */
  lemma ConcatUpdated(ds: seq<seq<uint8>>, ds': seq<seq<uint8>>, n: nat, k: nat, x: seq<uint8>)
    requires k < |ds| == n && ds' == ds[k := x]
    ensures Concat(ds', 0, n) == Concat(ds, 0, k) + x + Concat(ds, k + 1, n)
  {
    ConcatUpdate(ds, k, x);
    ConcatSame(ds', ds[k := x], n, |ds|);
  }

  /** Inserting into the text at character `o` of chunk `k` inserts into that chunk. */
  lemma InsertInChunk(ds: seq<seq<uint8>>, n: nat, k: nat, o: nat, s: seq<uint8>, p: nat)
    requires k < |ds| == n && AllValid(ds) && o <= CountChars(ds[k])
    requires p == Pre(Counts(ds), k) + o
    ensures InsertChars(Concat(ds, 0, n), p, s) == Concat(ds, 0, k) + InsertChars(ds[k], o, s) + Concat(ds, k + 1, n)
  {
    var d, pre, post := ds[k], Concat(ds, 0, k), Concat(ds, k + 1, n);
    assert Concat(ds, 0, n) == pre + d + post by {
      ConcatAround(ds, k);
    }
    assert ValidUtf8(d) && ValidUtf8(pre) && CountChars(pre) == Pre(Counts(ds), k) by {
      ConcatValid(ds, k);
    }
    InsertInPart(Concat(ds, 0, n), p, s, pre, d, post, o, pre + InsertChars(d, o, s) + post);
  }

  /** Removing characters of the text that lie within chunk `k`, from its character `o` on, removes them from that chunk. */
  lemma RemoveInChunk(ds: seq<seq<uint8>>, n: nat, k: nat, o: nat, r: nat, p: nat)
    requires k < |ds| == n && AllValid(ds) && o + r <= CountChars(ds[k])
    requires p == Pre(Counts(ds), k) + o
    ensures RemoveChars(Concat(ds, 0, n), p, r) == Concat(ds, 0, k) + RemoveChars(ds[k], o, r) + Concat(ds, k + 1, n)
  {
    var d, pre, post := ds[k], Concat(ds, 0, k), Concat(ds, k + 1, n);
    assert Concat(ds, 0, n) == pre + d + post by {
      ConcatAround(ds, k);
    }
    assert ValidUtf8(d) && ValidUtf8(pre) && CountChars(pre) == Pre(Counts(ds), k) by {
      ConcatValid(ds, k);
    }
    RemoveInPart(Concat(ds, 0, n), p, r, pre, d, post, o, pre + RemoveChars(d, o, r) + post);
  }

  /**
    Chunk `k` cut at its byte `b`, the offset of its character `o`, with
    `s` put in between: the text with `s` inserted at the matching position.
   */
  lemma SplitWithin(ds: seq<seq<uint8>>, n: nat, k: nat, o: nat, b: nat, s: seq<uint8>, p: nat)
    requires k < |ds| == n && AllValid(ds) && o <= CountChars(ds[k]) && b == ByteOffset(ds[k], o)
    requires p == Pre(Counts(ds), k) + o
    ensures Concat(ds, 0, k) + ds[k][..b] + s + ds[k][b..] + Concat(ds, k + 1, n) == InsertChars(Concat(ds, 0, n), p, s)
  {
    InsertInChunk(ds, n, k, o, s, p);
    assert InsertChars(ds[k], o, s) == ds[k][..b] + s + ds[k][b..];
    Flatten(Concat(ds, 0, k), ds[k][..b], s, ds[k][b..], Concat(ds, k + 1, n));
  }

  /**
    Inserting `s` into chunk `k` at its character `o` inserts it into the
    text at the matching position `p`: `x` is the chunk grown, `ds'` the
    chunks with it.
   */
  lemma InsertWithinAt(ds: seq<seq<uint8>>, ds': seq<seq<uint8>>, n: nat, k: nat, o: nat, s: seq<uint8>, x: seq<uint8>, p: nat)
    requires k < |ds| == n && AllValid(ds) && o <= CountChars(ds[k])
    requires x == InsertChars(ds[k], o, s) && ds' == ds[k := x] && p == Pre(Counts(ds), k) + o
    ensures Concat(ds', 0, n) == InsertChars(Concat(ds, 0, n), p, s)
  {
    ConcatUpdated(ds, ds', n, k, x);
    InsertInChunk(ds, n, k, o, s, p);
  }

  /**
    Removing characters `o` up to `o + r` of chunk `k` removes them from the
    text at the matching position `p`: `x` is the chunk cut down, `ds'` the
    chunks with it.
   */
  lemma RemoveWithinAt(ds: seq<seq<uint8>>, ds': seq<seq<uint8>>, n: nat, k: nat, o: nat, r: nat, x: seq<uint8>, p: nat)
    requires k < |ds| == n && AllValid(ds) && o + r <= CountChars(ds[k])
    requires x == RemoveChars(ds[k], o, r) && ds' == ds[k := x] && p == Pre(Counts(ds), k) + o
    ensures Concat(ds', 0, n) == RemoveChars(Concat(ds, 0, n), p, r)
  {
    ConcatUpdated(ds, ds', n, k, x);
    RemoveInChunk(ds, n, k, o, r, p);
  }

  /** Equal chunks, cut at equal ends, give equal text. */
  lemma ConcatSame(ds: seq<seq<uint8>>, es: seq<seq<uint8>>, j: nat, j': nat)
    requires ds == es && j == j' <= |ds|
    ensures Concat(ds, 0, j) == Concat(es, 0, j')
  {
  }

  /** The chunks without chunk `k` give the text on either side of it. */
  lemma ConcatRemoved(ds: seq<seq<uint8>>, ds': seq<seq<uint8>>, n: nat, k: nat)
    requires k < |ds| == n + 1 && ds' == Remove(ds, k)
    ensures Concat(ds', 0, n) == Concat(ds, 0, k) + Concat(ds, k + 1, |ds|)
  {
    ConcatSame(ds', Remove(ds, k), n, |ds| - 1);
    ConcatRemove(ds, k);
  }

  /** Removing the characters of chunk `k` from the text leaves the text on either side of it. */
  lemma RemoveChunk(ds: seq<seq<uint8>>, k: nat, p: nat, c: nat)
    requires k < |ds| && AllValid(ds)
    requires p == Pre(Counts(ds), k) && c == CountChars(ds[k])
    ensures RemoveChars(Concat(ds, 0, |ds|), p, c) == Concat(ds, 0, k) + Concat(ds, k + 1, |ds|)
  {
    var d := ds[k];
    var pre, post := Concat(ds, 0, k), Concat(ds, k + 1, |ds|);
    assert ValidUtf8(d);
    assert ValidUtf8(pre) && CountChars(pre) == p by {
      ConcatValid(ds, k);
    }
    assert Concat(ds, 0, |ds|) == pre + d + post by {
      ConcatAround(ds, k);
    }
    RemoveAtCut(Concat(ds, 0, |ds|), p, c, pre, d, post);
  }

  /**
    Removing chunk `k` removes its characters from the text at the position
    where it starts: `ds'` is the chunks without chunk `k`, `p` its position
    and `c` its characters.
   */
  lemma RemoveNodeAt(ds: seq<seq<uint8>>, ds': seq<seq<uint8>>, n: nat, k: nat, p: nat, c: nat)
    requires k < |ds| == n + 1 && AllValid(ds) && ds' == Remove(ds, k)
    requires p == Pre(Counts(ds), k) && c == CountChars(ds[k])
    ensures Concat(ds', 0, n) == RemoveChars(Concat(ds, 0, |ds|), p, c)
  {
    ConcatRemoved(ds, ds', n, k);
    RemoveChunk(ds, k, p, c);
  }

  /** Replacing chunk `k` changes the text up to and including it, and nothing after it. */
  lemma ConcatUpdateParts(ds: seq<seq<uint8>>, k: nat, d: seq<uint8>)
    requires k < |ds|
    ensures Concat(ds[k := d], 0, k + 1) == Concat(ds, 0, k) + d
    ensures Concat(ds[k := d], k + 1, |ds|) == Concat(ds, k + 1, |ds|)
  {
    var ds' := ds[k := d];
    ConcatSplit(ds', 0, k, k + 1);
    ConcatOne(ds', k);
    UpdateSlices(ds, k, d);
    ConcatSlices(ds, ds', 0, k, 0, k);
    ConcatSlices(ds, ds', k + 1, |ds|, k + 1, |ds|);
  }

  /** An inserted chunk adds its characters and bytes to the totals. */
  lemma InsertTotals(ds: seq<seq<uint8>>, g: nat, d: seq<uint8>)
    requires g <= |ds|
    ensures Pre(Counts(Insert(ds, g, d)), |ds| + 1) == Pre(Counts(ds), |ds|) + CountChars(d)
    ensures |Concat(Insert(ds, g, d), 0, |ds| + 1)| == |Concat(ds, 0, |ds|)| + |d|
  {
    CountsInsert(ds, g, d);
    PreInsert(Counts(ds), g, CountChars(d), |ds| + 1);
    ConcatInsert(ds, g, d);
    ConcatSplit(ds, 0, g, |ds|);
  }

  /** A removed chunk takes its bytes from the total. */
  lemma RemoveBytes(ds: seq<seq<uint8>>, k: nat, n: nat)
    requires k < |ds| && n + 1 == |ds|
    ensures |Concat(Remove(ds, k), 0, n)| + |ds[k]| == |Concat(ds, 0, |ds|)|
  {
    assert |Concat(Remove(ds, k), 0, n)| == |Concat(ds, 0, k)| + |Concat(ds, k + 1, |ds|)| by {
      ConcatRemove(ds, k);
    }
    assert |Concat(ds, 0, |ds|)| == |Concat(ds, 0, k)| + |ds[k]| + |Concat(ds, k + 1, |ds|)| by {
      ConcatAround(ds, k);
    }
  }
}
