/**
  Small facts about slicing and concatenating sequences. Each is stated on
  its own so that the proofs that use them stay cheap.
 */
module Seqs {

  lemma DropAppend<T>(a: seq<T>, b: seq<T>, i: nat)
    requires i <= |a|
    ensures (a + b)[i..] == a[i..] + b
  {}

  lemma TakeAppend<T>(a: seq<T>, b: seq<T>, i: nat)
    requires i <= |a|
    ensures (a + b)[..i] == a[..i]
  {}

  lemma TakeAppendRight<T>(a: seq<T>, b: seq<T>, i: nat)
    requires i <= |b|
    ensures (a + b)[..|a| + i] == a + b[..i]
  {}

  lemma DropAppendRight<T>(a: seq<T>, b: seq<T>, i: nat)
    requires i <= |b|
    ensures (a + b)[|a| + i..] == b[i..]
  {}

  lemma UpdateSlices<T>(s: seq<T>, k: nat, x: T)
    requires k < |s|
    ensures s[k := x][..k] == s[..k] && s[k := x][k + 1..] == s[k + 1..]
  {}

  lemma DropDrop<T>(s: seq<T>, i: nat, j: nat)
    requires i + j <= |s|
    ensures s[i..][j..] == s[i + j..]
  {}

  lemma TakeDrop<T>(s: seq<T>, i: nat, j: nat)
    requires i <= j <= |s|
    ensures s[..j][i..] == s[i..][..j - i]
  {}

  lemma TakeTake<T>(s: seq<T>, i: nat, j: nat)
    requires i <= j <= |s|
    ensures s[..j][..i] == s[..i]
  {}

  lemma SplitAt<T>(s: seq<T>, i: nat)
    requires i <= |s|
    ensures s == s[..i] + s[i..]
  {}

  lemma SplitRange<T>(s: seq<T>, i: nat, j: nat)
    requires i <= j <= |s|
    ensures s[i..] == s[i..j] + s[j..]
  {}

  lemma TakeExtend<T>(s: seq<T>, i: nat, j: nat)
    requires i <= j <= |s|
    ensures s[..j] == s[..i] + s[i..j]
  {}

  /** Appending the next slice of `s` to what already ends in its prefix. */
  lemma AppendTake<T>(a: seq<T>, s: seq<T>, i: nat, j: nat)
    requires i <= j <= |s|
    ensures a + s[..i] + s[i..j] == a + s[..j]
  {
    assert s[..j] == s[..i] + s[i..j];
  }

  lemma AppendAssoc<T>(a: seq<T>, b: seq<T>, c: seq<T>)
    ensures (a + b) + c == a + (b + c)
  {}

  /** A sequence cut in three places. */
  lemma Cut3<T>(s: seq<T>, i: nat, j: nat)
    requires i <= j <= |s|
    ensures s == s[..i] + s[i..j] + s[j..]
  {}

  /** Regrouping a middle part cut in three. */
  lemma Regroup<T>(p: seq<T>, x: seq<T>, y: seq<T>, z: seq<T>, q: seq<T>)
    ensures p + (x + y + z) + q == (p + x) + y + (z + q)
  {}

  /** Regrouping a middle part cut in two. */
  lemma Regroup2<T>(p: seq<T>, x: seq<T>, z: seq<T>, q: seq<T>)
    ensures p + (x + z) + q == (p + x) + (z + q)
  {}

  /** Equal values written at the same index give equal sequences (stated on the caller's own terms). */
  lemma UpdateSame<T>(s: seq<T>, k: nat, v: T, w: T)
    requires k < |s| && v == w
    ensures s[k := v] == s[k := w]
  {}

  /** Flattening a middle part cut in three. */
  lemma Flatten<T>(p: seq<T>, x: seq<T>, y: seq<T>, z: seq<T>, q: seq<T>)
    ensures p + (x + y + z) + q == p + x + y + z + q
  {}

  /** A position at which `x` occurs in `s`. */
  ghost function IndexOf<T>(s: seq<T>, x: T): (i: nat)
    requires x in s
    ensures i < |s| && s[i] == x
  {
    var i :| 0 <= i < |s| && s[i] == x; i
  }
}
