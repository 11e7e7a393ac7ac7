/**
  What `rope_insert` and `rope_del` do to the text, stated on the bytes
  and justified on the codepoints they decode to.

  Positions count codepoints. A position past the end of the text stands
  for the end, both for insertion and for deletion.
 */
module Text {

  import opened Seqs
  import opened Utf8

  function Min(a: nat, b: nat): nat {
    if a <= b then a else b
  }

  /** The text with `s` inserted at codepoint position `pos`. */
  function InsertChars(c: seq<uint8>, pos: nat, s: seq<uint8>): seq<uint8> {
    var b := ByteOffset(c, pos);
    c[..b] + s + c[b..]
  }

  /** The text with the `num` codepoints from position `pos` on removed. */
  function RemoveChars(c: seq<uint8>, pos: nat, num: nat): seq<uint8> {
    var b, e := ByteOffset(c, pos), ByteOffset(c, pos + num);
    c[..b] + c[e..]
  }

  /** A position past the end stands for the end. */
  lemma ByteOffsetClamp(c: seq<uint8>, pos: nat)
    ensures ByteOffset(c, pos) == ByteOffset(c, Min(pos, CountChars(c)))
  {
    if pos > CountChars(c) {
      ByteOffsetEnd(c, pos);
      ByteOffsetEnd(c, CountChars(c));
    }
  }

  /** Offsets never go backwards. */
  lemma ByteOffsetMono(c: seq<uint8>, i: nat, j: nat)
    requires ValidUtf8(c) && i <= j
    ensures ByteOffset(c, i) <= ByteOffset(c, j)
  {
    ByteOffsetClamp(c, i);
    ByteOffsetClamp(c, j);
    var i', j' := Min(i, CountChars(c)), Min(j, CountChars(c));
    ByteOffsetAdd(c, i', j' - i');
  }

  /** The text splits at every position into two valid parts with the counts before and after it. */
  lemma SplitAtPos(c: seq<uint8>, pos: nat)
    requires ValidUtf8(c)
    ensures var b := ByteOffset(c, pos);
            && ValidUtf8(c[..b]) && ValidUtf8(c[b..]) && |Decode(c)| == CountChars(c)
            && CountChars(c[..b]) == Min(pos, CountChars(c))
            && CountChars(c[b..]) == CountChars(c) - Min(pos, CountChars(c))
            && Decode(c[..b]) == Decode(c)[..Min(pos, CountChars(c))]
            && Decode(c[b..]) == Decode(c)[Min(pos, CountChars(c))..]
  {
    ByteOffsetClamp(c, pos);
    SplitValid(c, Min(pos, CountChars(c)));
    SplitDecode(c, Min(pos, CountChars(c)));
  }

  /** Insertion keeps the text valid and adds the inserted bytes and codepoints to the counts. */
  lemma InsertCharsValid(c: seq<uint8>, pos: nat, s: seq<uint8>)
    requires ValidUtf8(c) && ValidUtf8(s)
    ensures ValidUtf8(InsertChars(c, pos, s))
    ensures CountChars(InsertChars(c, pos, s)) == CountChars(c) + CountChars(s)
    ensures |InsertChars(c, pos, s)| == |c| + |s|
  {
    var b := ByteOffset(c, pos);
    SplitAtPos(c, pos);
    AppendValid(c[..b], s);
    AppendValid(c[..b] + s, c[b..]);
  }

  /**
    Insertion, on codepoints: the first `pos` codepoints of the text (all
    of them when `pos` is past the end), then those of `s`, then the rest.
   */
  lemma InsertCharsDecode(c: seq<uint8>, pos: nat, s: seq<uint8>)
    requires ValidUtf8(c) && ValidUtf8(s)
    ensures ValidUtf8(InsertChars(c, pos, s)) && |Decode(c)| == CountChars(c)
    ensures var q := Min(pos, CountChars(c));
            Decode(InsertChars(c, pos, s)) == Decode(c)[..q] + Decode(s) + Decode(c)[q..]
  {
    var b := ByteOffset(c, pos);
    SplitAtPos(c, pos);
    AppendValid(c[..b], s);
    AppendValid(c[..b] + s, c[b..]);
  }

  /** Deletion keeps the text valid and removes the codepoints of the range that lie in the text. */
  lemma RemoveCharsValid(c: seq<uint8>, pos: nat, num: nat)
    requires ValidUtf8(c)
    ensures ValidUtf8(RemoveChars(c, pos, num))
    ensures CountChars(RemoveChars(c, pos, num))
              == CountChars(c) - (Min(pos + num, CountChars(c)) - Min(pos, CountChars(c)))
  {
    var b, e := ByteOffset(c, pos), ByteOffset(c, pos + num);
    SplitAtPos(c, pos);
    SplitAtPos(c, pos + num);
    AppendValid(c[..b], c[e..]);
  }

  /**
    Deletion, on codepoints: the codepoints before `pos` and from
    `pos + num` on, each position clamped to the end of the text.
   */
  lemma RemoveCharsDecode(c: seq<uint8>, pos: nat, num: nat)
    requires ValidUtf8(c)
    ensures ValidUtf8(RemoveChars(c, pos, num)) && |Decode(c)| == CountChars(c)
    ensures Decode(RemoveChars(c, pos, num))
              == Decode(c)[..Min(pos, CountChars(c))] + Decode(c)[Min(pos + num, CountChars(c))..]
  {
    var b, e := ByteOffset(c, pos), ByteOffset(c, pos + num);
    SplitAtPos(c, pos);
    SplitAtPos(c, pos + num);
    AppendValid(c[..b], c[e..]);
  }

  /** Inserting at the end of a valid prefix puts the new bytes right after it. */
  lemma InsertAtBoundary(a: seq<uint8>, rest: seq<uint8>, s: seq<uint8>)
    requires ValidUtf8(a)
    ensures InsertChars(a + rest, CountChars(a), s) == a + s + rest
  {
    ByteOffsetAppend(a, rest, 0);
    assert (a + rest)[..|a|] == a;
    assert (a + rest)[|a|..] == rest;
  }

  /** Deleting the characters of a valid middle part, from the end of a valid prefix on, cuts that part out. */
  lemma RemoveAtBoundary(a: seq<uint8>, m: seq<uint8>, rest: seq<uint8>)
    requires ValidUtf8(a) && ValidUtf8(m)
    ensures RemoveChars(a + m + rest, CountChars(a), CountChars(m)) == a + rest
  {
    var c := a + m + rest;
    AppendAssoc(a, m, rest);
    ByteOffsetAppend(a, m + rest, 0);
    ByteOffsetAppend(a, m + rest, CountChars(m));
    ByteOffsetPrefix(m, rest, CountChars(m));
    ByteOffsetEnd(m, CountChars(m));
    assert ByteOffset(c, CountChars(a)) == |a|;
    assert ByteOffset(c, CountChars(a) + CountChars(m)) == |a| + |m|;
    assert c[..|a|] == a;
    assert c[|a| + |m|..] == rest;
  }

  /** `InsertAtBoundary`, stated of a text `c` and position `p` already known to be `a + rest` and the end of `a`. */
  lemma InsertAtCut(c: seq<uint8>, p: nat, s: seq<uint8>, a: seq<uint8>, rest: seq<uint8>)
    requires c == a + rest && ValidUtf8(a) && p == CountChars(a)
    ensures InsertChars(c, p, s) == a + s + rest
  {
    InsertAtBoundary(a, rest, s);
  }

  /** `RemoveAtBoundary`, stated of a text `c` and range `p`, `n` already known to be `a + m + rest` and the place of `m`. */
  lemma RemoveAtCut(c: seq<uint8>, p: nat, n: nat, a: seq<uint8>, m: seq<uint8>, rest: seq<uint8>)
    requires c == a + m + rest && ValidUtf8(a) && ValidUtf8(m)
    requires p == CountChars(a) && n == CountChars(m)
    ensures RemoveChars(c, p, n) == a + rest
  {
    RemoveAtBoundary(a, m, rest);
  }

  /** The bytes of a valid text between its characters `o` and `o2` are valid and hold `o2 - o` characters. */
  lemma CutMiddle(d: seq<uint8>, o: nat, o2: nat)
    requires ValidUtf8(d) && o <= o2 <= CountChars(d)
    ensures var b, e := ByteOffset(d, o), ByteOffset(d, o2);
            && b <= e
            && ValidUtf8(d[b..e]) && CountChars(d[b..e]) == o2 - o
  {
    var b, e := ByteOffset(d, o), ByteOffset(d, o2);
    var t, n := d[b..], o2 - o;
    assert ValidUtf8(t) && n <= CountChars(t) by {
      SplitValid(d, o);
    }
    var z := ByteOffset(t, n);
    assert e == b + z by {
      ByteOffsetAdd(d, o, n);
    }
    assert ValidUtf8(t[..z]) && CountChars(t[..z]) == n by {
      SplitValid(t, n);
    }
    assert t[..z] == d[b..e];
  }

  /**
    Inserting into a valid part `d` of a text `c == pre + d + post`, at its
    character `o`, inserts into the text at the matching position `p`; `r`
    is the text with the part replaced by the result.
   */
  lemma InsertInPart(c: seq<uint8>, p: nat, s: seq<uint8>, pre: seq<uint8>, d: seq<uint8>, post: seq<uint8>, o: nat, r: seq<uint8>)
    requires c == pre + d + post && ValidUtf8(pre) && ValidUtf8(d)
    requires o <= CountChars(d) && p == CountChars(pre) + o
    requires r == pre + InsertChars(d, o, s) + post
    ensures r == InsertChars(c, p, s)
  {
    var b := ByteOffset(d, o);
    var a, rest := pre + d[..b], d[b..] + post;
    assert c == a + rest by {
      assert d == d[..b] + d[b..];
      Regroup2(pre, d[..b], d[b..], post);
    }
    assert ValidUtf8(a) && CountChars(a) == p by {
      SplitValid(d, o);
      AppendValid(pre, d[..b]);
    }
    InsertAtCut(c, p, s, a, rest);
    Regroup(pre, d[..b], s, d[b..], post);
  }

  /**
    Removing characters `o` up to `o + r` of a valid part `d` of a text
    `c == pre + d + post` removes them from the text at the matching
    position `p`; `t` is the text with the part replaced by the result.
   */
  lemma RemoveInPart(c: seq<uint8>, p: nat, r: nat, pre: seq<uint8>, d: seq<uint8>, post: seq<uint8>, o: nat, t: seq<uint8>)
    requires c == pre + d + post && ValidUtf8(pre) && ValidUtf8(d)
    requires o + r <= CountChars(d) && p == CountChars(pre) + o
    requires t == pre + RemoveChars(d, o, r) + post
    ensures t == RemoveChars(c, p, r)
  {
    var b, e := ByteOffset(d, o), ByteOffset(d, o + r);
    assert b <= e && ValidUtf8(d[b..e]) && CountChars(d[b..e]) == r by {
      CutMiddle(d, o, o + r);
    }
    var a, m, rest := pre + d[..b], d[b..e], d[e..] + post;
    assert c == a + m + rest by {
      Cut3(d, b, e);
      Regroup(pre, d[..b], d[b..e], d[e..], post);
    }
    assert ValidUtf8(a) && CountChars(a) == p by {
      SplitValid(d, o);
      AppendValid(pre, d[..b]);
    }
    RemoveAtCut(c, p, r, a, m, rest);
    Regroup2(pre, d[..b], d[e..], post);
  }

  /** Deleting what was just inserted, at the position it went to, gives the text back. */
  lemma RemoveInserted(c: seq<uint8>, pos: nat, s: seq<uint8>)
    requires ValidUtf8(c) && ValidUtf8(s)
    ensures RemoveChars(InsertChars(c, pos, s), Min(pos, CountChars(c)), CountChars(s)) == c
  {
    var b := ByteOffset(c, pos);
    var a, rest := c[..b], c[b..];
    SplitAtPos(c, pos);
    assert InsertChars(c, pos, s) == a + s + rest;
    RemoveAtBoundary(a, s, rest);
    assert a + rest == c;
  }

  /** `RemoveTwice`, stated on the caller's own terms: `cur` is the text after the first deletion, `next` after the second. */
  lemma RemoveStep(c: seq<uint8>, p: nat, a: nat, b: nat, ab: nat, cur: seq<uint8>, next: seq<uint8>)
    requires ValidUtf8(c) && p + a <= CountChars(c) && ab == a + b
    requires cur == RemoveChars(c, p, a) && next == RemoveChars(cur, p, b)
    ensures next == RemoveChars(c, p, ab)
  {
    RemoveTwice(c, p, a, b);
  }

  /** A range reaching past the end stands for the range up to the end. */
  lemma RemoveClamp(c: seq<uint8>, pos: nat, num: nat)
    ensures var p := Min(pos, CountChars(c));
            RemoveChars(c, pos, num) == RemoveChars(c, p, Min(num, CountChars(c) - p))
  {
    var n := CountChars(c);
    var p := Min(pos, n);
    var r := Min(num, n - p);
    ByteOffsetClamp(c, pos);
    ByteOffsetClamp(c, pos + num);
    ByteOffsetClamp(c, p + r);
    assert Min(pos + num, n) == Min(p + r, n);
  }

  /** A deletion of the range cut to the text (`p`, `n`) is the deletion of the whole range, with the count that `RemoveCharsValid` gives. */
  lemma ClampedRemove(c: seq<uint8>, pos: nat, num: nat, p: nat, n: nat, t: seq<uint8>)
    requires ValidUtf8(c) && p == Min(pos, CountChars(c)) && n == Min(num, CountChars(c) - p)
    requires t == RemoveChars(c, p, n)
    ensures t == RemoveChars(c, pos, num)
    ensures CountChars(t) == CountChars(c) - (Min(pos + num, CountChars(c)) - Min(pos, CountChars(c)))
  {
    RemoveClamp(c, pos, num);
    RemoveCharsValid(c, pos, num);
  }

  /** Deleting no characters leaves the text as it is. */
  lemma RemoveNothing(c: seq<uint8>, p: nat, n: nat, t: seq<uint8>)
    requires n == 0 && t == RemoveChars(c, p, n)
    ensures t == c
  {
    var b := ByteOffset(c, p);
    assert c[..b] + c[b..] == c;
  }

  /** Two deletions at the same position are one deletion of both ranges. */
  lemma RemoveTwice(c: seq<uint8>, p: nat, a: nat, b: nat)
    requires ValidUtf8(c) && p + a <= CountChars(c)
    ensures RemoveChars(RemoveChars(c, p, a), p, b) == RemoveChars(c, p, a + b)
  {
    var x, y := ByteOffset(c, p), ByteOffset(c, p + a);
    assert x <= y by {
      ByteOffsetMono(c, p, p + a);
    }
    var u, w := c[..x], c[y..];
    assert ValidUtf8(u) && CountChars(u) == p by {
      SplitValid(c, p);
    }
    var z := ByteOffset(w, b);
    calc {
      RemoveChars(RemoveChars(c, p, a), p, b);
      RemoveChars(u + w, p, b);
      { ByteOffsetAppend(u, w, 0);
        ByteOffsetAppend(u, w, b);
        assert (u + w)[..x] == u;
        DropAppendRight(u, w, z); }
      u + w[z..];
      { DropDrop(c, y, z); }
      c[..x] + c[y + z..];
      { ByteOffsetAdd(c, p + a, b); }
      RemoveChars(c, p, a + b);
    }
  }
}
