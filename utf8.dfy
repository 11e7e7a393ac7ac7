/**
  UTF-8 as the rope sees it: byte strings, C strings, well-formedness,
  codepoint counting and byte offsets of character positions.

  Well-formedness is the one of section 3 of RFC 3629, with the byte
  ranges of the grammar in section 4: no overlong forms, no surrogate
  halves, nothing above U+10FFFF.

  The walk over a byte string is described by position: `Step(s, i)` is
  the width of the character that starts at byte `i`, and counting,
  validity and byte offsets all follow those steps. `Step` is total (a
  byte that cannot start a character is a step of one), so counting and
  offsets are defined on every string and only well-formedness needs
  checking.
 */
module Utf8 {

  import Seqs

  /** An unsigned byte, the C type `uint8_t`. */
  type uint8 = x: int | 0 <= x < 0x100

  /** A continuation byte, 10xxxxxx. */
  predicate IsTail(b: uint8) {
    0x80 <= b <= 0xBF
  }

  /** The length of the character a lead byte announces, 0 for a byte no character starts with. */
  function LeadWidth(b: uint8): (w: nat)
    ensures w <= 4
    ensures w == 0 <==> (0x80 <= b < 0xC2 || b > 0xF4)
  {
    if b <= 0x7F then 1
    else if 0xC2 <= b <= 0xDF then 2
    else if 0xE0 <= b <= 0xEF then 3
    else if 0xF0 <= b <= 0xF4 then 4
    else 0
  }

  /** The range allowed for the byte after `lead`, which is narrower than 80..BF after E0, ED, F0 and F4. */
  predicate SecondOk(lead: uint8, b: uint8) {
    if lead == 0xE0 then 0xA0 <= b <= 0xBF
    else if lead == 0xED then 0x80 <= b <= 0x9F
    else if lead == 0xF0 then 0x90 <= b <= 0xBF
    else if lead == 0xF4 then 0x80 <= b <= 0x8F
    else IsTail(b)
  }

  /** A complete, well-formed character starts at byte `i` of `s`. */
  predicate CharAt(s: seq<uint8>, i: nat) {
    && i < |s|
    && var w := LeadWidth(s[i]);
    && 0 < w && i + w <= |s|
    && (w >= 2 ==> SecondOk(s[i], s[i + 1]))
    && (w >= 3 ==> IsTail(s[i + 2]))
    && (w >= 4 ==> IsTail(s[i + 3]))
  }

  /** How far the walk moves from byte `i`: a character's width, or one byte past anything else. */
  function Step(s: seq<uint8>, i: nat): (w: nat)
    requires i < |s|
    ensures 1 <= w <= |s| - i
    ensures CharAt(s, i) ==> w == LeadWidth(s[i])
  {
    var w := LeadWidth(s[i]);
    if w == 0 then 1 else if i + w <= |s| then w else |s| - i
  }

  /** The bytes from `i` on are a sequence of well-formed characters. */
  predicate ValidFrom(s: seq<uint8>, i: nat)
    requires i <= |s|
    decreases |s| - i
  {
    i == |s| || (CharAt(s, i) && ValidFrom(s, i + Step(s, i)))
  }

  /** The number of steps from `i` to the end: the codepoint count when the bytes are well-formed. */
  function CountFrom(s: seq<uint8>, i: nat): nat
    requires i <= |s|
    decreases |s| - i
  {
    if i == |s| then 0 else 1 + CountFrom(s, i + Step(s, i))
  }

  /** The byte reached after `k` steps from `i` (the end, if there are fewer). */
  function Advance(s: seq<uint8>, i: nat, k: nat): (j: nat)
    requires i <= |s|
    ensures i <= j <= |s|
    decreases k
  {
    if k == 0 || i == |s| then i else Advance(s, i + Step(s, i), k - 1)
  }

  /** `s` is well-formed UTF-8. */
  predicate ValidUtf8(s: seq<uint8>) {
    ValidFrom(s, 0)
  }

  /** The number of codepoints in `s`. */
  function CountChars(s: seq<uint8>): nat {
    CountFrom(s, 0)
  }

  /** The byte offset of codepoint `k` of `s`. */
  function ByteOffset(s: seq<uint8>, k: nat): (b: nat)
    ensures b <= |s|
  {
    Advance(s, 0, k)
  }

  // ---------------------------------------------------------------------------
  // Codepoints: the reference definition the byte-level functions answer to.

  /** A Unicode scalar value: a codepoint that is not a surrogate. */
  predicate IsScalar(cp: nat) {
    cp < 0x11_0000 && !(0xD800 <= cp < 0xE000)
  }

  /** The shortest encoding of scalar value `cp`. */
  function EncodeChar(cp: nat): (e: seq<uint8>)
    requires IsScalar(cp)
    ensures 1 <= |e| <= 4
  {
    if cp < 0x80 then [cp]
    else if cp < 0x800 then [0xC0 + cp / 64, 0x80 + cp % 64]
    else if cp < 0x1_0000 then [0xE0 + cp / 4096, 0x80 + (cp / 64) % 64, 0x80 + cp % 64]
    else [0xF0 + cp / 262144, 0x80 + (cp / 4096) % 64, 0x80 + (cp / 64) % 64, 0x80 + cp % 64]
  }

  /** The codepoint encoded by the character at byte `i` of `s`. */
  function CodepointAt(s: seq<uint8>, i: nat): nat
    requires CharAt(s, i)
  {
    var w := LeadWidth(s[i]);
    var b0: int := s[i];
    if w == 1 then b0
    else
      var b1: int := s[i + 1];
      if w == 2 then (b0 - 0xC0) * 64 + (b1 - 0x80)
      else
        var b2: int := s[i + 2];
        if w == 3 then ((b0 - 0xE0) * 64 + (b1 - 0x80)) * 64 + (b2 - 0x80)
        else
          var b3: int := s[i + 3];
          (((b0 - 0xF0) * 64 + (b1 - 0x80)) * 64 + (b2 - 0x80)) * 64 + (b3 - 0x80)
  }

  /** The codepoints from byte `i` on, in order. */
  function DecodeFrom(s: seq<uint8>, i: nat): seq<nat>
    requires i <= |s| && ValidFrom(s, i)
    decreases |s| - i
  {
    if i == |s| then [] else [CodepointAt(s, i)] + DecodeFrom(s, i + Step(s, i))
  }

  /** The codepoints of well-formed `s`, in order. */
  function Decode(s: seq<uint8>): seq<nat>
    requires ValidUtf8(s)
  {
    DecodeFrom(s, 0)
  }

  predicate AllScalars(cps: seq<nat>) {
    forall i :: 0 <= i < |cps| ==> IsScalar(cps[i])
  }

  /** The encoding of a sequence of scalar values. */
  function Encode(cps: seq<nat>): seq<uint8>
    requires AllScalars(cps)
  {
    if cps == [] then [] else EncodeChar(cps[0]) + Encode(cps[1..])
  }

  // ---------------------------------------------------------------------------
  // One character: encoding and decoding are inverse.

  lemma EncodeChar2(cp: nat)
    requires 0x80 <= cp < 0x800
    ensures var e := EncodeChar(cp); CharAt(e, 0) && |e| == 2 && CodepointAt(e, 0) == cp
  {
    assert cp == (cp / 64) * 64 + cp % 64;
  }

  lemma EncodeChar3(cp: nat)
    requires 0x800 <= cp < 0x1_0000 && IsScalar(cp)
    ensures var e := EncodeChar(cp); CharAt(e, 0) && |e| == 3 && CodepointAt(e, 0) == cp
  {
    var a, b, c := cp / 4096, (cp / 64) % 64, cp % 64;
    assert cp / 64 == a * 64 + b;
    assert cp == (a * 64 + b) * 64 + c;
    assert a == 0 ==> b >= 0x20;
    assert a == 0xD ==> b < 0x20;
  }

  lemma EncodeChar4(cp: nat)
    requires 0x1_0000 <= cp < 0x11_0000
    ensures var e := EncodeChar(cp); CharAt(e, 0) && |e| == 4 && CodepointAt(e, 0) == cp
  {
    var a, b, c, d := cp / 262144, (cp / 4096) % 64, (cp / 64) % 64, cp % 64;
    assert cp / 4096 == a * 64 + b;
    assert cp / 64 == (a * 64 + b) * 64 + c;
    assert cp == ((a * 64 + b) * 64 + c) * 64 + d;
    assert a == 0 ==> b >= 0x10;
    assert a == 4 ==> b < 0x10;
  }

  /** Every scalar value encodes as one well-formed character that decodes back to it. */
  lemma EncodeCharDecodes(cp: nat)
    requires IsScalar(cp)
    ensures CharAt(EncodeChar(cp), 0)
    ensures Step(EncodeChar(cp), 0) == |EncodeChar(cp)|
    ensures CodepointAt(EncodeChar(cp), 0) == cp
  {
    if cp < 0x80 {
    } else if cp < 0x800 {
      EncodeChar2(cp);
    } else if cp < 0x1_0000 {
      EncodeChar3(cp);
    } else {
      EncodeChar4(cp);
    }
  }

  lemma DecodeChar2(x: int, y: int)
    requires 2 <= x < 32 && 0 <= y < 64
    ensures var cp := x * 64 + y; IsScalar(cp) && EncodeChar(cp) == [0xC0 + x, 0x80 + y]
  {
    var cp := x * 64 + y;
    assert cp / 64 == x && cp % 64 == y;
  }

  lemma DecodeChar3(x: int, y: int, z: int)
    requires 0 <= x < 16 && 0 <= y < 64 && 0 <= z < 64
    requires x == 0 ==> y >= 0x20
    requires x == 0xD ==> y < 0x20
    ensures var cp := (x * 64 + y) * 64 + z;
      IsScalar(cp) && EncodeChar(cp) == [0xE0 + x, 0x80 + y, 0x80 + z]
  {
    var cp := (x * 64 + y) * 64 + z;
    assert cp / 64 == x * 64 + y;
    assert cp / 4096 == (cp / 64) / 64;
    assert 0x800 <= cp < 0x1_0000;
    assert cp / 4096 == x && (cp / 64) % 64 == y && cp % 64 == z;
  }

  lemma DecodeChar4(x: int, y: int, z: int, t: int)
    requires 0 <= x <= 4 && 0 <= y < 64 && 0 <= z < 64 && 0 <= t < 64
    requires x == 0 ==> y >= 0x10
    requires x == 4 ==> y < 0x10
    ensures var cp := ((x * 64 + y) * 64 + z) * 64 + t;
      IsScalar(cp) && EncodeChar(cp) == [0xF0 + x, 0x80 + y, 0x80 + z, 0x80 + t]
  {
    var cp := ((x * 64 + y) * 64 + z) * 64 + t;
    assert cp / 64 == (x * 64 + y) * 64 + z;
    assert (cp / 64) / 64 == x * 64 + y;
    assert cp / 4096 == (cp / 64) / 64;
    assert cp / 262144 == ((cp / 64) / 64) / 64;
    assert 0x1_0000 <= cp < 0x11_0000;
    assert cp / 262144 == x && (cp / 4096) % 64 == y && (cp / 64) % 64 == z && cp % 64 == t;
  }

  lemma CharAtEncodes2(s: seq<uint8>, i: nat)
    requires CharAt(s, i) && LeadWidth(s[i]) == 2
    ensures IsScalar(CodepointAt(s, i)) && EncodeChar(CodepointAt(s, i)) == s[i..i + 2]
  {
    DecodeChar2(s[i] as int - 0xC0, s[i + 1] as int - 0x80);
    assert s[i..i + 2] == [s[i], s[i + 1]];
  }

  lemma CharAtEncodes3(s: seq<uint8>, i: nat)
    requires CharAt(s, i) && LeadWidth(s[i]) == 3
    ensures IsScalar(CodepointAt(s, i)) && EncodeChar(CodepointAt(s, i)) == s[i..i + 3]
  {
    DecodeChar3(s[i] as int - 0xE0, s[i + 1] as int - 0x80, s[i + 2] as int - 0x80);
    assert s[i..i + 3] == [s[i], s[i + 1], s[i + 2]];
  }

  lemma CharAtEncodes4(s: seq<uint8>, i: nat)
    requires CharAt(s, i) && LeadWidth(s[i]) == 4
    ensures IsScalar(CodepointAt(s, i)) && EncodeChar(CodepointAt(s, i)) == s[i..i + 4]
  {
    DecodeChar4(s[i] as int - 0xF0, s[i + 1] as int - 0x80, s[i + 2] as int - 0x80, s[i + 3] as int - 0x80);
    assert s[i..i + 4] == [s[i], s[i + 1], s[i + 2], s[i + 3]];
  }

  /** Every well-formed character decodes to a scalar value whose encoding is exactly its bytes. */
  lemma CharAtEncodes(s: seq<uint8>, i: nat)
    requires CharAt(s, i)
    ensures IsScalar(CodepointAt(s, i))
    ensures EncodeChar(CodepointAt(s, i)) == s[i..i + Step(s, i)]
  {
    var w := LeadWidth(s[i]);
    if w == 1 {
      assert s[i..i + 1] == [s[i]];
    } else if w == 2 {
      CharAtEncodes2(s, i);
    } else if w == 3 {
      CharAtEncodes3(s, i);
    } else {
      CharAtEncodes4(s, i);
    }
  }

  // ---------------------------------------------------------------------------
  // A character's bytes decide it, wherever it sits.

  /** The character at position `j` of `b` is the one at `|a| + j` of `a + b`. */
  lemma CharAtShift(a: seq<uint8>, b: seq<uint8>, j: nat)
    requires j < |b|
    ensures (a + b)[|a| + j] == b[j]
    ensures CharAt(a + b, |a| + j) == CharAt(b, j)
    ensures Step(a + b, |a| + j) == Step(b, j)
    ensures CharAt(b, j) ==> CodepointAt(a + b, |a| + j) == CodepointAt(b, j)
  {
    var s := a + b;
    if j + 1 < |b| { assert s[|a| + j + 1] == b[j + 1]; }
    if j + 2 < |b| { assert s[|a| + j + 2] == b[j + 2]; }
    if j + 3 < |b| { assert s[|a| + j + 3] == b[j + 3]; }
  }

  /** A character of `a` is a character of `a + b`. */
  lemma CharAtAppend(a: seq<uint8>, b: seq<uint8>, i: nat)
    requires CharAt(a, i)
    ensures (a + b)[i] == a[i] && CharAt(a + b, i)
    ensures Step(a + b, i) == Step(a, i)
    ensures CodepointAt(a + b, i) == CodepointAt(a, i)
  {
    var s := a + b;
    if i + 1 < |a| { assert s[i + 1] == a[i + 1]; }
    if i + 2 < |a| { assert s[i + 2] == a[i + 2]; }
    if i + 3 < |a| { assert s[i + 3] == a[i + 3]; }
  }

  /** A character that ends by byte `j` survives cutting the string at `j`. */
  lemma CharAtTake(s: seq<uint8>, i: nat, j: nat)
    requires CharAt(s, i) && i + Step(s, i) <= j <= |s|
    ensures s[..j][i] == s[i] && CharAt(s[..j], i)
    ensures Step(s[..j], i) == Step(s, i)
    ensures CodepointAt(s[..j], i) == CodepointAt(s, i)
  {
    var t := s[..j];
    if i + 1 < j { assert t[i + 1] == s[i + 1]; }
    if i + 2 < j { assert t[i + 2] == s[i + 2]; }
    if i + 3 < j { assert t[i + 3] == s[i + 3]; }
  }

  /** The bytes of one well-formed character are valid UTF-8 holding one character. */
  lemma OneChar(s: seq<uint8>, i: nat)
    requires CharAt(s, i)
    ensures i + Step(s, i) <= |s|
    ensures ValidUtf8(s[i..i + Step(s, i)]) && CountChars(s[i..i + Step(s, i)]) == 1
  {
    var w := Step(s, i);
    var t := s[i..i + w];
    CharAtTake(s, i, i + w);
    assert s[..i + w] == s[..i] + t;
    CharAtShift(s[..i], t, 0);
    assert CharAt(t, 0) && Step(t, 0) == |t|;
    assert ValidFrom(t, |t|) && CountFrom(t, |t|) == 0;
  }
  /**
    A valid run `s[at..at + n]` followed by a whole character grows by that
    character: `n2` is its end, and the run still ends where the rest of `s`
    is valid.
   */
  lemma GrowRun(s: seq<uint8>, at: nat, n: nat, c: nat, n2: nat)
    requires at + n < |s| && ValidFrom(s, at + n)
    requires ValidUtf8(s[at..at + n]) && CountChars(s[at..at + n]) == c
    requires n2 == n + LeadWidth(s[at + n])
    ensures at + n2 <= |s| && ValidFrom(s, at + n2)
    ensures ValidUtf8(s[at..at + n2]) && CountChars(s[at..at + n2]) == c + 1
  {
    var i := at + n;
    OneChar(s, i);
    assert s[at..at + n2] == s[at..i] + s[i..i + Step(s, i)];
    AppendValid(s[at..i], s[i..i + Step(s, i)]);
  }


  // ---------------------------------------------------------------------------
  // Walks over a concatenation.

  /** The walk over `b` is the walk over `a + b` from `|a|` on. */
  lemma {:induction false} ShiftFrom(a: seq<uint8>, b: seq<uint8>, j: nat)
    requires j <= |b|
    ensures ValidFrom(a + b, |a| + j) == ValidFrom(b, j)
    ensures CountFrom(a + b, |a| + j) == CountFrom(b, j)
    ensures ValidFrom(b, j) ==> DecodeFrom(a + b, |a| + j) == DecodeFrom(b, j)
    decreases |b| - j
  {
    if j < |b| {
      CharAtShift(a, b, j);
      ShiftFrom(a, b, j + Step(b, j));
    }
  }

  lemma {:induction false} ShiftAdvance(a: seq<uint8>, b: seq<uint8>, j: nat, k: nat)
    requires j <= |b|
    ensures Advance(a + b, |a| + j, k) == |a| + Advance(b, j, k)
    decreases k
  {
    if k > 0 && j < |b| {
      CharAtShift(a, b, j);
      ShiftAdvance(a, b, j + Step(b, j), k - 1);
    }
  }

  /** The walk over well-formed `a` carries on into `b`. */
  lemma {:induction false} AppendFrom(a: seq<uint8>, b: seq<uint8>, i: nat)
    requires i <= |a| && ValidFrom(a, i)
    ensures ValidFrom(a + b, i) == ValidUtf8(b)
    ensures CountFrom(a + b, i) == CountFrom(a, i) + CountChars(b)
    decreases |a| - i
  {
    if i == |a| {
      ShiftFrom(a, b, 0);
    } else {
      CharAtAppend(a, b, i);
      AppendFrom(a, b, i + Step(a, i));
    }
  }

  lemma {:induction false} AppendDecodeFrom(a: seq<uint8>, b: seq<uint8>, i: nat)
    requires i <= |a| && ValidFrom(a, i) && ValidUtf8(b)
    ensures ValidFrom(a + b, i)
    ensures DecodeFrom(a + b, i) == DecodeFrom(a, i) + Decode(b)
    decreases |a| - i
  {
    AppendFrom(a, b, i);
    if i == |a| {
      ShiftFrom(a, b, 0);
    } else {
      var w := Step(a, i);
      CharAtAppend(a, b, i);
      AppendDecodeFrom(a, b, i + w);
      Seqs.AppendAssoc([CodepointAt(a, i)], DecodeFrom(a, i + w), Decode(b));
    }
  }

  /** Two well-formed strings concatenate to a well-formed string; counts add and codepoints concatenate. */
  lemma AppendValid(a: seq<uint8>, b: seq<uint8>)
    requires ValidUtf8(a)
    ensures ValidUtf8(a + b) <==> ValidUtf8(b)
    ensures CountChars(a + b) == CountChars(a) + CountChars(b)
    ensures ValidUtf8(b) ==> Decode(a + b) == Decode(a) + Decode(b)
  {
    AppendFrom(a, b, 0);
    if ValidUtf8(b) {
      AppendDecodeFrom(a, b, 0);
    }
  }

  lemma {:induction false} AdvancePrefix(a: seq<uint8>, b: seq<uint8>, i: nat, k: nat)
    requires i <= |a| && ValidFrom(a, i) && k <= CountFrom(a, i)
    ensures Advance(a + b, i, k) == Advance(a, i, k)
    decreases k
  {
    if k > 0 {
      CharAtAppend(a, b, i);
      AdvancePrefix(a, b, i + Step(a, i), k - 1);
    }
  }

  /** Offsets of the characters of well-formed `a` do not change when something follows. */
  lemma ByteOffsetPrefix(a: seq<uint8>, b: seq<uint8>, k: nat)
    requires ValidUtf8(a) && k <= CountChars(a)
    ensures ByteOffset(a + b, k) == ByteOffset(a, k)
  {
    AdvancePrefix(a, b, 0, k);
  }

  lemma {:induction false} AdvanceAppend(a: seq<uint8>, b: seq<uint8>, i: nat, k: nat)
    requires i <= |a| && ValidFrom(a, i)
    ensures Advance(a + b, i, CountFrom(a, i) + k) == |a| + ByteOffset(b, k)
    decreases |a| - i
  {
    if i == |a| {
      ShiftAdvance(a, b, 0, k);
    } else {
      CharAtAppend(a, b, i);
      AdvanceAppend(a, b, i + Step(a, i), k);
    }
  }

  /** Offsets of the characters of `b` shift by `|a|` when well-formed `a` comes first. */
  lemma ByteOffsetAppend(a: seq<uint8>, b: seq<uint8>, k: nat)
    requires ValidUtf8(a)
    ensures ByteOffset(a + b, CountChars(a) + k) == |a| + ByteOffset(b, k)
  {
    AdvanceAppend(a, b, 0, k);
  }

  // ---------------------------------------------------------------------------
  // Splitting at a character boundary.

  lemma {:induction false} TruncateFrom(s: seq<uint8>, i: nat, k: nat, j: nat)
    requires i <= |s| && ValidFrom(s, i) && k <= CountFrom(s, i)
    requires j == Advance(s, i, k)
    ensures ValidFrom(s[..j], i) && CountFrom(s[..j], i) == k
    decreases k
  {
    if k > 0 {
      TruncateFrom(s, i + Step(s, i), k - 1, j);
      CharAtTake(s, i, j);
    }
  }

  lemma {:induction false} AdvanceValid(s: seq<uint8>, i: nat, k: nat)
    requires i <= |s| && ValidFrom(s, i) && k <= CountFrom(s, i)
    ensures ValidFrom(s, Advance(s, i, k))
    ensures CountFrom(s, Advance(s, i, k)) == CountFrom(s, i) - k
    decreases k
  {
    if k > 0 {
      AdvanceValid(s, i + Step(s, i), k - 1);
    }
  }

  /** Cutting a well-formed string before codepoint `k` gives two well-formed halves of `k` and the remaining codepoints. */
  lemma SplitValid(s: seq<uint8>, k: nat)
    requires ValidUtf8(s) && k <= CountChars(s)
    ensures ValidUtf8(s[..ByteOffset(s, k)]) && ValidUtf8(s[ByteOffset(s, k)..])
    ensures CountChars(s[..ByteOffset(s, k)]) == k
    ensures CountChars(s[ByteOffset(s, k)..]) == CountChars(s) - k
  {
    var b := ByteOffset(s, k);
    TruncateFrom(s, 0, k, ByteOffset(s, k));
    AdvanceValid(s, 0, k);
    Seqs.SplitAt(s, b);
    ShiftFrom(s[..b], s[b..], 0);
  }

  /** The offset of codepoint `i + j` is that of `i` plus the offset of `j` in what follows it. */
  lemma ByteOffsetAdd(s: seq<uint8>, i: nat, j: nat)
    requires ValidUtf8(s) && i <= CountChars(s)
    ensures ByteOffset(s, i + j) == ByteOffset(s, i) + ByteOffset(s[ByteOffset(s, i)..], j)
  {
    var b := ByteOffset(s, i);
    SplitValid(s, i);
    Seqs.SplitAt(s, b);
    ByteOffsetAppend(s[..b], s[b..], j);
  }

  lemma {:induction false} AdvanceNext(s: seq<uint8>, i: nat, k: nat)
    requires i <= |s| && Advance(s, i, k) < |s|
    ensures Advance(s, i, k + 1) == Advance(s, i, k) + Step(s, Advance(s, i, k))
    decreases k
  {
    if k > 0 {
      AdvanceNext(s, i + Step(s, i), k - 1);
    }
  }

  /** Moving to the next codepoint moves by the width of the character found there. */
  lemma ByteOffsetNext(s: seq<uint8>, k: nat)
    requires ValidUtf8(s) && k < CountChars(s)
    ensures ByteOffset(s, k) < |s| && CharAt(s, ByteOffset(s, k))
    ensures ByteOffset(s, k + 1) == ByteOffset(s, k) + LeadWidth(s[ByteOffset(s, k)])
  {
    AdvanceValid(s, 0, k);
    AdvanceNext(s, 0, k);
  }

  lemma {:induction false} AdvanceAll(s: seq<uint8>, i: nat, k: nat)
    requires i <= |s| && k >= CountFrom(s, i)
    ensures Advance(s, i, k) == |s|
    decreases |s| - i
  {
    if i < |s| {
      AdvanceAll(s, i + Step(s, i), k - 1);
    }
  }

  /** Every position at or past the last codepoint has the length as its offset. */
  lemma ByteOffsetEnd(s: seq<uint8>, k: nat)
    requires k >= CountChars(s)
    ensures ByteOffset(s, k) == |s|
  {
    AdvanceAll(s, 0, k);
  }

  // ---------------------------------------------------------------------------
  // The whole string: encoding and decoding are inverse.

  lemma {:induction false} EncodeDecodeFrom(s: seq<uint8>, i: nat)
    requires i <= |s| && ValidFrom(s, i)
    ensures AllScalars(DecodeFrom(s, i))
    ensures Encode(DecodeFrom(s, i)) == s[i..]
    ensures |DecodeFrom(s, i)| == CountFrom(s, i)
    decreases |s| - i
  {
    if i < |s| {
      var j := i + Step(s, i);
      EncodeDecodeFrom(s, j);
      EncodeDecodeStep(s, i, j, DecodeFrom(s, j));
    }
  }

  /** One step of the walk from `i`: the character there, then the walk from the byte after it. */
  lemma DecodeFromStep(s: seq<uint8>, i: nat, j: nat)
    requires i < |s| && ValidFrom(s, i) && j == i + Step(s, i)
    ensures CharAt(s, i) && j <= |s| && ValidFrom(s, j)
    ensures DecodeFrom(s, i) == [CodepointAt(s, i)] + DecodeFrom(s, j)
    ensures CountFrom(s, i) == 1 + CountFrom(s, j)
  {}

  /** One step of `EncodeDecodeFrom`: the character at `i` put in front of the codepoints from `j` on. */
  lemma EncodeDecodeStep(s: seq<uint8>, i: nat, j: nat, rest: seq<nat>)
    requires i < |s| && ValidFrom(s, i) && j == i + Step(s, i) && rest == DecodeFrom(s, j)
    requires AllScalars(rest) && Encode(rest) == s[j..] && |rest| == CountFrom(s, j)
    ensures AllScalars(DecodeFrom(s, i))
    ensures Encode(DecodeFrom(s, i)) == s[i..]
    ensures |DecodeFrom(s, i)| == CountFrom(s, i)
  {
    DecodeFromStep(s, i, j);
    CharEncodesTo(s, i, j);
    EncodeCons(CodepointAt(s, i), rest);
    Seqs.SplitRange(s, i, j);
  }

  /** `CharAtEncodes` for the character that ends at byte `j`. */
  lemma CharEncodesTo(s: seq<uint8>, i: nat, j: nat)
    requires CharAt(s, i) && j == i + Step(s, i)
    ensures j <= |s| && IsScalar(CodepointAt(s, i)) && EncodeChar(CodepointAt(s, i)) == s[i..j]
  {
    CharAtEncodes(s, i);
  }

  lemma EncodeCons(c: nat, cps: seq<nat>)
    requires IsScalar(c) && AllScalars(cps)
    ensures AllScalars([c] + cps)
    ensures Encode([c] + cps) == EncodeChar(c) + Encode(cps)
  {
    assert ([c] + cps)[1..] == cps;
  }

  /** Decoding a well-formed string and encoding the result gives the string back; one codepoint per counted character. */
  lemma EncodeDecode(s: seq<uint8>)
    requires ValidUtf8(s)
    ensures AllScalars(Decode(s))
    ensures Encode(Decode(s)) == s
    ensures |Decode(s)| == CountChars(s)
  {
    EncodeDecodeFrom(s, 0);
  }

  /** Encoding scalar values gives a well-formed string that decodes back to them. */
  lemma {:induction false} DecodeEncode(cps: seq<nat>)
    requires AllScalars(cps)
    ensures ValidUtf8(Encode(cps))
    ensures Decode(Encode(cps)) == cps
    decreases |cps|
  {
    if cps != [] {
      var e := EncodeChar(cps[0]);
      var rest := Encode(cps[1..]);
      EncodeCharDecodes(cps[0]);
      DecodeEncode(cps[1..]);
      CharAtAppend(e, rest, 0);
      ShiftFrom(e, rest, 0);
    }
  }

  /** Cutting before codepoint `k` cuts the codepoint sequence at `k`. */
  lemma SplitDecode(s: seq<uint8>, k: nat)
    requires ValidUtf8(s) && k <= CountChars(s)
    ensures ValidUtf8(s[..ByteOffset(s, k)]) && ValidUtf8(s[ByteOffset(s, k)..])
    ensures |Decode(s)| == CountChars(s)
    ensures Decode(s[..ByteOffset(s, k)]) == Decode(s)[..k]
    ensures Decode(s[ByteOffset(s, k)..]) == Decode(s)[k..]
  {
    var b := ByteOffset(s, k);
    EncodeDecode(s);
    SplitValid(s, k);
    Seqs.SplitAt(s, b);
    AppendValid(s[..b], s[b..]);
    EncodeDecode(s[..b]);
  }

  // ---------------------------------------------------------------------------
  // C strings.

  /** The bytes of a NUL-terminated C string: everything before the first 0 (all of `buf` if it has none). */
  function CStr(buf: seq<uint8>): (s: seq<uint8>)
    ensures |s| <= |buf| && s == buf[..|s|]
    ensures forall i :: 0 <= i < |s| ==> s[i] != 0
    ensures |s| < |buf| ==> buf[|s|] == 0
  {
    if buf == [] || buf[0] == 0 then [] else [buf[0]] + CStr(buf[1..])
  }

  // ---------------------------------------------------------------------------
  // The scanning loops of the implementation.

  /** The length of the C string in `buf` (strlen). */
  method CStrLength(buf: seq<uint8>) returns (n: nat)
    ensures n == |CStr(buf)| && n <= |buf|
  {
    n := 0;
    while n < |buf| && buf[n] != 0
      invariant n <= |buf|
      invariant forall i :: 0 <= i < n ==> buf[i] != 0
    {
      n := n + 1;
    }
  }

  /** Walks `s` one encoded character at a time: is it well-formed, and how many codepoints does it hold? */
  method Validate(s: seq<uint8>) returns (ok: bool, numChars: nat)
    ensures ok <==> ValidUtf8(s)
    ensures numChars == CountChars(s)
  {
    var j := 0;
    numChars := 0;
    ok := true;
    while j < |s|
      invariant j <= |s|
      invariant ValidUtf8(s) == (ok && ValidFrom(s, j))
      invariant CountChars(s) == numChars + CountFrom(s, j)
      decreases |s| - j
    {
      if !CharAt(s, j) {
        ok := false;
      }
      j := j + Step(s, j);
      numChars := numChars + 1;
    }
  }

  /**
    Measures and validates the C string in `buf`, as insertion does before
    it changes anything: its length in bytes, whether it is well-formed
    UTF-8, and its codepoint count.
   */
  method ScanCStr(buf: seq<uint8>) returns (ok: bool, numBytes: nat, numChars: nat)
    ensures numBytes == |CStr(buf)|
    ensures ok <==> ValidUtf8(CStr(buf))
    ensures numChars == CountChars(CStr(buf))
  {
    numBytes := CStrLength(buf);
    ok, numChars := Validate(buf[..numBytes]);
  }

  /**
    The number of bytes taken by the first `k` characters of the first
    `numBytes` bytes of `buf` (a node buffer whose in-use prefix is well-formed).
   */
  method CountBytes(buf: seq<uint8>, numBytes: nat, k: nat) returns (b: nat)
    requires numBytes <= |buf| && ValidUtf8(buf[..numBytes]) && k <= CountChars(buf[..numBytes])
    ensures b == ByteOffset(buf[..numBytes], k)
  {
    ghost var s := buf[..numBytes];
    b := 0;
    var i := 0;
    while i < k
      invariant i <= k
      invariant b == ByteOffset(s, i)
    {
      ByteOffsetNext(s, i);
      assert s[b] == buf[b];
      b := b + LeadWidth(buf[b]);
      i := i + 1;
    }
  }
}
