/**
  File names in UTF-8 and in UTF-16, and the conversions between them, which go through code points.
 */
module FileNames {
  import opened Basics

  type UTF8 = n: nat | n < 0x100
  type UTF16 = n: nat | n < 0x1_0000

  const BAD_CODE_POINT: nat := 0xFFFF_FFFF
  const QUESTION_MARK := 0x3F

  /** A string that ends at its only zero. */
  ghost predicate Terminated(s: seq<nat>) {
    s != [] && forall i :: 0 <= i < |s| ==> (s[i] == 0 <==> i == |s| - 1)
  }

  /** The code points that stand for characters. */
  predicate IsScalar(c: nat) {
    c <= 0x10_FFFF && !(0xD800 <= c <= 0xDFFF)
  }

  predicate IsInBMP(c: nat) {
    c <= 0xD7FF || 0xE000 <= c < 0x1_0000
  }

  predicate IsHighSurrogate(c: nat) {
    0xD800 <= c <= 0xDBFF
  }

  predicate IsLowSurrogate(c: nat) {
    0xDC00 <= c <= 0xDFFF
  }

  // ---------- From UTF-8 to code points ----------

  ghost function LeadingOnes(c: UTF8): nat {
    if c < 0x80 then 0 else if c < 0xC0 then 1 else if c < 0xE0 then 2 else if c < 0xF0 then 3
    else if c < 0xF8 then 4 else if c < 0xFC then 5 else if c < 0xFE then 6 else if c < 0xFF then 7 else 8
  }

  method CountLeadingOnes(head: UTF8) returns (n: nat)
    ensures n == LeadingOnes(head)
  {
    var c: UTF8 := head;
    n := 0;
    while c >= 0x80
      invariant n + LeadingOnes(c) == LeadingOnes(head)
      decreases LeadingOnes(c)
    {
      c, n := 2 * (c as nat) % 0x100, n + 1;
    }
  }

  predicate IsTail(c: UTF8) {
    0x80 <= c < 0xC0
  }

  /** The bits of `n` tail bytes from position `j`, behind those in `high`; bad if one of them is no tail byte. */
  ghost function TailValue(s: seq<UTF8>, j: nat, n: nat, high: nat): nat
    requires Terminated(s) && j < |s|
    decreases n
  {
    if n == 0 then high
    else if !IsTail(s[j]) then BAD_CODE_POINT
    else TailValue(s, j + 1, n - 1, high * 64 + s[j] % 64)
  }

  method GetTail(s: seq<UTF8>, j: nat, n: nat) returns (value: nat)
    requires Terminated(s) && j < |s|
    ensures value == TailValue(s, j, n, 0)
  {
    value := 0;
    for i := 0 to n
      invariant j + i < |s| && TailValue(s, j, n, 0) == TailValue(s, j + i, n - i, value)
    {
      if !IsTail(s[j + i]) {
        return BAD_CODE_POINT;
      }
      value := value * 64 + s[j + i] % 64;
    }
  }

  /** The next position of a byte that is not part of a longer sequence. */
  ghost function NextAscii(s: seq<UTF8>, j: nat): (r: nat)
    requires Terminated(s) && j < |s|
    ensures j <= r < |s|
    decreases |s| - j
  {
    if s[j] < 0x80 then j else NextAscii(s, j + 1)
  }

  /** The bits of the head of a sequence of `n` + 1 bytes, in their place. */
  function HeadValue(head: UTF8, n: nat): nat
    requires 1 <= n <= 3
  {
    if n == 1 then head % 32 * 64 else if n == 2 then head % 16 * 0x1000 else head % 8 * 0x4_0000
  }

  /** The number of bytes of the sequence at a position, and its code point. */
  ghost function Decoded8(s: seq<UTF8>, i: nat): (int, nat)
    requires Terminated(s) && i < |s| - 1
  {
    var n := LeadingOnes(s[i]) - 1;
    if n == -1 then (1, s[i])
    else if 1 <= n <= 3 && TailValue(s, i + 1, n, 0) != BAD_CODE_POINT then
      (1 + n, HeadValue(s[i], n) + TailValue(s, i + 1, n, 0))
    else (NextAscii(s, i + 1) - i, BAD_CODE_POINT)
  }

  /** Behind an error the decoder goes on at the first byte below 0x80 that follows. */
  method Decode8(s: seq<UTF8>, i: nat) returns (used: int, cp: nat)
    requires Terminated(s) && i < |s| - 1
    ensures (used, cp) == Decoded8(s, i)
    ensures used >= 1 && i + used < |s|
    ensures cp == BAD_CODE_POINT ==> s[i + used] < 0x80 && forall j :: i < j < i + used ==> s[j] >= 0x80
  {
    NextAsciiIs(s, i + 1);
    Decoded8Stays(s, i);
    if s[i] < 0x80 {
      return 1, s[i];
    }
    var ones := CountLeadingOnes(s[i]);
    var n := ones - 1;
    if 1 <= n <= 3 {
      var tail := GetTail(s, i + 1, n);
      if tail != BAD_CODE_POINT {
        return 1 + n, HeadValue(s[i], n) + tail;
      }
    }
    used, cp := 1, BAD_CODE_POINT;
    while s[i + used] >= 0x80
      invariant 1 <= used && i + used < |s| && NextAscii(s, i + 1) == NextAscii(s, i + used)
      decreases |s| - used
    {
      used := used + 1;
    }
  }

  lemma {:induction false} NextAsciiIs(s: seq<UTF8>, j: nat)
    requires Terminated(s) && j < |s|
    ensures s[NextAscii(s, j)] < 0x80 && forall k :: j <= k < NextAscii(s, j) ==> s[k] >= 0x80
    decreases |s| - j
  {
    if s[j] >= 0x80 {
      NextAsciiIs(s, j + 1);
    }
  }

  /** The first position from `j` with a byte that is no tail byte. */
  ghost function NextHead(s: seq<UTF8>, j: nat): (r: nat)
    requires Terminated(s) && j < |s|
    ensures j <= r < |s| && !IsTail(s[r]) && forall k :: j <= k < r ==> IsTail(s[k])
    decreases |s| - j
  {
    if IsTail(s[j]) then NextHead(s, j + 1) else j
  }

  /**
    Behind a sequence that is in error the decoder goes on at the next head, if and only if that is a byte
    below 0x80: it skips the heads of longer sequences.
   */
  lemma GoesOnAtHead(s: seq<UTF8>, i: nat)
    requires Terminated(s) && i < |s| - 1 && Decoded8(s, i).1 == BAD_CODE_POINT
    ensures i + Decoded8(s, i).0 == NextHead(s, i + 1) <==> s[NextHead(s, i + 1)] < 0x80
  {
    Decoded8Fits(s, i);
    hide TailValue;
    NextAsciiIs(s, i + 1);
    var h, a := NextHead(s, i + 1), NextAscii(s, i + 1);
    assert s[i] >= 0x80 && i + Decoded8(s, i).0 == a;
    hide Decoded8, NextAscii, NextHead, LeadingOnes;
  }

  /** So a character behind a stray tail byte is lost. */
  lemma CharacterLost(s: seq<UTF8>)
    requires s == [0x80, 0xC3, 0xA9, 0]
    ensures Decoded8(s, 0) == (3, BAD_CODE_POINT) && Decoded8(s, 1) == (2, 0xE9)
  {
    assert NextAscii(s, 1) == NextAscii(s, 2) == NextAscii(s, 3) == 3;
    assert TailValue(s, 2, 1, 0) == TailValue(s, 3, 0, 0x29) == 0x29;
  }

  /** Every step uses at least one byte, and none passes the end of the string. */
  lemma Decoded8Stays(s: seq<UTF8>, i: nat)
    requires Terminated(s) && i < |s| - 1
    ensures Decoded8(s, i).0 >= 1 && i + Decoded8(s, i).0 < |s|
  {
  }

  // ---------- From UTF-16 to code points ----------

  /** Where the decoder goes on behind something that it cannot decode. */
  ghost function NextUnit(s: seq<UTF16>, i: nat, j: nat): (r: nat)
    requires Terminated(s) && i < j < |s|
    ensures j <= r < |s|
    decreases |s| - j
  {
    if IsInBMP(s[j]) || IsHighSurrogate(s[i]) then j else NextUnit(s, i, j + 1)
  }

  /** The code point of a surrogate pair: five bits of plane number, and sixteen of position in the plane. */
  function PairValue(high: UTF16, low: UTF16): nat {
    (high / 64 % 32 + 1) * 0x1_0000 + (high % 64 * 0x400 + low % 0x400)
  }

  ghost function Decoded16(s: seq<UTF16>, i: nat): (int, nat)
    requires Terminated(s) && i < |s| - 1
  {
    if IsInBMP(s[i]) then (1, s[i])
    else if IsHighSurrogate(s[i]) && IsLowSurrogate(s[i + 1]) then (2, PairValue(s[i], s[i + 1]))
    else (NextUnit(s, i, i + 1) - i, BAD_CODE_POINT)
  }

  method Decode16(s: seq<UTF16>, i: nat) returns (used: int, cp: nat)
    requires Terminated(s) && i < |s| - 1
    ensures (used, cp) == Decoded16(s, i)
  {
    if IsInBMP(s[i]) {
      return 1, s[i];
    }
    if IsHighSurrogate(s[i]) && IsLowSurrogate(s[i + 1]) {
      return 2, PairValue(s[i], s[i + 1]);
    }
    used, cp := 1, BAD_CODE_POINT;
    while !IsInBMP(s[i + used]) && !IsHighSurrogate(s[i])
      invariant 1 <= used && i + used < |s| && NextUnit(s, i, i + 1) == NextUnit(s, i, i + used)
      decreases |s| - used
    {
      used := used + 1;
    }
  }

  /** Every step uses at least one unit, and none passes the end of the string. */
  lemma Decoded16Stays(s: seq<UTF16>, i: nat)
    requires Terminated(s) && i < |s| - 1
    ensures Decoded16(s, i).0 >= 1 && i + Decoded16(s, i).0 < |s|
  {
  }

  /** The first position from `j` with a unit that a sequence may start with. */
  ghost function Acceptable(s: seq<UTF16>, j: nat): (r: nat)
    requires Terminated(s) && j < |s|
    ensures j <= r < |s| && (IsInBMP(s[r]) || IsHighSurrogate(s[r]))
    ensures forall k :: j <= k < r ==> !IsInBMP(s[k]) && !IsHighSurrogate(s[k])
    decreases |s| - j
  {
    if IsInBMP(s[j]) || IsHighSurrogate(s[j]) then j else Acceptable(s, j + 1)
  }

  /**
    Behind a sequence that is in error the decoder goes on at the next unit that a sequence may start
    with, if and only if the error is a high surrogate, or that unit is in the basic plane.
   */
  lemma GoesOnWhereAcceptable(s: seq<UTF16>, i: nat)
    requires Terminated(s) && i < |s| - 1 && Decoded16(s, i).1 == BAD_CODE_POINT
    ensures var a := Acceptable(s, i + 1);
      i + Decoded16(s, i).0 == a <==> IsHighSurrogate(s[i]) || IsInBMP(s[a])
  {
    assert IsHighSurrogate(s[i]) ==> IsInBMP(s[i + 1]) || IsHighSurrogate(s[i + 1]);
    if !IsHighSurrogate(s[i]) {
      NextUnitIs(s, i, i + 1);
    }
  }

  lemma {:induction false} NextUnitIs(s: seq<UTF16>, i: nat, j: nat)
    requires Terminated(s) && i < j < |s| && !IsHighSurrogate(s[i])
    ensures NextUnit(s, i, j) == Acceptable(s, j) <==> IsInBMP(s[Acceptable(s, j)])
    ensures NextUnit(s, i, j) >= Acceptable(s, j)
    decreases |s| - j
  {
    if !IsInBMP(s[j]) {
      NextUnitIs(s, i, j + 1);
    }
  }

  /** So a pair behind a stray low surrogate is lost. */
  lemma PairLost(s: seq<UTF16>)
    requires s == [0xDC00, 0xD83D, 0xDE00, 0]
    ensures Decoded16(s, 0) == (3, BAD_CODE_POINT) && Decoded16(s, 1) == (2, 0x1_F600)
    ensures ToUTF8(s, 0) == [0x3F]
  {
    assert NextUnit(s, 0, 1) == NextUnit(s, 0, 2) == NextUnit(s, 0, 3) == 3;
    assert ToUTF8(s, 3) == [];
    assert ToUTF8(s, 0) == Piece8(BAD_CODE_POINT) + ToUTF8(s, 3);
  }

  // ---------- From code points to sequences ----------

  /** The sequence for a code point, with a terminating zero. */
  function Encode8(c: nat): Option<seq<UTF8>> {
    if c < 0x80 then Some([c, 0])
    else if c < 0x800 then Some([0xC0 + c / 64 % 32, 0x80 + c % 64, 0])
    else if c < 0x1_0000 then
      if !IsInBMP(c) then None else Some([0xE0 + c / 0x1000 % 16, 0x80 + c / 64 % 64, 0x80 + c % 64, 0])
    else if c < 0x11_0000 then
      Some([0xF0 + c / 0x4_0000 % 8, 0x80 + c / 0x1000 % 64, 0x80 + c / 64 % 64, 0x80 + c % 64, 0])
    else None
  }

  /** As above, in UTF-16; code points that come out of four bytes have no more than 21 bits. */
  function Encode16(c: nat): Option<seq<UTF16>>
    requires c < 0x20_0000
  {
    if IsInBMP(c) then Some([c, 0])
    else if c >= 0x1_0000 then
      var position, plane := c % 0x1_0000, c / 0x1_0000 % 32 - 1;
      Some([0xD800 + plane * 64 + position / 0x400, 0xDC00 + position % 0x400, 0])
    else None
  }

  /** A string without its terminating zero. */
  ghost predicate Units(p: seq<nat>, bound: nat) {
    forall i :: 0 <= i < |p| ==> 0 < p[i] < bound
  }

  ghost function Closed8(p: seq<nat>): (s: seq<UTF8>)
    requires Units(p, 0x100)
    ensures Terminated(s)
  {
    p + [0]
  }

  ghost function Closed16(p: seq<nat>): (s: seq<UTF16>)
    requires Units(p, 0x1_0000)
    ensures Terminated(s)
  {
    p + [0]
  }

  /** The part of a buffer before its first zero. */
  ghost function UpToZero(p: seq<nat>): (r: seq<nat>)
    ensures |r| <= |p| && forall i :: 0 <= i < |r| ==> r[i] == p[i] != 0
  {
    if p == [] || p[0] == 0 then [] else [p[0]] + UpToZero(p[1..])
  }

  method AppendUpToZero(out: seq<nat>, p: seq<nat>) returns (r: seq<nat>)
    requires p != [] && p[|p| - 1] == 0
    ensures r == out + UpToZero(p)
  {
    r := out;
    var k := 0;
    while p[k] != 0
      invariant k < |p| && r + UpToZero(p[k..]) == out + UpToZero(p)
      decreases |p| - k
    {
      r, k := r + [p[k]], k + 1;
    }
  }

  // ---------- From string to string ----------

  /** What is appended for one code point: a question mark if it is bad or cannot be encoded. */
  ghost function Piece16(cp: nat): (r: seq<nat>)
    requires cp == BAD_CODE_POINT || cp < 0x20_0000
    ensures Units(r, 0x1_0000)
  {
    if cp == BAD_CODE_POINT || Encode16(cp).None? then [QUESTION_MARK] else UpToZero(Encode16(cp).value)
  }

  ghost function Piece8(cp: nat): (r: seq<nat>)
    ensures Units(r, 0x100)
  {
    if cp == BAD_CODE_POINT || Encode8(cp).None? then [QUESTION_MARK] else UpToZero(Encode8(cp).value)
  }

  lemma Decoded8Fits(s: seq<UTF8>, i: nat)
    requires Terminated(s) && i < |s| - 1
    ensures Decoded8(s, i).1 == BAD_CODE_POINT || Decoded8(s, i).1 < 0x20_0000
  {
  }

  /** The UTF-16 for a string in UTF-8 from position `i`, without a terminator. */
  ghost function ToUTF16(s: seq<UTF8>, i: nat): (r: seq<nat>)
    requires Terminated(s) && i < |s|
    ensures Units(r, 0x1_0000)
    decreases |s| - i
  {
    if s[i] == 0 then []
    else
      Decoded8Stays(s, i);
      Decoded8Fits(s, i);
      Piece16(Decoded8(s, i).1) + ToUTF16(s, i + Decoded8(s, i).0)
  }

  ghost function ToUTF8(s: seq<UTF16>, i: nat): (r: seq<nat>)
    requires Terminated(s) && i < |s|
    ensures Units(r, 0x100)
    decreases |s| - i
  {
    if s[i] == 0 then []
    else
      Decoded16Stays(s, i);
      Piece8(Decoded16(s, i).1) + ToUTF8(s, i + Decoded16(s, i).0)
  }

  method Str2Fname(s: seq<UTF8>) returns (fn: seq<UTF16>)
    requires Terminated(s)
    ensures fn == Closed16(ToUTF16(s, 0))
  {
    hide Decoded8, Piece16;
    var res := [];
    var i := 0;
    while s[i] != 0
      invariant 0 <= i < |s| && res + ToUTF16(s, i) == ToUTF16(s, 0)
      decreases |s| - i
    {
      Decoded8Stays(s, i);
      Decoded8Fits(s, i);
      var used, cp := Decode8(s, i);
      i := i + used;
      res := Append16(res, cp);
    }
    assert res == ToUTF16(s, 0);
    fn := res + [0];
  }

  method Append16(out: seq<nat>, cp: nat) returns (res: seq<nat>)
    requires cp == BAD_CODE_POINT || cp < 0x20_0000
    ensures res == out + Piece16(cp)
  {
    if cp != BAD_CODE_POINT {
      var p := Encode16(cp);
      if p.Some? {
        res := AppendUpToZero(out, p.value);
        return;
      }
    }
    res := out + [QUESTION_MARK];
  }

  method Fname2Str(s: seq<UTF16>) returns (str: seq<UTF8>)
    requires Terminated(s)
    ensures str == Closed8(ToUTF8(s, 0))
  {
    hide Decoded16, Piece8;
    var res := [];
    var i := 0;
    while s[i] != 0
      invariant 0 <= i < |s| && res + ToUTF8(s, i) == ToUTF8(s, 0)
      decreases |s| - i
    {
      Decoded16Stays(s, i);
      var used, cp := Decode16(s, i);
      i := i + used;
      res := Append8(res, cp);
    }
    assert res == ToUTF8(s, 0);
    str := res + [0];
  }

  method Append8(out: seq<nat>, cp: nat) returns (res: seq<nat>)
    ensures res == out + Piece8(cp)
  {
    if cp != BAD_CODE_POINT {
      var p := Encode8(cp);
      if p.Some? {
        res := AppendUpToZero(out, p.value);
        return;
      }
    }
    res := out + [QUESTION_MARK];
  }

  // ---------- Well-formed strings ----------

  /** The nonzero characters of a string. */
  ghost predicate AreCharacters(cs: seq<nat>) {
    forall i :: 0 <= i < |cs| ==> IsScalar(cs[i]) && cs[i] != 0
  }

  /** The UTF-8 form of a character, by the number of bits that it needs (section 3 of RFC 3629). */
  ghost function CharUTF8(c: nat): seq<nat>
    requires IsScalar(c)
  {
    if c < 0x80 then [c]
    else if c < 0x800 then [0xC0 + c / 64, 0x80 + c % 64]
    else if c < 0x1_0000 then [0xE0 + c / 0x1000, 0x80 + c / 64 % 64, 0x80 + c % 64]
    else [0xF0 + c / 0x4_0000, 0x80 + c / 0x1000 % 64, 0x80 + c / 64 % 64, 0x80 + c % 64]
  }

  /**
    The UTF-16 form of a character: a surrogate pair carries the 20 bits of `c` - 0x10000 (section 2.1
    of RFC 2781).
   */
  ghost function CharUTF16(c: nat): seq<nat>
    requires IsScalar(c)
  {
    if c < 0x1_0000 then [c]
    else [0xD800 + (c - 0x1_0000) / 0x400, 0xDC00 + (c - 0x1_0000) % 0x400]
  }

  ghost function AllUTF8(cs: seq<nat>): seq<nat>
    requires AreCharacters(cs)
  {
    if cs == [] then [] else CharUTF8(cs[0]) + AllUTF8(cs[1..])
  }

  ghost function AllUTF16(cs: seq<nat>): seq<nat>
    requires AreCharacters(cs)
  {
    if cs == [] then [] else CharUTF16(cs[0]) + AllUTF16(cs[1..])
  }

  /** The string is the UTF-8 form of some characters. */
  ghost predicate WellFormed(s: seq<nat>) {
    exists cs :: AreCharacters(cs) && s == AllUTF8(cs)
  }

  lemma {:induction false} UpToZeroIs(p: seq<nat>)
    requires forall i :: 0 <= i < |p| ==> p[i] != 0
    ensures UpToZero(p + [0]) == p
  {
    if p != [] {
      assert (p + [0])[1..] == p[1..] + [0];
      UpToZeroIs(p[1..]);
    }
  }

  /** The encoders do what the standards say. */
  lemma Encode8IsUTF8(c: nat)
    requires IsScalar(c) && c != 0
    ensures Piece8(c) == CharUTF8(c)
  {
    UpToZeroIs(CharUTF8(c));
    hide UpToZero;
    assert c < 0x800 ==> c / 64 < 32;
    assert c < 0x1_0000 ==> c / 0x1000 < 16;
    assert c / 0x4_0000 < 8;
    assert Encode8(c).value == CharUTF8(c) + [0];
  }

  lemma Encode16IsUTF16(c: nat)
    requires IsScalar(c) && c != 0
    ensures Piece16(c) == CharUTF16(c)
  {
    UpToZeroIs(CharUTF16(c));
    assert Encode16(c).value == CharUTF16(c) + [0];
  }

  /** The bytes of a character stand at a position. */
  ghost predicate StandsAt(u: seq<nat>, s: seq<nat>, i: nat) {
    i + |u| <= |s| && forall k :: 0 <= k < |u| ==> s[i + k] == u[k]
  }

  lemma TailOf(s: seq<UTF8>, j: nat, n: nat, high: nat)
    requires Terminated(s) && 1 <= n <= 3 && j + n < |s| && forall k :: j <= k < j + n ==> IsTail(s[k])
    ensures TailValue(s, j, n, high) ==
            if n == 1 then high * 64 + s[j] % 64
            else if n == 2 then (high * 64 + s[j] % 64) * 64 + s[j + 1] % 64
            else ((high * 64 + s[j] % 64) * 64 + s[j + 1] % 64) * 64 + s[j + 2] % 64
  {
    var h := high * 64 + s[j] % 64;
    assert TailValue(s, j, n, high) == TailValue(s, j + 1, n - 1, h);
    if n > 1 {
      var g := h * 64 + s[j + 1] % 64;
      assert TailValue(s, j + 1, n - 1, h) == TailValue(s, j + 2, n - 2, g);
    }
  }

  /** The decoders are the inverses of the encoders. */
  lemma Decode8Inverts(c: nat, s: seq<UTF8>, i: nat)
    requires IsScalar(c) && c != 0 && Terminated(s) && i + |CharUTF8(c)| < |s| && StandsAt(CharUTF8(c), s, i)
    ensures s[i] != 0 && |CharUTF8(c)| > 0 && Decoded8(s, i) == (|CharUTF8(c)|, c)
  {
    var u := CharUTF8(c);
    assert s[i] == u[0];
    if c >= 0x80 {
      var n := |u| - 1;
      forall k | i + 1 <= k < i + 1 + n ensures s[k] == u[k - i] && IsTail(s[k]) {
      }
      TailOf(s, i + 1, n, 0);
      hide TailValue, Terminated;
      Recombined(c, u);
    }
  }

  /** A number is made up of its digits in base 64. */
  lemma Digits(c: nat)
    ensures c == c / 64 * 64 + c % 64
    ensures c == (c / 0x1000 * 64 + c / 64 % 64) * 64 + c % 64
    ensures c == ((c / 0x4_0000 * 64 + c / 0x1000 % 64) * 64 + c / 64 % 64) * 64 + c % 64
  {
    assert c / 64 / 64 == c / 0x1000;
    assert c / 0x1000 / 64 == c / 0x4_0000;
  }

  lemma Recombined(c: nat, u: seq<nat>)
    requires IsScalar(c) && c >= 0x80 && u == CharUTF8(c)
    ensures u[0] < 0x100 && LeadingOnes(u[0]) == |u|
    ensures HeadValue(u[0], |u| - 1) +
            (if |u| == 2 then u[1] % 64
             else if |u| == 3 then u[1] % 64 * 64 + u[2] % 64
             else (u[1] % 64 * 64 + u[2] % 64) * 64 + u[3] % 64) == c
  {
    Digits(c);
    var d0, d1, d2, a1, a2, a3 := c % 64, c / 64 % 64, c / 0x1000 % 64, c / 64, c / 0x1000, c / 0x4_0000;
    Stripped(d0);
    Stripped(d1);
    Stripped(d2);
    if c < 0x800 {
      assert a1 < 32 && u == [0xC0 + a1, 0x80 + d0];
      assert (0xC0 + a1) % 32 == a1;
    } else if c < 0x1_0000 {
      assert a2 < 16 && u == [0xE0 + a2, 0x80 + d1, 0x80 + d0];
      assert (0xE0 + a2) % 16 == a2;
    } else {
      assert a3 < 8 && u == [0xF0 + a3, 0x80 + d2, 0x80 + d1, 0x80 + d0];
      assert (0xF0 + a3) % 8 == a3;
    }
  }

  lemma Stripped(d: nat)
    requires d < 64
    ensures (0x80 + d) % 64 == d
  {
  }

  lemma Decode16Inverts(c: nat, s: seq<UTF16>, i: nat)
    requires IsScalar(c) && c != 0 && Terminated(s) && i + |CharUTF16(c)| < |s| && StandsAt(CharUTF16(c), s, i)
    ensures s[i] != 0 && |CharUTF16(c)| > 0 && Decoded16(s, i) == (|CharUTF16(c)|, c)
  {
    var u := CharUTF16(c);
    assert s[i] == u[0];
    if c >= 0x1_0000 {
      assert s[i + 1] == u[1];
      PairOf(c, u[0], u[1]);
      hide PairValue;
    }
  }

  lemma PairOf(c: nat, high: nat, low: nat)
    requires 0x1_0000 <= c <= 0x10_FFFF
    requires high == 0xD800 + (c - 0x1_0000) / 0x400 && low == 0xDC00 + (c - 0x1_0000) % 0x400
    ensures IsHighSurrogate(high) && IsLowSurrogate(low) && PairValue(high, low) == c
  {
    var v := c - 0x1_0000;
    assert high / 64 % 32 == v / 0x1_0000 && high % 64 == v / 0x400 % 64;
    assert low % 0x400 == v % 0x400;
  }

  lemma NoCharacters(cs: seq<nat>)
    requires cs == []
    ensures AreCharacters(cs) && AllUTF8(cs) == [] == AllUTF16(cs)
  {
  }

  lemma Ended8(s: seq<UTF8>, i: nat)
    requires i < |s| && s[i..] == [] + [0] && Terminated(s)
    ensures ToUTF16(s, i) == []
  {
    assert s[i] == s[i..][0];
  }

  lemma Ended16(s: seq<UTF16>, i: nat)
    requires i < |s| && s[i..] == [] + [0] && Terminated(s)
    ensures ToUTF8(s, i) == []
  {
    assert s[i] == s[i..][0];
  }

  lemma FirstCharacter(cs: seq<nat>)
    requires AreCharacters(cs) && cs != []
    ensures IsScalar(cs[0]) && cs[0] != 0 && AreCharacters(cs[1..])
    ensures AllUTF8(cs) == CharUTF8(cs[0]) + AllUTF8(cs[1..])
    ensures AllUTF16(cs) == CharUTF16(cs[0]) + AllUTF16(cs[1..])
  {
  }

  lemma SplitAt(s: seq<nat>, i: nat, u: seq<nat>, rest: seq<nat>)
    requires i <= |s| && s[i..] == u + rest + [0]
    ensures StandsAt(u, s, i) && s[i + |u|..] == rest + [0] && i + |u| < |s|
  {
    forall k | 0 <= k < |u| ensures s[i + k] == u[k] {
      assert s[i + k] == s[i..][k];
    }
    assert s[i + |u|..] == s[i..][|u|..];
  }

  lemma Step16(c: nat, s: seq<UTF8>, i: nat)
    requires IsScalar(c) && c != 0 && Terminated(s) && i + |CharUTF8(c)| < |s| && StandsAt(CharUTF8(c), s, i)
    ensures ToUTF16(s, i) == CharUTF16(c) + ToUTF16(s, i + |CharUTF8(c)|)
  {
    hide *;
    Decode8Inverts(c, s, i);
    Encode16IsUTF16(c);
    Unfolded16(s, i);
  }

  lemma Unfolded16(s: seq<UTF8>, i: nat)
    requires Terminated(s) && i < |s| - 1
    ensures var (used, cp) := Decoded8(s, i);
      && 0 < used < |s| - i && (cp == BAD_CODE_POINT || cp < 0x20_0000)
      && ToUTF16(s, i) == Piece16(cp) + ToUTF16(s, i + used)
  {
    Decoded8Stays(s, i);
    Decoded8Fits(s, i);
    hide Decoded8, Piece16, Units;
  }

  lemma Step8(c: nat, s: seq<UTF16>, i: nat)
    requires IsScalar(c) && c != 0 && Terminated(s) && i + |CharUTF16(c)| < |s| && StandsAt(CharUTF16(c), s, i)
    ensures ToUTF8(s, i) == CharUTF8(c) + ToUTF8(s, i + |CharUTF16(c)|)
  {
    hide *;
    Decode16Inverts(c, s, i);
    Encode8IsUTF8(c);
    Unfolded8(s, i);
  }

  lemma Unfolded8(s: seq<UTF16>, i: nat)
    requires Terminated(s) && i < |s| - 1
    ensures var (used, cp) := Decoded16(s, i);
      && 0 < used < |s| - i && ToUTF8(s, i) == Piece8(cp) + ToUTF8(s, i + used)
  {
    Decoded16Stays(s, i);
    hide Decoded16, Piece8, Units;
  }

  /** Well-formed UTF-8 is converted to the UTF-16 form of the same characters. */
  lemma {:induction false} WellFormedToUTF16(cs: seq<nat>, s: seq<UTF8>, i: nat)
    requires AreCharacters(cs) && Terminated(s) && i < |s| && s[i..] == AllUTF8(cs) + [0]
    ensures ToUTF16(s, i) == AllUTF16(cs)
    decreases cs
  {
    hide *;
    if cs == [] {
      NoCharacters(cs);
      Ended8(s, i);
    } else {
      FirstCharacter(cs);
      var c, rest := cs[0], cs[1..];
      SplitAt(s, i, CharUTF8(c), AllUTF8(rest));
      Step16(c, s, i);
      WellFormedToUTF16(rest, s, i + |CharUTF8(c)|);
    }
  }

  lemma {:induction false} UTF16ToWellFormed(cs: seq<nat>, s: seq<UTF16>, i: nat)
    requires AreCharacters(cs) && Terminated(s) && i < |s| && s[i..] == AllUTF16(cs) + [0]
    ensures ToUTF8(s, i) == AllUTF8(cs)
    decreases cs
  {
    hide *;
    if cs == [] {
      NoCharacters(cs);
      Ended16(s, i);
    } else {
      FirstCharacter(cs);
      var c, rest := cs[0], cs[1..];
      SplitAt(s, i, CharUTF16(c), AllUTF16(rest));
      Step8(c, s, i);
      UTF16ToWellFormed(rest, s, i + |CharUTF16(c)|);
    }
  }

  /** The characters that are made of a string in UTF-16; what cannot be decoded becomes a question mark. */
  ghost function Characters(s: seq<UTF16>, i: nat): (cs: seq<nat>)
    requires Terminated(s) && i < |s|
    ensures AreCharacters(cs)
    decreases |s| - i
  {
    if s[i] == 0 then []
    else
      Decoded16Stays(s, i);
      var (used, cp) := Decoded16(s, i);
      [if cp == BAD_CODE_POINT then QUESTION_MARK else cp] + Characters(s, i + used)
  }

  /** Whatever the input, the output is well-formed UTF-8. */
  lemma {:induction false} OutputIsWellFormed(s: seq<UTF16>, i: nat)
    requires Terminated(s) && i < |s|
    ensures ToUTF8(s, i) == AllUTF8(Characters(s, i))
    decreases |s| - i
  {
    if s[i] != 0 {
      var next := NextCharacter(s, i);
      var c, rest := Characters(s, i)[0], Characters(s, i)[1..];
      assert rest == Characters(s, next);
      FirstCharacter(Characters(s, i));
      hide *;
      OutputIsWellFormed(s, next);
    }
  }

  lemma NextCharacter(s: seq<UTF16>, i: nat) returns (next: nat)
    requires Terminated(s) && i < |s| && s[i] != 0
    ensures i < next < |s| && Characters(s, i) != [] && Characters(s, i)[1..] == Characters(s, next)
    ensures var c := Characters(s, i)[0]; IsScalar(c) && ToUTF8(s, i) == CharUTF8(c) + ToUTF8(s, next)
  {
    Decoded16Stays(s, i);
    var (used, cp) := Decoded16(s, i);
    next := i + used;
    var c := if cp == BAD_CODE_POINT then QUESTION_MARK else cp;
    assert Characters(s, i) == [c] + Characters(s, next);
    assert IsScalar(c) && c != 0;
    if cp == BAD_CODE_POINT {
      assert Piece8(cp) == CharUTF8(c);
    } else {
      Encode8IsUTF8(c);
    }
  }

  lemma {:induction false} AllNonzero(cs: seq<nat>)
    requires AreCharacters(cs)
    ensures Units(AllUTF8(cs), 0x100) && Units(AllUTF16(cs), 0x1_0000)
  {
    if cs != [] {
      AllNonzero(cs[1..]);
    }
  }

  /** To UTF-16 and back. */
  ghost function ThereAndBack(s: seq<UTF8>): seq<UTF8>
    requires Terminated(s)
  {
    Closed8(ToUTF8(Closed16(ToUTF16(s, 0)), 0))
  }

  /** Both conversions on the forms of the same characters. */
  lemma ConversionsAgree(cs: seq<nat>)
    requires AreCharacters(cs)
    ensures Units(AllUTF8(cs), 0x100) && Units(AllUTF16(cs), 0x1_0000)
    ensures ToUTF16(Closed8(AllUTF8(cs)), 0) == AllUTF16(cs) && ToUTF8(Closed16(AllUTF16(cs)), 0) == AllUTF8(cs)
  {
    AllNonzero(cs);
    var s, fn := Closed8(AllUTF8(cs)), Closed16(AllUTF16(cs));
    assert s[0..] == AllUTF8(cs) + [0] && fn[0..] == AllUTF16(cs) + [0];
    hide *;
    WellFormedToUTF16(cs, s, 0);
    UTF16ToWellFormed(cs, fn, 0);
  }

  /** The round trip gives back a string exactly if it is well-formed UTF-8. */
  lemma RoundTrip(s: seq<UTF8>)
    requires Terminated(s)
    ensures ThereAndBack(s) == s <==> WellFormed(s[..|s| - 1])
  {
    var text := s[..|s| - 1];
    assert s == text + [0];
    hide ToUTF8, ToUTF16, AllUTF8, AllUTF16, AreCharacters, Terminated, Units;
    if WellFormed(text) {
      var cs :| AreCharacters(cs) && text == AllUTF8(cs);
      ConversionsAgree(cs);
      assert s == Closed8(AllUTF8(cs));
    }
    if ThereAndBack(s) == s {
      var fn := Closed16(ToUTF16(s, 0));
      OutputIsWellFormed(fn, 0);
      assert text == ThereAndBack(s)[..|s| - 1] == AllUTF8(Characters(fn, 0));
    }
  }

  /**
    A byte that no sequence starts with: a tail byte, or one with more than four leading ones. It gives one
    question mark, together with all bytes behind it that are not below 0x80.
   */
  lemma BadStretch(s: seq<UTF8>, i: nat, next: nat)
    requires Terminated(s) && i < next < |s| && (0x80 <= s[i] < 0xC0 || s[i] >= 0xF8)
    requires s[next] < 0x80 && forall k :: i < k < next ==> s[k] >= 0x80
    ensures ToUTF16(s, i) == [0x3F] + ToUTF16(s, next)
  {
    hide *;
    BadByte(s, i);
    BadPiece();
    FirstAscii(s, i + 1, next);
    Unfolded16(s, i);
    var (used, cp) := Decoded8(s, i);
    assert used == next - i;
    assert i + used == next;
  }

  lemma BadPiece()
    ensures Piece16(BAD_CODE_POINT) == [0x3F]
  {
  }

  lemma BadByte(s: seq<UTF8>, i: nat)
    requires Terminated(s) && i < |s| && (0x80 <= s[i] < 0xC0 || s[i] >= 0xF8)
    ensures i < |s| - 1 && Decoded8(s, i) == (NextAscii(s, i + 1) - i, BAD_CODE_POINT)
  {
    hide TailValue, NextAscii, HeadValue;
    assert s[|s| - 1] == 0;
  }

  lemma FirstAscii(s: seq<UTF8>, j: nat, next: nat)
    requires Terminated(s) && j <= next < |s| && s[next] < 0x80 && forall k :: j <= k < next ==> s[k] >= 0x80
    ensures NextAscii(s, j) == next
  {
    NextAsciiIs(s, j);
    hide Terminated, NextAscii;
  }

  /** How large the buffers must be: no more units than bytes, and no more than three bytes for a unit. */
  lemma {:induction false} UTF16Fits(s: seq<UTF8>, i: nat)
    requires Terminated(s) && i < |s|
    ensures |ToUTF16(s, i)| + i < |s|
    decreases |s| - i
  {
    if s[i] != 0 {
      var next := StepFits16(s, i);
      hide *;
      UTF16Fits(s, next);
    }
  }

  lemma StepFits16(s: seq<UTF8>, i: nat) returns (next: nat)
    requires Terminated(s) && i < |s| - 1
    ensures i < next < |s| && |ToUTF16(s, i)| <= next - i + |ToUTF16(s, next)|
  {
    hide *;
    PieceFits(s, i);
    Unfolded16(s, i);
    var (used, cp) := Decoded8(s, i);
    next := i + used;
  }

  lemma PieceFits(s: seq<UTF8>, i: nat)
    requires Terminated(s) && i < |s| - 1
    ensures var (used, cp) := Decoded8(s, i); (cp == BAD_CODE_POINT || cp < 0x20_0000) && |Piece16(cp)| <= used
  {
    Decoded8Stays(s, i);
    Decoded8Fits(s, i);
    var (used, cp) := Decoded8(s, i);
    Piece16Size(cp);
    if cp >= 0x1_0000 && cp != BAD_CODE_POINT {
      assert LeadingOnes(s[i]) != 0 && LeadingOnes(s[i]) != 2 && LeadingOnes(s[i]) != 3;
    }
  }

  lemma Piece16Size(cp: nat)
    requires cp == BAD_CODE_POINT || cp < 0x20_0000
    ensures |Piece16(cp)| <= if cp < 0x1_0000 || cp == BAD_CODE_POINT then 1 else 2
  {
    if cp < 0x20_0000 && Encode16(cp).Some? {
      UpToZeroSize(Encode16(cp).value);
    }
  }

  lemma Piece8Size(cp: nat)
    ensures |Piece8(cp)| <= if cp < 0x1_0000 || cp == BAD_CODE_POINT then 3 else 4
  {
    if Encode8(cp).Some? {
      UpToZeroSize(Encode8(cp).value);
    }
  }

  lemma {:induction false} UpToZeroSize(p: seq<nat>)
    requires p != [] && p[|p| - 1] == 0
    ensures |UpToZero(p)| < |p|
  {
    if p[0] != 0 {
      UpToZeroSize(p[1..]);
    }
  }

  lemma {:induction false} UTF8Fits(s: seq<UTF16>, i: nat)
    requires Terminated(s) && i < |s|
    ensures |ToUTF8(s, i)| <= 3 * (|s| - 1 - i)
    decreases |s| - i
  {
    if s[i] != 0 {
      var next := StepFits(s, i);
      hide *;
      UTF8Fits(s, next);
    }
  }

  lemma StepFits(s: seq<UTF16>, i: nat) returns (next: nat)
    requires Terminated(s) && i < |s| - 1
    ensures i < next < |s| && |ToUTF8(s, i)| <= 3 * (next - i) + |ToUTF8(s, next)|
  {
    hide *;
    PairUsesTwo(s, i);
    Unfolded8(s, i);
    var (used, cp) := Decoded16(s, i);
    next := i + used;
    Piece8Size(cp);
    assert ToUTF8(s, i) == Piece8(cp) + ToUTF8(s, next);
  }

  lemma PairUsesTwo(s: seq<UTF16>, i: nat)
    requires Terminated(s) && i < |s| - 1
    ensures var (used, cp) := Decoded16(s, i); cp < 0x1_0000 || cp == BAD_CODE_POINT || used == 2
  {
  }
}
