/**
 * Strict UTF-8 as Rust's `core::str::from_utf8` accepts it: the well-formed
 * byte sequences of table 3-7 of the Unicode Standard (chapter 3, section 3.9).
 * Overlong forms, surrogates and code points above U+10FFFF are rejected.
 * The echo server (src/main.rs) panics when a received chunk is not valid.
 */
module Utf8 {
  import opened Io

  /** A Unicode scalar value: a code point that is not a surrogate. */
  predicate IsScalar(c: nat)
  {
    c < 0x11_0000 && !(0xD800 <= c <= 0xDFFF)
  }

  predicate InRange(b: byte, lo: byte, hi: byte)
  {
    lo <= b <= hi
  }

  /** A continuation byte `10xxxxxx`. */
  predicate Cont(b: byte)
  {
    InRange(b, 0x80, 0xBF)
  }

  /** The range table 3-7 allows for the second byte after a three- or four-byte lead. */
  function SecondLo(lead: byte): byte
  {
    if lead == 0xE0 then 0xA0 else if lead == 0xF0 then 0x90 else 0x80
  }

  function SecondHi(lead: byte): byte
  {
    if lead == 0xED then 0x9F else if lead == 0xF4 then 0x8F else 0xBF
  }

  /**
   * The length of the well-formed sequence at the front of `s`, or 0 when the
   * front of `s` is not the start of one.
   */
  function HeadLen(s: seq<byte>): (n: nat)
    requires s != []
    ensures n <= 4 && n <= |s|
  {
    var b := s[0];
    if b <= 0x7F then 1
    else if InRange(b, 0xC2, 0xDF) then
      (if |s| >= 2 && Cont(s[1]) then 2 else 0)
    else if InRange(b, 0xE0, 0xEF) then
      (if |s| >= 3 && InRange(s[1], SecondLo(b), SecondHi(b)) && Cont(s[2]) then 3 else 0)
    else if InRange(b, 0xF0, 0xF4) then
      (if |s| >= 4 && InRange(s[1], SecondLo(b), SecondHi(b)) && Cont(s[2]) && Cont(s[3]) then 4 else 0)
    else 0
  }

  /** `s` is a concatenation of well-formed sequences. */
  predicate Valid(s: seq<byte>)
    ensures Valid(s) && s != [] ==> s[0] <= 0x7F || InRange(s[0], 0xC2, 0xF4)
    decreases |s|
  {
    s == [] || (HeadLen(s) > 0 && Valid(s[HeadLen(s)..]))
  }

  /** The six payload bits of a continuation byte. */
  function Low6(b: byte): nat
  {
    if b >= 0x80 then (b - 0x80) % 0x40 else 0
  }

  /** The scalar value of the well-formed sequence at the front of `s`. */
  function DecodeHead(s: seq<byte>): nat
    requires s != [] && HeadLen(s) > 0
  {
    var n := HeadLen(s);
    if n == 1 then s[0]
    else if n == 2 then (s[0] - 0xC0) * 0x40 + Low6(s[1])
    else if n == 3 then ((s[0] - 0xE0) * 0x40 + Low6(s[1])) * 0x40 + Low6(s[2])
    else (((s[0] - 0xF0) * 0x40 + Low6(s[1])) * 0x40 + Low6(s[2])) * 0x40 + Low6(s[3])
  }

  /** The shortest UTF-8 form of a scalar value, six bits per continuation byte. */
  function Encode(c: nat): (r: seq<byte>)
    requires IsScalar(c)
    ensures 1 <= |r| <= 4
  {
    if c < 0x80 then [c]
    else if c < 0x800 then [0xC0 + c / 0x40, 0x80 + c % 0x40]
    else if c < 0x1_0000 then [0xE0 + c / 0x40 / 0x40, 0x80 + c / 0x40 % 0x40, 0x80 + c % 0x40]
    else [0xF0 + c / 0x40 / 0x40 / 0x40, 0x80 + c / 0x40 / 0x40 % 0x40, 0x80 + c / 0x40 % 0x40, 0x80 + c % 0x40]
  }

  /** Division by 64 undoes appending six bits. */
  lemma Split6(q: nat, r: nat)
    requires r < 0x40
    ensures (q * 0x40 + r) / 0x40 == q && (q * 0x40 + r) % 0x40 == r
  {
  }

  /** Encoding a scalar value yields exactly one well-formed sequence, which decodes back to it. */
  lemma EncodeDecode(c: nat)
    requires IsScalar(c)
    ensures HeadLen(Encode(c)) == |Encode(c)|
    ensures DecodeHead(Encode(c)) == c
  {
    var c1, c2, c3 := c / 0x40, c / 0x40 / 0x40, c / 0x40 / 0x40 / 0x40;
    assert c == c1 * 0x40 + c % 0x40;
    assert c1 == c2 * 0x40 + c1 % 0x40;
    assert c2 == c3 * 0x40 + c2 % 0x40;
    if c < 0x80 {
    } else if c < 0x800 {
      EncodeTwo(c);
    } else if c < 0x1_0000 {
      EncodeThree(c);
    } else {
      EncodeFour(c);
    }
  }

  lemma EncodeTwo(c: nat)
    requires 0x80 <= c < 0x800
    ensures HeadLen(Encode(c)) == 2 && DecodeHead(Encode(c)) == c
  {
    assert c == c / 0x40 * 0x40 + c % 0x40;
  }

  lemma EncodeThree(c: nat)
    requires 0x800 <= c < 0x1_0000 && IsScalar(c)
    ensures HeadLen(Encode(c)) == 3 && DecodeHead(Encode(c)) == c
  {
    var c1 := c / 0x40;
    assert c == c1 * 0x40 + c % 0x40;
    assert c1 == c1 / 0x40 * 0x40 + c1 % 0x40;
    assert 0x20 <= c1 < 0x400;
    var r := Encode(c);
    assert r[1] == 0x80 + c1 % 0x40;
    if c1 / 0x40 == 0 { assert c1 >= 0x20; assert r[1] >= 0xA0; }
    if c1 / 0x40 == 0xD { assert c1 < 0x360; assert r[1] <= 0x9F; }
  }

  lemma EncodeFour(c: nat)
    requires 0x1_0000 <= c < 0x11_0000
    ensures HeadLen(Encode(c)) == 4 && DecodeHead(Encode(c)) == c
  {
    var c1 := c / 0x40;
    var c2 := c1 / 0x40;
    assert c == c1 * 0x40 + c % 0x40;
    assert c1 == c2 * 0x40 + c1 % 0x40;
    assert c2 == c2 / 0x40 * 0x40 + c2 % 0x40;
    assert 0x10 <= c2 < 0x110;
    var r := Encode(c);
    assert r[1] == 0x80 + c2 % 0x40;
    if c2 / 0x40 == 0 { assert r[1] >= 0x90; }
    if c2 / 0x40 == 4 { assert r[1] <= 0x8F; }
  }

  /** Every well-formed sequence decodes to a scalar value whose encoding is that sequence. */
  lemma DecodeEncode(s: seq<byte>)
    requires s != [] && HeadLen(s) > 0
    ensures IsScalar(DecodeHead(s))
    ensures Encode(DecodeHead(s)) == s[..HeadLen(s)]
  {
    var n := HeadLen(s);
    if n == 2 {
      Split6(s[0] - 0xC0, Low6(s[1]));
    } else if n == 3 {
      DecodeThree(s);
    } else if n == 4 {
      DecodeFour(s);
    }
  }

  lemma DecodeThree(s: seq<byte>)
    requires s != [] && HeadLen(s) == 3
    ensures IsScalar(DecodeHead(s)) && Encode(DecodeHead(s)) == s[..3]
  {
    var q := (s[0] - 0xE0) * 0x40 + Low6(s[1]);
    Split6(q, Low6(s[2]));
    Split6(s[0] - 0xE0, Low6(s[1]));
  }

  lemma DecodeFour(s: seq<byte>)
    requires s != [] && HeadLen(s) == 4
    ensures IsScalar(DecodeHead(s)) && Encode(DecodeHead(s)) == s[..4]
  {
    var q2 := (s[0] - 0xF0) * 0x40 + Low6(s[1]);
    var q1 := q2 * 0x40 + Low6(s[2]);
    Split6(q1, Low6(s[3]));
    Split6(q2, Low6(s[2]));
    Split6(s[0] - 0xF0, Low6(s[1]));
  }

  /** The encoding of a sequence of scalar values. */
  function EncodeAll(cs: seq<nat>): seq<byte>
    requires forall k :: 0 <= k < |cs| ==> IsScalar(cs[k])
  {
    if cs == [] then [] else Encode(cs[0]) + EncodeAll(cs[1..])
  }

  /** Whatever a well-formed sequence is followed by, it is read the same way. */
  lemma HeadLenPrefix(s: seq<byte>, t: seq<byte>)
    requires s != [] && HeadLen(s) == |s|
    ensures HeadLen(s + t) == |s|
  {
    var st := s + t;
    assert forall k :: 0 <= k < |s| ==> st[k] == s[k];
  }

  /** The encoding of any text is valid UTF-8. */
  lemma {:induction false} EncodeAllValid(cs: seq<nat>)
    requires forall k :: 0 <= k < |cs| ==> IsScalar(cs[k])
    ensures Valid(EncodeAll(cs))
  {
    if cs != [] {
      var head := Encode(cs[0]);
      EncodeDecode(cs[0]);
      EncodeAllValid(cs[1..]);
      HeadLenPrefix(head, EncodeAll(cs[1..]));
      assert (head + EncodeAll(cs[1..]))[|head|..] == EncodeAll(cs[1..]);
    }
  }

  /** The scalar values a valid chunk reads as, one per well-formed sequence. */
  function DecodeAll(s: seq<byte>): (cs: seq<nat>)
    requires Valid(s)
    ensures forall k :: 0 <= k < |cs| ==> IsScalar(cs[k])
    ensures |cs| <= |s|
    decreases |s|
  {
    if s == [] then []
    else
      DecodeEncode(s);
      [DecodeHead(s)] + DecodeAll(s[HeadLen(s)..])
  }

  /** Conversely, every valid chunk is the encoding of the text it reads as. */
  lemma {:induction false} DecodeAllEncodes(s: seq<byte>)
    requires Valid(s)
    ensures EncodeAll(DecodeAll(s)) == s
    decreases |s|
  {
    if s != [] {
      var n := HeadLen(s);
      var c := DecodeHead(s);
      DecodeAllCons(s);
      calc {
        EncodeAll(DecodeAll(s));
        EncodeAll([c] + DecodeAll(s[n..]));
        { EncodeAllCons(c, DecodeAll(s[n..])); }
        Encode(c) + EncodeAll(DecodeAll(s[n..]));
        { DecodeAllEncodes(s[n..]); }
        s[..n] + s[n..];
      }
      assert s[..n] + s[n..] == s;
    }
  }

  /** Decoding takes the first character off the front. */
  lemma DecodeAllCons(s: seq<byte>)
    requires Valid(s) && s != []
    ensures IsScalar(DecodeHead(s)) && Encode(DecodeHead(s)) == s[..HeadLen(s)]
    ensures Valid(s[HeadLen(s)..]) && DecodeAll(s) == [DecodeHead(s)] + DecodeAll(s[HeadLen(s)..])
  {
    DecodeEncode(s);
  }

  /** Encoding a scalar in front of others puts its bytes in front. */
  lemma EncodeAllCons(c: nat, cs: seq<nat>)
    requires IsScalar(c) && forall k :: 0 <= k < |cs| ==> IsScalar(cs[k])
    ensures EncodeAll([c] + cs) == Encode(c) + EncodeAll(cs)
  {
    assert ([c] + cs)[1..] == cs;
  }


  /** Valid pieces make a valid whole. */
  lemma {:induction false} ValidConcat(s: seq<byte>, t: seq<byte>)
    requires Valid(s) && Valid(t)
    ensures Valid(s + t)
    decreases |s|
  {
    if s == [] {
      assert s + t == t;
    } else {
      var n := HeadLen(s);
      HeadLenPrefix(s[..n], s[n..] + t);
      assert s + t == s[..n] + (s[n..] + t);
      assert s[..n] + (s[n..] + t) == s[..n] + s[n..] + t;
      ValidConcat(s[n..], t);
      assert (s + t)[n..] == s[n..] + t;
    }
  }

  /**
   * The converse fails: a valid text cut inside a character gives two invalid
   * pieces. `é` is C3 A9.
   */
  lemma SplitCharacter()
    ensures Encode(0xE9) == [0xC3, 0xA9] && Valid([0xC3, 0xA9])
    ensures !Valid([0xC3]) && !Valid([0xA9])
  {
  }

  /** Overlong forms and encoded surrogates are rejected. */
  lemma RejectsIllFormed()
    ensures !Valid([0xC0, 0x80]) && !Valid([0xE0, 0x80, 0x80]) && !Valid([0xED, 0xA0, 0x80])
    ensures !Valid([0xF4, 0x90, 0x80, 0x80]) && !Valid([0xFF])
  {
  }
}
