/** UTF-8 as Rust's `str::from_utf8` accepts it: the well-formed byte
    sequences of the Unicode standard (no overlong forms, no surrogates,
    nothing above U+10FFFF). `Decode` is the validating decoder; `Encode`
    is its partner, and the two lemmas at the end show that they are
    inverse to each other in both directions. */
module Utf8 {
  import opened Wrappers
  import opened BoundedInts

  /** A continuation byte, 10xxxxxx. */
  predicate IsContinuation(b: uint8) {
    0x80 <= b <= 0xBF
  }

  /** The bytes of one scalar value. */
  function EncodeChar(c: char): (r: seq<uint8>)
    ensures 1 <= |r| <= 4
    ensures r[0] < 0x80 <==> |r| == 1
    ensures forall i :: 1 <= i < |r| ==> IsContinuation(r[i])
  {
    var cp := c as int;
    if cp < 0x80 then
      [cp]
    else if cp < 0x800 then
      [0xC0 + cp / 0x40, 0x80 + cp % 0x40]
    else if cp < 0x1_0000 then
      [0xE0 + cp / 0x1000, 0x80 + (cp / 0x40) % 0x40, 0x80 + cp % 0x40]
    else
      [0xF0 + cp / 0x4_0000, 0x80 + (cp / 0x1000) % 0x40, 0x80 + (cp / 0x40) % 0x40, 0x80 + cp % 0x40]
  }

  /** The bytes of a whole string, scalar by scalar. */
  function Encode(s: string): (r: seq<uint8>)
    ensures |s| <= |r| <= 4 * |s|
  {
    if |s| == 0 then [] else EncodeChar(s[0]) + Encode(s[1..])
  }

  /** Decodes the scalar value at the front of `b` and says how many bytes
      it took, or `None` when the front of `b` is not well-formed. */
  function DecodeFirst(b: seq<uint8>): (r: Option<(char, nat)>)
    requires |b| > 0
    ensures r.Some? ==> 1 <= r.value.1 <= |b| && r.value.1 <= 4
  {
    var b0: int := b[0];
    if b0 < 0x80 then
      Some((b0 as char, 1))
    else if 0xC2 <= b0 <= 0xDF then
      if 2 <= |b| && IsContinuation(b[1]) then
        var b1: int := b[1];
        Some((((b0 - 0xC0) * 0x40 + (b1 - 0x80)) as char, 2))
      else None
    else if 0xE0 <= b0 <= 0xEF then
      if 3 <= |b| && IsContinuation(b[1]) && IsContinuation(b[2]) then
        var b1: int, b2: int := b[1], b[2];
        var cp := (b0 - 0xE0) * 0x1000 + (b1 - 0x80) * 0x40 + (b2 - 0x80);
        if cp < 0x800 || 0xD800 <= cp <= 0xDFFF then None
        else Some((cp as char, 3))
      else None
    else if 0xF0 <= b0 <= 0xF4 then
      if 4 <= |b| && IsContinuation(b[1]) && IsContinuation(b[2]) && IsContinuation(b[3]) then
        var b1: int, b2: int, b3: int := b[1], b[2], b[3];
        var cp := (b0 - 0xF0) * 0x4_0000 + (b1 - 0x80) * 0x1000 + (b2 - 0x80) * 0x40 + (b3 - 0x80);
        if cp < 0x1_0000 || 0x10_FFFF < cp then None
        else Some((cp as char, 4))
      else None
    else
      None
  }

  /** The validating decoder: `Some(s)` exactly when every byte of `b`
      belongs to a well-formed encoded scalar, and then `b` is the encoding
      of `s`. */
  function Decode(b: seq<uint8>): (r: Option<string>)
    ensures r.Some? ==> Encode(r.value) == b
    decreases |b|
  {
    if |b| == 0 then Some([])
    else match DecodeFirst(b)
      case None => None
      case Some((c, n)) =>
        match Decode(b[n..])
        case None => None
        case Some(rest) =>
          EncodeCharDecodeFirst(b);
          assert ([c] + rest)[1..] == rest;
          assert b == b[..n] + b[n..];
          Some([c] + rest)
  }

  predicate IsWellFormed(b: seq<uint8>) {
    Decode(b).Some?
  }

  lemma DivMod64(x: int, q: int, r: int)
    requires 0 <= r < 0x40 && x == q * 0x40 + r
    ensures x / 0x40 == q && x % 0x40 == r
  {
  }

  lemma DivMod4096(x: int, q: int, r: int)
    requires 0 <= r < 0x1000 && x == q * 0x1000 + r
    ensures x / 0x1000 == q && x % 0x1000 == r
  {
  }

  lemma DivMod262144(x: int, q: int, r: int)
    requires 0 <= r < 0x4_0000 && x == q * 0x4_0000 + r
    ensures x / 0x4_0000 == q && x % 0x4_0000 == r
  {
  }

  /** Decoding the encoding of one scalar gives it back, whatever follows. */
  lemma DecodeFirstEncodeChar(c: char, rest: seq<uint8>)
    ensures DecodeFirst(EncodeChar(c) + rest) == Some((c, |EncodeChar(c)|))
  {
    var cp := c as int;
    if cp < 0x80 {
    } else if cp < 0x800 {
      DecodeFirstTwo(c, rest);
    } else if cp < 0x1_0000 {
      DecodeFirstThree(c, rest);
    } else {
      DecodeFirstFour(c, rest);
    }
  }

  lemma DecodeFirstTwo(c: char, rest: seq<uint8>)
    requires 0x80 <= c as int < 0x800
    ensures DecodeFirst(EncodeChar(c) + rest) == Some((c, 2))
  {
    var cp := c as int;
    var hi, lo := cp / 0x40, cp % 0x40;
    assert cp == hi * 0x40 + lo;
    var b := EncodeChar(c) + rest;
    assert b[0] == 0xC0 + hi && b[1] == 0x80 + lo;
  }

  lemma DecodeFirstThree(c: char, rest: seq<uint8>)
    requires 0x800 <= c as int < 0x1_0000
    ensures DecodeFirst(EncodeChar(c) + rest) == Some((c, 3))
  {
    var cp := c as int;
    var hi, mid, lo := cp / 0x1000, (cp / 0x40) % 0x40, cp % 0x40;
    assert cp == (cp / 0x40) * 0x40 + lo;
    assert cp / 0x40 == hi * 0x40 + mid by {
      DivMod4096(cp, cp / 0x40 / 0x40, (cp / 0x40 % 0x40) * 0x40 + lo);
    }
    var b := EncodeChar(c) + rest;
    assert b[0] == 0xE0 + hi && b[1] == 0x80 + mid && b[2] == 0x80 + lo;
    assert (hi * 0x1000 + mid * 0x40 + lo) == cp;
  }

  lemma DecodeFirstFour(c: char, rest: seq<uint8>)
    requires 0x1_0000 <= c as int
    ensures DecodeFirst(EncodeChar(c) + rest) == Some((c, 4))
  {
    var cp := c as int;
    var q1 := cp / 0x40;
    var q2 := q1 / 0x40;
    var top, hi, mid, lo := q2 / 0x40, q2 % 0x40, q1 % 0x40, cp % 0x40;
    assert cp == q1 * 0x40 + lo;
    assert q1 == q2 * 0x40 + mid;
    assert q2 == top * 0x40 + hi;
    assert cp == top * 0x4_0000 + hi * 0x1000 + mid * 0x40 + lo;
    DivMod4096(cp, q2, mid * 0x40 + lo);
    DivMod262144(cp, top, hi * 0x1000 + mid * 0x40 + lo);
    var b := EncodeChar(c) + rest;
    assert b[0] == 0xF0 + top && b[1] == 0x80 + hi && b[2] == 0x80 + mid && b[3] == 0x80 + lo;
  }

  /** A well-formed front is the encoding of the scalar it decodes to. */
  lemma EncodeCharDecodeFirst(b: seq<uint8>)
    requires |b| > 0 && DecodeFirst(b).Some?
    ensures EncodeChar(DecodeFirst(b).value.0) == b[..DecodeFirst(b).value.1]
  {
    var b0: int := b[0];
    var c := DecodeFirst(b).value.0;
    var cp := c as int;
    if b0 < 0x80 {
    } else if 0xC2 <= b0 <= 0xDF {
      var b1: int := b[1];
      DivMod64(cp, b0 - 0xC0, b1 - 0x80);
    } else if 0xE0 <= b0 <= 0xEF {
      var b1: int, b2: int := b[1], b[2];
      DivMod64(cp, (b0 - 0xE0) * 0x40 + (b1 - 0x80), b2 - 0x80);
      DivMod64(cp / 0x40, b0 - 0xE0, b1 - 0x80);
      DivMod4096(cp, b0 - 0xE0, (b1 - 0x80) * 0x40 + (b2 - 0x80));
    } else {
      var b1: int, b2: int, b3: int := b[1], b[2], b[3];
      DivMod64(cp, (b0 - 0xF0) * 0x1000 + (b1 - 0x80) * 0x40 + (b2 - 0x80), b3 - 0x80);
      DivMod64(cp / 0x40, (b0 - 0xF0) * 0x40 + (b1 - 0x80), b2 - 0x80);
      DivMod4096(cp, (b0 - 0xF0) * 0x40 + (b1 - 0x80), (b2 - 0x80) * 0x40 + (b3 - 0x80));
      DivMod64(cp / 0x1000, b0 - 0xF0, b1 - 0x80);
      DivMod262144(cp, b0 - 0xF0, (b1 - 0x80) * 0x1000 + (b2 - 0x80) * 0x40 + (b3 - 0x80));
    }
  }

  /** Every string survives a trip through its bytes. */
  lemma {:induction false} DecodeEncode(s: string)
    ensures Decode(Encode(s)) == Some(s)
  {
    if |s| > 0 {
      var e := EncodeChar(s[0]);
      DecodeFirstEncodeChar(s[0], Encode(s[1..]));
      assert (e + Encode(s[1..]))[|e|..] == Encode(s[1..]);
      DecodeEncode(s[1..]);
      assert [s[0]] + s[1..] == s;
    }
  }

  /** A non-empty byte sequence decodes to its front scalar followed by
      the decoding of the rest. */
  lemma DecodeCons(b: seq<uint8>)
    requires |b| > 0 && Decode(b).Some?
    ensures DecodeFirst(b).Some?
    ensures Decode(b[DecodeFirst(b).value.1..]).Some?
    ensures Decode(b).value == [DecodeFirst(b).value.0] + Decode(b[DecodeFirst(b).value.1..]).value
  {
  }

  /** Every byte sequence the decoder accepts is exactly the encoding of
      what it decodes to: `Decode` rejects everything `Encode` cannot
      produce. */
  lemma {:induction false} EncodeDecode(b: seq<uint8>)
    requires Decode(b).Some?
    ensures Encode(Decode(b).value) == b
    decreases |b|
  {
    if |b| > 0 {
      DecodeCons(b);
      var (c, n) := DecodeFirst(b).value;
      var rest := Decode(b[n..]).value;
      EncodeCharDecodeFirst(b);
      EncodeDecode(b[n..]);
      var s := Decode(b).value;
      assert s == [c] + rest;
      assert s[0] == c && s[1..] == rest;
      assert Encode(s) == EncodeChar(c) + Encode(rest);
      assert b == b[..n] + b[n..];
    }
  }
}
