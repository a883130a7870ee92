/**
 * UTF-8, as Rust's `char::encode_utf8` writes it and `String::from_utf8`
 * accepts it: shortest form only, no surrogates, nothing above U+10FFFF
 * (the well-formed byte sequences of table 3-7 of the Unicode Standard).
 */
module Utf8 {
  import opened Wrappers

  type Byte = b: int | 0 <= b < 0x100

  /** `char::encode_utf8`: one to four bytes, the first saying how many follow. */
  function EncodeChar(c: char): (r: seq<Byte>)
    ensures 1 <= |r| <= 4
    ensures |r| == 1 <==> c as int < 0x80
    ensures forall k :: 1 <= k < |r| ==> IsContinuation(r[k])
  {
    var cp := c as int;
    if cp < 0x80 then [cp]
    else if cp < 0x800 then [0xC0 + cp / 0x40, 0x80 + cp % 0x40]
    else if cp < 0x10000 then [0xE0 + cp / 0x1000, 0x80 + cp / 0x40 % 0x40, 0x80 + cp % 0x40]
    else [0xF0 + cp / 0x40000, 0x80 + cp / 0x1000 % 0x40, 0x80 + cp / 0x40 % 0x40, 0x80 + cp % 0x40]
  }

  /** The UTF-8 form of a whole string: the characters' encodings one after another. */
  function EncodeString(s: string): seq<Byte>
  {
    if s == [] then [] else EncodeChar(s[0]) + EncodeString(s[1..])
  }

  predicate IsContinuation(b: Byte)
  {
    0x80 <= b < 0xC0
  }

  /**
   * The first character of `b` and the number of bytes it takes, or `None`
   * when `b` does not start with a well-formed UTF-8 sequence.
   */
  function DecodeFirst(b: seq<Byte>): (r: Option<(char, nat)>)
    requires b != []
    ensures r.Some? ==> 1 <= r.value.1 <= |b|
  {
    var b0 := b[0] as int;
    if b0 < 0x80 then
      Some((b0 as char, 1))
    else if 0xC2 <= b0 < 0xE0 then
      if |b| >= 2 && IsContinuation(b[1]) then
        Some((Scalar2(b0, b[1]) as char, 2))
      else None
    else if 0xE0 <= b0 < 0xF0 then
      if |b| >= 3 && IsContinuation(b[1]) && IsContinuation(b[2]) then
        var cp := Scalar3(b0, b[1], b[2]);
        if cp < 0x800 || 0xD800 <= cp < 0xE000 then None else Some((cp as char, 3))
      else None
    else if 0xF0 <= b0 < 0xF5 then
      if |b| >= 4 && IsContinuation(b[1]) && IsContinuation(b[2]) && IsContinuation(b[3]) then
        var cp := Scalar4(b0, b[1], b[2], b[3]);
        if cp < 0x10000 || cp >= 0x110000 then None else Some((cp as char, 4))
      else None
    else
      None
  }

  /** The scalar value carried by a lead byte and its continuation bytes. */
  function Scalar2(b0: int, b1: int): int
  {
    (b0 - 0xC0) * 0x40 + (b1 - 0x80)
  }

  function Scalar3(b0: int, b1: int, b2: int): int
  {
    (b0 - 0xE0) * 0x1000 + (b1 - 0x80) * 0x40 + (b2 - 0x80)
  }

  function Scalar4(b0: int, b1: int, b2: int, b3: int): int
  {
    (b0 - 0xF0) * 0x40000 + (b1 - 0x80) * 0x1000 + (b2 - 0x80) * 0x40 + (b3 - 0x80)
  }

  lemma DivMod64(q: int, r: int)
    requires 0 <= r < 0x40
    ensures (q * 0x40 + r) / 0x40 == q && (q * 0x40 + r) % 0x40 == r
  {
  }

  lemma NestedDiv(x: int)
    requires x >= 0
    ensures x / 0x1000 == x / 0x40 / 0x40
    ensures x / 0x40000 == x / 0x40 / 0x40 / 0x40
  {
  }

  /** What `DecodeFirst` accepts is the encoding of the character it returns. */
  lemma DecodeFirstSound(b: seq<Byte>)
    requires b != [] && DecodeFirst(b).Some?
    ensures b[..DecodeFirst(b).value.1] == EncodeChar(DecodeFirst(b).value.0)
  {
    var (c, n) := DecodeFirst(b).value;
    var cp := c as int;
    var b0: int := b[0];
    if n == 2 {
      var b1: int := b[1];
      DivMod64(b0 - 0xC0, b1 - 0x80);
    } else if n == 3 {
      var b1: int, b2: int := b[1], b[2];
      var hi := (b0 - 0xE0) * 0x40 + (b1 - 0x80);
      assert cp == hi * 0x40 + (b2 - 0x80);
      DivMod64(hi, b2 - 0x80);
      DivMod64(b0 - 0xE0, b1 - 0x80);
      NestedDiv(cp);
    } else if n == 4 {
      var b1: int, b2: int, b3: int := b[1], b[2], b[3];
      var top := (b0 - 0xF0) * 0x40 + (b1 - 0x80);
      var hi := top * 0x40 + (b2 - 0x80);
      assert cp == hi * 0x40 + (b3 - 0x80);
      DivMod64(hi, b3 - 0x80);
      DivMod64(top, b2 - 0x80);
      DivMod64(b0 - 0xF0, b1 - 0x80);
      NestedDiv(cp);
    }
  }

  /** `String::from_utf8`: the characters `b` encodes, or `None` when `b` is not valid UTF-8. */
  function Decode(b: seq<Byte>): (r: Option<string>)
    decreases |b|
    ensures r.Some? ==> EncodeString(r.value) == b
  {
    if b == [] then Some([])
    else match DecodeFirst(b)
      case None => None
      case Some((c, n)) =>
        match Decode(b[n..])
        case None => None
        case Some(rest) =>
          DecodeFirstSound(b);
          assert ([c] + rest)[1..] == rest;
          assert b == b[..n] + b[n..];
          Some([c] + rest)
  }

  /** The decoder reads back exactly the character the encoder wrote. */
  lemma DecodeFirstEncodeChar(c: char, rest: seq<Byte>)
    ensures DecodeFirst(EncodeChar(c) + rest) == Some((c, |EncodeChar(c)|))
  {
    var e := EncodeChar(c);
    var b := e + rest;
    var cp := c as int;
    assert b[..|e|] == e;
    if cp < 0x80 {
    } else if cp < 0x800 {
      assert Scalar2(b[0], b[1]) == cp;
    } else if cp < 0x10000 {
      NestedDiv(cp);
      assert Scalar3(b[0], b[1], b[2]) == cp;
    } else {
      NestedDiv(cp);
      assert Scalar4(b[0], b[1], b[2], b[3]) == cp;
    }
  }

  /** Every string's encoding is valid UTF-8 and decodes to that string. */
  lemma {:induction false} DecodeEncode(s: string)
    ensures Decode(EncodeString(s)) == Some(s)
  {
    if s != [] {
      var e := EncodeChar(s[0]);
      var rest := EncodeString(s[1..]);
      DecodeFirstEncodeChar(s[0], rest);
      assert (e + rest)[|e|..] == rest;
      DecodeEncode(s[1..]);
      assert [s[0]] + s[1..] == s;
    }
  }

  /** `String::from_utf8` succeeds exactly on the byte sequences that encode some string. */
  lemma DecodeSucceedsIff(b: seq<Byte>)
    ensures Decode(b).Some? <==> exists s :: EncodeString(s) == b
  {
    if exists s :: EncodeString(s) == b {
      var s :| EncodeString(s) == b;
      DecodeEncode(s);
    }
  }
}
