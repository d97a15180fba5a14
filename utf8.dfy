/**
  UTF-8 as defined in RFC 3629 (section 3 for the bit layout, section 4 for
  the byte ranges a well-formed sequence may use). `Encode` is what Rust's
  `String::into_bytes` yields for a string, and `Decode` is `String::from_utf8`:
  it either gives back the text or fails at the index of the first byte that
  does not start a well-formed sequence (Rust's `Utf8Error::valid_up_to`).
  Dafny's `char` is a Unicode scalar value, exactly the set UTF-8 encodes.
 */
module Utf8 {
  import opened Wrappers

  type byte = b: int | 0 <= b < 256

  /** A continuation byte: 10xxxxxx. */
  predicate IsTail(b: byte) {
    0x80 <= b <= 0xBF
  }

  /** The UTF-8 sequence of one scalar value: 1 to 4 bytes, by its range. */
  function EncodeChar(c: char): (bytes: seq<byte>)
    ensures 1 <= |bytes| <= 4
  {
    var cp := c as int;
    var q1 := cp / 64;
    var q2 := q1 / 64;
    var q3 := q2 / 64;
    if cp < 0x80 then
      [cp]
    else if cp < 0x800 then
      [0xC0 + q1, 0x80 + cp % 64]
    else if cp < 0x10000 then
      [0xE0 + q2, 0x80 + q1 % 64, 0x80 + cp % 64]
    else
      [0xF0 + q3, 0x80 + q2 % 64, 0x80 + q1 % 64, 0x80 + cp % 64]
  }

  /** `String::into_bytes`: the concatenated sequences of the characters. */
  function Encode(s: string): (bytes: seq<byte>)
  {
    if s == [] then [] else EncodeChar(s[0]) + Encode(s[1..])
  }

  /**
    Reads the well-formed sequence at the start of `b`, following the
    UTF8-1 .. UTF8-4 rules of RFC 3629 section 4 (no overlong forms, no
    surrogates, nothing above U+10FFFF), and returns the character and the
    number of bytes it took; None when `b` does not start with one.
   */
  function DecodeFirst(b: seq<byte>): (r: Option<(char, nat)>)
    requires |b| > 0
    ensures r.Some? ==> 1 <= r.value.1 <= |b| && r.value.1 <= 4
    ensures r.Some? ==> b[..r.value.1] == EncodeChar(r.value.0)
  {
    var b0: int := b[0];
    if b0 < 0x80 then
      Some((b0 as char, 1))
    else if 0xC2 <= b0 <= 0xDF then
      if |b| >= 2 && IsTail(b[1]) then
        var b1: int := b[1];
        Some((((b0 - 0xC0) * 64 + (b1 - 0x80)) as char, 2))
      else None
    else if 0xE0 <= b0 <= 0xEF then
      var lo := if b0 == 0xE0 then 0xA0 else 0x80;
      var hi := if b0 == 0xED then 0x9F else 0xBF;
      if |b| >= 3 && lo <= b[1] <= hi && IsTail(b[2]) then
        var b1: int, b2: int := b[1], b[2];
        Some(((((b0 - 0xE0) * 64 + (b1 - 0x80)) * 64 + (b2 - 0x80)) as char, 3))
      else None
    else if 0xF0 <= b0 <= 0xF4 then
      var lo := if b0 == 0xF0 then 0x90 else 0x80;
      var hi := if b0 == 0xF4 then 0x8F else 0xBF;
      if |b| >= 4 && lo <= b[1] <= hi && IsTail(b[2]) && IsTail(b[3]) then
        var b1: int, b2: int, b3: int := b[1], b[2], b[3];
        Some((((((b0 - 0xF0) * 64 + (b1 - 0x80)) * 64 + (b2 - 0x80)) * 64 + (b3 - 0x80)) as char, 4))
      else None
    else
      None
  }

  /**
    `String::from_utf8`: the text `b` encodes, or the length of its longest
    well-formed prefix (`valid_up_to`) when it is not UTF-8.
   */
  function Decode(b: seq<byte>): (r: Result<string, nat>)
    decreases |b|
  {
    if b == [] then Ok([])
    else match DecodeFirst(b)
      case None => Err(0)
      case Some((c, n)) =>
        match Decode(b[n..])
        case Ok(s) => Ok([c] + s)
        case Err(k) => Err(n + k)
  }

  predicate IsUtf8(b: seq<byte>) {
    Decode(b).Ok?
  }

  /** Encoding then reading one character gives it back, whatever follows. */
  lemma DecodeFirstEncodeChar(c: char, rest: seq<byte>)
    ensures DecodeFirst(EncodeChar(c) + rest) == Some((c, |EncodeChar(c)|))
  {
    var cp := c as int;
    if cp < 0x80 {
    } else if cp < 0x800 {
      DecodeFirstTwo(c, rest);
    } else if cp < 0x10000 {
      DecodeFirstThree(c, rest);
    } else {
      DecodeFirstFour(c, rest);
    }
  }

  lemma DecodeFirstTwo(c: char, rest: seq<byte>)
    requires 0x80 <= c as int < 0x800
    ensures DecodeFirst(EncodeChar(c) + rest) == Some((c, 2))
  {
  }

  lemma DecodeFirstThree(c: char, rest: seq<byte>)
    requires 0x800 <= c as int < 0x10000
    ensures DecodeFirst(EncodeChar(c) + rest) == Some((c, 3))
  {
  }

  lemma DecodeFirstFour(c: char, rest: seq<byte>)
    requires 0x10000 <= c as int
    ensures DecodeFirst(EncodeChar(c) + rest) == Some((c, 4))
  {
  }

  /** Every string survives the trip through its bytes. */
  lemma {:induction false} DecodeEncode(s: string)
    ensures Decode(Encode(s)) == Ok(s)
  {
    if s != [] {
      var head := EncodeChar(s[0]);
      var tail := Encode(s[1..]);
      DecodeFirstEncodeChar(s[0], tail);
      assert (head + tail)[|head|..] == tail;
      DecodeEncode(s[1..]);
      assert [s[0]] + s[1..] == s;
    }
  }

  /** Bytes that decode are exactly the encoding of what they decode to. */
  lemma {:induction false} EncodeDecode(b: seq<byte>)
    requires IsUtf8(b)
    ensures Encode(Decode(b).value) == b
  {
    if b != [] {
      var first := DecodeFirst(b);
      var c, n := first.value.0, first.value.1;
      EncodeDecode(b[n..]);
      var s := Decode(b).value;
      assert s[0] == c && s[1..] == Decode(b[n..]).value;
      assert b == b[..n] + b[n..];
    }
  }

  /** The empty string is the only one with no bytes. */
  lemma EncodeEmptyIff(s: string)
    ensures Encode(s) == [] <==> s == []
  {
    if s != [] {
      assert |Encode(s)| >= |EncodeChar(s[0])| >= 1;
    }
  }

  /** A byte sequence is UTF-8 exactly when it is the encoding of some string. */
  lemma IsUtf8Iff(b: seq<byte>)
    ensures IsUtf8(b) <==> exists s :: Encode(s) == b
  {
    if IsUtf8(b) {
      EncodeDecode(b);
    }
    if s :| Encode(s) == b {
      DecodeEncode(s);
    }
  }

  /** Reading the first character looks at no byte past its own sequence. */
  lemma DecodeFirstPrefix(b: seq<byte>, b': seq<byte>)
    requires |b| > 0 && DecodeFirst(b).Some?
    requires |b'| >= DecodeFirst(b).value.1 && b'[..DecodeFirst(b).value.1] == b[..DecodeFirst(b).value.1]
    ensures DecodeFirst(b') == DecodeFirst(b)
  {
    var n := DecodeFirst(b).value.1;
    assert b'[0] == b[0];
    assert n >= 2 ==> b'[1] == b[1];
    assert n >= 3 ==> b'[2] == b[2];
    assert n >= 4 ==> b'[3] == b[3];
  }

  /**
    When decoding fails at `k`, byte `k` exists, the `k` bytes before it
    are well-formed UTF-8, and no longer prefix is: `k` is the
    `valid_up_to` of the error.
   */
  lemma {:induction false} DecodeErrorPrefix(b: seq<byte>)
    requires Decode(b).Err?
    ensures Decode(b).error < |b|
    ensures IsUtf8(b[..Decode(b).error])
    ensures forall j :: Decode(b).error < j <= |b| ==> !IsUtf8(b[..j])
  {
    var k := Decode(b).error;
    if DecodeFirst(b).Some? {
      var c, n := DecodeFirst(b).value.0, DecodeFirst(b).value.1;
      var rest := b[n..];
      DecodeErrorPrefix(rest);
      var k' := Decode(rest).error;
      assert k == n + k';
      var p := b[..k];
      assert p[..n] == b[..n];
      DecodeFirstPrefix(b, p);
      assert p[n..] == rest[..k'];
      forall j | k < j <= |b|
        ensures !IsUtf8(b[..j])
      {
        var q := b[..j];
        assert q[..n] == b[..n];
        DecodeFirstPrefix(b, q);
        assert q[n..] == rest[..j - n];
        assert !IsUtf8(rest[..j - n]);
      }
    } else {
      assert b[..k] == [];
      forall j | 0 < j <= |b|
        ensures !IsUtf8(b[..j])
      {
        var q := b[..j];
        if DecodeFirst(q).Some? {
          var n := DecodeFirst(q).value.1;
          assert b[..n] == q[..n];
          DecodeFirstPrefix(q, b);
          assert false;
        }
      }
    }
  }
}
