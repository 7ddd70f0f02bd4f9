/** Strict UTF-8, as `std::str::from_utf8` checks it: no overlong form, no
    surrogate, nothing above U+10FFFF. Dafny's `char` is a Unicode scalar value,
    so `string` is exactly what a Rust `str` denotes. */
module Utf8 {
  import opened Wrappers

  function EncodeChar(c: char): (bs: seq<byte>)
    ensures 1 <= |bs| <= 4
  {
    var v := c as int;
    if v < 0x80 then [v]
    else if v < 0x800 then [0xC0 + v / 64, 0x80 + v % 64]
    else if v < 0x1_0000 then [0xE0 + v / 64 / 64, 0x80 + v / 64 % 64, 0x80 + v % 64]
    else [0xF0 + v / 64 / 64 / 64, 0x80 + v / 64 / 64 % 64, 0x80 + v / 64 % 64, 0x80 + v % 64]
  }

  predicate IsContinuation(b: byte) { 0x80 <= b < 0xC0 }

  /** Six more bits below `high`. */
  function Extend(high: int, b: byte): int { high * 64 + (b - 0x80) }

  function Lead(b: byte, base: int): int { b - base }

  predicate IsScalar(v: int) { 0 <= v < 0xD800 || 0xE000 <= v < 0x11_0000 }

  /** The scalar value at the front of `bs` and the number of bytes it takes:
      a form is refused when a shorter one exists or its value is no scalar. */
  function DecodeChar(bs: seq<byte>): (r: Option<(char, nat)>)
    ensures r.Some? ==> 1 <= r.value.1 <= |bs|
  {
    if |bs| == 0 then None
    else if bs[0] < 0x80 then Some((bs[0] as char, 1))
    else if |bs| < 2 || !IsContinuation(bs[1]) then None
    else if 0xC0 <= bs[0] < 0xE0 then
      var v := Extend(Lead(bs[0], 0xC0), bs[1]);
      if 0x80 <= v then Some((v as char, 2)) else None
    else if |bs| < 3 || !IsContinuation(bs[2]) then None
    else if 0xE0 <= bs[0] < 0xF0 then
      var v := Extend(Extend(Lead(bs[0], 0xE0), bs[1]), bs[2]);
      if 0x800 <= v && IsScalar(v) then Some((v as char, 3)) else None
    else if |bs| < 4 || !IsContinuation(bs[3]) then None
    else if 0xF0 <= bs[0] < 0xF8 then
      var v := Extend(Extend(Extend(Lead(bs[0], 0xF0), bs[1]), bs[2]), bs[3]);
      if 0x1_0000 <= v && IsScalar(v) then Some((v as char, 4)) else None
    else None
  }

  function Encode(s: string): (bs: seq<byte>)
  {
    if s == "" then [] else EncodeChar(s[0]) + Encode(s[1..])
  }

  function Decode(bs: seq<byte>): (r: Option<string>)
    decreases |bs|
  {
    if bs == [] then Some("")
    else
      match DecodeChar(bs)
      case None => None
      case Some((c, n)) =>
        match Decode(bs[n..])
        case None => None
        case Some(rest) => Some([c] + rest)
  }

  lemma ExtendSplit(v: nat)
    ensures Extend(v / 64, 0x80 + v % 64) == v
    ensures IsContinuation(0x80 + v % 64)
  {}

  lemma SplitExtend(high: nat, b: byte)
    requires IsContinuation(b)
    ensures 0 <= Extend(high, b)
    ensures Extend(high, b) / 64 == high && 0x80 + Extend(high, b) % 64 == b
  {}

  lemma DecodeEncodeChar(c: char, rest: seq<byte>)
    ensures DecodeChar(EncodeChar(c) + rest) == Some((c, |EncodeChar(c)|))
  {
    var v := c as int;
    ExtendSplit(v);
    ExtendSplit(v / 64);
    ExtendSplit(v / 64 / 64);
    DecodeChars(EncodeChar(c), rest);
  }

  /** Decoding looks no further than the bytes it consumes. */
  lemma DecodeChars(bs: seq<byte>, rest: seq<byte>)
    requires DecodeChar(bs).Some?
    ensures DecodeChar(bs + rest) == DecodeChar(bs)
  {}

  lemma EncodeDecodeChar(bs: seq<byte>)
    requires DecodeChar(bs).Some?
    ensures EncodeChar(DecodeChar(bs).value.0) == bs[..DecodeChar(bs).value.1]
  {
    var (c, n) := DecodeChar(bs).value;
    if n == 1 {
    } else if n == 2 {
      SplitExtend(Lead(bs[0], 0xC0), bs[1]);
    } else if n == 3 {
      SplitExtend(Lead(bs[0], 0xE0), bs[1]);
      SplitExtend(Extend(Lead(bs[0], 0xE0), bs[1]), bs[2]);
    } else {
      SplitExtend(Lead(bs[0], 0xF0), bs[1]);
      SplitExtend(Extend(Lead(bs[0], 0xF0), bs[1]), bs[2]);
      SplitExtend(Extend(Extend(Lead(bs[0], 0xF0), bs[1]), bs[2]), bs[3]);
    }
  }

  /** Every text decodes to itself. */
  lemma {:induction false} DecodeEncode(s: string)
    ensures Decode(Encode(s)) == Some(s)
  {
    if s != "" {
      DecodeEncodeChar(s[0], Encode(s[1..]));
      var bs, n := Encode(s), |EncodeChar(s[0])|;
      assert bs[n..] == Encode(s[1..]);
      DecodeEncode(s[1..]);
      assert [s[0]] + s[1..] == s;
    }
  }

  /** A valid byte string is the encoding of its text, byte for byte. */
  lemma {:induction false} EncodeDecode(bs: seq<byte>)
    requires Decode(bs).Some?
    ensures Encode(Decode(bs).value) == bs
    decreases |bs|
  {
    if bs != [] {
      var (c, n) := DecodeChar(bs).value;
      EncodeDecodeChar(bs);
      EncodeDecode(bs[n..]);
      EncodeCons(c, Decode(bs[n..]).value);
      Halves(bs, n);
    }
  }

  lemma Halves(bs: seq<byte>, n: nat)
    requires n <= |bs|
    ensures bs[..n] + bs[n..] == bs
  {}

  lemma EncodeCons(c: char, s: string)
    ensures Encode([c] + s) == EncodeChar(c) + Encode(s)
  {
    assert ([c] + s)[1..] == s;
  }
}
