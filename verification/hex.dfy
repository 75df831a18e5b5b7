/** Lower-case hexadecimal encoding of bytes, as Go's `hex.EncodeToString`
    produces it, with the decoder that inverts it. */
module Hex {
  import opened Results

  type Byte = x: int | 0 <= x < 256

  const Digits: string := "0123456789abcdef"

  predicate IsHexChar(c: char) {
    '0' <= c <= '9' || 'a' <= c <= 'f'
  }

  /** The value of one lower-case hex digit. */
  function DigitValue(c: char): (r: Option<int>)
    ensures r.Some? <==> IsHexChar(c)
    ensures r.Some? ==> 0 <= r.value < 16
  {
    if '0' <= c <= '9' then Some(c as int - '0' as int)
    else if 'a' <= c <= 'f' then Some(c as int - 'a' as int + 10)
    else None
  }

  lemma DigitRoundTrip(n: int)
    requires 0 <= n < 16
    ensures DigitValue(Digits[n]) == Some(n)
  {
  }

  function Encode(bs: seq<Byte>): (r: string)
    ensures |r| == 2 * |bs|
    ensures forall i :: 0 <= i < |r| ==> IsHexChar(r[i])
  {
    if bs == [] then ""
    else [Digits[bs[0] / 16], Digits[bs[0] % 16]] + Encode(bs[1..])
  }

  function Decode(s: string): (r: Option<seq<Byte>>)
    ensures r.Some? ==> 2 * |r.value| == |s|
    decreases |s|
  {
    if s == [] then Some([])
    else if |s| == 1 then None
    else
      var hi, lo, rest := DigitValue(s[0]), DigitValue(s[1]), Decode(s[2..]);
      if hi.Some? && lo.Some? && rest.Some? then Some([hi.value * 16 + lo.value] + rest.value)
      else None
  }

  /** The two digits of one byte decode to that byte. */
  lemma ByteRoundTrip(b: Byte)
    ensures DigitValue(Digits[b / 16]) == Some(b / 16)
    ensures DigitValue(Digits[b % 16]) == Some(b % 16)
    ensures (b / 16) * 16 + b % 16 == b
  {
    DigitRoundTrip(b / 16);
    DigitRoundTrip(b % 16);
  }

  /** Decoding a string that starts with two hex digits. */
  lemma DecodeCons(c0: char, c1: char, rest: string)
    requires IsHexChar(c0) && IsHexChar(c1) && Decode(rest).Some?
    ensures Decode([c0, c1] + rest)
         == Some([DigitValue(c0).value * 16 + DigitValue(c1).value] + Decode(rest).value)
  {
    var s := [c0, c1] + rest;
    assert s[0] == c0 && s[1] == c1 && s[2..] == rest;
  }

  /** Decoding an encoding gives back the bytes. */
  lemma {:induction false} RoundTrip(bs: seq<Byte>)
    ensures Decode(Encode(bs)) == Some(bs)
  {
    if bs != [] {
      var b := bs[0];
      assert Encode(bs) == [Digits[b / 16], Digits[b % 16]] + Encode(bs[1..]);
      RoundTrip(bs[1..]);
      ByteRoundTrip(b);
      DecodeCons(Digits[b / 16], Digits[b % 16], Encode(bs[1..]));
      assert [b] + bs[1..] == bs;
    }
  }

  /** Distinct byte strings have distinct encodings. */
  lemma EncodeInjective(a: seq<Byte>, b: seq<Byte>)
    ensures Encode(a) == Encode(b) <==> a == b
  {
    if Encode(a) == Encode(b) {
      RoundTrip(a);
      RoundTrip(b);
    }
  }
}
