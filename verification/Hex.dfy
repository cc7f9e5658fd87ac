/** Hexadecimal text for byte strings. */
module Hex {
  import opened Wrappers
  import opened Gf256
  import Text

  const DIGITS := "0123456789abcdef"

  function DigitValue(c: char): (n: Option<nat>)
    ensures n.Some? ==> n.value < 16 && DIGITS[n.value] == Text.LowerChar(c)
  {
    if '0' <= c <= '9' then Some(c as int - '0' as int)
    else if 'a' <= c <= 'f' then Some(c as int - 'a' as int + 10)
    else if 'A' <= c <= 'F' then Some(c as int - 'A' as int + 10)
    else None
  }

  function Encode(bs: seq<Byte>): (s: string)
    ensures |s| == 2 * |bs|
  {
    if bs == [] then [] else
      var n := Value(bs[0]);
      [DIGITS[n / 16], DIGITS[n % 16]] + Encode(bs[1..])
  }

  /** Nothing for text of odd length or with a character that is no digit. */
  function Decode(s: string): (r: Option<seq<Byte>>)
    ensures r.Some? ==> |s| == 2 * |r.value|
  {
    if s == [] then Some([])
    else if |s| == 1 then None
    else
      var high := DigitValue(s[0]);
      var low := DigitValue(s[1]);
      var rest := Decode(s[2..]);
      if high.Some? && low.Some? && rest.Some?
      then Some([OfNat(16 * high.value + low.value)] + rest.value)
      else None
  }

  predicate IsDigit(c: char) { '0' <= c <= '9' || 'a' <= c <= 'f' || 'A' <= c <= 'F' }

  predicate IsHex(s: string) { |s| % 2 == 0 && forall i :: 0 <= i < |s| ==> IsDigit(s[i]) }

  /** Exactly the texts of even length with digits only decode. */
  lemma {:induction false} DecodesExactlyWhen(s: string)
    ensures Decode(s).Some? <==> IsHex(s)
  {
    hide Value, OfNat;
    if |s| >= 2 {
      DecodesExactlyWhen(s[2..]);
      HexStep(s);
    }
  }

  lemma HexStep(s: string)
    requires |s| >= 2
    ensures IsHex(s) <==> IsDigit(s[0]) && IsDigit(s[1]) && IsHex(s[2..])
  {
    hide IsDigit;
    assert s == [s[0], s[1]] + s[2..];
  }

  lemma DigitRoundTrip(n: nat)
    requires n < 16
    ensures DigitValue(DIGITS[n]) == Some(n)
  {
  }

  lemma ByteRoundTrip(a: Byte)
    ensures var n := Value(a);
            && DigitValue(DIGITS[n / 16]) == Some(n / 16)
            && DigitValue(DIGITS[n % 16]) == Some(n % 16)
            && OfNat(16 * (n / 16) + n % 16) == a
  {
    hide DigitValue, Value, OfNat;
    var n := Value(a);
    DigitRoundTrip(n / 16);
    DigitRoundTrip(n % 16);
    assert 16 * (n / 16) + n % 16 == n;
    ValueOfNat(n);
    ValueInjective(OfNat(n), a);
  }

  lemma {:induction false} DecodeEncode(bs: seq<Byte>)
    ensures Decode(Encode(bs)) == Some(bs)
  {
    hide DigitValue, Value, OfNat;
    if bs != [] {
      ByteRoundTrip(bs[0]);
      DecodeEncode(bs[1..]);
      var s := Encode(bs);
      var n := Value(bs[0]);
      assert bs == [bs[0]] + bs[1..];
      assert s[0] == DIGITS[n / 16] && s[1] == DIGITS[n % 16] && s[2..] == Encode(bs[1..]);
    }
  }

  lemma {:induction false} EncodeDecode(s: string)
    requires Decode(s).Some?
    ensures Encode(Decode(s).value) == Text.Lower(s)
  {
    hide DigitValue, Value, OfNat;
    if s != [] {
      EncodeDecode(s[2..]);
      var (high, low) := (DigitValue(s[0]).value, DigitValue(s[1]).value);
      assert Decode(s).value[1..] == Decode(s[2..]).value;
      Quotients(high, low);
      ValueOfNat(16 * high + low);
      assert Text.Lower(s) == [Text.LowerChar(s[0]), Text.LowerChar(s[1])] + Text.Lower(s[2..]);
    }
  }

  lemma Quotients(high: nat, low: nat)
    requires low < 16
    ensures (16 * high + low) / 16 == high && (16 * high + low) % 16 == low
  {
  }
}
