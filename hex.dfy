/**
 * Byte strings and their upper-case hexadecimal rendering, as produced by
 * Go's `fmt.Sprintf("%X", bytes)`: two digits per byte, most significant
 * nibble first, no separators.
 */
module Hex {
  import opened Wrappers

  newtype byte = x: int | 0 <= x < 256

  type Bytes = seq<byte>

  const Digits: string := "0123456789ABCDEF"

  /** The upper-case digit for a nibble. */
  function Digit(v: nat): (c: char)
    requires v < 16
    ensures c in Digits
  {
    Digits[v]
  }

  /** The value of an upper-case hexadecimal digit; None for any other character. */
  function DigitValue(c: char): (r: Option<nat>)
    ensures r.Some? <==> c in Digits
    ensures r.Some? ==> r.value < 16 && Digits[r.value] == c
  {
    if '0' <= c <= '9' then Some(c as int - '0' as int)
    else if 'A' <= c <= 'F' then Some(c as int - 'A' as int + 10)
    else None
  }

  /** `%X` rendering of a byte string. */
  function HexUpper(bs: Bytes): (s: string)
    ensures |s| == 2 * |bs|
  {
    if bs == [] then ""
    else [Digit(bs[0] as int / 16), Digit(bs[0] as int % 16)] + HexUpper(bs[1..])
  }

  /** The byte whose high and low nibbles are given. */
  function Join(hi: nat, lo: nat): (b: byte)
    requires hi < 16 && lo < 16
    ensures b as int / 16 == hi && b as int % 16 == lo
  {
    (hi * 16 + lo) as byte
  }

  /** Inverse of HexUpper: None unless every character is an upper-case digit and the length is even. */
  function HexDecode(s: string): (r: Option<Bytes>)
    ensures r.Some? ==> 2 * |r.value| == |s|
    decreases |s|
  {
    if s == [] then Some([])
    else if |s| == 1 then None
    else
      var hi, lo := DigitValue(s[0]), DigitValue(s[1]);
      if hi.None? || lo.None? then None
      else
        var rest := HexDecode(s[2..]);
        if rest.None? then None else Some([Join(hi.value, lo.value)] + rest.value)
  }

  lemma DigitRoundTrip(v: nat)
    requires v < 16
    ensures DigitValue(Digit(v)) == Some(v)
  {
  }

  lemma NibblesJoin(b: byte)
    ensures Join(b as int / 16, b as int % 16) == b
  {
  }

  /** Every character of the rendering is an upper-case hexadecimal digit. */
  lemma {:induction false} HexUpperDigits(bs: Bytes)
    ensures forall i :: 0 <= i < |HexUpper(bs)| ==> HexUpper(bs)[i] in Digits
  {
    if bs != [] {
      HexUpperDigits(bs[1..]);
      var s := HexUpper(bs);
      forall i | 0 <= i < |s| ensures s[i] in Digits {
        if i >= 2 {
          assert s[i] == HexUpper(bs[1..])[i - 2];
        }
      }
    }
  }

  /** Decoding the rendering gives back the bytes. */
  lemma {:induction false} HexRoundTrip(bs: Bytes)
    ensures HexDecode(HexUpper(bs)) == Some(bs)
  {
    if bs != [] {
      var s := HexUpper(bs);
      var hi: nat, lo: nat := bs[0] as int / 16, bs[0] as int % 16;
      var c0, c1 := Digit(hi), Digit(lo);
      assert s == [c0, c1] + HexUpper(bs[1..]);
      assert s[2..] == HexUpper(bs[1..]);
      HexRoundTrip(bs[1..]);
      DigitRoundTrip(hi);
      DigitRoundTrip(lo);
      NibblesJoin(bs[0]);
      assert s[0] == c0 && s[1] == c1;
      assert HexDecode(s) == Some([Join(hi, lo)] + bs[1..]);
      assert [bs[0]] + bs[1..] == bs;
    }
  }

  /** A string that decodes is exactly the rendering of what it decodes to. */
  lemma {:induction false} HexDecodeCanonical(s: string)
    requires HexDecode(s).Some?
    ensures HexUpper(HexDecode(s).value) == s
    decreases |s|
  {
    if s != [] {
      var hi, lo := DigitValue(s[0]).value, DigitValue(s[1]).value;
      var bs := HexDecode(s).value;
      HexDecodeCanonical(s[2..]);
      assert bs[0] == Join(hi, lo);
      assert bs[1..] == HexDecode(s[2..]).value;
    }
  }
}
