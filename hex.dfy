/** Base16 (section 8 of RFC 4648) as the buffer uses it: `bytes.hex()` and `hex()` render
    lowercase digits, `bytes.fromhex` reads digits of either case. */
module Hex {
  import opened Base

  predicate IsHexDigit(c: char) {
    '0' <= c <= '9' || 'a' <= c <= 'f' || 'A' <= c <= 'F'
  }

  predicate IsLowerHexDigit(c: char) {
    '0' <= c <= '9' || 'a' <= c <= 'f'
  }

  /** The whitespace `bytes.fromhex` skips between digit pairs (ASCII space, \t, \n, \v, \f, \r). */
  predicate IsAsciiSpace(c: char) {
    c == ' ' || 9 <= c as int <= 13
  }

  /** `str.lower()` restricted to ASCII. */
  function LowerChar(c: char): (l: char)
    ensures IsHexDigit(c) ==> IsLowerHexDigit(l)
    ensures IsLowerHexDigit(c) ==> l == c
  {
    if 'A' <= c <= 'Z' then (c as int + 32) as char else c
  }

  function Lower(s: string): (r: string)
    ensures |r| == |s|
    ensures forall i :: 0 <= i < |s| ==> r[i] == LowerChar(s[i])
  {
    seq(|s|, i requires 0 <= i < |s| => LowerChar(s[i]))
  }

  /** The lowercase digit for a value below 16. */
  function HexDigit(d: int): (c: char)
    requires 0 <= d < 16
    ensures IsLowerHexDigit(c)
  {
    if d < 10 then ('0' as int + d) as char else ('a' as int + d - 10) as char
  }

  /** The value of a digit of either case; rendering it again gives its lowercase form. */
  function DigitValue(c: char): (d: int)
    requires IsHexDigit(c)
    ensures 0 <= d < 16
    ensures HexDigit(d) == LowerChar(c)
  {
    if c <= '9' then c as int - '0' as int
    else if c >= 'a' then c as int - 'a' as int + 10
    else c as int - 'A' as int + 10
  }

  /** The two digits `bytes.hex()` writes for one byte. */
  function ByteHex(b: byte): (r: string)
    ensures |r| == 2 && IsLowerHexDigit(r[0]) && IsLowerHexDigit(r[1])
    ensures DigitValue(r[0]) * 16 + DigitValue(r[1]) == b
  {
    [HexDigit(b / 16), HexDigit(b % 16)]
  }

  /** `bytes.hex()`: two lowercase digits per byte, in order. */
  function ToHex(s: seq<byte>): (r: string)
    ensures |r| == 2 * |s|
  {
    if s == [] then "" else ByteHex(s[0]) + ToHex(s[1..])
  }

  /** Byte k of the input is rendered as characters 2k and 2k+1, all lowercase digits. */
  lemma {:induction false} ToHexAt(s: seq<byte>)
    ensures forall k :: 0 <= k < |s| ==> ToHex(s)[2 * k..2 * k + 2] == ByteHex(s[k])
    ensures forall i :: 0 <= i < 2 * |s| ==> IsLowerHexDigit(ToHex(s)[i])
    decreases |s|
  {
    if s != [] {
      ToHexAt(s[1..]);
      var r, t := ToHex(s), ToHex(s[1..]);
      assert r == ByteHex(s[0]) + t;
      forall k | 0 <= k < |s| ensures r[2 * k..2 * k + 2] == ByteHex(s[k]) {
        if k > 0 {
          assert r[2 * k..2 * k + 2] == t[2 * (k - 1)..2 * (k - 1) + 2];
        }
      }
      forall i | 0 <= i < 2 * |s| ensures IsLowerHexDigit(r[i]) {
        if i >= 2 { assert r[i] == t[i - 2]; }
      }
    }
  }

  /** The digits after `0x` in `hex(v)`: no leading zeros, "0" for zero. */
  function HexDigits(v: nat): (r: string)
    ensures 1 <= |r|
    decreases v
  {
    if v < 16 then [HexDigit(v)] else HexDigits(v / 16) + [HexDigit(v % 16)]
  }

  /** `str.zfill(w)` on a string without a sign: pad with '0' on the left up to width w. */
  function ZFill(s: string, w: nat): (r: string)
    ensures |r| == if |s| >= w then |s| else w
    ensures r[|r| - |s|..] == s
    ensures forall i :: 0 <= i < |r| - |s| ==> r[i] == '0'
  {
    if |s| >= w then s else seq(w - |s|, i => '0') + s
  }

  /** One entry of `hexList`, `hex(v).split('x')[1].zfill(2)`, is the pair `bytes.hex()` writes. */
  lemma HexListEntry(b: byte)
    ensures ZFill(HexDigits(b), 2) == ByteHex(b)
  {
    if b >= 16 {
      assert HexDigits(b / 16) == [HexDigit(b / 16)];
    }
  }

  /** `bytes.fromhex(s)` as CPython 3.7 and later reads it: ASCII whitespace may stand before a
      digit pair, each pair is two digits of either case, and anything else is a ValueError. */
  function FromHex(s: string): (r: Option<seq<byte>>)
    ensures r.Some? ==> 2 * |r.value| <= |s|
    decreases |s|
  {
    if s == [] then Some([])
    else if IsAsciiSpace(s[0]) then FromHex(s[1..])
    else if |s| >= 2 && IsHexDigit(s[0]) && IsHexDigit(s[1]) then
      match FromHex(s[2..])
      case None => None
      case Some(rest) =>
        var b: byte := DigitValue(s[0]) * 16 + DigitValue(s[1]);
        Some([b] + rest)
    else None
  }

  /** Even-length text made of hex digits only, the domain of the round trip. */
  predicate IsHexText(h: string) {
    |h| % 2 == 0 && forall i :: 0 <= i < |h| ==> IsHexDigit(h[i])
  }

  /** Decoding what `bytes.hex()` wrote gives the bytes back. */
  lemma {:induction false} FromHexToHex(b: seq<byte>)
    ensures FromHex(ToHex(b)) == Some(b)
    decreases |b|
  {
    if b != [] {
      var s := ToHex(b);
      assert s == ByteHex(b[0]) + ToHex(b[1..]);
      assert s[2..] == ToHex(b[1..]);
      FromHexToHex(b[1..]);
      assert [b[0]] + b[1..] == b;
    }
  }

  /** Hex text decodes, and rendering the bytes again gives the text in lowercase. */
  lemma {:induction false} HexTextRoundTrip(h: string)
    requires IsHexText(h)
    ensures FromHex(h).Some? && |FromHex(h).value| * 2 == |h|
    ensures ToHex(FromHex(h).value) == Lower(h)
    decreases |h|
  {
    if h != [] {
      var t := h[2..];
      assert IsHexText(t) by {
        forall i | 0 <= i < |t| ensures IsHexDigit(t[i]) { assert t[i] == h[i + 2]; }
      }
      HexTextRoundTrip(t);
      RoundTripStep(h);
    }
  }

  /** The inductive step of HexTextRoundTrip: one more leading digit pair. */
  lemma RoundTripStep(h: string)
    requires |h| >= 2 && IsHexDigit(h[0]) && IsHexDigit(h[1])
    requires FromHex(h[2..]).Some? && ToHex(FromHex(h[2..]).value) == Lower(h[2..])
    ensures FromHex(h).Some? && |FromHex(h).value| == |FromHex(h[2..]).value| + 1
    ensures ToHex(FromHex(h).value) == Lower(h)
  {
    var rest := FromHex(h[2..]).value;
    PairHex(h[0], h[1]);
    var b: byte := DigitValue(h[0]) * 16 + DigitValue(h[1]);
    FromHexPair(h);
    assert FromHex(h).value == [b] + rest;
    calc {
      ToHex([b] + rest);
      { ToHexCons(b, rest); }
      ByteHex(b) + ToHex(rest);
      [LowerChar(h[0]), LowerChar(h[1])] + Lower(h[2..]);
      { LowerSplit(h); }
      Lower(h);
    }
  }

  /** A digit pair read by `fromhex` is rendered back as the same pair in lowercase. */
  lemma PairHex(hi: char, lo: char)
    requires IsHexDigit(hi) && IsHexDigit(lo)
    ensures IsByte(DigitValue(hi) * 16 + DigitValue(lo))
    ensures ByteHex(DigitValue(hi) * 16 + DigitValue(lo)) == [LowerChar(hi), LowerChar(lo)]
  {
    var d, e := DigitValue(hi), DigitValue(lo);
    var b := d * 16 + e;
    assert b / 16 == d && b % 16 == e;
  }

  lemma FromHexPair(h: string)
    requires |h| >= 2 && IsHexDigit(h[0]) && IsHexDigit(h[1]) && FromHex(h[2..]).Some?
    ensures IsByte(DigitValue(h[0]) * 16 + DigitValue(h[1]))
    ensures FromHex(h) == Some([DigitValue(h[0]) * 16 + DigitValue(h[1])] + FromHex(h[2..]).value)
  {
    assert !IsAsciiSpace(h[0]);
  }

  lemma ToHexCons(b: byte, rest: seq<byte>)
    ensures ToHex([b] + rest) == ByteHex(b) + ToHex(rest)
  {
    assert ([b] + rest)[1..] == rest;
  }

  lemma LowerSplit(h: string)
    requires |h| >= 2
    ensures Lower(h) == [LowerChar(h[0]), LowerChar(h[1])] + Lower(h[2..])
  {
  }

  /** Hex digits of odd count are refused. */
  lemma {:induction false} OddHexTextFails(h: string)
    requires |h| % 2 == 1
    requires forall i :: 0 <= i < |h| ==> IsHexDigit(h[i])
    ensures FromHex(h) == None
    decreases |h|
  {
    if |h| > 1 {
      var t := h[2..];
      forall i | 0 <= i < |t| ensures IsHexDigit(t[i]) { assert t[i] == h[i + 2]; }
      OddHexTextFails(t);
    }
  }
}
