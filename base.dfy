/** Byte values, outcomes and Python's slice arithmetic, shared by the buffer model. */
module Base {

  /** One element of a `bytearray`: assigning anything outside 0..255 raises ValueError. */
  type byte = x: int | 0 <= x < 256

  predicate IsByte(x: int) {
    0 <= x < 256
  }

  predicate AllBytes(s: seq<int>) {
    forall j :: 0 <= j < |s| ==> IsByte(s[j])
  }

  function Min(a: int, b: int): int {
    if a <= b then a else b
  }

  datatype Option<T> = None | Some(value: T)

  /** The Python exceptions the buffer's operations raise. */
  datatype Error =
    | TypeError          // a value of a shape `__settle` does not accept, or a str where an int is needed
    | ValueError         // malformed hex text, a negative size, a value outside 0..255, a needle not found
    | IndexError         // an index past the end of the buffer or of the content being written
    | ZeroDivisionError  // `fill` with an empty pattern
    | CodecError         // the text codec refused the text or the bytes

  datatype Result<T> = Ok(value: T) | Err(error: Error)

  /** A zero-initialised `bytearray(n)`. */
  function Zeros(n: nat): (r: seq<byte>)
    ensures |r| == n
    ensures forall i :: 0 <= i < n ==> r[i] == 0
  {
    seq(n, i => 0)
  }

  /** How Python normalises one bound of a slice of a sequence of length n:
      a negative bound counts from the end, and the result is clipped to [0, n]. */
  function Clamp(i: int, n: nat): (r: nat)
    ensures r <= n
    ensures 0 <= i <= n ==> r == i
    ensures 0 <= n + i && i < 0 ==> r == n + i
    ensures n + i < 0 ==> r == 0
    ensures i > n ==> r == n
  {
    if i < 0 then (if n + i < 0 then 0 else n + i) else if i > n then n else i
  }

  /** Python's `s[start:stop]` with step 1. */
  function PySlice<T>(s: seq<T>, start: int, stop: int): (r: seq<T>)
    ensures |r| <= |s|
    ensures 0 <= start <= stop <= |s| ==> r == s[start..stop]
    ensures 0 <= stop <= start ==> r == []
    ensures 0 <= start && |s| <= stop ==> r == s[Min(start, |s|)..]
  {
    var a, b := Clamp(start, |s|), Clamp(stop, |s|);
    if a <= b then s[a..b] else []
  }

  /** `bytearray.count(0)`. */
  function ZeroCount(s: seq<byte>): nat {
    if s == [] then 0 else (if s[0] == 0 then 1 else 0) + ZeroCount(s[1..])
  }

  /** The number of bytes that are not zero, counted on their own. */
  function NonZeroCount(s: seq<byte>): nat {
    if s == [] then 0 else NonZeroCount(s[..|s| - 1]) + (if s[|s| - 1] != 0 then 1 else 0)
  }

  lemma {:induction false} NonZeroCountLast(s: seq<byte>, b: byte)
    ensures NonZeroCount(s + [b]) == NonZeroCount(s) + (if b != 0 then 1 else 0)
  {
    assert (s + [b])[..|s + [b]| - 1] == s;
  }

  /** Removing the zero bytes leaves the non-zero ones: len - count(0) is the non-zero count. */
  lemma {:induction false} ZeroCountComplement(s: seq<byte>)
    ensures ZeroCount(s) + NonZeroCount(s) == |s|
    decreases |s|
  {
    if s != [] {
      ZeroCountComplement(s[1..]);
      var t := s[1..];
      if t == [] {
        assert s == [s[0]];
        assert NonZeroCount(s) == NonZeroCount(s[..0]) + (if s[0] != 0 then 1 else 0);
      } else {
        // count the same sequence from the front and from the back
        var m := s[1..|s| - 1];
        assert s[..|s| - 1] == [s[0]] + m;
        assert t == m + [s[|s| - 1]];
        NonZeroCountLast(m, s[|s| - 1]);
        NonZeroCountFirst(s[0], m);
      }
    }
  }

  lemma {:induction false} NonZeroCountFirst(b: byte, s: seq<byte>)
    ensures NonZeroCount([b] + s) == (if b != 0 then 1 else 0) + NonZeroCount(s)
    decreases |s|
  {
    if s == [] {
      assert [b] + s == [b];
      assert [b][..0] == [];
    } else {
      var init := s[..|s| - 1];
      assert [b] + s == ([b] + init) + [s[|s| - 1]];
      NonZeroCountLast([b] + init, s[|s| - 1]);
      NonZeroCountFirst(b, init);
      assert s == init + [s[|s| - 1]];
      NonZeroCountLast(init, s[|s| - 1]);
    }
  }

  /** The non-zero count is zero exactly when every byte is zero. */
  lemma {:induction false} NonZeroCountZero(s: seq<byte>)
    ensures NonZeroCount(s) == 0 <==> forall i :: 0 <= i < |s| ==> s[i] == 0
    ensures NonZeroCount(s) <= |s|
    decreases |s|
  {
    if s != [] {
      var init := s[..|s| - 1];
      NonZeroCountZero(init);
      if NonZeroCount(s) == 0 {
        forall i | 0 <= i < |s| ensures s[i] == 0 {
          if i < |s| - 1 { assert s[i] == init[i]; }
        }
      }
    }
  }
}
