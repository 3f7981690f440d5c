/** The string building `__repr__` relies on: `str.join` and decimal rendering with `%s`. */
module Format {

  /** `sep.join(xs)`. */
  function Join(xs: seq<string>, sep: string): string
    decreases |xs|
  {
    if |xs| == 0 then "" else if |xs| == 1 then xs[0] else xs[0] + sep + Join(xs[1..], sep)
  }

  /** Joining two-character items with one space puts item k at 3k and a space after every
      item but the last. */
  lemma {:induction false} JoinPairs(xs: seq<string>)
    requires forall k :: 0 <= k < |xs| ==> |xs[k]| == 2
    ensures |Join(xs, " ")| == if |xs| == 0 then 0 else 3 * |xs| - 1
    ensures forall k :: 0 <= k < |xs| ==> Join(xs, " ")[3 * k..3 * k + 2] == xs[k]
    ensures forall k :: 0 <= k < |xs| - 1 ==> Join(xs, " ")[3 * k + 2] == ' '
    decreases |xs|
  {
    if |xs| > 1 {
      var rest := xs[1..];
      JoinPairs(rest);
      var j, t := Join(xs, " "), Join(rest, " ");
      assert j == xs[0] + " " + t;
      forall k | 0 <= k < |xs| ensures j[3 * k..3 * k + 2] == xs[k] {
        if k > 0 {
          assert j[3 * k..3 * k + 2] == t[3 * (k - 1)..3 * (k - 1) + 2];
          assert rest[k - 1] == xs[k];
        }
      }
      forall k | 0 <= k < |xs| - 1 ensures j[3 * k + 2] == ' ' {
        if k > 0 { assert j[3 * k + 2] == t[3 * (k - 1) + 2]; }
      }
    }
  }

  /** Joining with the empty separator concatenates the items in order. */
  lemma {:induction false} JoinEmpty(xs: seq<string>)
    ensures Join(xs, "") == Concat(xs)
    decreases |xs|
  {
    if |xs| > 1 {
      JoinEmpty(xs[1..]);
      assert Concat(xs) == xs[0] + Concat(xs[1..]);
    } else if |xs| == 1 {
      assert Concat(xs) == xs[0] + Concat([]);
    }
  }

  function Concat(xs: seq<string>): string
    decreases |xs|
  {
    if xs == [] then "" else xs[0] + Concat(xs[1..])
  }

  predicate IsDigit(c: char) {
    '0' <= c <= '9'
  }

  function DigitChar(d: int): (c: char)
    requires 0 <= d < 10
    ensures IsDigit(c)
  {
    ('0' as int + d) as char
  }

  /** `'%s' % n` for a non-negative int: decimal digits, no leading zero. */
  function Decimal(n: nat): (r: string)
    ensures 1 <= |r|
    ensures forall i :: 0 <= i < |r| ==> IsDigit(r[i])
    ensures n > 0 ==> r[0] != '0'
    decreases n
  {
    if n < 10 then [DigitChar(n)] else Decimal(n / 10) + [DigitChar(n % 10)]
  }

  /** The number a string of decimal digits denotes, read from the left. */
  function DecimalValue(s: string): nat
    requires forall i :: 0 <= i < |s| ==> IsDigit(s[i])
    decreases |s|
  {
    if s == [] then 0
    else
      assert IsDigit(s[|s| - 1]);
      DecimalValue(s[..|s| - 1]) * 10 + (s[|s| - 1] as int - '0' as int)
  }

  /** The rendering of a count reads back as that count. */
  lemma {:induction false} DecimalRoundTrip(n: nat)
    ensures DecimalValue(Decimal(n)) == n
    decreases n
  {
    var r := Decimal(n);
    if n >= 10 {
      DecimalRoundTrip(n / 10);
      assert r[..|r| - 1] == Decimal(n / 10);
    } else {
      assert r[..0] == [];
    }
  }
}
