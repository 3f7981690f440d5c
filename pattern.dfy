/** The repeated pattern `fill` hands to `write` (node_buffer/__init__.py:63-65). */
module Pattern {
  import opened Base

  /** Python's `s * k`: k copies of s, none when k <= 0. */
  function Repeat(s: seq<int>, k: int): (r: seq<int>)
    ensures k >= 0 ==> |r| == |s| * k
    ensures k <= 0 ==> r == []
    decreases k
  {
    if k <= 0 then [] else s + Repeat(s, k - 1)
  }

  /** Element j of a repetition is element j mod |s| of the pattern. */
  lemma {:induction false} RepeatAt(s: seq<int>, k: int, j: int)
    requires |s| > 0 && 0 <= j < |Repeat(s, k)|
    ensures Repeat(s, k)[j] == s[j % |s|]
    decreases k
  {
    if j >= |s| {
      RepeatAt(s, k - 1, j - |s|);
      ModShift(j, |s|);
    } else {
      assert j % |s| == j;
    }
  }

  lemma ModShift(j: int, n: int)
    requires 0 < n <= j
    ensures (j - n) % n == j % n
  {
    var q, m := (j - n) / n, (j - n) % n;
    assert j == n * (q + 1) + m;
    ModUnique(j, n, q + 1, m);
  }

  /** Division with a remainder in [0, n) has one answer. */
  lemma ModUnique(a: int, n: int, q: int, m: int)
    requires n > 0 && a == n * q + m && 0 <= m < n
    ensures a % n == m
  {
    var q2, m2 := a / n, a % n;
    assert n * (q - q2) == m2 - m;
    if q - q2 >= 1 {
      MulAtLeast(n, q - q2);
    } else if q2 - q >= 1 {
      MulAtLeast(n, q2 - q);
    }
  }

  lemma {:induction false} MulAtLeast(n: int, d: int)
    requires n > 0 && d >= 1
    ensures n * d >= n
    decreases d
  {
    if d > 1 {
      MulAtLeast(n, d - 1);
      assert n * d == n * (d - 1) + n;
    }
  }

  /** `math.ceil(a / b)` on integers. */
  function CeilDiv(a: int, b: int): (q: int)
    requires b > 0
    ensures b * (q - 1) < a <= b * q
  {
    a / b + (if a % b == 0 then 0 else 1)
  }

  /** `(content * math.ceil(count / len(content)))[:-1 if remainsOne else None]`:
      enough copies to cover `count`, with one trailing element dropped when `count` is not a
      whole number of copies. */
  function FillPattern(content: seq<int>, count: int): (p: seq<int>)
    requires |content| > 0
    // the trim never makes the pattern shorter than the span it fills
    ensures 0 <= count ==> count <= |p|
    ensures 0 <= count && count % |content| == 0 ==> |p| == count
    ensures count <= 0 ==> p == []
    ensures forall j :: 0 <= j < |p| ==> p[j] == content[j % |content|]
  {
    var n := |content|;
    var copies := CeilDiv(count, n);
    var rep := Repeat(content, copies);
    var p := if count % n != 0 then PySlice(rep, 0, -1) else rep;
    assert forall j :: 0 <= j < |p| ==> p[j] == rep[j];
    forall j | 0 <= j < |p| ensures p[j] == content[j % n] { RepeatAt(content, copies, j); }
    p
  }
}
