/** Three-way comparisons: what makes one an order, and the order of sequences. */
module Lexicographic {

  function Sign(x: int): int {
    if x < 0 then -1 else if x > 0 then 1 else 0
  }

  /** Comparing the other way round gives the opposite sign. */
  predicate Mirror(ab: int, ba: int) {
    Sign(ab) == -Sign(ba)
  }

  /** a <= b <= c gives a <= c, and equality only through equalities. */
  predicate Chain(ab: int, bc: int, ac: int) {
    ab <= 0 && bc <= 0 ==> ac <= 0 && (ac == 0 <==> ab == 0 && bc == 0)
  }

  /** The first comparison, the second when the first is even. */
  function Then(x: int, y: int): int {
    if x != 0 then x else y
  }

  function Compare(a: seq<int>, b: seq<int>): int {
    if a == [] then (if b == [] then 0 else -1)
    else if b == [] then 1
    else if a[0] != b[0] then a[0] - b[0]
    else Compare(a[1..], b[1..])
  }

  lemma {:induction false} CompareMirror(a: seq<int>, b: seq<int>)
    ensures Mirror(Compare(a, b), Compare(b, a))
  {
    if a != [] && b != [] && a[0] == b[0] {
      CompareMirror(a[1..], b[1..]);
    }
  }

  lemma {:induction false} CompareChain(a: seq<int>, b: seq<int>, c: seq<int>)
    ensures Chain(Compare(a, b), Compare(b, c), Compare(a, c))
  {
    if a != [] && b != [] && c != [] && a[0] == b[0] == c[0] {
      CompareChain(a[1..], b[1..], c[1..]);
    }
  }

  lemma {:induction false} CompareZero(a: seq<int>, b: seq<int>)
    ensures Compare(a, b) == 0 <==> a == b
  {
    if a != [] && b != [] && a[0] == b[0] {
      CompareZero(a[1..], b[1..]);
      assert a == [a[0]] + a[1..] && b == [b[0]] + b[1..];
    }
  }

  /** memcmp over the first n of each. */
  function MemCompare(a: seq<int>, b: seq<int>, n: nat): int
    requires n <= |a| && n <= |b|
  {
    if n == 0 then 0
    else if a[0] != b[0] then a[0] - b[0]
    else MemCompare(a[1..], b[1..], n - 1)
  }

  /** memcmp over the common length, then the lengths, is the order of sequences. */
  lemma {:induction false} MemCompareThenLength(a: seq<int>, b: seq<int>)
    ensures var n := if |a| < |b| then |a| else |b|;
      Sign(Then(MemCompare(a, b, n), |a| - |b|)) == Sign(Compare(a, b))
  {
    if a != [] && b != [] && a[0] == b[0] {
      MemCompareThenLength(a[1..], b[1..]);
    }
  }

  /** Neither goes on where the other ends. */
  predicate Apart(a: seq<int>, b: seq<int>) {
    a <= b || b <= a ==> a == b
  }

  /** What follows two such sequences counts only when they are the same. */
  lemma {:induction false} CompareJoined(a: seq<int>, x: seq<int>, b: seq<int>, y: seq<int>)
    requires Apart(a, b)
    ensures Sign(Compare(a + x, b + y)) == Sign(Then(Compare(a, b), Compare(x, y)))
  {
    if a == [] || b == [] {
      assert a + x == x && b + y == y;
    } else if a[0] == b[0] {
      assert a == [a[0]] + a[1..] && b == [b[0]] + b[1..];
      CompareJoined(a[1..], x, b[1..], y);
      assert (a + x)[1..] == a[1..] + x && (b + y)[1..] == b[1..] + y;
    }
  }

  lemma ApartJoined(a: seq<int>, x: seq<int>, b: seq<int>, y: seq<int>)
    requires Apart(a, b) && (a == b ==> Apart(x, y))
    ensures Apart(a + x, b + y)
  {
    var l, r := a + x, b + y;
    if l <= r || r <= l {
      var n := if |a| < |b| then |a| else |b|;
      assert l[..n] == r[..n] && l[..n] == a[..n] && r[..n] == b[..n];
      assert a == b;
      assert l[|a|..] == x && r[|a|..] == y;
    }
  }

  /** A string with an end lower than anything in it. */
  function TextKey(s: seq<int>): seq<int> {
    if s == [] then [0] else [s[0] + 1] + TextKey(s[1..])
  }

  lemma {:induction false} TextKeyOrder(a: seq<int>, b: seq<int>)
    requires forall i :: 0 <= i < |a| ==> a[i] >= 0
    requires forall i :: 0 <= i < |b| ==> b[i] >= 0
    ensures Apart(TextKey(a), TextKey(b))
    ensures Sign(Compare(TextKey(a), TextKey(b))) == Sign(Compare(a, b))
  {
    var x, y := TextKey(a), TextKey(b);
    if a != [] && b != [] {
      TextKeyOrder(a[1..], b[1..]);
      assert x[1..] == TextKey(a[1..]) && y[1..] == TextKey(b[1..]);
      ApartJoined([x[0]], x[1..], [y[0]], y[1..]);
      assert x == [x[0]] + x[1..] && y == [y[0]] + y[1..];
    } else if a != [] || b != [] {
      assert x[0] != y[0];
    }
  }
}
