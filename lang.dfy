/** Java value semantics that the three programs rely on: nullable results,
    32-bit `int` arithmetic, truncating `long` division and `String.compareTo`. */
module Lang {

  /** A reference that may be null. */
  datatype Option<+T> = None | Some(value: T)

  /** `Integer.MAX_VALUE` and `Integer.MIN_VALUE`. */
  const IntMax: int := 0x7fff_ffff
  const IntMin: int := -0x8000_0000

  predicate IsInt32(x: int) { IntMin <= x <= IntMax }

  function Max(a: int, b: int): int { if a >= b then a else b }
  function Min(a: int, b: int): int { if a <= b then a else b }
  function Abs(x: int): nat { if x < 0 then -x else x }

  /** Two's-complement reduction to 32 bits: what Java's `int` arithmetic and
      an `(int)` cast of a `long` do to a mathematical integer. */
  function Wrap32(x: int): (r: int)
    ensures IsInt32(r)
    ensures IsInt32(x) ==> r == x
    ensures exists k: int :: r == x + k * 0x1_0000_0000
  {
    var m := x % 0x1_0000_0000;
    assert x == (x / 0x1_0000_0000) * 0x1_0000_0000 + m;
    if m > IntMax then
      assert m - 0x1_0000_0000 == x + (-(x / 0x1_0000_0000) - 1) * 0x1_0000_0000;
      m - 0x1_0000_0000
    else
      assert m == x + (-(x / 0x1_0000_0000)) * 0x1_0000_0000;
      m
  }

  /** Java's integer division, which rounds toward zero (Dafny's `/` is Euclidean). */
  function TruncDiv(a: int, b: int): (q: int)
    requires b != 0
    ensures a >= 0 && b > 0 ==> q == a / b
    ensures (a >= 0) == (b > 0) ==> q == Abs(a) / Abs(b)
    ensures (a >= 0) != (b > 0) ==> q == -(Abs(a) / Abs(b))
  {
    if a >= 0 then (if b > 0 then a / b else -(a / -b))
    else (if b > 0 then -((-a) / b) else (-a) / (-b))
  }

  /** `String.compareTo`: the difference of the first differing characters,
      or else the difference of the lengths. */
  function CompareStrings(a: string, b: string): (r: int)
    ensures a <= b || b <= a ==> r == |a| - |b|
  {
    if |a| == 0 || |b| == 0 then |a| - |b|
    else if a[0] != b[0] then a[0] as int - b[0] as int
    else CompareStrings(a[1..], b[1..])
  }

  lemma {:induction false} CompareStringsZero(a: string, b: string)
    ensures CompareStrings(a, b) == 0 <==> a == b
  {
    if |a| == 0 || |b| == 0 {
    } else if a[0] != b[0] {
    } else {
      CompareStringsZero(a[1..], b[1..]);
      assert a == [a[0]] + a[1..] && b == [b[0]] + b[1..];
    }
  }

  lemma {:induction false} CompareStringsAntisymmetric(a: string, b: string)
    ensures CompareStrings(b, a) == -CompareStrings(a, b)
  {
    if |a| == 0 || |b| == 0 {
    } else if a[0] != b[0] {
    } else {
      CompareStringsAntisymmetric(a[1..], b[1..]);
    }
  }

  lemma {:induction false} CompareStringsTransitive(a: string, b: string, c: string)
    requires CompareStrings(a, b) < 0 && CompareStrings(b, c) < 0
    ensures CompareStrings(a, c) < 0
  {
    if |a| == 0 || |b| == 0 || |c| == 0 {
    } else if a[0] != b[0] || b[0] != c[0] {
    } else {
      CompareStringsTransitive(a[1..], b[1..], c[1..]);
    }
  }

  // Adding one element to one part of a three-way union.
  lemma {:induction false} AddToLeft<T>(a: set<T>, b: set<T>, c: set<T>, x: T)
    ensures (a + {x}) + b + c == a + b + c + {x}
  {
  }

  lemma {:induction false} AddToMiddle<T>(a: set<T>, b: set<T>, c: set<T>, x: T)
    ensures a + (b + {x}) + c == a + b + c + {x}
  {
  }

  lemma {:induction false} AddToRight<T>(a: set<T>, b: set<T>, c: set<T>, x: T)
    ensures a + b + (c + {x}) == a + b + c + {x}
  {
  }
}
