/** The arithmetic helpers and calendar tables of src/datetime.h:
    a floor modulus, the "true" division that is meant to floor, their pair,
    three-way comparison of scalars and of arrays, and the month tables. */
module DatetimeInternal {

  function Abs(x: int): nat { if x < 0 then -x else x }

  /** d * k is at least d for a positive d and k. */
  lemma {:induction false} MulAtLeast(d: int, k: int)
    requires d > 0 && k >= 1
    ensures d * k >= d
    decreases k
  {
    if k > 1 {
      MulAtLeast(d, k - 1);
      assert d * k == d * (k - 1) + d;
    }
  }

  /** Euclidean division by a positive divisor is determined by the
      quotient-remainder equation. */
  lemma DivModUnique(n: int, d: int, q: int, r: int)
    requires d > 0 && n == d * q + r && 0 <= r < d
    ensures n / d == q && n % d == r
  {
    var q', r' := n / d, n % d;
    assert d * q' + r' == d * q + r;
    if q > q' {
      MulAtLeast(d, q - q');
    }
    if q' > q {
      MulAtLeast(d, q' - q);
    }
  }

  /** C++ integer division: truncates toward zero. */
  function CDiv(a: int, b: int): int
    requires b != 0
  {
    if b > 0 then (if a < 0 then -((-a) / b) else a / b)
    else (if a < 0 then (-a) / (-b) else -(a / (-b)))
  }

  /** Euclid's equation for a non-negative dividend and a positive divisor. */
  lemma NatDivMod(n: int, d: int)
    requires n >= 0 && d > 0
    ensures n == d * (n / d) + n % d && 0 <= n % d < d && n / d >= 0
  {
  }

  /** C++ remainder: a - b * (a / b), carrying the sign of a, with the
      magnitude of the remainder of the magnitudes. */
  function CRem(a: int, b: int): (r: int)
    requires b != 0
    ensures a == b * CDiv(a, b) + r
    ensures b > 0 ==> r == if a < 0 then -((-a) % b) else a % b
    ensures b < 0 ==> r == if a < 0 then -((-a) % (-b)) else a % (-b)
  {
    CRemMagnitude(a, b);
    a - b * CDiv(a, b)
  }

  lemma CRemMagnitude(a: int, b: int)
    requires b != 0
    ensures var r := a - b * CDiv(a, b);
      (b > 0 ==> r == if a < 0 then -((-a) % b) else a % b) &&
      (b < 0 ==> r == if a < 0 then -((-a) % (-b)) else a % (-b))
  {
    var m: int, n: int := Abs(a), Abs(b);
    NatDivMod(m, n);
    if b > 0 && a < 0 {
      assert b * CDiv(a, b) == -(n * (m / n));
    } else if b < 0 && a < 0 {
      assert b * CDiv(a, b) == -(n * (m / n));
    } else if b < 0 {
      assert b * CDiv(a, b) == n * (m / n);
    }
  }

  /** The floor quotient, the quotient Python's // computes. */
  function FloorDiv(a: int, b: int): int
    requires b != 0
  {
    if b > 0 then a / b else (-a) / (-b)
  }

  /** A quotient and a remainder with the divisor's sign are the floor ones. */
  lemma FloorDivUnique(a: int, b: int, q: int, r: int)
    requires b != 0
    requires a == q * b + r
    requires b > 0 ==> 0 <= r < b
    requires b < 0 ==> b < r <= 0
    ensures FloorDiv(a, b) == q
  {
    if b > 0 {
      DivModUnique(a, b, q, r);
    } else {
      assert -a == (-b) * q + (-r);
      DivModUnique(-a, -b, q, -r);
    }
  }

  /** _mod: (b + a % b) % b with C++ operators. */
  function Mod(a: int, b: int): (r: int)
    requires b != 0
    ensures b > 0 ==> 0 <= r < b
    ensures b < 0 ==> b < r <= 0
    ensures a == FloorDiv(a, b) * b + r
  {
    ModIsFloorRemainder(a, b);
    CRem(b + CRem(a, b), b)
  }

  lemma ModIsFloorRemainder(a: int, b: int)
    requires b != 0
    ensures var r := CRem(b + CRem(a, b), b);
      (b > 0 ==> 0 <= r < b) && (b < 0 ==> b < r <= 0) && a == FloorDiv(a, b) * b + r
  {
    var q, x := CDiv(a, b), CRem(a, b);
    assert a == q * b + x;
    assert (q - 1) * b + b == q * b;
    if b > 0 {
      if x < 0 {
        DivModUnique(b + x, b, 0, b + x);
        FloorDivUnique(a, b, q - 1, b + x);
      } else {
        DivModUnique(b + x, b, 1, x);
        FloorDivUnique(a, b, q, x);
      }
    } else {
      if x > 0 {
        DivModUnique(-(b + x), -b, 0, -(b + x));
        FloorDivUnique(a, b, q - 1, b + x);
      } else {
        DivModUnique(-(b + x), -b, 1, -x);
        FloorDivUnique(a, b, q, x);
      }
    }
  }

  /** For a positive divisor _mod is the Euclidean remainder. */
  lemma ModIsRemainder(a: int, b: int)
    requires b > 0
    ensures Mod(a, b) == a % b
  {
    DivModUnique(a, b, FloorDiv(a, b), Mod(a, b));
  }

  /** _true_div as written: truncate, then subtract one from every negative
      truncated quotient. */
  function TrueDiv(a: int, b: int): int
    requires b != 0
  {
    var r := CDiv(a, b);
    if r < 0 then r - 1 else r
  }

  /** _div_mod as written. */
  function DivMod(a: int, b: int): (int, int)
    requires b != 0
  {
    (TrueDiv(a, b), Mod(a, b))
  }

  /** _div_mod as intended: the floor quotient and the floor remainder. */
  function FloorDivMod(a: int, b: int): (qr: (int, int))
    requires b != 0
    ensures a == qr.0 * b + qr.1
    ensures b > 0 ==> 0 <= qr.1 < b
    ensures b < 0 ==> b < qr.1 <= 0
  {
    (FloorDiv(a, b), Mod(a, b))
  }

  /** Where _true_div and floor division agree: for a non-negative truncated
      quotient of operands that do not have opposite signs, and for a
      negative truncated quotient with a non-zero remainder. */
  lemma TrueDivAgreesWithFloor(a: int, b: int)
    requires b != 0
    requires (a == 0 || (a > 0) == (b > 0)) || (CDiv(a, b) < 0 && CRem(a, b) != 0)
    ensures TrueDiv(a, b) == FloorDiv(a, b)
    ensures a == DivMod(a, b).0 * b + DivMod(a, b).1
  {
    var q, x := CDiv(a, b), CRem(a, b);
    NatDivMod(Abs(a), Abs(b));
    assert a == q * b + x;
    if a == 0 || (a > 0) == (b > 0) {
      assert q >= 0;
      FloorDivUnique(a, b, q, x);
    } else {
      assert (q - 1) * b + b == q * b;
      FloorDivUnique(a, b, q - 1, x + b);
    }
  }

  /** For non-negative operands _div_mod is Euclidean division. */
  lemma DivModOfNatural(a: int, b: int)
    requires a >= 0 && b > 0
    ensures DivMod(a, b) == (a / b, a % b)
  {
    NatDivMod(a, b);
    FloorDivUnique(a, b, a / b, a % b);
  }

  /** _true_div(-2, 1) is -3 where floor division gives -2: an exact negative
      quotient is decremented. */
  lemma TrueDivExactNegative()
    ensures TrueDiv(-2, 1) == -3 && FloorDiv(-2, 1) == -2
    ensures DivMod(-2, 1) == (-3, 0)
  {
  }

  /** _true_div(-1, 2) is 0 where floor division gives -1: a negative quotient
      that truncates to zero is not decremented, and q * b + r misses a. */
  lemma TrueDivSmallNegative()
    ensures TrueDiv(-1, 2) == 0 && FloorDiv(-1, 2) == -1
    ensures DivMod(-1, 2) == (0, 1) && DivMod(-1, 2).0 * 2 + DivMod(-1, 2).1 != -1
  {
  }

  /** _cmp: three-way comparison. */
  function Cmp(left: int, right: int): (r: int)
    ensures r == 0 <==> left == right
    ensures r == 1 <==> left > right
    ensures r == -1 <==> left < right
  {
    if left == right then 0 else if left > right then 1 else -1
  }

  /** Lexicographic three-way comparison: the first non-zero element
      comparison, else 0. */
  function LexCmp(left: seq<int>, right: seq<int>): int
    requires |left| == |right|
  {
    if left == [] then 0
    else if Cmp(left[0], right[0]) != 0 then Cmp(left[0], right[0])
    else LexCmp(left[1..], right[1..])
  }

  /** On three elements LexCmp compares the first pair that differs. */
  lemma LexCmpOfTriple(a0: int, a1: int, a2: int, b0: int, b1: int, b2: int)
    ensures LexCmp([a0, a1, a2], [b0, b1, b2]) ==
      if a0 != b0 then Cmp(a0, b0) else if a1 != b1 then Cmp(a1, b1) else Cmp(a2, b2)
  {
    var l, r := [a0, a1, a2], [b0, b1, b2];
    assert l[1..] == [a1, a2] && r[1..] == [b1, b2];
    assert l[1..][1..] == [a2] && r[1..][1..] == [b2];
    assert l[1..][1..][1..] == [] && r[1..][1..][1..] == [];
    assert LexCmp(l[1..][1..], r[1..][1..]) == Cmp(a2, b2);
    assert LexCmp(l[1..], r[1..]) == if a1 != b1 then Cmp(a1, b1) else Cmp(a2, b2);
  }

  lemma {:induction false} LexCmpProperties(left: seq<int>, right: seq<int>)
    requires |left| == |right|
    ensures LexCmp(left, right) in {-1, 0, 1}
    ensures LexCmp(left, right) == 0 <==> left == right
    ensures LexCmp(left, right) == -LexCmp(right, left)
  {
    if left != [] {
      LexCmpProperties(left[1..], right[1..]);
      if left[0] == right[0] {
        assert left == [left[0]] + left[1..] && right == [right[0]] + right[1..];
      }
    }
  }

  /** _cmp_arr: compares the first n elements of two arrays. */
  method CmpArr(left: array<int>, right: array<int>, n: nat) returns (r: int)
    requires n <= left.Length && n <= right.Length
    ensures r == LexCmp(left[..n], right[..n])
    ensures r == 0 <==> left[..n] == right[..n]
    ensures r != 0 ==> exists k :: 0 <= k < n && left[..k] == right[..k] && r == Cmp(left[k], right[k])
  {
    LexCmpProperties(left[..n], right[..n]);
    var i := 0;
    while i < n
      invariant 0 <= i <= n
      invariant left[..i] == right[..i]
      invariant LexCmp(left[..n], right[..n]) == LexCmp(left[i..n], right[i..n])
    {
      var c := Cmp(left[i], right[i]);
      assert left[i..n][0] == left[i] && right[i..n][0] == right[i];
      if c != 0 {
        return c;
      }
      assert left[i..n][1..] == left[i + 1..n] && right[i..n][1..] == right[i + 1..n];
      assert left[..i + 1] == left[..i] + [left[i]] && right[..i + 1] == right[..i] + [right[i]];
      i := i + 1;
    }
    assert left[i..n] == [];
    return 0;
  }

  const MaxOrdinal: nat := 3652059
  const MonthsCount: nat := 12

  /** _DAYS_IN_MONTH, with a placeholder at index 0. */
  const DaysInMonthTable: seq<int> := [-1, 31, 28, 31, 30, 31, 30, 31, 31, 30, 31, 30, 31]

  /** _DAYS_BEFORE_MONTH, with a placeholder at index 0. */
  const DaysBeforeMonthTable: seq<int> :=
    [-1, 0, 31, 31 + 28, 2 * 31 + 28, 2 * 31 + 28 + 30, 3 * 31 + 28 + 30, 3 * 31 + 28 + 2 * 30,
     4 * 31 + 28 + 2 * 30, 5 * 31 + 28 + 2 * 30, 5 * 31 + 28 + 3 * 30, 6 * 31 + 28 + 3 * 30,
     6 * 31 + 28 + 4 * 30]

  /** The two tables agree: each month starts where the previous one ends, and
      a common year has 365 days. */
  lemma TablesAgree()
    ensures |DaysInMonthTable| == |DaysBeforeMonthTable| == MonthsCount + 1
    ensures forall m :: 1 <= m < MonthsCount ==>
      DaysBeforeMonthTable[m + 1] == DaysBeforeMonthTable[m] + DaysInMonthTable[m]
    ensures DaysBeforeMonthTable[12] + DaysInMonthTable[12] == 365
  {
  }
}
