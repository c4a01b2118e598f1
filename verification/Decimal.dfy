/** Decimal numerals: the digits a number prints to, and the value a digit string reads as. */
module Decimal {
  import opened Chars

  /** The decimal digits of `n`, most significant first; zero prints nothing. */
  function Digits(n: nat): (r: seq<Char>)
    ensures AllDigits(r)
    ensures n > 0 ==> |r| > 0 && r[0] != NUMBER_MIN
  {
    if n == 0 then [] else Digits(n / 10) + [NUMBER_MIN + n % 10]
  }

  /** The number a digit string denotes; the empty string denotes zero. */
  function Value(ds: seq<Char>): nat
    requires AllDigits(ds)
  {
    if ds == [] then 0 else 10 * Value(ds[..|ds| - 1]) + (ds[|ds| - 1] - NUMBER_MIN)
  }

  /** What `%d` prints for a non-negative number. */
  function Numeral(n: nat): (r: seq<Char>)
    ensures AllDigits(r)
  {
    if n == 0 then [NUMBER_MIN] else Digits(n)
  }

  function Pow10(k: nat): (r: nat)
    ensures r > 0
  {
    if k == 0 then 1 else 10 * Pow10(k - 1)
  }

  lemma {:induction false} ValueOfDigits(n: nat)
    ensures Value(Digits(n)) == n
  {
    if n == 0 {
    } else {
      ValueOfDigits(n / 10);
      assert Digits(n)[..|Digits(n)| - 1] == Digits(n / 10);
    }
  }

  lemma ValueSnoc(ds: seq<Char>, d: Char)
    requires AllDigits(ds) && IsDigit(d)
    ensures AllDigits(ds + [d])
    ensures Value(ds + [d]) == 10 * Value(ds) + (d - NUMBER_MIN)
  {
    assert (ds + [d])[..|ds|] == ds;
  }

  /** Quotient and remainder, with the product spelled out. */
  lemma Split(x: nat, m: nat) returns (q: nat, r: nat)
    requires m > 0
    ensures x == m * q + r && r < m && r == x % m
  {
    q, r := x / m, x % m;
  }

  lemma Remainder(x: nat, m: nat, q: nat, r: nat)
    requires m > 0 && x == m * q + r && r < m
    ensures x % m == r
  {
    var q', r' := Split(x, m);
    OneQuotient(m, q, r, q', r');
  }

  lemma OneQuotient(m: nat, q: nat, r: nat, q': nat, r': nat)
    requires m * q + r == m * q' + r' && r < m && r' < m
    ensures r == r'
  {
    Distribute(m, q, q' - q);
    assert m * (q' - q) == r - r';
    assert q' - q >= 1 ==> m * (q' - q) >= m;
    assert q - q' >= 1 ==> m * (q' - q) <= -(m as int);
  }

  lemma Distribute(m: int, a: int, b: int)
    ensures m * (a + b) == m * a + m * b
  {
  }

  lemma ResidueIdentity(v: int, d: int, m: int, q: int, r: int, p: int, t: int)
    requires v == m * q + r && 10 * r + d == m * p + t
    ensures 10 * v + d == m * (10 * q + p) + t
  {
    Distribute(m, 10 * q, p);
    assert m * (10 * q) == 10 * (m * q);
  }

  /** Reducing before scaling by ten does not change the residue. */
  lemma ResidueStep(v: nat, d: nat, m: nat)
    requires m > 0
    ensures (10 * v + d) % m == (10 * (v % m) + d) % m
  {
    var q, r := Split(v, m);
    var p, t := Split(10 * r + d, m);
    ResidueIdentity(v, d, m, q, r, p, t);
    Remainder(10 * v + d, m, 10 * q + p, t);
  }

  lemma ResidueSum(a: nat, b: nat, m: nat)
    requires m > 0
    ensures (a % m + b) % m == (a + b) % m
  {
    var q, r := Split(a, m);
    var p, t := Split(r + b, m);
    Distribute(m, q, p);
    Remainder(a + b, m, q + p, t);
  }

  /** Reducing after every digit reads the same number modulo 26. */
  lemma HornerStep(ds: seq<Char>, d: Char)
    requires AllDigits(ds) && IsDigit(d)
    ensures AllDigits(ds + [d])
    ensures Value(ds + [d]) % ALPHABET_SIZE
            == (10 * (Value(ds) % ALPHABET_SIZE) + (d - NUMBER_MIN)) % ALPHABET_SIZE
  {
    ValueSnoc(ds, d);
    ResidueStep(Value(ds), d - NUMBER_MIN, ALPHABET_SIZE);
  }

  /** A number has at most `k` digits exactly when it is below 10^k. */
  lemma {:induction false} DigitCount(n: nat, k: nat)
    ensures |Digits(n)| <= k <==> n < Pow10(k)
  {
    if n == 0 || k == 0 {
    } else {
      DigitCount(n / 10, k - 1);
    }
  }

  lemma {:induction false} ValueBound(ds: seq<Char>)
    requires AllDigits(ds)
    ensures Value(ds) < Pow10(|ds|)
  {
    if ds == [] {
    } else {
      ValueBound(ds[..|ds| - 1]);
    }
  }

  /** The digits of a number are the shortest digit string with its value. */
  lemma DigitsShortest(ds: seq<Char>)
    requires AllDigits(ds)
    ensures |Digits(Value(ds))| <= |ds|
  {
    ValueBound(ds);
    DigitCount(Value(ds), |ds|);
  }

  lemma {:induction false} U32Digits(n: U32)
    ensures |Digits(n)| <= 10
  {
    assert Pow10(10) == 10_000_000_000 by {
      assert Pow10(2) == 100;
      assert Pow10(4) == 10000;
      assert Pow10(6) == 1000000;
      assert Pow10(8) == 100000000;
    }
    DigitCount(n, 10);
  }

  /** A count of at least two prints to fewer characters than it counts. */
  lemma {:induction false} DigitsShort(n: nat)
    requires n >= 2
    ensures 1 + |Digits(n)| <= n
  {
    if n < 10 {
      assert Digits(n / 10) == [];
    } else if n < 20 {
      assert Digits(n / 10 / 10) == [];
    } else {
      DigitsShort(n / 10);
    }
  }

  lemma {:induction false} NumeralInjective(m: nat, n: nat)
    requires Numeral(m) == Numeral(n)
    ensures m == n
  {
    ValueOfDigits(m);
    ValueOfDigits(n);
  }
}
