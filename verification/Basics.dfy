/** Facts about numbers, sets and arrays that several modules use. */
module Basics {

  function Pow(base: nat, n: nat): (p: nat)
    ensures base >= 1 ==> p >= 1
  {
    if n == 0 then 1 else base * Pow(base, n - 1)
  }

  lemma Distribute(q: int, p: int, m: nat)
    ensures (q + p) * m == q * m + p * m
  {
  }

  lemma ModIs(a: int, q: int, r: nat, m: nat)
    requires a == q * m + r && r < m
    ensures a % m == r
  {
    var k, x := a / m, a % m;
    assert a == k * m + x && x < m;
    if k > q { FarApart(k, q, m); } else if k < q { FarApart(q, k, m); }
  }

  lemma FarApart(k: int, q: int, m: nat)
    requires k > q
    ensures k * m >= q * m + m
  {
    Distribute(q + 1, k - q - 1, m);
    Distribute(q, 1, m);
    assert (k - q - 1) * m >= 0;
  }

  /** The quotient is the only number it can be. */
  lemma QuotientIs(d: nat, m: nat, q: nat, r: nat)
    requires d == q * m + r && r < m
    ensures d / m == q
  {
    var k, x := d / m, d % m;
    assert d == k * m + x && x < m;
    if k > q { FarApart(k, q, m); } else if k < q { FarApart(q, k, m); }
  }

  lemma Regroup3(a: nat, b: nat, q: nat)
    ensures a * (b * q) == q * (a * b)
  {
    assert a * (b * q) == a * b * q;
  }

  /** A digit and a remainder below it. */
  lemma Below(a: nat, b: nat, r2: nat, r: nat)
    requires r2 < b && r < a
    ensures a * r2 + r < a * b
  {
    var more := b - r2 - 1;
    Distribute(r2 + 1, more, a);
    Distribute(r2, 1, a);
    assert more * a >= 0;
  }

  lemma Nested(a: nat, b: nat, q: nat, r2: nat, r: nat)
    requires r2 < b && r < a
    ensures a * (b * q + r2) + r == q * (a * b) + (a * r2 + r) && a * r2 + r < a * b
  {
    Distribute(b * q, r2, a);
    Regroup3(a, b, q);
    Below(a, b, r2, r);
  }

  lemma DivideTwice(d: nat, a: nat, b: nat)
    requires a >= 1 && b >= 1
    ensures a * b >= 1 && d / a / b == d / (a * b)
  {
    var k, r := d / a, d % a;
    var q, r2 := k / b, k % b;
    assert d == a * k + r && k == b * q + r2;
    Nested(a, b, q, r2, r);
    QuotientIs(d, a * b, q, a * r2 + r);
  }

  /** The digit i places up is the digit i - 1 places up in the quotient. */
  lemma NextDigit(d: nat, base: nat, i: nat)
    requires base >= 1 && i >= 1
    ensures Pow(base, i) >= 1 && Pow(base, i - 1) >= 1 && d / Pow(base, i) == d / base / Pow(base, i - 1)
  {
    DivideTwice(d, base, Pow(base, i - 1));
  }

  lemma Subset<T>(a: set<T>, b: set<T>)
    requires a <= b
    ensures |a| <= |b| && (a != b ==> |a| < |b|)
  {
    assert b == a + (b - a);
  }

  /** Appends to what has been written to an array. */
  method Put<T>(output: array<T>, out: nat, e: T)
    requires out < output.Length
    modifies output
    ensures output[..out + 1] == old(output[..out]) + [e]
  {
    output[out] := e;
  }

  method PutAll<T>(output: array<T>, out: nat, es: seq<T>) returns (end: nat)
    requires out + |es| <= output.Length
    modifies output
    ensures end == out + |es| && output[..end] == old(output[..out]) + es
  {
    ghost var before := output[..out];
    end := out;
    for i := 0 to |es|
      invariant end == out + i && output[..end] == before + es[..i]
    {
      Put(output, end, es[i]);
      end := end + 1;
      assert es[..i + 1] == es[..i] + [es[i]];
    }
    assert es[..|es|] == es;
  }

  lemma InARow<T>(before: seq<T>, l: seq<T>, e: T, r: seq<T>)
    ensures before + l + [e] + r == before + (l + [e] + r)
  {
  }
}
