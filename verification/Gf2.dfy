/** Polynomials over GF(2) as bit strings: division by a divisor of degree 32, that quotient and
    remainder exist and are unique, that remainders add, and which error patterns a divisor
    cannot divide. */
module Gf2 {

  // A polynomial is the string of its coefficients, highest degree first.
  type Poly = seq<bool>

  function Zeros(n: nat): (z: Poly)
    ensures |z| == n && forall i :: 0 <= i < n ==> !z[i]
  {
    seq(n, i => false)
  }

  function Add(a: Poly, b: Poly): (r: Poly)
    requires |a| == |b|
    ensures |r| == |a| && forall i :: 0 <= i < |r| ==> r[i] == (a[i] != b[i])
  {
    seq(|a|, i requires 0 <= i < |a| => a[i] != b[i])
  }

  /** A divisor of degree 32 with leading coefficient one. */
  predicate Monic32(g: Poly) {
    |g| == 33 && g[0]
  }

  /** The product of a quotient with a divisor, by shift and add. */
  function Times(q: Poly, g: Poly): (r: Poly)
    requires |g| == 33
    ensures |r| == |q| + 32
  {
    if q == [] then Zeros(32)
    else
      var tail := [false] + Times(q[1..], g);
      if q[0] then Add(g + Zeros(|q| - 1), tail) else tail
  }

  /** r is the remainder of p on division by g: p = q * g + r with deg r < 32. */
  ghost predicate IsRemainder(p: Poly, g: Poly, r: Poly)
    requires Monic32(g) && |p| >= 32
  {
    |r| == 32 && exists q: Poly :: |q| == |p| - 32 && p == Add(Times(q, g), Zeros(|q|) + r)
  }

  /** One step of schoolbook division: cancel the leading term, then drop it. */
  function Reduce(p: Poly, g: Poly): (r: Poly)
    requires Monic32(g) && |p| > 32
    ensures |r| == |p| - 1
  {
    if p[0] then Add(p[..33], g)[1..] + p[33..] else p[1..]
  }

  function Remainder(p: Poly, g: Poly): (r: Poly)
    requires Monic32(g) && |p| >= 32
    ensures |r| == 32
    decreases |p|
  {
    if |p| == 32 then p else Remainder(Reduce(p, g), g)
  }

  function Quotient(p: Poly, g: Poly): (q: Poly)
    requires Monic32(g) && |p| >= 32
    ensures |q| == |p| - 32
    decreases |p|
  {
    if |p| == 32 then [] else [p[0]] + Quotient(Reduce(p, g), g)
  }

  /** Coefficient by coefficient: what one more quotient bit adds, ... */
  lemma TimesAt(q: Poly, g: Poly, i: nat)
    requires |g| == 33 && q != [] && i < |q| + 32
    ensures Times(q, g)[i] == ((q[0] && i < 33 && g[i]) != (i > 0 && Times(q[1..], g)[i - 1]))
  {
    var tail := [false] + Times(q[1..], g);
    assert tail[i] == (i > 0 && Times(q[1..], g)[i - 1]);
    assert (g + Zeros(|q| - 1))[i] == (i < 33 && g[i]);
  }

  /** ... and what one division step takes away. */
  lemma ReduceAt(p: Poly, g: Poly, i: nat)
    requires Monic32(g) && |p| > 32 && i < |p| - 1
    ensures Reduce(p, g)[i] == (p[i + 1] != (p[0] && i < 32 && g[i + 1]))
  {
  }

  /** p = q * g + r exactly when q starts with p's leading bit and the rest holds one step on. */
  lemma DivisionStep(p: Poly, g: Poly, q: Poly, r: Poly)
    requires Monic32(g) && |p| > 32 && |r| == 32 && |q| == |p| - 32
    ensures p == Add(Times(q, g), Zeros(|q|) + r) <==>
            q[0] == p[0] && Reduce(p, g) == Add(Times(q[1..], g), Zeros(|q| - 1) + r)
  {
    var lhs, rhs := Add(Times(q, g), Zeros(|q|) + r), Add(Times(q[1..], g), Zeros(|q| - 1) + r);
    TimesAt(q, g, 0);
    assert lhs[0] == q[0];
    forall i: nat | i < |p| - 1
      ensures lhs[i + 1] == ((q[0] && i < 32 && g[i + 1]) != rhs[i])
      ensures Reduce(p, g)[i] == (p[i + 1] != (p[0] && i < 32 && g[i + 1]))
    {
      TimesAt(q, g, i + 1);
      ReduceAt(p, g, i);
      assert (Zeros(|q|) + r)[i + 1] == (Zeros(|q| - 1) + r)[i];
    }
    if q[0] == p[0] && Reduce(p, g) == rhs {
      forall i: nat | 0 < i < |p|
        ensures p[i] == lhs[i]
      {
        assert Reduce(p, g)[i - 1] == rhs[i - 1];
        assert lhs[(i - 1) + 1] == lhs[i];
      }
      assert p == lhs;
    }
  }

  /** Long division finds the one quotient and remainder there are. */
  lemma {:induction false} DivisionUnique(p: Poly, g: Poly, q: Poly, r: Poly)
    requires Monic32(g) && |p| >= 32 && |r| == 32 && |q| == |p| - 32
    ensures p == Add(Times(q, g), Zeros(|q|) + r) <==> q == Quotient(p, g) && r == Remainder(p, g)
    decreases |p|
  {
    if |p| == 32 {
      assert Zeros(0) + r == r;
      assert Add(Times(q, g), r) == r;
    } else {
      hide Times, Add, Reduce, Zeros;
      DivisionStep(p, g, q, r);
      DivisionUnique(Reduce(p, g), g, q[1..], r);
      assert q == [q[0]] + q[1..];
      assert Quotient(p, g)[0] == p[0] && Quotient(p, g)[1..] == Quotient(Reduce(p, g), g);
    }
  }

  lemma RemainderExact(p: Poly, g: Poly, r: Poly)
    requires Monic32(g) && |p| >= 32
    ensures IsRemainder(p, g, r) <==> r == Remainder(p, g)
  {
    if |r| == 32 {
      forall q: Poly | |q| == |p| - 32
        ensures p == Add(Times(q, g), Zeros(|q|) + r) <==> q == Quotient(p, g) && r == Remainder(p, g)
      {
        DivisionUnique(p, g, q, r);
      }
      assert |Quotient(p, g)| == |p| - 32;
    }
  }

  lemma AddCons(a: bool, s: Poly, b: bool, t: Poly)
    requires |s| == |t|
    ensures [a != b] + Add(s, t) == Add([a] + s, [b] + t)
  {
  }

  lemma AddIsZero(a: Poly, b: Poly)
    requires |a| == |b|
    ensures Add(a, b) == Zeros(|a|) <==> a == b
  {
    if Add(a, b) == Zeros(|a|) {
      forall i | 0 <= i < |a| ensures a[i] == b[i] {
        assert !Add(a, b)[i];
      }
    }
  }

  function Complement(p: Poly): (r: Poly)
    ensures |r| == |p| && forall i :: 0 <= i < |r| ==> r[i] == !p[i]
  {
    seq(|p|, i requires 0 <= i < |p| => !p[i])
  }

  lemma ReduceDividend(m: seq<bool>, r: Poly, r': Poly, g: Poly)
    requires m != [] && |r| == 32 && |r'| == 32 && Monic32(g)
    requires r' == Add(r[1..] + [false], if m[0] != r[0] then g[1..] else Zeros(32))
    ensures Reduce(Add(m + Zeros(32), r + Zeros(|m|)), g) ==
            Add(m[1..] + Zeros(32), r' + Zeros(|m| - 1))
  {
    var p, p' := Add(m + Zeros(32), r + Zeros(|m|)), Add(m[1..] + Zeros(32), r' + Zeros(|m| - 1));
    forall i: nat | i < |p'|
      ensures Reduce(p, g)[i] == p'[i]
    {
      ReduceAt(p, g, i);
    }
  }

  lemma ReduceLinear(p: Poly, q: Poly, g: Poly)
    requires Monic32(g) && |p| == |q| > 32
    ensures Reduce(Add(p, q), g) == Add(Reduce(p, g), Reduce(q, g))
  {
    forall i: nat | i < |p| - 1
      ensures Reduce(Add(p, q), g)[i] == Add(Reduce(p, g), Reduce(q, g))[i]
    {
      ReduceAt(p, g, i);
      ReduceAt(q, g, i);
      ReduceAt(Add(p, q), g, i);
    }
  }

  /** The remainder of a sum is the sum of the remainders. */
  lemma {:induction false} RemainderLinear(p: Poly, q: Poly, g: Poly)
    requires Monic32(g) && |p| == |q| >= 32
    ensures Remainder(Add(p, q), g) == Add(Remainder(p, g), Remainder(q, g))
    decreases |p|
  {
    if |p| > 32 {
      ReduceLinear(p, q, g);
      RemainderLinear(Reduce(p, g), Reduce(q, g), g);
    }
  }

  lemma {:induction false} LeadingZeros(k: nat, p: Poly, g: Poly)
    requires Monic32(g) && |p| >= 32
    ensures Remainder(Zeros(k) + p, g) == Remainder(p, g)
    decreases k
  {
    if k == 0 {
      assert Zeros(0) + p == p;
    } else {
      assert (Zeros(k) + p)[1..] == Zeros(k - 1) + p;
      LeadingZeros(k - 1, p, g);
    }
  }

  /** A divisor with a constant term divides no x^k * r with r nonzero of degree below 32. */
  lemma {:induction false} ShiftedNotDivisible(r: Poly, k: nat, g: Poly)
    requires Monic32(g) && g[32] && |r| == 32 && r != Zeros(32)
    ensures Remainder(r + Zeros(k), g) != Zeros(32)
    decreases k
  {
    var p := r + Zeros(k);
    if k == 0 {
      assert p == r;
    } else {
      var p' := Reduce(p, g);
      var r' := p'[..32];
      forall i: nat | i < |p'|
        ensures p'[i] == (p[i + 1] != (r[0] && i < 32 && g[i + 1]))
      {
        ReduceAt(p, g, i);
      }
      assert p' == r' + Zeros(k - 1);
      if r[0] {
        assert r'[31];
      } else {
        var i :| 0 <= i < 32 && r[i];
        assert r'[i - 1];
      }
      ShiftedNotDivisible(r', k - 1, g);
    }
  }

  /** The two bit strings agree everywhere outside the window [at, at + len). */
  predicate AgreeOutside(v: seq<bool>, w: seq<bool>, at: nat, len: nat) {
    |v| == |w| && at + len <= |v| && v[..at] == w[..at] && v[at + len..] == w[at + len..]
  }

  /** The difference of two such strings is a short word between runs of zeros. */
  lemma BurstShape(v: seq<bool>, w: seq<bool>, at: nat, len: nat, r: Poly)
    requires AgreeOutside(v, w, at, len) && len <= 32
    requires r == Add(v, w)[at..at + len] + Zeros(32 - len)
    ensures Add(v, w) + Zeros(32) == Zeros(at) + (r + Zeros(|v| - at))
    ensures v != w ==> r != Zeros(32)
  {
    var d := Add(v, w);
    forall i | 0 <= i < |v| && !(at <= i < at + len) ensures !d[i] {
      assert i < at ==> v[..at][i] == w[..at][i];
      assert i >= at + len ==> v[at + len..][i - at - len] == w[at + len..][i - at - len];
    }
    if v != w {
      var i :| 0 <= i < |v| && v[i] != w[i];
      assert d[i] && at <= i < at + len;
      assert d[at..at + len][i - at] == d[i];
      assert r[i - at] == d[i];
    }
  }

  lemma ShortWordNotDivisible(p: Poly, at: nat, r: Poly, k: nat, g: Poly)
    requires Monic32(g) && g[32] && |r| == 32 && r != Zeros(32)
    requires p == Zeros(at) + (r + Zeros(k))
    ensures Remainder(p, g) != Zeros(32)
  {
    ShiftedNotDivisible(r, k, g);
    LeadingZeros(at, r + Zeros(k), g);
  }

  /** A difference confined to 32 bits is never a multiple of a divisor with a constant term. */
  lemma BurstNotDivisible(v: seq<bool>, w: seq<bool>, at: nat, len: nat, g: Poly)
    requires Monic32(g) && g[32] && AgreeOutside(v, w, at, len) && len <= 32 && v != w
    ensures Remainder(Add(v, w) + Zeros(32), g) != Zeros(32)
  {
    var r := Add(v, w)[at..at + len] + Zeros(32 - len);
    BurstShape(v, w, at, len, r);
    ShortWordNotDivisible(Add(v, w) + Zeros(32), at, r, |v| - at, g);
  }
}
