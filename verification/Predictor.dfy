/**
 What the eight reflection coefficients are for: the linear predictor built from them satisfies the normal
 equations of the autocorrelations.  The lattice is written in real arithmetic, the integer recursion is
 shown to follow it, and the lattice is shown to hold the correlations of the predictor.
 */
module Predictor {
  import opened Arithmetic
  import opened FixedPoint
  import opened Normalize
  import opened Lpc

  /** The coefficient a word stands for. */
  ghost function Rho(w: Word): real { w as real / 32768.0 }

  /** x plus a coefficient times y: what a stage does to its two signals. */
  ghost function Turned(x: real, rho: real, y: real): real { x + rho * y }

  ghost function Term(a: real, x: real): real { a * x }

  ghost predicate Near(x: real, y: real, e: real) { -e <= x - y <= e }

  // ---------------------------------------------------------------- the lattice in real arithmetic

  /** The autocorrelation at lag `j`, which is that at lag -j. */
  ghost function Auto(p: seq<Word>, j: int): real
    requires |p| == 9 && -8 <= j <= 8
  {
    (if j < 0 then p[-j] else p[j]) as real
  }

  /** The forward signal after `n` stages with coefficients `r`, at lag `j`. */
  ghost function Forward(p: seq<Word>, r: seq<Word>, n: nat, j: int): real
    requires |p| == 9 && n <= |r| && n - 8 <= j <= 8
    decreases n
  {
    if n == 0 then Auto(p, j) else Turned(Forward(p, r, n - 1, j), Rho(r[n - 1]), Backward(p, r, n - 1, j - 1))
  }

  /** The backward signal. */
  ghost function Backward(p: seq<Word>, r: seq<Word>, n: nat, j: int): real
    requires |p| == 9 && n <= |r| && n - 8 <= j <= 8
    decreases n
  {
    if n == 0 then Auto(p, j) else Turned(Backward(p, r, n - 1, j - 1), Rho(r[n - 1]), Forward(p, r, n - 1, j))
  }

  lemma AutoEven(p: seq<Word>, j: int)
    requires |p| == 9 && -8 <= j <= 8
    ensures Auto(p, j) == Auto(p, -j)
  {
  }

  /** One is the mirror image of the other. */
  lemma {:induction false} Mirror(p: seq<Word>, r: seq<Word>, n: nat, j: int)
    requires |p| == 9 && n <= |r| && n - 8 <= j <= 8
    ensures Backward(p, r, n, j) == Forward(p, r, n, n - j)
    decreases n
  {
    hide Rho, Auto, Turned;
    if n == 0 {
      AutoEven(p, j);
    } else {
      Mirror(p, r, n - 1, j - 1);
      Mirror(p, r, n - 1, n - 1 - j);
    }
  }

  // ---------------------------------------------------------------- the predictor

  /** Coefficient `i` of the predictor after `n` stages, and of its backward companion. */
  ghost function Forecast(r: seq<Word>, n: nat, i: int): real
    requires n <= |r|
    decreases n
  {
    if i < 0 || i > n then 0.0
    else if n == 0 then 1.0
    else Turned(Forecast(r, n - 1, i), Rho(r[n - 1]), Hindcast(r, n - 1, i - 1))
  }

  ghost function Hindcast(r: seq<Word>, n: nat, i: int): real
    requires n <= |r|
    decreases n
  {
    if i < 0 || i > n then 0.0
    else if n == 0 then 1.0
    else Turned(Hindcast(r, n - 1, i - 1), Rho(r[n - 1]), Forecast(r, n - 1, i))
  }

  /** The correlation of the predictor's first `k` coefficients with the autocorrelations, at lag `j`. */
  ghost function Applied(p: seq<Word>, r: seq<Word>, n: nat, j: int, k: nat): real
    requires |p| == 9 && n <= |r| && n - 8 <= j <= 8 && k <= n + 1
  {
    if k == 0 then 0.0 else Applied(p, r, n, j, k - 1) + Term(Forecast(r, n, k - 1), Auto(p, j - (k - 1)))
  }

  ghost function AppliedBack(p: seq<Word>, r: seq<Word>, n: nat, j: int, k: nat): real
    requires |p| == 9 && n <= |r| && n - 8 <= j <= 8 && k <= n + 1
  {
    if k == 0 then 0.0 else AppliedBack(p, r, n, j, k - 1) + Term(Hindcast(r, n, k - 1), Auto(p, j - (k - 1)))
  }

  /** The predictor is monic. */
  lemma {:induction false} LeadingOne(r: seq<Word>, n: nat)
    requires n <= |r|
    ensures Forecast(r, n, 0) == 1.0
  {
    if n > 0 {
      LeadingOne(r, n - 1);
    }
  }

  lemma TurnedSum(s: real, t: real, rho: real, a: real, b: real, x: real)
    ensures Turned(s, rho, t) + Term(Turned(a, rho, b), x) == Turned(s + Term(a, x), rho, t + Term(b, x))
  {
    assert (a + rho * b) * x == a * x + rho * (b * x);
    assert rho * (t + b * x) == rho * t + rho * (b * x);
  }

  lemma TurnedZero(rho: real, x: real)
    ensures Turned(0.0, rho, 0.0) == 0.0 && Term(0.0, x) == 0.0 && Term(1.0, x) == x
  {
  }

  /** A stage turns the two correlations as it turns the two predictors. */
  lemma {:induction false} AppliedStep(p: seq<Word>, r: seq<Word>, n: nat, j: int, k: nat)
    requires |p| == 9 && 1 <= n <= |r| && n - 8 <= j <= 8 && 1 <= k <= n
    ensures var rho, s, t := Rho(r[n - 1]), Applied(p, r, n - 1, j, k), AppliedBack(p, r, n - 1, j - 1, k - 1);
            Applied(p, r, n, j, k) == Turned(s, rho, t) && AppliedBack(p, r, n, j, k) == Turned(t, rho, s)
  {
    hide Rho, Auto, Turned, Term;
    var rho, x := Rho(r[n - 1]), Auto(p, j - (k - 1));
    var a, b := Forecast(r, n - 1, k - 1), Hindcast(r, n - 1, k - 2);
    TurnedZero(rho, x);
    if k == 1 {
      TurnedSum(0.0, 0.0, rho, a, b, x);
      TurnedSum(0.0, 0.0, rho, b, a, x);
    } else {
      AppliedStep(p, r, n, j, k - 1);
      var s, t := Applied(p, r, n - 1, j, k - 1), AppliedBack(p, r, n - 1, j - 1, k - 2);
      TurnedSum(s, t, rho, a, b, x);
      TurnedSum(t, s, rho, b, a, x);
    }
  }

  /** The lattice holds the correlations of the predictor and of its companion. */
  lemma {:induction false} LatticeIsPredictor(p: seq<Word>, r: seq<Word>, n: nat, j: int)
    requires |p| == 9 && n <= |r| && n - 8 <= j <= 8
    ensures Forward(p, r, n, j) == Applied(p, r, n, j, n + 1)
    ensures Backward(p, r, n, j) == AppliedBack(p, r, n, j, n + 1)
    decreases n
  {
    hide Rho, Auto, Turned, Term;
    if n == 0 {
      TurnedZero(0.0, Auto(p, j));
      assert Applied(p, r, 0, j, 1) == Applied(p, r, 0, j, 0) + Term(Forecast(r, 0, 0), Auto(p, j));
      assert AppliedBack(p, r, 0, j, 1) == AppliedBack(p, r, 0, j, 0) + Term(Hindcast(r, 0, 0), Auto(p, j));
    } else {
      LatticeIsPredictor(p, r, n - 1, j);
      LatticeIsPredictor(p, r, n - 1, j - 1);
      AppliedStep(p, r, n, j, n);
      var rho, x, b := Rho(r[n - 1]), Auto(p, j - n), Hindcast(r, n - 1, n - 1);
      var s, t := Applied(p, r, n - 1, j, n), AppliedBack(p, r, n - 1, j - 1, n - 1);
      TurnedZero(rho, x);
      TurnedSum(s, t, rho, 0.0, b, x);
      TurnedSum(t, s, rho, b, 0.0, x);
      assert Forecast(r, n, n) == Turned(0.0, rho, b) && Hindcast(r, n, n) == Turned(b, rho, 0.0);
    }
  }

  // ---------------------------------------------------------------- the integer recursion

  /** The arrays K starts from: the autocorrelations of lags 1 to 7. */
  function FirstK(p: seq<Word>): (k: seq<Word>)
    requires |p| == 9
    ensures |k| == 9
  {
    p[0 := 0][8 := 0]
  }

  /** The coefficients found for normalized autocorrelations `p`. */
  function Found(p: seq<Word>): (r: seq<Word>)
    requires |p| == 9
    ensures |r| == 8 && forall i :: 0 <= i < 8 ==> -32767 <= r[i] <= 32767
  {
    Reflections(p, FirstK(p), 1)
  }

  /** P and K after `n` stages. */
  function Arrays(p: seq<Word>, n: nat): (a: (seq<Word>, seq<Word>))
    requires |p| == 9 && n <= 7
    ensures |a.0| == |a.1| == 9
  {
    if n == 0 then (p, FirstK(p))
    else
      var (q, k) := Arrays(p, n - 1);
      (NextP(q, k, Found(p)[n - 1], n), NextK(q, k, Found(p)[n - 1], n))
  }

  /** The recursion finds its first `n` coefficients without meeting P[0] < |P[1]|. */
  ghost predicate GoesOn(p: seq<Word>, n: nat)
    requires |p| == 9 && n <= 8
  {
    forall i :: 0 <= i < n ==> Abs(Arrays(p, i).0[1]) <= Arrays(p, i).0[0]
  }

  /** What is found from stage `n` on is found from the arrays there. */
  lemma {:induction false} FoundFrom(p: seq<Word>, n: nat)
    requires |p| == 9 && n <= 7 && GoesOn(p, n)
    ensures Found(p)[n..] == Reflections(Arrays(p, n).0, Arrays(p, n).1, n + 1)
  {
    hide NextP, NextK, Abs, Reflection;
    if n > 0 {
      FoundFrom(p, n - 1);
      var (q, k) := Arrays(p, n - 1);
      assert Found(p)[n - 1..][0] == Found(p)[n - 1] && Found(p)[n - 1..][1..] == Found(p)[n..];
      assert Found(p)[n - 1] == Reflection(q[0], q[1]);
    }
  }

  lemma FoundAt(p: seq<Word>, n: nat)
    requires |p| == 9 && n <= 7 && GoesOn(p, n + 1)
    ensures var q := Arrays(p, n).0;
            Abs(q[1]) <= q[0] && Found(p)[n] == Reflection(q[0], q[1])
  {
    hide NextP, NextK, Abs, Reflection, Arrays, Found;
    FoundFrom(p, n);
    assert Found(p)[n] == Found(p)[n..][0];
  }

  // ---------------------------------------------------------------- it follows the lattice

  ghost predicate InWord(x: real) { -32768.0 <= x <= 32767.0 }

  /** The lattice stays within the 16-bit range through stage `n`, at the lags the recursion still needs. */
  ghost predicate InRange(p: seq<Word>, n: nat)
    requires |p| == 9 && n <= 8
  {
    forall i, j :: 0 <= i <= n && i < j <= 8 ==>
      InWord(Forward(p, Found(p), i, j)) && InWord(Backward(p, Found(p), i, j))
  }

  /** The rounding error after `n` stages, at most. */
  ghost function Drift(n: nat): real { (Pow2(n) as real - 1.0) / 2.0 }

  lemma DriftStep(n: nat)
    ensures Drift(n + 1) == 2.0 * Drift(n) + 0.5 && Drift(0) == 0.0 && Drift(n) >= 0.0
  {
  }

  lemma ScaledSize(rho: real, d: real, e: real)
    requires -1.0 <= rho <= 1.0 && -e <= d <= e
    ensures -e <= rho * d <= e
  {
    var s := if rho < 0.0 then -rho else rho;
    var t := if d < 0.0 then -d else d;
    assert 0.0 <= s * t <= 1.0 * t;
    assert rho * d == s * t || rho * d == -(s * t);
  }

  lemma ScaledNear(rho: real, x: real, y: real, e: real)
    requires -1.0 <= rho <= 1.0 && Near(x, y, e)
    ensures Near(rho * x, rho * y, e)
  {
    ScaledSize(rho, x - y, e);
    assert rho * x - rho * y == rho * (x - y);
  }

  /** A rounded product with a coefficient. */
  lemma ProductNear(y: Word, r: Word, b: real, e: real)
    requires -32767 <= r && Near(y as real, b, e)
    ensures Near(MultR(y, r) as real, Rho(r) * b, e + 0.5)
  {
    ScaledNear(Rho(r), y as real, b, e);
    var m: int := MultR(y, r);
    var yr := y as int * r as int;
    assert -16384 <= yr - m * 32768 <= 16384;
    assert (y as real) * (r as real) == yr as real;
    assert Rho(r) * (y as real) == yr as real / 32768.0;
  }

  /** One end of a stage, saturated or not, is no further from the lattice than that allows. */
  lemma ReflectedNear(x: Word, y: Word, r: Word, a: real, b: real, e: real)
    requires -32767 <= r && Near(x as real, a, e) && Near(y as real, b, e)
    requires InWord(Turned(a, Rho(r), b)) || Reflected(x, y, r) == x + MultR(y, r)
    ensures Near(Reflected(x, y, r) as real, Turned(a, Rho(r), b), 2.0 * e + 0.5)
  {
    hide Rho, MultR, Add;
    ProductNear(y, r, b, e);
    assert Reflected(x, y, r) == Clamp(x + MultR(y, r));
  }

  /** P[m] and K[m] after `n` stages against the lattice at lag n + m, and P[0] against the error. */
  ghost predicate Tracking(p: seq<Word>, q: seq<Word>, k: seq<Word>, n: nat)
    requires |p| == |q| == |k| == 9 && n <= 7
  {
    && Near(q[0] as real, Backward(p, Found(p), n, n), Drift(n))
    && (forall m :: 1 <= m <= 8 - n ==> Near(q[m] as real, Forward(p, Found(p), n, n + m), Drift(n)))
    && (forall m :: 1 <= m <= 7 - n ==> Near(k[m] as real, Backward(p, Found(p), n, n + m), Drift(n)))
  }

  /** Through every stage the integer arrays stay within (2^n - 1)/2 of the lattice. */
  lemma {:induction false} FollowsLattice(p: seq<Word>, n: nat)
    requires |p| == 9 && n <= 7 && GoesOn(p, n) && InRange(p, n)
    ensures Tracking(p, Arrays(p, n).0, Arrays(p, n).1, n)
  {
    hide NextP, NextK, Abs, Found, Drift, Turned, Rho, Near, InWord;
    DriftStep(n);
    if n == 0 {
      FollowsAtFirst(p);
    } else {
      FollowsLattice(p, n - 1);
      FoundAt(p, n - 1);
      var (q, k) := Arrays(p, n - 1);
      DriftStep(n - 1);
      FollowsError(p, q, k, n - 1);
      var q', k' := NextP(q, k, Found(p)[n - 1], n), NextK(q, k, Found(p)[n - 1], n);
      forall m | 1 <= m <= 8 - n
        ensures Near(q'[m] as real, Forward(p, Found(p), n, n + m), Drift(n))
      {
        FollowsP(p, q, k, n - 1, m);
      }
      forall m | 1 <= m <= 7 - n
        ensures Near(k'[m] as real, Backward(p, Found(p), n, n + m), Drift(n))
      {
        FollowsK(p, q, k, n - 1, m);
      }
    }
  }

  lemma FollowsAtFirst(p: seq<Word>)
    requires |p| == 9
    ensures Tracking(p, p, FirstK(p), 0)
  {
    hide Found;
    DriftStep(0);
  }

  lemma FollowsError(p: seq<Word>, q: seq<Word>, k: seq<Word>, n: nat)
    requires |p| == |q| == |k| == 9 && n < 7 && Tracking(p, q, k, n) && Abs(q[1]) <= q[0]
    requires Found(p)[n] == Reflection(q[0], q[1])
    ensures Near(NextP(q, k, Found(p)[n], n + 1)[0] as real, Backward(p, Found(p), n + 1, n + 1), Drift(n + 1))
  {
    hide Abs, Found, Drift, Turned, Rho, Near, InWord, Reflected, Reflection;
    DriftStep(n);
    var r := Found(p)[n];
    ErrorShrinks(q, k, n + 1);
    assert NextP(q, k, r, n + 1)[0] == Reflected(q[0], q[1], r);
    ReflectedNear(q[0], q[1], r, Backward(p, Found(p), n, n), Forward(p, Found(p), n, n + 1), Drift(n));
  }

  lemma FollowsP(p: seq<Word>, q: seq<Word>, k: seq<Word>, n: nat, m: nat)
    requires |p| == |q| == |k| == 9 && n < 7 && 1 <= m <= 7 - n && Tracking(p, q, k, n) && InRange(p, n + 1)
    ensures Near(NextP(q, k, Found(p)[n], n + 1)[m] as real, Forward(p, Found(p), n + 1, n + 1 + m), Drift(n + 1))
  {
    hide Found, Drift, Turned, Rho, Near, InWord, Reflected;
    DriftStep(n);
    assert InWord(Forward(p, Found(p), n + 1, n + 1 + m));
    assert NextP(q, k, Found(p)[n], n + 1)[m] == Reflected(q[m + 1], k[m], Found(p)[n]);
    ReflectedNear(q[m + 1], k[m], Found(p)[n], Forward(p, Found(p), n, n + (m + 1)),
                  Backward(p, Found(p), n, n + m), Drift(n));
  }

  lemma FollowsK(p: seq<Word>, q: seq<Word>, k: seq<Word>, n: nat, m: nat)
    requires |p| == |q| == |k| == 9 && n < 7 && 1 <= m <= 6 - n && Tracking(p, q, k, n) && InRange(p, n + 1)
    ensures Near(NextK(q, k, Found(p)[n], n + 1)[m] as real, Backward(p, Found(p), n + 1, n + 1 + m), Drift(n + 1))
  {
    hide Found, Drift, Turned, Rho, Near, InWord, Reflected;
    DriftStep(n);
    assert InWord(Backward(p, Found(p), n + 1, n + 1 + m));
    assert NextK(q, k, Found(p)[n], n + 1)[m] == Reflected(k[m], q[m + 1], Found(p)[n]);
    ReflectedNear(k[m], q[m + 1], Found(p)[n], Backward(p, Found(p), n, n + m),
                  Forward(p, Found(p), n, n + (m + 1)), Drift(n));
  }

  // ---------------------------------------------------------------- the normal equations

  /** The coefficient cancels P[1] against P[0]: r p0 + 32768 p1 is at most p0, or twice that at the
      smallest word, whose magnitude is taken as 32767. */
  lemma ReflectionCancels(p0: Word, p1: Word)
    requires Abs(p1) <= p0
    ensures var x := Reflection(p0, p1) as int * p0 as int + 32768 * p1;
            if p1 > -32768 then -p0 <= x <= p0 else -65535 <= x <= 65535
  {
    var q, num: int := Quotient(Abs(p1), p0), Abs(p1);
    if num < p0 {
      QuotientLargest(num, p0);
    }
    var d := num * 32768 - q * p0 as int;
    assert 0 <= d <= p0;
    assert Reflection(p0, p1) as int * p0 as int == if p1 > 0 then -(q * p0 as int) else q * p0 as int;
  }

  /** So the lattice is left with next to nothing at the lag of the new stage. */
  lemma Cancelled(p: seq<Word>, n: nat)
    requires |p| == 9 && n <= 7 && GoesOn(p, n + 1) && InRange(p, n)
    ensures Near(Forward(p, Found(p), n + 1, n + 1), 0.0, Pow2(n + 1) as real)
  {
    hide NextP, NextK, Abs, Found, Arrays, Reflection, Near, Turned, Drift, Rho, Pow2;
    FollowsLattice(p, n);
    FoundAt(p, n);
    var q := Arrays(p, n).0;
    CancelledFrom(q[0], q[1], Backward(p, Found(p), n, n), Forward(p, Found(p), n, n + 1), n);
  }

  lemma CancelledFrom(p0: Word, p1: Word, b: real, f: real, n: nat)
    requires Abs(p1) <= p0 && Near(p0 as real, b, Drift(n)) && Near(p1 as real, f, Drift(n))
    ensures Near(Turned(f, Rho(Reflection(p0, p1)), b), 0.0, Pow2(n + 1) as real)
  {
    hide Reflection, Abs, Rho, Pow2, Drift;
    var r := Reflection(p0, p1);
    ReflectionCancels(p0, p1);
    RatioNear(r, p0, p1);
    RhoSize(r);
    hide Near, Turned;
    Carried(Rho(r), p0 as real, p1 as real, b, f, Drift(n), Pow2(n + 1) as real) by { DriftRoom(n); }
  }

  lemma Carried(rho: real, x: real, y: real, b: real, f: real, d: real, e: real)
    requires -1.0 <= rho <= 1.0 && Near(x, b, d) && Near(y, f, d) && Near(rho * x + y, 0.0, 2.0)
    requires 2.0 * d + 2.0 <= e
    ensures Near(Turned(f, rho, b), 0.0, e)
  {
    ScaledNear(rho, x, b, d);
  }

  lemma DriftRoom(n: nat)
    ensures 2.0 * Drift(n) + 2.0 <= Pow2(n + 1) as real
  {
    hide Pow2;
    NextPower(n);
    assert Pow2(n + 1) as real == 2.0 * Pow2(n) as real;
  }

  lemma RhoSize(r: Word)
    ensures -1.0 <= Rho(r) <= 1.0
  {
  }

  lemma RatioNear(r: Word, p0: Word, p1: Word)
    requires -65535 <= r as int * p0 as int + 32768 * p1 <= 65535
    ensures Near(Rho(r) * (p0 as real) + p1 as real, 0.0, 2.0)
  {
    var x := r as int * p0 as int;
    assert (r as real) * (p0 as real) == x as real;
    assert Rho(r) * (p0 as real) == x as real / 32768.0;
  }

  lemma TurnedNear(f: real, rho: real, b: real, e: real)
    requires -1.0 <= rho <= 1.0 && Near(f, 0.0, e) && Near(b, 0.0, e)
    ensures Near(Turned(f, rho, b), 0.0, 2.0 * e)
  {
    ScaledNear(rho, b, 0.0, e);
  }

  /** And it keeps little at the lags of all stages before. */
  lemma {:induction false} Residual(p: seq<Word>, n: nat, j: nat)
    requires |p| == 9 && 1 <= j <= n <= 8 && GoesOn(p, n) && InRange(p, n - 1)
    ensures Near(Forward(p, Found(p), n, j), 0.0, Pow2(n) as real)
  {
    hide Abs, Found, Arrays, Near, Turned, Pow2;
    if j == n {
      Cancelled(p, n - 1);
    } else {
      Residual(p, n - 1, j);
      Residual(p, n - 1, n - j);
      Mirror(p, Found(p), n - 1, j - 1);
      NextPower(n - 1);
      TurnedNear(Forward(p, Found(p), n - 1, j), Rho(Found(p)[n - 1]), Backward(p, Found(p), n - 1, j - 1),
                 Pow2(n - 1) as real);
    }
  }

  /** The predictor of order `n` made of the first `n` coefficients satisfies the normal equations of the
      autocorrelations at every lag from 1 to `n`, to within 2^n, as long as the recursion goes on and the
      lattice stays within 16 bits. */
  lemma NormalEquations(p: seq<Word>, n: nat, j: nat)
    requires |p| == 9 && 1 <= j <= n <= 8 && GoesOn(p, n) && InRange(p, n - 1)
    ensures Forecast(Found(p), n, 0) == 1.0
    ensures Near(Applied(p, Found(p), n, j, n + 1), 0.0, Pow2(n) as real)
  {
    hide *;
    LeadingOne(Found(p), n);
    Residual(p, n, j);
    LatticeIsPredictor(p, Found(p), n, j);
  }

  /** And P[0] is its prediction error, to within (2^n - 1)/2. */
  lemma PredictionError(p: seq<Word>, n: nat)
    requires |p| == 9 && n <= 7 && GoesOn(p, n) && InRange(p, n)
    ensures Near(Arrays(p, n).0[0] as real, Applied(p, Found(p), n, 0, n + 1), Drift(n))
  {
    hide Found, Arrays, GoesOn, InRange, Forward, Backward, Applied, Near;
    FollowsLattice(p, n);
    Mirror(p, Found(p), n, n);
    LatticeIsPredictor(p, Found(p), n, 0);
  }
}
