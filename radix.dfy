/** Products, sums and mixed-radix numbers over sequences of naturals.

    The sizing pass of the Khatri-Rao product multiplies row counts and
    per-column nonzero counts and adds column sizes; the filling pass builds
    each output row index as a mixed-radix number whose digits are the input
    row indices.  This module holds those notions and their facts. */
module Radix {

  /** Product of `s`, folded from the left the way an accumulator loop builds it. */
  function Prod(s: seq<nat>): nat
  {
    if |s| == 0 then 1 else Prod(s[..|s| - 1]) * s[|s| - 1]
  }

  /** Sum of `s`, folded from the left the way an accumulator loop builds it. */
  function Sum(s: seq<nat>): nat
  {
    if |s| == 0 then 0 else Sum(s[..|s| - 1]) + s[|s| - 1]
  }

  /** The left fold can be peeled from the front as well. */
  lemma {:induction false} ProdCons(s: seq<nat>)
    requires |s| > 0
    ensures Prod(s) == s[0] * Prod(s[1..])
  {
    if |s| == 1 {
      assert s[..0] == [] && s[1..] == [];
    } else {
      var init := s[..|s| - 1];
      ProdCons(init);
      assert init[1..] == s[1..][..|s| - 2];
      calc {
        Prod(s);
        Prod(init) * s[|s| - 1];
        (s[0] * Prod(init[1..])) * s[|s| - 1];
        s[0] * (Prod(s[1..][..|s| - 2]) * s[1..][|s| - 2]);
        s[0] * Prod(s[1..]);
      }
    }
  }

  /** A product is zero exactly when one of its factors is. */
  lemma {:induction false} ProdZero(s: seq<nat>)
    ensures Prod(s) == 0 <==> exists j :: 0 <= j < |s| && s[j] == 0
  {
    if |s| > 0 {
      var init := s[..|s| - 1];
      ProdZero(init);
      if Prod(s) == 0 {
        if s[|s| - 1] != 0 {
          var j :| 0 <= j < |init| && init[j] == 0;
          assert s[j] == 0;
        }
      } else {
        forall j | 0 <= j < |s| ensures s[j] != 0 {
          if j < |s| - 1 { assert s[j] == init[j]; }
        }
      }
    }
  }

  /** Extending a prefix by one element adds that element to its sum. */
  lemma SumStep(s: seq<nat>, i: nat)
    requires i < |s|
    ensures Sum(s[..i + 1]) == Sum(s[..i]) + s[i]
  {
    assert s[..i + 1][..i] == s[..i];
  }

  /** Sums of longer prefixes are never smaller. */
  lemma {:induction false} SumPrefixMonotone(s: seq<nat>, i: nat, j: nat)
    requires i <= j <= |s|
    ensures Sum(s[..i]) <= Sum(s[..j])
    decreases j - i
  {
    if i < j {
      SumStep(s, i);
      SumPrefixMonotone(s, i + 1, j);
    }
  }

  /** An array built by `out[0] = 0; out[e + 1] = out[e] + s[e]` holds the
      prefix sums of `s`, and so never decreases. */
  lemma PrefixSums(out: seq<nat>, s: seq<nat>)
    requires |out| == |s| + 1 && out[0] == 0
    requires forall e :: 0 <= e < |s| ==> out[e + 1] == out[e] + s[e]
    ensures forall e :: 0 <= e <= |s| ==> out[e] == Sum(s[..e])
    ensures forall e, f :: 0 <= e <= f <= |s| ==> out[e] <= out[f]
  {
    forall e | 0 <= e <= |s| ensures out[e] == Sum(s[..e]) {
      PrefixSum(out, s, e);
    }
    forall e, f | 0 <= e <= f <= |s| ensures out[e] <= out[f] {
      SumPrefixMonotone(s, e, f);
    }
  }

  lemma {:induction false} PrefixSum(out: seq<nat>, s: seq<nat>, e: nat)
    requires |out| == |s| + 1 && out[0] == 0
    requires forall e :: 0 <= e < |s| ==> out[e + 1] == out[e] + s[e]
    requires e <= |s|
    ensures out[e] == Sum(s[..e])
  {
    if e > 0 {
      PrefixSum(out, s, e - 1);
      SumStep(s, e - 1);
    }
  }

  /** Every digit lies below its radix. */
  predicate InRadix(d: seq<nat>, r: seq<nat>)
  {
    |d| == |r| && forall j :: 0 <= j < |d| ==> d[j] < r[j]
  }

  /** Value of the digits `d` in the mixed radix `r`, most significant digit
      first: digit j weighs the product of all radices after it. */
  function Compose(d: seq<nat>, r: seq<nat>): nat
    requires |d| == |r|
  {
    if |d| == 0 then 0 else d[0] * Prod(r[1..]) + Compose(d[1..], r[1..])
  }

  /** A mixed-radix number whose digits are in range is below the product of the radices. */
  lemma {:induction false} ComposeBound(d: seq<nat>, r: seq<nat>)
    requires InRadix(d, r)
    ensures Compose(d, r) < Prod(r)
  {
    if |d| == 0 {
    } else {
      var p := Prod(r[1..]);
      ComposeBound(d[1..], r[1..]);
      ProdCons(r);
      assert d[0] + 1 <= r[0];
      MulMonotone(d[0] + 1, r[0], p);
      assert Compose(d, r) < d[0] * p + p == (d[0] + 1) * p;
    }
  }

  lemma MulMonotone(x: nat, y: nat, z: nat)
    requires x <= y
    ensures x * z <= y * z
  {
  }

  /** Splits `v` into digits in the mixed radix `r`, most significant first. */
  function Decompose(v: nat, r: seq<nat>): (d: seq<nat>)
    requires forall j :: 0 <= j < |r| ==> r[j] > 0
    ensures |d| == |r|
  {
    if |r| == 0 then []
    else
      ProdZero(r[1..]);
      var p := Prod(r[1..]);
      [v / p] + Decompose(v % p, r[1..])
  }

  /** Division by a positive `p` undoes `q * p + rem` when `rem < p`. */
  lemma DivModUnique(q: nat, p: nat, rem: nat)
    requires rem < p
    ensures (q * p + rem) / p == q && (q * p + rem) % p == rem
  {
    var v := q * p + rem;
    var k := v / p - q;
    assert k * p == rem - v % p;
    if k >= 1 {
      MulMonotone(1, k, p);
    }
  }

  /** Round trip: decomposing a composed number gives back its digits. */
  lemma {:induction false} DecomposeCompose(d: seq<nat>, r: seq<nat>)
    requires InRadix(d, r)
    ensures forall j :: 0 <= j < |r| ==> r[j] > 0
    ensures Decompose(Compose(d, r), r) == d
  {
    if |d| > 0 {
      var p := Prod(r[1..]);
      ComposeBound(d[1..], r[1..]);
      DivModUnique(d[0], p, Compose(d[1..], r[1..]));
      DecomposeCompose(d[1..], r[1..]);
    }
  }

  /** Round trip the other way: composing the digits of a number below the
      product of the radices gives back the number. */
  lemma {:induction false} ComposeDecompose(v: nat, r: seq<nat>)
    requires forall j :: 0 <= j < |r| ==> r[j] > 0
    requires v < Prod(r)
    ensures InRadix(Decompose(v, r), r)
    ensures Compose(Decompose(v, r), r) == v
  {
    if |r| > 0 {
      ProdZero(r[1..]);
      var p := Prod(r[1..]);
      var q, rem := v / p, v % p;
      ComposeDecompose(rem, r[1..]);
      ProdCons(r);
      DivBound(v, p, r[0]);
      var d := Decompose(v, r);
      assert d == [q] + Decompose(rem, r[1..]);
      assert d[1..] == Decompose(rem, r[1..]);
    }
  }

  /** The quotient by `p` of a number below `k * p` is below `k`. */
  lemma DivBound(v: nat, p: nat, k: nat)
    requires p > 0 && v < k * p
    ensures v / p < k && v == (v / p) * p + v % p && v % p < p
  {
    if v / p >= k {
      MulMonotone(k, v / p, p);
    }
  }

  /** Lexicographic order on sequences of equal length. */
  predicate LexLess(s: seq<nat>, u: seq<nat>)
  {
    |s| == |u| && exists j :: 0 <= j < |s| && s[..j] == u[..j] && s[j] < u[j]
  }

  /** Two different sequences of one length are ordered one way or the other. */
  lemma {:induction false} LexTotal(s: seq<nat>, u: seq<nat>)
    requires |s| == |u| && s != u
    ensures LexLess(s, u) || LexLess(u, s)
  {
    if s[0] != u[0] {
      assert s[..0] == u[..0];
    } else {
      assert s == [s[0]] + s[1..] && u == [u[0]] + u[1..];
      LexTotal(s[1..], u[1..]);
      if LexLess(s[1..], u[1..]) {
        var j :| 0 <= j < |s| - 1 && s[1..][..j] == u[1..][..j] && s[1..][j] < u[1..][j];
        assert s[..j + 1] == [s[0]] + s[1..][..j];
        assert u[..j + 1] == [u[0]] + u[1..][..j];
      } else {
        var j :| 0 <= j < |s| - 1 && u[1..][..j] == s[1..][..j] && u[1..][j] < s[1..][j];
        assert s[..j + 1] == [s[0]] + s[1..][..j];
        assert u[..j + 1] == [u[0]] + u[1..][..j];
      }
    }
  }

  /** Composing is strictly monotone in the lexicographic order of the digits. */
  lemma {:induction false} ComposeLexMonotone(d: seq<nat>, e: seq<nat>, r: seq<nat>)
    requires InRadix(d, r) && InRadix(e, r) && LexLess(d, e)
    ensures Compose(d, r) < Compose(e, r)
  {
    var j :| 0 <= j < |d| && d[..j] == e[..j] && d[j] < e[j];
    var p := Prod(r[1..]);
    if j == 0 {
      ComposeBound(d[1..], r[1..]);
      MulMonotone(d[0] + 1, e[0], p);
      assert Compose(d, r) < (d[0] + 1) * p;
    } else {
      assert d[0] == d[..j][0] == e[..j][0] == e[0];
      assert d[1..][..j - 1] == e[1..][..j - 1] by {
        assert d[1..][..j - 1] == d[..j][1..];
        assert e[1..][..j - 1] == e[..j][1..];
      }
      assert LexLess(d[1..], e[1..]) by {
        assert d[1..][j - 1] < e[1..][j - 1];
      }
      ComposeLexMonotone(d[1..], e[1..], r[1..]);
    }
  }

  /** Horner evaluation: shift the accumulator by each radix and add each
      digit, most significant first, as the kernel builds a row index. */
  function Horner(acc: nat, d: seq<nat>, r: seq<nat>): nat
    requires |d| == |r|
    decreases |d|
  {
    if |d| == 0 then acc else Horner(acc * r[0] + d[0], d[1..], r[1..])
  }

  /** Horner evaluation agrees with the positional value. */
  lemma {:induction false} HornerCompose(acc: nat, d: seq<nat>, r: seq<nat>)
    requires |d| == |r|
    ensures Horner(acc, d, r) == acc * Prod(r) + Compose(d, r)
    decreases |d|
  {
    if |d| > 0 {
      var q := Prod(r[1..]);
      HornerCompose(acc * r[0] + d[0], d[1..], r[1..]);
      ProdCons(r);
      ShiftDistributes(acc, r[0], d[0], q);
    }
  }

  lemma ShiftDistributes(acc: nat, radix: nat, digit: nat, q: nat)
    ensures (acc * radix + digit) * q == acc * (radix * q) + digit * q
  {
    calc {
      (acc * radix + digit) * q;
      (acc * radix) * q + digit * q;
      acc * (radix * q) + digit * q;
    }
  }

  /** Product of a sequence of signed values, first factor outermost.  Kept
      apart from `Prod`, which folds counts (naturals) from the left as the
      sizing loops do: entry values may be negative, and the fill multiplies
      them in from the first input on, as `MulAll` does. */
  function IntProd(v: seq<int>): int
  {
    if |v| == 0 then 1 else v[0] * IntProd(v[1..])
  }

  /** Multiply the accumulator by each factor in turn, as the kernel builds a value. */
  function MulAll(acc: int, v: seq<int>): int
    decreases |v|
  {
    if |v| == 0 then acc else MulAll(acc * v[0], v[1..])
  }

  /** Multiplying in turn is multiplying by the product. */
  lemma {:induction false} MulAllProd(acc: int, v: seq<int>)
    ensures MulAll(acc, v) == acc * IntProd(v)
    decreases |v|
  {
    if |v| > 0 {
      MulAllProd(acc * v[0], v[1..]);
      assert (acc * v[0]) * IntProd(v[1..]) == acc * (v[0] * IntProd(v[1..]));
    }
  }
}
