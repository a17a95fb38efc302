/**
 * The perfect base-sigma rolling hash of k-windows (fast_simple_lcsk/rolling_hasher.{h,cc}).
 * Hashes are unbounded naturals here; the 64-bit width of the source is not modelled.
 */
module Hashing {
  import opened Text

  /** A 256-entry character-to-id table (`std::vector<char>` of size 256 in the source). */
  type IdTable = t: seq<int> | |t| == 256 witness seq(256, _ => 0)

  function Id(ids: IdTable, c: Byte): int
  {
    ids[c as int]
  }

  function Pow(base: nat, e: nat): (r: nat)
    ensures base >= 1 ==> r >= 1
  {
    if e == 0 then 1 else base * Pow(base, e - 1)
  }

  /** Every character of s has an id in [0, sigma). */
  predicate IdsBelow(ids: IdTable, s: Str, sigma: int)
  {
    forall i :: 0 <= i < |s| ==> 0 <= Id(ids, s[i]) < sigma
  }

  /** Two characters, one of u and one of v, with the same id are the same character. */
  predicate Consistent(ids: IdTable, u: Str, v: Str)
  {
    forall i, j :: 0 <= i < |u| && 0 <= j < |v| && Id(ids, u[i]) == Id(ids, v[j]) ==> u[i] == v[j]
  }

  /** The base-sigma number whose digits are the ids of w, most significant first. */
  function Value(ids: IdTable, sigma: nat, w: Str): int
  {
    if |w| == 0 then 0 else Value(ids, sigma, w[..|w| - 1]) * sigma + Id(ids, w[|w| - 1])
  }

  /** The hash of the window s[i, i+k). */
  function WindowHash(ids: IdTable, sigma: nat, s: Str, i: nat, k: nat): int
    requires i + k <= |s|
  {
    Value(ids, sigma, s[i..i + k])
  }

  lemma MulAtLeast(d: int, p: int)
    requires d >= 1 && p > 0
    ensures d * p >= p
  {
    assert d * p == (d - 1) * p + p;
  }

  /** Appending a digit d < sigma to a number x < p gives a number below p * sigma. */
  lemma DigitBound(x: int, d: int, p: int, sigma: nat)
    requires 0 <= x < p && 0 <= d < sigma
    ensures 0 <= x * sigma + d < sigma * p
  {
    MulNonNegative(x, sigma);
    MulNonNegative(p - 1 - x, sigma);
    MulDistributes(p - 1 - x, x, sigma);
    MulDistributes(p - 1, 1, sigma);
  }

  lemma MulNonNegative(x: int, y: int)
    requires x >= 0 && y >= 0
    ensures x * y >= 0
  {
  }

  lemma MulDistributes(x: int, y: int, z: int)
    ensures (x + y) * z == x * z + y * z && z * (x + y) == (x + y) * z
  {
  }

  /** Euclidean division of x*p + v by p, for a digit v < p. */
  lemma DivModUnique(x: int, p: int, v: int)
    requires p > 0 && 0 <= v < p
    ensures (x * p + v) / p == x && (x * p + v) % p == v
  {
    var n := x * p + v;
    var q, r := n / p, n % p;
    assert n == q * p + r;
    var d := x - q;
    assert d * p == x * p - q * p;
    assert d * p == r - v;
    if d >= 1 {
      MulAtLeast(d, p);
    } else if d <= -1 {
      MulAtLeast(-d, p);
    }
  }

  lemma {:induction false} ValueBound(ids: IdTable, sigma: nat, w: Str)
    requires IdsBelow(ids, w, sigma)
    ensures 0 <= Value(ids, sigma, w) < Pow(sigma, |w|)
  {
    if |w| > 0 {
      var u := w[..|w| - 1];
      assert IdsBelow(ids, u, sigma) by {
        forall i | 0 <= i < |u| ensures 0 <= Id(ids, u[i]) < sigma { assert u[i] == w[i]; }
      }
      ValueBound(ids, sigma, u);
      DigitBound(Value(ids, sigma, u), Id(ids, w[|w| - 1]), Pow(sigma, |u|), sigma);
    }
  }

  /** Horner's rule split at any point: Value(u + v) == Value(u) * sigma^|v| + Value(v). */
  lemma {:induction false} ValueAppend(ids: IdTable, sigma: nat, u: Str, v: Str)
    ensures Value(ids, sigma, u + v) == Value(ids, sigma, u) * Pow(sigma, |v|) + Value(ids, sigma, v)
  {
    if |v| == 0 {
      assert u + v == u;
    } else {
      var v' := v[..|v| - 1];
      assert (u + v)[..|u + v| - 1] == u + v';
      assert (u + v)[|u + v| - 1] == v[|v| - 1];
      ValueAppend(ids, sigma, u, v');
      var x, y, d := Value(ids, sigma, u), Value(ids, sigma, v'), Id(ids, v[|v| - 1]);
      var p := Pow(sigma, |v'|);
      assert Value(ids, sigma, u + v) == (x * p + y) * sigma + d;
      assert Pow(sigma, |v|) == sigma * p;
      HornerStep(x, p, y, sigma, d);
    }
  }

  /** The arithmetic step of ValueAppend. */
  lemma HornerStep(x: int, p: int, y: int, sigma: int, d: int)
    ensures (x * p + y) * sigma + d == x * (sigma * p) + (y * sigma + d)
  {
    assert (x * p + y) * sigma == x * p * sigma + y * sigma;
    assert x * p * sigma == x * (sigma * p);
  }

  /**
   * One rolling step: the hash of s[c-1, c-1+k) times sigma plus the id of s[c+k-1],
   * reduced mod sigma^k, is the hash of s[c, c+k).
   */
  lemma RollStep(ids: IdTable, sigma: nat, s: Str, c: nat, k: nat)
    requires 1 <= c && c + k <= |s| && k >= 1
    requires IdsBelow(ids, s, sigma)
    ensures (WindowHash(ids, sigma, s, c - 1, k) * sigma + Id(ids, s[c + k - 1])) % Pow(sigma, k)
            == WindowHash(ids, sigma, s, c, k)
  {
    var w := s[c - 1..c + k];
    assert w[..|w| - 1] == s[c - 1..c - 1 + k];
    assert w[|w| - 1] == s[c + k - 1];
    assert Value(ids, sigma, w) == WindowHash(ids, sigma, s, c - 1, k) * sigma + Id(ids, s[c + k - 1]);
    assert w == [s[c - 1]] + s[c..c + k];
    ValueAppend(ids, sigma, [s[c - 1]], s[c..c + k]);
    var v := s[c..c + k];
    assert IdsBelow(ids, v, sigma) by {
      forall i | 0 <= i < |v| ensures 0 <= Id(ids, v[i]) < sigma { assert v[i] == s[c + i]; }
    }
    ValueBound(ids, sigma, v);
    assert Value(ids, sigma, [s[c - 1]]) == Id(ids, s[c - 1]) by {
      assert [s[c - 1]][..0] == [];
    }
    assert sigma >= 1 by { assert 0 <= Id(ids, s[c]) < sigma; }
    DivModUnique(Id(ids, s[c - 1]), Pow(sigma, k), Value(ids, sigma, v));
  }

  /**
   * The perfect-hash claim: for windows of equal length whose characters have
   * consistent ids below sigma, equal values means equal windows.
   */
  lemma {:induction false} ValueInjective(ids: IdTable, sigma: nat, u: Str, v: Str)
    requires |u| == |v|
    requires IdsBelow(ids, u, sigma) && IdsBelow(ids, v, sigma) && Consistent(ids, u, v)
    ensures Value(ids, sigma, u) == Value(ids, sigma, v) <==> u == v
  {
    if |u| > 0 && Value(ids, sigma, u) == Value(ids, sigma, v) {
      var n := |u| - 1;
      var u', v' := u[..n], v[..n];
      assert IdsBelow(ids, u', sigma) by {
        forall i | 0 <= i < n ensures 0 <= Id(ids, u'[i]) < sigma { assert u'[i] == u[i]; }
      }
      assert IdsBelow(ids, v', sigma) by {
        forall i | 0 <= i < n ensures 0 <= Id(ids, v'[i]) < sigma { assert v'[i] == v[i]; }
      }
      assert Consistent(ids, u', v') by {
        forall i, j | 0 <= i < n && 0 <= j < n && Id(ids, u'[i]) == Id(ids, v'[j])
          ensures u'[i] == v'[j]
        {
          assert u'[i] == u[i] && v'[j] == v[j];
        }
      }
      var du, dv := Id(ids, u[n]), Id(ids, v[n]);
      DivModUnique(Value(ids, sigma, u'), sigma, du);
      DivModUnique(Value(ids, sigma, v'), sigma, dv);
      assert du == dv;
      assert u[n] == v[n];
      ValueInjective(ids, sigma, u', v');
      assert u == u' + [u[n]] && v == v' + [v[n]];
    }
  }

  /**
   * The perfect-hash claim at the level of windows: with ids below sigma that are
   * consistent between a and b, two k-windows hash alike exactly when they are equal.
   */
  lemma WindowHashPerfect(ids: IdTable, sigma: nat, a: Str, i: nat, b: Str, j: nat, k: nat)
    requires i + k <= |a| && j + k <= |b|
    requires IdsBelow(ids, a, sigma) && IdsBelow(ids, b, sigma) && Consistent(ids, a, b)
    ensures WindowHash(ids, sigma, a, i, k) == WindowHash(ids, sigma, b, j, k) <==> SameWindow(a, i, b, j, k)
  {
    var u, v := a[i..i + k], b[j..j + k];
    assert IdsBelow(ids, u, sigma) by {
      forall t | 0 <= t < k ensures 0 <= Id(ids, u[t]) < sigma { assert u[t] == a[i + t]; }
    }
    assert IdsBelow(ids, v, sigma) by {
      forall t | 0 <= t < k ensures 0 <= Id(ids, v[t]) < sigma { assert v[t] == b[j + t]; }
    }
    assert Consistent(ids, u, v) by {
      forall x, y | 0 <= x < k && 0 <= y < k && Id(ids, u[x]) == Id(ids, v[y]) ensures u[x] == v[y] {
        assert u[x] == a[i + x] && v[y] == b[j + y];
      }
    }
    ValueInjective(ids, sigma, u, v);
  }

  /**
   * `RollingHasher`: produces, one call at a time, the hash of every k-window of s.
   * The string, k, the id table and the alphabet size are fixed at construction;
   * only `hash` and `col` change.
   */
  class RollingHasher {
    const s: Str
    const k: nat
    const ids: IdTable
    const sigma: nat
    const hashMod: nat
    var hash: int
    var col: nat

    ghost predicate Valid()
      reads this
    {
      && k >= 1
      && IdsBelow(ids, s, sigma)
      && hashMod == Pow(sigma, k)
      && (col == 0 || col + k <= |s| + 1)
      && (col > 0 ==> hash == WindowHash(ids, sigma, s, col - 1, k))
    }

    constructor (s: Str, k: nat, ids: IdTable, sigma: nat)
      requires k >= 1 && IdsBelow(ids, s, sigma)
      ensures Valid()
      ensures this.s == s && this.k == k && this.ids == ids && this.sigma == sigma
      ensures hashMod == Pow(sigma, k) && col == 0
    {
      var m := 1;
      var i := 0;
      while i < k
        invariant 0 <= i <= k
        invariant m == Pow(sigma, i)
      {
        m := m * sigma;
        i := i + 1;
      }
      this.s := s;
      this.k := k;
      this.ids := ids;
      this.sigma := sigma;
      hashMod := m;
      col := 0;
      hash := 0;
    }

    /**
     * `Next`: on success returns the hash of s[col, col+k) and advances col by one;
     * once col + k > |s| it fails and changes nothing. `prior` is the caller's
     * variable, which a failing call leaves as it was.
     */
    method Next(prior: nat) returns (ok: bool, h: nat)
      requires Valid()
      modifies this`hash, this`col
      ensures Valid()
      ensures ok <==> old(col) + k <= |s|
      ensures !ok ==> h == prior && col == old(col) && hash == old(hash)
      ensures ok ==> col == old(col) + 1 && h == WindowHash(ids, sigma, s, old(col), k)
      ensures ok ==> h < hashMod
    {
      if col + k > |s| {
        return false, prior;
      }
      if col == 0 {
        var warm := 0;
        var i := 0;
        while i < k - 1
          invariant 0 <= i <= k - 1
          invariant warm == Value(ids, sigma, s[..i])
        {
          assert s[..i + 1][..i] == s[..i];
          warm := warm * sigma + Id(ids, s[i]);
          i := i + 1;
        }
        hash := warm;
      }
      ghost var before := hash;
      hash := hash * sigma + Id(ids, s[col + k - 1]);
      assert sigma >= 1 by { assert 0 <= Id(ids, s[col]) < sigma; }
      if col == 0 {
        var w := s[..k];
        assert w[..k - 1] == s[..k - 1];
        assert hash == Value(ids, sigma, w);
        assert IdsBelow(ids, w, sigma) by {
          forall i | 0 <= i < k ensures 0 <= Id(ids, w[i]) < sigma { assert w[i] == s[i]; }
        }
        ValueBound(ids, sigma, w);
        DivModUnique(0, hashMod, hash);
        assert s[0..0 + k] == w;
      } else {
        RollStep(ids, sigma, s, col, k);
      }
      hash := hash % hashMod;
      h := hash;
      col := col + 1;
      ok := true;
    }
  }
}
