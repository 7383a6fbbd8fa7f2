/**
 * The documented subtree hash: for the in-order keys x1, ..., xn of a subtree,
 * (x1 + x2*P + ... + xn*P^(n-1)) mod M. This is a definition only: no
 * operation of the tree recomputes the stored hash fields.
 */
module PolyHash {

  /** Base of the polynomial hash. */
  const P: int := 104729

  /** Modulus of the polynomial hash, 2^63. */
  const M: int := 0x8000_0000_0000_0000

  function Pow(b: int, n: nat): int
  {
    if n == 0 then 1 else b * Pow(b, n - 1)
  }

  /** x1 + x2*P + ... + xn*P^(n-1), before reduction. */
  function PolySum(s: seq<int>): int
  {
    if s == [] then 0 else s[0] + P * PolySum(s[1..])
  }

  function HashOf(s: seq<int>): (h: int)
    ensures 0 <= h < M
  {
    PolySum(s) % M
  }

  lemma {:induction false} PolySumAppend(a: seq<int>, b: seq<int>)
    ensures PolySum(a + b) == PolySum(a) + Pow(P, |a|) * PolySum(b)
    decreases |a|
  {
    if a == [] {
      assert a + b == b;
    } else {
      assert (a + b)[0] == a[0] && (a + b)[1..] == a[1..] + b;
      PolySumAppend(a[1..], b);
      calc {
        PolySum(a + b);
        a[0] + P * PolySum(a[1..] + b);
        a[0] + P * (PolySum(a[1..]) + Pow(P, |a| - 1) * PolySum(b));
        a[0] + P * PolySum(a[1..]) + (P * Pow(P, |a| - 1)) * PolySum(b);
        PolySum(a) + Pow(P, |a|) * PolySum(b);
      }
    }
  }

  lemma ModOfMultiple(x: int, q: int)
    ensures (x + q * M) % M == x % M
  {
    var r := x % M;
    var d := x / M;
    assert x == d * M + r;
    assert x + q * M == (d + q) * M + r;
  }

  /** Reducing a summand or a factor modulo M does not change the result modulo M. */
  lemma ModCombine(x: int, y: int, z: int, w: int)
    ensures (x % M + y + (z % M) * w) % M == (x + y + z * w) % M
  {
    var qx := x / M;
    var qz := z / M;
    assert x == qx * M + x % M;
    assert z * w == (qz * M + z % M) * w == (qz * w) * M + (z % M) * w;
    ModOfMultiple(x % M + y + (z % M) * w, qx + qz * w);
    assert x % M + y + (z % M) * w + (qx + qz * w) * M == x + y + z * w;
  }

  /**
   * What a node's hash would be, given the hashes of its subtrees, its key
   * and the size n of its left subtree: hash(l) + k * P^n + hash(r) * P^(n+1), modulo M.
   */
  function Combine(hl: int, k: int, hr: int, n: nat): int
  {
    (hl + k * Pow(P, n) + hr * Pow(P, n + 1)) % M
  }

  /** The recurrence holds of the documented hash for every in-order split. */
  lemma SubtreeHash(l: seq<int>, k: int, r: seq<int>)
    ensures HashOf(l + [k] + r) == Combine(HashOf(l), k, HashOf(r), |l|)
  {
    SubtreeSum(l, k, r);
    ReduceSum(HashOf(l + [k] + r), PolySum(l + [k] + r), PolySum(l), k,
              PolySum(r), |l|, HashOf(l), HashOf(r));
  }

  lemma ReduceSum(h: int, s: int, x: int, k: int, z: int, n: nat, hx: int, hz: int)
    requires h == s % M && s == x + k * Pow(P, n) + z * Pow(P, n + 1)
    requires hx == x % M && hz == z % M
    ensures h == Combine(hx, k, hz, n)
  {
    ModCombine(x, k * Pow(P, n), z, Pow(P, n + 1));
  }

  lemma SubtreeSum(l: seq<int>, k: int, r: seq<int>)
    ensures PolySum(l + [k] + r) == PolySum(l) + k * Pow(P, |l|) + PolySum(r) * Pow(P, |l| + 1)
  {
    var pl, pl1 := Pow(P, |l|), Pow(P, |l| + 1);
    var sl, sr := PolySum(l), PolySum(r);
    PolySumAppend(l + [k], r);
    PolySumAppend(l, [k]);
    LeafSum(k);
    assert |l + [k]| == |l| + 1;
    assert PolySum(l + [k]) == sl + pl * k;
    assert PolySum(l + [k] + r) == sl + pl * k + pl1 * sr;
    assert pl * k == k * pl && pl1 * sr == sr * pl1;
  }

  lemma LeafSum(k: int)
    ensures PolySum([k]) == k
  {
    assert [k][1..] == [];
    assert PolySum([k]) == k + P * PolySum([]);
  }

  /** A single key hashes to itself modulo M. */
  lemma LeafHash(k: int)
    ensures HashOf([k]) == k % M
  {
    LeafSum(k);
  }
}
