/** What the encoder's register computes, stated without its words and tables: feeding a k-bit
    number x into a register v modulo G of degree W.
 */
module BchStream {
  import opened Bits
  import opened BinaryPoly

  /** (v x^k + data x^W) mod G. */
  ghost function Feed(G: nat, W: nat, v: nat, data: nat, k: nat): nat {
    Reduce(G, W, Xor(Join(v, k, 0), Join(data, W, 0)))
  }

  lemma JoinJoin(a: nat, j: nat, k: nat)
    ensures Join(Join(a, j, 0), k, 0) == Join(a, j + k, 0)
  {
    hide Pow2;
    Pow2Add(j, k);
    assert (a * Pow2(j)) * Pow2(k) == a * (Pow2(j) * Pow2(k));
  }

  lemma {:induction false} XorJoinShift(a: nat, c: nat, k: nat)
    ensures Xor(Join(a, k, 0), Join(c, k, 0)) == Join(Xor(a, c), k, 0)
  {
    hide Xor; hide Pow2;
    XorZero(0);
    XorJoin(a, 0, c, 0, k);
  }

  lemma {:induction false} JoinIsXor(a: nat, k: nat, b: nat)
    requires b < Pow2(k)
    ensures Join(a, k, b) == Xor(Join(a, k, 0), b)
  {
    hide Xor; hide Pow2;
    XorJoin(a, 0, 0, b, k);
    XorZero(a); XorZero(b);
  }

  lemma {:induction false} FeedNothing(G: nat, W: nat, v: nat)
    requires v < Pow2(W)
    ensures Feed(G, W, v, 0, 0) == v
  {
    hide Xor; hide Reduce;
    assert Join(v, 0, 0) == v && Join(0, W, 0) == 0;
    XorZero(v);
    ReduceSmall(G, W, v);
  }

  /** Reduction may be postponed past a shift. */
  lemma {:induction false} ReduceThenShift(G: nat, W: nat, z: nat, k: nat)
    requires HasDegree(G, W) && W > 0
    ensures Reduce(G, W, Join(Reduce(G, W, z), k, 0)) == Reduce(G, W, Join(z, k, 0))
  {
    hide Reduce; hide Pow2;
    ReduceBound(G, W, z);
    ReduceShifted(G, W, Reduce(G, W, z), k);
    ReduceSmall(G, W, Reduce(G, W, z));
    ReduceShifted(G, W, z, k);
  }

  /** Feeding x and then y is feeding the two numbers joined. */
  lemma {:induction false} FeedCompose(G: nat, W: nat, v: nat, x: nat, k: nat, y: nat, j: nat)
    requires HasDegree(G, W) && W > 0 && y < Pow2(j)
    ensures Feed(G, W, Feed(G, W, v, x, k), y, j) == Feed(G, W, v, Join(x, j, y), k + j)
  {
    hide Reduce; hide Xor; hide Join; hide Pow2; hide HasDegree;
    var z := Xor(Join(v, k, 0), Join(x, W, 0));
    var yw := Join(y, W, 0);
    ReduceXor(G, W, Join(Feed(G, W, v, x, k), j, 0), yw);
    ReduceThenShift(G, W, z, j);
    ReduceXor(G, W, Join(z, j, 0), yw);
    XorJoinShift(Join(v, k, 0), Join(x, W, 0), j);
    JoinJoin(v, k, j); JoinJoin(x, W, j); JoinJoin(x, j, W);
    JoinIsXor(x, j, y);
    XorJoinShift(Join(x, j, 0), y, W);
    XorAssoc(Join(v, k + j, 0), Join(x, W + j, 0), yw);
    assert W + j == j + W;
  }

  /** One table step: the s bits that leave the register pick the table rows. */
  lemma {:induction false} FeedByTable(G: nat, W: nat, v: nat, x: nat, s: nat, hi: nat, lo: nat)
    requires HasDegree(G, W) && W > 0 && lo < Pow2(W)
    requires Join(v, s, 0) == Join(hi, W, lo)
    ensures Feed(G, W, v, x, s) == Xor(lo, Reduce(G, W, Join(Xor(hi, x), W, 0)))
  {
    hide Reduce; hide Xor; hide Join; hide Pow2; hide HasDegree;
    JoinIsXor(hi, W, lo);
    var h, d := Join(hi, W, 0), Join(x, W, 0);
    XorComm(h, lo); XorAssoc(lo, h, d);
    XorJoinShift(hi, x, W);
    ReduceXor(G, W, lo, Join(Xor(hi, x), W, 0));
    ReduceSmall(G, W, lo);
  }

  /** The register is linear in the data when it starts from zero. */
  lemma {:induction false} FeedXor(G: nat, W: nat, x: nat, y: nat, k: nat)
    requires HasDegree(G, W) && W > 0
    ensures Feed(G, W, 0, Xor(x, y), k) == Xor(Feed(G, W, 0, x, k), Feed(G, W, 0, y, k))
  {
    hide Reduce; hide Xor; hide Pow2; hide HasDegree;
    assert Join(0, k, 0) == 0;
    hide Join;
    XorZero(Join(x, W, 0)); XorZero(Join(y, W, 0)); XorZero(Join(Xor(x, y), W, 0));
    XorJoinShift(x, y, W);
    ReduceXor(G, W, Join(x, W, 0), Join(y, W, 0));
  }

  /** From zero the register ends with the remainder of data x^d modulo g, left-aligned. */
  lemma {:induction false} FeedFromZero(g: nat, d: nat, W: nat, data: nat, k: nat)
    requires HasDegree(g, d) && 0 < d <= W
    ensures Feed(g * Pow2(W - d), W, 0, data, k) == Join(Reduce(g, d, Join(data, d, 0)), W - d, 0)
  {
    hide Reduce; hide Xor; hide Pow2; hide HasDegree;
    assert Join(0, k, 0) == 0;
    XorZero(Join(data, W, 0));
    JoinJoin(data, d, W - d);
    ReduceScaled(g, d, W - d, Join(data, d, 0));
  }
}
