/** The BCH codec: init_bch, encode_bch, decode_bch on one control structure, and what they
    promise: parity is the remainder of data x^ecc_bits by the generator, and up to t wrong bits, in the
    data or in the parity, are located exactly.
 */
module BchCodec {
  import opened Options
  import opened Bits
  import opened BinaryPoly
  import opened GaloisField
  import opened FieldLaws
  import opened Generator
  import opened BinaryEval
  import opened Words
  import Division
  import opened BchGenerator
  import opened BchTables
  import opened BchStream
  import opened BchEncoder
  import opened BchSyndromes
  import opened Locators
  import opened BchLocator
  import opened BchErrors
  import GfSeries
  import opened BchRoots
  import opened BchDegree2
  import opened BchBase
  import opened EccBytes

  const EINVAL := 22
  const EBADMSG := 77

  /** prim_poly_tab, for m = 5 .. 15. */
  const PRIM_POLYS: seq<nat> := [0x25, 0x43, 0x83, 0x11d, 0x211, 0x409, 0x805, 0x1053, 0x201b, 0x402b, 0x8003]

  /** The parity polynomial: data(x) x^d mod g(x). */
  ghost function Parity(g: nat, d: nat, data: nat): nat {
    Reduce(g, d, Join(data, d, 0))
  }

  /** Where decode_bch reports the error x^p in a code word of nbits bits: bits of a byte are
      numbered from the least significant one. */
  function ErrorBit(nbits: nat, p: nat): nat
    requires p < nbits
  {
    var e := nbits - 1 - p;
    8 * (e / 8) + (7 - e % 8)
  }

  lemma {:induction false} ParityXor(g: nat, d: nat, x: nat, y: nat)
    requires HasDegree(g, d) && d > 0
    ensures Parity(g, d, Xor(x, y)) == Xor(Parity(g, d, x), Parity(g, d, y))
  {
    hide Reduce; hide Xor; hide Join; hide Pow2; hide HasDegree;
    XorJoinShift(x, y, d);
    ReduceXor(g, d, Join(x, d, 0), Join(y, d, 0));
  }

  /** Zero-initialised parity ends as the remainder, left-aligned in l words and in n bytes. */
  lemma {:induction false} FreshParity(g: nat, d: nat, l: nat, n: nat, data: nat, k: nat)
    requires HasDegree(g, d) && 0 < d <= 8 * n <= 32 * l
    ensures Feed(Modulus(g, d, l), 32 * l, 0, data, k) == Join(Parity(g, d, data), 32 * l - d, 0)
    ensures Shr(Feed(Modulus(g, d, l), 32 * l, 0, data, k), 32 * l - 8 * n) == Join(Parity(g, d, data), 8 * n - d, 0)
  {
    hide Feed; hide Pow2; hide Reduce; hide Join; hide HasDegree;
    FeedFromZero(g, d, 32 * l, data, k);
    var r, a, b := Parity(g, d, data), 8 * n - d, 32 * l - 8 * n;
    JoinJoin(r, a, b);
    ShrOfJoin(Join(r, a, 0), b);
  }

  lemma BitsToBytes(n: nat, d: nat)
    requires 0 < d <= n
    ensures Fits((n + 7) / 8, WordCount(n)) && d <= 8 * ((n + 7) / 8) <= 32 * WordCount(n)
    ensures WordCount(d) <= WordCount(n)
  {
  }

  lemma OrZero(a: nat, b: nat)
    ensures Or(a, b) == 0 <==> a == 0 && b == 0
  {
  }

  lemma {:induction false} ValueZero(ws: seq<nat>)
    ensures Value(ws) == 0 <==> forall k | 0 <= k < |ws| :: ws[k] == 0
  {
    if ws != [] {
      hide Pow2;
      ValueZero(ws[1..]);
      MulMonotone(1, ws[0], Pow2(32 * (|ws| - 1)));
      assert ws == [ws[0]] + ws[1..];
    }
  }

  /** The syndromes are those of the top d bits, whatever is below them. */
  lemma {:induction false} TopPolyIs(ws: seq<nat>, d: nat)
    requires IsWords(ws) && 0 < d <= 32 * |ws| && WordCount(d) <= |ws|
    ensures TopPoly(ws, d) == Shr(Value(ws), 32 * |ws| - d) < Pow2(d)
  {
    WordCountRange(d);
    hide Value; hide Pow2; hide WordCount;
    var K, l := WordCount(d), |ws|;
    var e, pad := 32 * (l - K), 32 * K - d;
    ValueSplit(ws, K); ValueBound(ws[K..]); ValueBound(ws);
    DivModUnique(Value(ws), Value(ws[..K]), Value(ws[K..]), Pow2(e));
    ShrShr(Value(ws), e, pad);
    ShrBelow(Value(ws), 32 * l - d, d);
  }

  lemma {:induction false} ShrShr(x: nat, e: nat, s: nat)
    ensures Shr(Shr(x, e), s) == Shr(x, e + s)
  {
    hide Pow2;
    Pow2Add(s, e);
    Division.DivDiv(x, Pow2(e), Pow2(s), Pow2(e + s));
  }

  lemma {:induction false} ShrBelow(x: nat, s: nat, d: nat)
    requires x < Pow2(s + d)
    ensures Shr(x, s) < Pow2(d)
  {
    hide Pow2;
    Pow2Add(d, s);
    var q := x / Pow2(s);
    Division.Remainder(x, Pow2(s));
    if q >= Pow2(d) { MulMonotone(Pow2(d), q, Pow2(s)); }
  }

  lemma {:induction false} SyndromesAreElements(f: Field, t: nat, syn: seq<nat>, v: nat)
    requires f.Valid() && |syn| == 2 * t
    requires forall j: nat | j < t :: syn[2 * j] == EvalAt(f, v, j)
    requires forall j: nat | j < t :: SquareAt(f, syn, j)
    ensures Elements(f, syn)
  {
    hide EvalAt; hide Field.Valid; hide Pow2; hide Field.Sqr;
    forall i | 0 <= i < |syn| ensures syn[i] <= f.N() {
      if i % 2 == 0 {
        EvalAtBound(f, v, i / 2);
        assert syn[2 * (i / 2)] == EvalAt(f, v, i / 2);
      } else {
        assert SquareAt(f, syn, i / 2);
      }
    }
  }

  class BchControl {
    const f: Field
    const t: nat
    const d: nat          // ecc_bits
    const l: nat          // words of parity
    const eccBytes: nat
    /** USE_CHIEN_SEARCH. */
    const chien: bool
    /** xi_tab, and the element of trace 1 it was built with. */
    const xi: seq<nat>
    ghost const ak: nat
    ghost const g: nat    // the generator polynomial
    const tab: array2<seq<nat>>
    const eccBuf: array<nat>
    const eccBuf2: array<nat>
    const syn: array<nat>
    const elp: array<nat>
    const pelp: array<nat>
    const copy: array<nat>

    ghost predicate Valid()
      reads tab
    {
      && t > 0 && 2 * t <= f.N() && IsGenerator(f, t, g, d) && BaseOk(f, xi, ak)
      && l == WordCount(f.m * t) && eccBytes == (f.m * t + 7) / 8
      && l > 0 && d <= 32 * l && TablesOk(Modulus(g, d, l), l, tab)
      && eccBuf.Length == eccBuf2.Length == l && eccBuf != eccBuf2
      && syn.Length == 2 * t && syn != eccBuf && syn != eccBuf2
      && elp.Length == pelp.Length == copy.Length == 2 * t + 1
      && elp != pelp && elp != copy && pelp != copy
      && {elp, pelp, copy} !! {eccBuf, eccBuf2, syn}
    }

    ghost function Buffers(): set<array<nat>> {
      {eccBuf, eccBuf2, syn, elp, pelp, copy}
    }

    /** A register value for parity bytes. */
    ghost function Loaded(bytes: seq<nat>): nat
      requires |bytes| <= 4 * l
    {
      Join(Number(bytes), 32 * l - 8 * |bytes|, 0)
    }

    ghost predicate IsEcc(bytes: seq<nat>) {
      |bytes| == eccBytes && IsBytes(bytes)
    }

    lemma {:induction false} Sizes()
      requires Valid()
      ensures Fits(eccBytes, l) && 0 < d <= 8 * eccBytes <= 32 * l && WordCount(d) <= l && f.Valid() && HasDegree(g, d)
    {
      hide TablesOk; hide Field.Valid; hide HasDegree; hide EvalBits; hide A;
      BitsToBytes(f.m * t, d);
    }

    constructor (field: Field, t0: nat, d0: nat, ghost g0: nat, tab0: array2<seq<nat>>, chien: bool, xi: seq<nat>, ghost ak: nat)
      requires BaseOk(field, xi, ak) && 2 * t0 <= field.N()
      requires t0 > 0 && IsGenerator(field, t0, g0, d0) && d0 <= 32 * WordCount(field.m * t0)
      requires TablesOk(Modulus(g0, d0, WordCount(field.m * t0)), WordCount(field.m * t0), tab0)
      ensures Valid() && f == field && t == t0 && d == d0 && g == g0 && this.chien == chien
      ensures forall a | a in Buffers() :: fresh(a)
    {
      hide RowOk; hide Field.Valid; hide HasDegree; hide EvalBits; hide A; hide Pow2; hide BaseOk;
      f, t, d, g, tab, this.chien := field, t0, d0, g0, tab0, chien;
      this.xi, this.ak := xi, ak;
      l := WordCount(field.m * t0);
      eccBytes := (field.m * t0 + 7) / 8;
      eccBuf := new nat[WordCount(field.m * t0)](_ => 0);
      eccBuf2 := new nat[WordCount(field.m * t0)](_ => 0);
      syn := new nat[2 * t0](_ => 0);
      elp := new nat[2 * t0 + 1](_ => 0);
      pelp := new nat[2 * t0 + 1](_ => 0);
      copy := new nat[2 * t0 + 1](_ => 0);
    }

    /** The modulus of the register. */
    ghost function G(): nat
      requires d <= 32 * l
    {
      Modulus(g, d, l)
    }

    /** encode_bch with a parity buffer: the parity of earlier data is carried on.  align is the
        address of data modulo 4. */
    method Encode(data: seq<nat>, align: nat, ecc: array<nat>)
      requires Valid() && IsBytes(data) && align < 4 && IsEcc(ecc[..]) && ecc !in Buffers()
      modifies eccBuf, ecc
      ensures IsEcc(ecc[..])
      ensures Number(ecc[..])
           == Shr(Feed(G(), 32 * l, old(Loaded(ecc[..])), Number(data), 8 * |data|), 32 * l - 8 * eccBytes)
    {
      hide Value; hide Number; hide Feed; hide TablesOk; hide IsGenerator; hide Pow2; hide Modulus; hide Join;
      Sizes();
      Load(ecc[..], eccBuf);
      EncodeRegister(G(), l, tab, data, align, eccBuf);
      Store(eccBuf[..], ecc);
    }

    /** encode_bch without a parity buffer: the register is left in eccBuf. */
    method EncodeToBuffer(data: seq<nat>, align: nat)
      requires Valid() && IsBytes(data) && align < 4
      modifies eccBuf
      ensures IsWords(eccBuf[..])
      ensures Value(eccBuf[..]) == Feed(G(), 32 * l, 0, Number(data), 8 * |data|)
    {
      hide Value; hide Number; hide Feed; hide TablesOk; hide IsGenerator; hide Pow2; hide Modulus; hide Join;
      forall i | 0 <= i < eccBuf.Length { eccBuf[i] := 0; }
      ZeroRow(eccBuf[..]);
      EncodeRegister(G(), l, tab, data, align, eccBuf);
    }

    // ----- decoding

    /** The register decode_bch compares with: given parity, or the data encoded afresh. */
    ghost function CalcRegister(data: Option<seq<nat>>, made: Option<seq<nat>>): nat
      requires d <= 32 * l && (made.Some? || data.Some?) && (made.Some? ==> |made.value| <= 4 * l)
    {
      if made.Some? then Loaded(made.value) else Feed(G(), 32 * l, 0, Number(data.value), 8 * |data.value|)
    }

    /** The xor of what was received and what was calculated. */
    ghost function Difference(data: Option<seq<nat>>, recv: seq<nat>, made: Option<seq<nat>>): nat
      requires d <= 32 * l && (made.Some? || data.Some?) && (made.Some? ==> |made.value| <= 4 * l) && |recv| <= 4 * l
    {
      Xor(CalcRegister(data, made), Loaded(recv))
    }

    /** The top d bits of the difference are the remainder of the sum of x^p: the bits ps of the code word are wrong. */
    ghost predicate WrongBits(diff: nat, ps: seq<nat>) {
      d <= 32 * l && Shr(diff, 32 * l - d) == Reduce(g, d, ErrorPoly(ps))
    }

    /** At most t distinct bits of a code word with len data bytes. */
    ghost predicate Correctable(ps: seq<nat>, len: nat) {
      Positions(f, ps) && |ps| <= t && forall i | 0 <= i < |ps| :: ps[i] < 8 * len + d
    }

    /** The roots are found: by Chien search, in closed form, or by the code given. */
    ghost predicate RootsFound(ps: seq<nat>, higher: seq<nat> -> seq<nat>) {
      chien || |ps| <= 2 || (f.Valid() && |ps| <= 2 * t && SamePositions(higher(Locator(f, 2 * t + 1, ps)[..|ps| + 1]), ps))
    }

    /** What is taken for roots are roots: with Chien search and up to degree two always, otherwise if the code given never
        returns as many positions as the degree unless they are.
     */
    ghost predicate RootsSound(higher: seq<nat> -> seq<nat>) {
      chien || t <= 2 || HigherSound(f, higher)
    }

    /** Some set of at most t wrong bits explains the difference. */
    ghost predicate Explicable(diff: nat, len: nat) {
      exists ps: seq<nat> :: WrongBits(diff, ps) && Correctable(ps, len)
    }

    /** eccBuf ^= eccBuf2, reporting whether anything is left. */
    method XorBuffers() returns (same: bool)
      requires Valid() && IsWords(eccBuf[..]) && IsWords(eccBuf2[..])
      modifies eccBuf
      ensures IsWords(eccBuf[..]) && Value(eccBuf[..]) == Xor(old(Value(eccBuf[..])), Value(eccBuf2[..]))
      ensures same <==> Value(eccBuf[..]) == 0
    {
      hide Value; hide Xor; hide Pow2; hide TablesOk; hide IsGenerator; hide Or;
      ghost var a, b := eccBuf[..], eccBuf2[..];
      var i, sum := 0, 0;
      while i < l
        invariant i <= l && eccBuf2[..] == b
        invariant forall k | 0 <= k < i :: eccBuf[k] == Xor(a[k], b[k])
        invariant forall k | i <= k < l :: eccBuf[k] == a[k]
        invariant sum == 0 <==> forall k | 0 <= k < i :: eccBuf[k] == 0
      {
        eccBuf[i] := Xor(eccBuf[i], eccBuf2[i]);
        OrZero(sum, eccBuf[i]);
        sum := Or(sum, eccBuf[i]);
        i := i + 1;
      }
      XorWordsByIndex(a, b, eccBuf[..]);
      XorWordsValue(a, b);
      same := sum == 0;
      ValueZero(eccBuf[..]);
    }

    /** decode_bch: up to t wrong bits are reported, each once, and nothing else is: an answer that is no error code tells
        bits that explain the difference. Without Chien search the roots of locators of degree three and more come from
        code outside this model and are a parameter, as is the data's alignment.
     */
    method Decode(data: Option<seq<nat>>, len: nat, recv: Option<seq<nat>>, made: Option<seq<nat>>, align: nat,
                  errloc: array<nat>, higher: seq<nat> -> seq<nat>) returns (err: int)
      requires Valid() && align < 4 && errloc.Length >= t && errloc !in Buffers()
      requires data.Some? ==> |data.value| == len && IsBytes(data.value)
      requires (recv.Some? ==> IsEcc(recv.value)) && (made.Some? ==> IsEcc(made.value))
      modifies Buffers(), errloc
      ensures err <= t
      ensures 8 * len > f.N() - d ==> err == -EINVAL
      ensures 8 * len <= f.N() - d && made.None? && (data.None? || recv.None?) ==> err == -EINVAL
      ensures 8 * len <= f.N() - d && recv.Some? && (made.Some? || data.Some?) ==>
                && (err >= 0 || err == -EBADMSG)
                && (Difference(data, recv.value, made) == 0 ==> err == 0)
                && (forall ps: seq<nat> | WrongBits(Difference(data, recv.value, made), ps) && Correctable(ps, len) && RootsFound(ps, higher) ::
                      err == |ps| && Reported(errloc[..|ps|], 8 * len + d, ps))
                && (err >= 0 && RootsSound(higher) ==> Answers(Difference(data, recv.value, made), len, err, errloc[..err]))
                && (chien || t <= 2 ==> (err == -EBADMSG <==> !Explicable(Difference(data, recv.value, made), len)))
    {
      hide Value; hide Number; hide Feed; hide TablesOk; hide Pow2; hide Modulus; hide Join; hide Xor; hide Reduce;
      hide WrongBits; hide Correctable; hide RootsFound; hide RootsSound; hide IsGenerator;
      hide Field.Valid; hide Reported; hide BaseOk; hide Answers;
      hide Explicable;
      Sizes();
      if 8 * len > f.N() - d {
        return -EINVAL;
      }
      if made.None? {
        if data.None? || recv.None? {
          return -EINVAL;
        }
        EncodeToBuffer(data.value, align);
      } else {
        Load(made.value, eccBuf);
      }
      if recv.Some? {
        Load(recv.value, eccBuf2);
        var same := XorBuffers();
        if same {
          CleanWord(len);
          return 0;
        }
      }
      err := Diagnose(len, errloc, higher);
    }

    /** The answer tells bits that explain the difference. */
    ghost predicate Answers(diff: nat, len: nat, err: nat, locs: seq<nat>) {
      exists ps: seq<nat> :: WrongBits(diff, ps) && Correctable(ps, len) && |ps| == err && Reported(locs, 8 * len + d, ps)
    }

    /** Without a difference nothing is wrong. */
    lemma {:induction false} CleanWord(len: nat)
      requires Valid()
      ensures forall ps: seq<nat> | WrongBits(0, ps) && Correctable(ps, len) :: ps == []
      ensures Reported([], 8 * len + d, []) && Answers(0, len, 0, []) && Explicable(0, len)
    {
      hide TablesOk; hide Reduce; hide Pow2; hide Field.Valid; hide BaseOk; hide IsGenerator; hide WrongBits; hide Reported;
      Sizes();
      forall ps: seq<nat> | WrongBits(0, ps) && Correctable(ps, len) ensures ps == [] { NoWrongBits(ps, len); }
      NothingReported(8 * len + d);
      NothingWrong();
      assert Correctable([], len);
    }

    lemma {:induction false} NothingWrong()
      requires d <= 32 * l
      ensures WrongBits(0, [])
    {
      Shr0(32 * l - d);
    }

    /** From the difference in eccBuf to the positions. */
    method Diagnose(len: nat, errloc: array<nat>, higher: seq<nat> -> seq<nat>) returns (err: int)
      requires Valid() && errloc.Length >= t && errloc !in Buffers() && IsWords(eccBuf[..]) && 8 * len <= f.N() - d
      modifies Buffers(), errloc
      ensures err <= t && (err >= 0 || err == -EBADMSG)
      ensures var diff := old(Value(eccBuf[..]));
        && (forall ps: seq<nat> | WrongBits(diff, ps) && Correctable(ps, len) && RootsFound(ps, higher) ::
              err == |ps| && Reported(errloc[..|ps|], 8 * len + d, ps))
        && (err >= 0 && RootsSound(higher) ==> Answers(diff, len, err, errloc[..err]))
        && (chien || t <= 2 ==> (err == -EBADMSG <==> !Explicable(diff, len)))
    {
      hide Value; hide TablesOk; hide Pow2; hide Reduce; hide Reported; hide IsLocatorOf; hide BaseOk; hide Explicable;
      hide WrongBits; hide Correctable; hide RootsFound; hide RootsSound; hide IsGenerator;
      hide Field.Valid; hide Answers; hide RootsOf; hide GfSeries.Within;
      Sizes();
      ghost var diff := Value(eccBuf[..]);
      var deg := FindLocator(len);
      ghost var e := elp[..];
      ghost var rs;
      err, rs := Locate(deg, len, errloc, higher);
      assert elp[..] == e;
      if err >= 0 && RootsSound(higher) {
        assert WrongBits(diff, rs) && Correctable(rs, len);
        AnswerGiven(diff, len, rs, errloc[..err]);
      }
      SmallCode(diff, len, higher);
      if (chien || t <= 2) && err < 0 { NotExplicable(diff, len, higher, err); }
    }

    lemma NotExplicable(diff: nat, len: nat, higher: seq<nat> -> seq<nat>, err: int)
      requires forall ps: seq<nat> | WrongBits(diff, ps) && Correctable(ps, len) && RootsFound(ps, higher) :: err == |ps|
      requires err < 0 && forall ps: seq<nat> | Correctable(ps, len) :: RootsFound(ps, higher)
      ensures !Explicable(diff, len)
    {
      hide WrongBits; hide Correctable; hide RootsFound;
    }

    /** The locator of the difference in eccBuf: of the wrong bits if at most t explain it, and any roots of it do. */
    method FindLocator(len: nat) returns (deg: int)
      requires Valid() && IsWords(eccBuf[..]) && 8 * len <= f.N() - d
      modifies Buffers()
      ensures -1 <= deg <= t && Elements(f, elp[..]) && (deg >= 0 ==> elp[0] == 1 && elp[deg] != 0 && GfSeries.Within(elp[..], deg))
      ensures forall ps: seq<nat> | WrongBits(old(Value(eccBuf[..])), ps) && Correctable(ps, len) ::
        deg == |ps| && IsLocatorOf(f, elp[..], deg, 8 * len + d, ps)
      ensures forall rs: seq<nat> | deg >= 0 && |rs| == deg && RootsOf(f, elp[..], rs) && (forall i | 0 <= i < |rs| :: rs[i] < 8 * len + d) ::
        WrongBits(old(Value(eccBuf[..])), rs) && Correctable(rs, len)
    {
      hide Value; hide TablesOk; hide Pow2; hide Reduce; hide SyndromesOf; hide IsLocatorOf; hide Locator; hide BaseOk; hide EvalAt; hide Shr;
      hide WrongBits; hide Correctable; hide IsGenerator; hide Field.Valid; hide LocatorLike;
      hide RootsOf; hide SquareAt; hide TopPoly; hide GfSeries.Within;
      Sizes();
      ghost var diff, ws := Value(eccBuf[..]), eccBuf[..];
      TopPolyIs(ws, d);
      ComputeSyndromes(f, t, d, eccBuf, syn);
      ghost var s := syn[..];
      SyndromesAreElements(f, t, s, TopPoly(ws, d));
      deg := ComputeErrorLocator(f, t, syn[..], elp, pelp, copy);
      ghost var e := elp[..];
      if deg >= 0 { LikeMeans(f, s, e, deg); }
      forall ps: seq<nat> | WrongBits(diff, ps) && Correctable(ps, len) ensures deg == |ps| && IsLocatorOf(f, e, deg, 8 * len + d, ps) {
        SyndromesOfWrongBits(s, ps, len, diff);
        LocatorOfWrongBits(e, ps, len);
      }
      forall rs: seq<nat> | deg >= 0 && |rs| == deg && RootsOf(f, e, rs) && (forall i | 0 <= i < |rs| :: rs[i] < 8 * len + d)
        ensures WrongBits(diff, rs) && Correctable(rs, len)
      {
        RootsAnswer(s, e, diff, deg, rs, len);
      }
    }

    lemma AnswerGiven(diff: nat, len: nat, rs: seq<nat>, locs: seq<nat>)
      requires WrongBits(diff, rs) && Correctable(rs, len) && Reported(locs, 8 * len + d, rs)
      ensures Answers(diff, len, |rs|, locs)
    {
      hide WrongBits; hide Correctable; hide Reported;
    }

    /** With Chien search, or for t up to two, all roots are found and what is found are roots. */
    lemma SmallCode(diff: nat, len: nat, higher: seq<nat> -> seq<nat>)
      ensures chien || t <= 2 ==> RootsSound(higher) && forall ps: seq<nat> | Correctable(ps, len) :: RootsFound(ps, higher)
      ensures forall err: nat, locs: seq<nat> | Answers(diff, len, err, locs) :: Explicable(diff, len)
    {
      hide WrongBits; hide Reported;
    }

    lemma {:induction false} SyndromesOfWrongBits(syn: seq<nat>, ps: seq<nat>, len: nat, diff: nat)
      requires IsGenerator(f, t, g, d) && d <= 32 * l && |syn| == 2 * t
      requires f.Valid() && Elements(f, syn) && WrongBits(diff, ps) && Correctable(ps, len)
      requires forall j: nat | j < t :: syn[2 * j] == EvalAt(f, Shr(diff, 32 * l - d), j)
      requires forall j: nat | j < t :: SquareAt(f, syn, j)
      ensures SyndromesOf(f, syn, ps)
    {
      hide EvalAt; hide Reduce; hide Pow2; hide Field.Valid; hide SquareAt; hide IsGenerator; hide SyndromesOf; hide Shr;
      SyndromesOfErrors(f, t, g, d, syn, ps);
    }

    /** The roots of the locator explain the difference. */
    lemma {:induction false} RootsAnswer(syn: seq<nat>, e: seq<nat>, diff: nat, deg: int, rs: seq<nat>, len: nat)
      requires IsGenerator(f, t, g, d) && d <= 32 * l && 2 * t <= f.N() && |syn| == 2 * t && f.Valid() && Elements(f, syn)
      requires Shr(diff, 32 * l - d) < Pow2(d)
      requires forall j: nat | j < t :: syn[2 * j] == EvalAt(f, Shr(diff, 32 * l - d), j)
      requires forall j: nat | j < t :: SquareAt(f, syn, j)
      requires 0 <= deg <= t && LocatorLike(f, syn, e, deg) && |rs| == deg && RootsOf(f, e, rs) && forall i | 0 <= i < |rs| :: rs[i] < 8 * len + d
      ensures WrongBits(diff, rs) && Correctable(rs, len)
    {
      hide EvalAt; hide Reduce; hide Pow2; hide Field.Valid; hide SquareAt; hide IsGenerator; hide SyndromesOf; hide Shr; hide LocatorLike; hide Eval;
      SyndromesSquared(f, t, syn);
      RootsExplain(f, syn, e, rs);
      SyndromesTell(f, t, g, d, Shr(diff, 32 * l - d), syn, rs);
    }

    lemma LocatorOfWrongBits(e: seq<nat>, ps: seq<nat>, len: nat)
      requires f.Valid() && |e| == 2 * t + 1 && Correctable(ps, len) && e == Locator(f, 2 * t + 1, ps)
      ensures IsLocatorOf(f, e, |ps|, 8 * len + d, ps)
    {
      hide Field.Valid; hide Locator;
    }

    lemma {:induction false} NoWrongBits(ps: seq<nat>, len: nat)
      requires t > 0 && IsGenerator(f, t, g, d) && f.Valid() && WrongBits(0, ps) && Correctable(ps, len)
      ensures ps == []
    {
      hide IsGenerator; hide Reduce; hide Pow2; hide Field.Valid;
      Shr0(32 * l - d);
      RemainderNonzero(f, t, g, d, ps);
    }

    /** The end of decode_bch: roots of the locator to bit positions. */
    method Locate(deg: int, len: nat, errloc: array<nat>, higher: seq<nat> -> seq<nat>) returns (err: int, ghost rs: seq<nat>)
      requires f.Valid() && BaseOk(f, xi, ak) && t > 0 && elp.Length == 2 * t + 1 && Elements(f, elp[..]) && -1 <= deg <= t
      requires deg >= 0 ==> elp[0] == 1 && elp[deg] != 0 && GfSeries.Within(elp[..], deg)
      requires errloc.Length >= t && errloc != elp && 8 * len + d <= f.N()
      modifies errloc
      ensures deg == 0 ==> err == 0
      ensures err == deg || err == -EBADMSG
      ensures deg == -1 ==> err == -EBADMSG
      ensures err >= 0 && RootsSound(higher) ==> |rs| == deg && RootsOf(f, elp[..], rs) && (forall i | 0 <= i < |rs| :: rs[i] < 8 * len + d)
                                                 && Reported(errloc[..deg], 8 * len + d, rs)
      ensures forall ps: seq<nat> | deg >= 0 && IsLocatorOf(f, elp[..], deg, 8 * len + d, ps) && RootsFound(ps, higher) ::
                err == deg && Reported(errloc[..deg], 8 * len + d, ps)
    {
      hide Field.Valid; hide Pow2; hide ErrorBit; hide IsLocatorOf; hide RootsFound; hide RootsSound;
      hide Reported; hide SamePositions; hide Locator; hide BaseOk; hide IsPair;
      hide RootsOf; hide GfSeries.Within;
      ghost var c := elp[..];
      var nbits := 8 * len + d;
      rs := [];
      if deg <= 0 {
        forall ps: seq<nat> | deg == 0 && IsLocatorOf(f, c, 0, nbits, ps) ensures ps == [] {
          NoPositions(f, c, nbits, ps);
        }
        NothingReported(nbits);
        NoneAreRoots(f, c);
        return if deg == 0 then 0 else -EBADMSG, [];
      }
      var roots := FindRoots(deg, nbits, higher);
      rs := roots;
      assert forall ps: seq<nat> | IsLocatorOf(f, c, deg, nbits, ps) && RootsFound(ps, higher) ::
        SamePositions(roots, ps) && |roots| == deg && forall i | 0 <= i < |roots| :: roots[i] < nbits;
      if |roots| != deg {
        return -EBADMSG, rs;
      }
      forall i | 0 <= i < |roots| { errloc[i] := roots[i]; }
      var i := 0;
      while i < deg
        invariant 0 <= i <= deg
        invariant forall k | 0 <= k < i :: roots[k] < nbits && errloc[k] == ErrorBit(nbits, roots[k])
        invariant forall k | i <= k < deg :: errloc[k] == roots[k]
      {
        if errloc[i] >= nbits {
          assert elp[..] == c && roots[i] >= nbits;
          return -EBADMSG, rs;
        }
        errloc[i] := ErrorBit(nbits, errloc[i]);
        i := i + 1;
      }
      assert elp[..] == c;
      forall ps: seq<nat> | IsLocatorOf(f, c, deg, nbits, ps) && RootsFound(ps, higher) ensures Reported(errloc[..deg], nbits, ps) {
        ReportedBy(errloc[..deg], nbits, ps, roots);
      }
      if RootsSound(higher) {
        SameAsItself(f, c, roots);
        ReportedBy(errloc[..deg], nbits, roots, roots);
      }
      return deg, rs;
    }

    /** find_poly_roots, or chien_search in its place. */
    method FindRoots(deg: nat, nbits: nat, higher: seq<nat> -> seq<nat>) returns (roots: seq<nat>)
      requires f.Valid() && BaseOk(f, xi, ak) && t > 0 && elp.Length == 2 * t + 1 && Elements(f, elp[..]) && 0 < deg <= t && nbits <= f.N()
      requires elp[0] == 1 && elp[deg] != 0 && GfSeries.Within(elp[..], deg)
      ensures forall ps: seq<nat> | IsLocatorOf(f, elp[..], deg, nbits, ps) && RootsFound(ps, higher) ::
                SamePositions(roots, ps) && |roots| == deg && forall i | 0 <= i < |roots| :: roots[i] < nbits
      ensures RootsSound(higher) && |roots| == deg ==> RootsOf(f, elp[..], roots)
    {
      hide Field.Valid; hide Pow2; hide IsLocatorOf; hide RootsFound; hide RootsSound; hide SamePositions; hide Locator; hide BaseOk; hide IsPair;
      hide RootsOf;
      ghost var c := elp[..];
      if chien {
        roots := ChienSearch(f, elp, deg, nbits);
      } else if deg == 2 {
        roots := Degree2Roots(f, xi, elp[..], ak);
      } else {
        roots := if deg == 1 then Degree1Roots(f, elp[..]) else higher(elp[..deg + 1]);
      }
      forall ps: seq<nat> | IsLocatorOf(f, c, deg, nbits, ps) && RootsFound(ps, higher)
        ensures SamePositions(roots, ps) && |roots| == deg && forall i | 0 <= i < |roots| :: roots[i] < nbits
      {
        if !chien && deg != 2 { ClosedForm(c, deg, nbits, ps, higher); }
        if !chien && deg == 2 { LocatorOfPair(f, c, nbits, ps); }
        SameInRange(f, c, deg, nbits, ps, roots);
      }
      if RootsSound(higher) && |roots| == deg {
        if !chien && deg == 1 { FieldSize(f); Degree1Sound(f, c); }
        if !chien && deg > 2 { HigherFound(c, deg, higher); }
        RootsOfPadded(f, c, deg, roots);
      }
    }

    lemma HigherFound(c: seq<nat>, deg: nat, higher: seq<nat> -> seq<nat>)
      requires f.Valid() && RootsSound(higher) && !chien && 2 < deg <= t && deg < |c| && Elements(f, c) && c[0] == 1 && c[deg] != 0
      requires |higher(c[..deg + 1])| == deg
      ensures RootsOf(f, c[..deg + 1], higher(c[..deg + 1]))
    {
      hide Field.Valid; hide RootsOf;
    }

    lemma {:induction false} ClosedForm(c: seq<nat>, deg: nat, nbits: nat, ps: seq<nat>, higher: seq<nat> -> seq<nat>)
      requires IsLocatorOf(f, c, deg, nbits, ps) && RootsFound(ps, higher) && !chien && 0 < deg <= t && deg != 2 && |c| == 2 * t + 1
      ensures c[0] <= f.N() && c[1] <= f.N()
      ensures SamePositions(if deg == 1 then Degree1Roots(f, c) else higher(c[..deg + 1]), ps)
    {
      hide Field.Valid; hide Pow2; hide Locator;
      LocatorShape(f, |c|, ps);
      if deg == 1 { Degree1RootOfLocator(f, |c|, ps); }
    }
  }

  lemma LocatorOfPair(f: Field, c: seq<nat>, nbits: nat, ps: seq<nat>)
    requires IsLocatorOf(f, c, 2, nbits, ps)
    ensures IsPair(f, c, ps)
  {
    hide Field.Valid; hide Locator;
  }

  /** Code for the roots of higher degrees that returns as many positions as the degree only if they are roots. */
  ghost predicate HigherSound(f: Field, higher: seq<nat> -> seq<nat>) {
    forall c: seq<nat> | |c| > 3 && f.Valid() && Elements(f, c) && c[0] == 1 && c[|c| - 1] != 0 && |higher(c)| == |c| - 1 :: RootsOf(f, c, higher(c))
  }

  lemma LikeMeans(f: Field, syn: seq<nat>, e: seq<nat>, deg: nat)
    requires LocatorLike(f, syn, e, deg)
    ensures deg < |e| && e[0] == 1 && e[deg] != 0 && GfSeries.Within(e, deg)
  {
    hide Field.Valid;
  }

  lemma NoneAreRoots(f: Field, c: seq<nat>)
    requires f.Valid() && Elements(f, c)
    ensures RootsOf(f, c, [])
  {
    hide Field.Valid;
  }

  lemma SameAsItself(f: Field, c: seq<nat>, rs: seq<nat>)
    requires RootsOf(f, c, rs)
    ensures SamePositions(rs, rs)
  {
    hide Field.Valid; hide Eval; hide Inverse;
  }

  lemma NoPositions(f: Field, c: seq<nat>, nbits: nat, ps: seq<nat>)
    requires IsLocatorOf(f, c, 0, nbits, ps)
    ensures ps == []
  {
  }

  lemma SameInRange(f: Field, c: seq<nat>, deg: nat, nbits: nat, ps: seq<nat>, roots: seq<nat>)
    requires IsLocatorOf(f, c, deg, nbits, ps) && SamePositions(roots, ps)
    ensures |roots| == deg && forall i | 0 <= i < |roots| :: roots[i] < nbits
  {
    hide Field.Valid; hide Locator;
    forall i | 0 <= i < |roots| ensures roots[i] < nbits { assert roots[i] in ps; }
  }

  /** The locations are those of the positions, in some order. */
  ghost predicate Reported(locs: seq<nat>, nbits: nat, ps: seq<nat>) {
    exists rs: seq<nat> :: ReportedAs(locs, nbits, ps, rs)
  }

  ghost predicate ReportedAs(locs: seq<nat>, nbits: nat, ps: seq<nat>, rs: seq<nat>) {
    SamePositions(rs, ps) && |locs| == |rs| && forall i | 0 <= i < |rs| :: rs[i] < nbits && locs[i] == ErrorBit(nbits, rs[i])
  }

  lemma ReportedBy(locs: seq<nat>, nbits: nat, ps: seq<nat>, rs: seq<nat>)
    requires SamePositions(rs, ps) && |locs| == |rs| && forall i | 0 <= i < |rs| :: rs[i] < nbits && locs[i] == ErrorBit(nbits, rs[i])
    ensures Reported(locs, nbits, ps)
  {
    hide ErrorBit; hide SamePositions;
    assert ReportedAs(locs, nbits, ps, rs);
  }

  lemma NothingReported(nbits: nat)
    ensures Reported([], nbits, [])
  {
    ReportedBy([], nbits, [], []);
  }

  /** The polynomial init_bch works with. */
  function ChosenPoly(m: int, primPoly: nat): (poly: nat)
    requires 5 <= m <= 15
    ensures primPoly == 0 || primPoly % 2 == 1 ==> poly % 2 == 1 && poly > 0
  {
    if primPoly == 0 then PRIM_POLYS[m - 5] else primPoly
  }

  /** init_bch.  The polynomial must have a constant term: see PowersCoverIffOdd. */
  method InitBch(m: int, t: int, primPoly: nat, chien: bool) returns (bch: BchControl?)
    requires primPoly == 0 || primPoly % 2 == 1
    ensures m < 5 || m > 15 || t < 1 ==> bch == null
    ensures 5 <= m <= 15 && t >= 1 ==>
              (bch != null <==> && m * t < Pow2(m) - 1
                                && HasDegree(ChosenPoly(m, primPoly), m)
                                && NoEarlyOne(m, ChosenPoly(m, primPoly), GroupOrder(m)))
    ensures bch != null ==>
              && bch.Valid() && bch.f.m == m && bch.t == t && bch.f.poly == ChosenPoly(m, primPoly) && bch.chien == chien
              && fresh(bch) && forall a | a in bch.Buffers() :: fresh(a)
  {
    hide Pow2; hide EvalBits; hide Field.Valid; hide RowOk; hide Value; hide Alpha; hide Modulus;
    bch := null;
    if m < 5 || m > 15 || t < 1 || m * t >= Pow2(m) - 1 {
      return;
    }
    var poly := ChosenPoly(m, primPoly);
    var pow := new nat[GroupOrder(m) + 1](_ => 0);
    var log := new nat[GroupOrder(m) + 1](_ => 0);
    var ok := GaloisField.BuildTables(m, poly, pow, log);
    if !ok {
      return;
    }
    var f := Field(m, poly, pow[..], log[..]);
    assert 2 * t <= f.N() by { assert 5 * t <= m * t by { TimesAtLeastFive(m, t); } }
    var genpoly, d, g := ComputeGenerator(f, t);
    var l := WordCount(m * t);
    assert Packed(genpoly[..], g, d, l) && l > 0;
    var tab := BchTables.BuildTables(genpoly, g, d, l);
    var based, xi;
    ghost var ak;
    based, xi, ak := BuildDeg2Base(f);
    if based {
      ModulusDegree(g, d, l);
      bch := new BchControl(f, t, d, g, tab, chien, xi, ak);
    }
  }

  lemma TimesAtLeastFive(m: nat, t: nat)
    requires m >= 5
    ensures 5 * t <= m * t
  {
    MulMonotone(5, m, t);
  }
}
