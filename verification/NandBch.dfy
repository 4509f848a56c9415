/** nand_bch_calculate_ecc and nand_bch_correct_data: a page's parity under the erased-page mask, and
    the correction of a page in place.
 */
module NandBch {
  import opened Options
  import opened Bits
  import Division
  import opened GaloisField
  import opened BinaryPoly
  import opened Words
  import opened BchStream
  import opened BchEncoder
  import opened BchSyndromes
  import opened EccBytes
  import opened BchTables
  import opened Locators
  import opened BchErrors
  import opened BchRoots
  import opened BchDegree2
  import opened BchCodec

  class NandBchControl {
    const bch: BchControl
    const size: nat           // ecc.size: data bytes per code word
    const mask: seq<nat>      // eccmask
    const errloc: array<nat>

    ghost predicate Valid()
      reads bch.tab
    {
      && bch.Valid() && bch.IsEcc(mask)
      && 8 * size + bch.d <= bch.f.N()
      && errloc.Length == bch.t && errloc !in bch.Buffers()
    }

    constructor (bch0: BchControl, size0: nat, mask0: seq<nat>)
      requires bch0.Valid() && bch0.IsEcc(mask0) && 8 * size0 + bch0.d <= bch0.f.N()
      ensures Valid() && bch == bch0 && size == size0 && mask == mask0 && fresh(errloc)
    {
      hide BchControl.Valid; hide Pow2;
      bch, size, mask := bch0, size0, mask0;
      errloc := new nat[bch0.t](_ => 0);
    }

    /** code is the masked parity of the page buf. */
    ghost predicate IsCode(buf: seq<nat>, code: seq<nat>)
      requires bch.d <= 8 * bch.eccBytes
    {
      && bch.IsEcc(code)
      && Number(code) == Xor(Join(Parity(bch.g, bch.d, Number(buf)), 8 * bch.eccBytes - bch.d, 0), Number(mask))
    }

    method CalculateEcc(buf: seq<nat>, align: nat, code: array<nat>)
      requires Valid() && |buf| == size && IsBytes(buf) && align < 4
      requires code.Length == bch.eccBytes && code !in bch.Buffers()
      modifies code, bch.eccBuf
      ensures bch.d <= 8 * bch.eccBytes && IsCode(buf, code[..])
    {
      hide BaseOk; hide Number; hide Feed; hide Pow2; hide Join; hide Reduce; hide TablesOk; hide Modulus; hide Xor;
      bch.Sizes();
      forall i | 0 <= i < code.Length { code[i] := 0; }
      assert code[..] == Zeros(code.Length);
      ZeroNumber(code.Length);
      assert bch.Loaded(code[..]) == 0 by { JoinOfZero(32 * bch.l - 8 * bch.eccBytes); }
      bch.Encode(buf, align, code);
      FreshParity(bch.g, bch.d, bch.l, bch.eccBytes, Number(buf), 8 * |buf|);
      ghost var plain := code[..];
      var i := 0;
      while i < code.Length
        invariant i <= code.Length
        invariant forall k | 0 <= k < i :: code[k] == Xor(plain[k], mask[k])
        invariant forall k | i <= k < code.Length :: code[k] == plain[k]
      {
        code[i] := Xor(code[i], mask[i]);
        i := i + 1;
      }
      NumberXor(plain, mask, code[..]);
    }

    /** The xor loop over the reported positions; positions in the parity are left alone. */
    method FlipReported(buf: array<nat>, count: nat)
      requires buf.Length == size && buf != errloc && IsBytes(buf[..]) && count <= errloc.Length
      modifies buf
      ensures IsBytes(buf[..]) && buf[..] == FlipAll(old(buf[..]), errloc[..count])
    {
      hide Xor; hide Pow2;
      var i := 0;
      assert errloc[..0] == [];
      while i < count
        invariant i <= count && IsBytes(buf[..])
        invariant buf[..] == FlipAll(old(buf[..]), errloc[..i])
      {
        ghost var was, e := buf[..], errloc[i];
        if errloc[i] < size * 8 {
          FlipStaysByte(buf[errloc[i] / 8], errloc[i] % 8);
          buf[errloc[i] / 8] := Xor(buf[errloc[i] / 8], Pow2(errloc[i] % 8));
        }
        assert buf[..] == FlipAt(was, e);
        assert errloc[..i + 1] == errloc[..i] + [e];
        FlipAllSnoc(old(buf[..]), errloc[..i], e);
        i := i + 1;
      }
    }

    /** nand_bch_correct_data: a page with up to t wrong bits, in the data or in the parity, comes back as it was written, and
        an answer that is no error leaves a page that the code read fits, up to the reported bits of the parity. */
    method CorrectData(buf: array<nat>, readEcc: seq<nat>, calcEcc: seq<nat>, higher: seq<nat> -> seq<nat>)
      returns (count: int)
      requires Valid() && buf.Length == size && IsBytes(buf[..])
      requires bch.IsEcc(readEcc) && bch.IsEcc(calcEcc)
      requires buf !in bch.Buffers() && buf != errloc
      modifies buf, bch.Buffers(), errloc
      ensures readEcc == calcEcc ==> count == 0 && buf[..] == old(buf[..])
      ensures count < 0 ==> count == -1 && buf[..] == old(buf[..])
      ensures forall page: seq<nat>, ps: seq<nat> |
                Damaged(page, old(buf[..]), readEcc, calcEcc, ps) && bch.Correctable(ps, size) && bch.RootsFound(ps, higher) ::
                count == |ps| && buf[..] == page
      ensures count >= 0 && IsCode(old(buf[..]), calcEcc) && bch.RootsSound(higher) ==>
                exists ps: seq<nat> :: bch.Correctable(ps, size) && |ps| == count && Repairs(buf[..], old(buf[..]), readEcc, ps)
      ensures IsCode(old(buf[..]), calcEcc) && (bch.chien || bch.t <= 2) ==>
                (count == -1 <==> !exists page: seq<nat>, ps: seq<nat> :: bch.Correctable(ps, size) && Repairs(page, old(buf[..]), readEcc, ps))
    {
      hide BaseOk; hide Number; hide Feed; hide Pow2; hide Join; hide Reduce; hide TablesOk; hide Modulus; hide Xor; hide FlipAt; hide FlipAll;
      hide BchControl.RootsSound; hide BchControl.Answers; hide BchControl.Explicable; hide Repairs; hide IsCode;
      hide Damaged; hide ErrorBit; hide BchControl.WrongBits; hide BchControl.Correctable; hide BchControl.RootsFound; hide Reported;
      bch.Sizes();
      ghost var was := buf[..];
      count := bch.Decode(None, size, Some(readEcc), Some(calcEcc), 0, errloc, higher);
      assert buf[..] == was;
      if readEcc == calcEcc { XorSelf(bch.Loaded(calcEcc)); }
      ghost var locs := errloc[..];
      if count > 0 {
        FlipReported(buf, count);
      } else if count < 0 {
        count := -1;
      }
      forall page: seq<nat>, ps: seq<nat> |
        Damaged(page, was, readEcc, calcEcc, ps) && bch.Correctable(ps, size) && bch.RootsFound(ps, higher)
        ensures count == |ps| && buf[..] == page
      {
        DamageDifference(page, was, readEcc, calcEcc, ps);
        assert count == |ps| && Reported(locs[..|ps|], 8 * size + bch.d, ps);
        FlipsBack(page, was, readEcc, calcEcc, ps, locs[..|ps|]);
        FlipNothing(was, locs);
      }
      if IsCode(was, calcEcc) {
        ghost var diff := bch.Difference(None, readEcc, Some(calcEcc));
        FlipNothing(was, locs);
        SmallCode(diff, higher);
        if count >= 0 && bch.RootsSound(higher) {
          AnswerRepairs(was, readEcc, calcEcc, count, locs[..count]);
        } else if count < 0 && (bch.chien || bch.t <= 2) {
          NothingRepairs(was, readEcc, calcEcc);
        }
      }
    }

    lemma SmallCode(diff: nat, higher: seq<nat> -> seq<nat>)
      ensures bch.chien || bch.t <= 2 ==> bch.RootsSound(higher)
    {
      hide HigherSound;
    }

    /** Bits that explain the difference, flipped where they were reported, repair the page. */
    lemma {:induction false} AnswerRepairs(buf: seq<nat>, readEcc: seq<nat>, calcEcc: seq<nat>, count: nat, locs: seq<nat>)
      requires HasDegree(bch.g, bch.d) && 0 < bch.d <= 8 * bch.eccBytes <= 32 * bch.l && bch.eccBytes <= 4 * bch.l
      requires |buf| == size && IsBytes(buf) && bch.IsEcc(readEcc) && IsCode(buf, calcEcc)
      requires bch.Answers(bch.Difference(None, readEcc, Some(calcEcc)), size, count, locs)
      ensures exists ps: seq<nat> :: bch.Correctable(ps, size) && |ps| == count && Repairs(FlipAll(buf, locs), buf, readEcc, ps)
    {
      hide Number; hide Pow2; hide Join; hide Reduce; hide Xor; hide HasDegree; hide FlipAll; hide DataErrors; hide Repairs; hide ErrorBit;
      hide BchControl.WrongBits; hide BchControl.Difference; hide SamePositions;
      var diff := bch.Difference(None, readEcc, Some(calcEcc));
      var ps: seq<nat> :| bch.WrongBits(diff, ps) && bch.Correctable(ps, size) && |ps| == count && Reported(locs, 8 * size + bch.d, ps);
      var rs :| ReportedAs(locs, 8 * size + bch.d, ps, rs);
      NumberFlips(bch.d, buf, rs, locs);
      PositionsDistinct(bch.f, ps);
      DataErrorsSame(bch.d, rs, ps);
      RepairsIff(FlipAll(buf, locs), buf, readEcc, calcEcc, ps);
    }

    lemma {:induction false} NothingRepairs(buf: seq<nat>, readEcc: seq<nat>, calcEcc: seq<nat>)
      requires HasDegree(bch.g, bch.d) && 0 < bch.d <= 8 * bch.eccBytes <= 32 * bch.l && bch.eccBytes <= 4 * bch.l
      requires |buf| == size && IsBytes(buf) && bch.IsEcc(readEcc) && IsCode(buf, calcEcc)
      requires !bch.Explicable(bch.Difference(None, readEcc, Some(calcEcc)), size)
      ensures !exists page: seq<nat>, ps: seq<nat> :: bch.Correctable(ps, size) && Repairs(page, buf, readEcc, ps)
    {
      hide Number; hide Pow2; hide Join; hide Reduce; hide Xor; hide HasDegree; hide DataErrors; hide IsCode;
      hide BchControl.WrongBits; hide BchControl.Difference; hide BchControl.Correctable;
      forall page: seq<nat>, ps: seq<nat> | Repairs(page, buf, readEcc, ps) ensures !bch.Correctable(ps, size) {
        RepairsIff(page, buf, readEcc, calcEcc, ps);
      }
    }

    /** The page was written with its code, and the bits ps have changed since; bits below d are in the parity. */
    ghost predicate Damaged(page: seq<nat>, buf: seq<nat>, readEcc: seq<nat>, calcEcc: seq<nat>, ps: seq<nat>) {
      && 0 < bch.d <= 8 * bch.eccBytes <= 32 * bch.l && |page| == |buf| == size && IsBytes(page) && IsBytes(buf)
      && bch.IsEcc(readEcc) && IsCode(buf, calcEcc)
      && Number(buf) == Xor(Number(page), DataErrors(bch.d, ps))
      && Number(readEcc) == Xor(Xor(Join(Parity(bch.g, bch.d, Number(page)), 8 * bch.eccBytes - bch.d, 0), Number(mask)),
                                Join(ParityErrors(bch.d, ps), 8 * bch.eccBytes - bch.d, 0))
      && (forall i | 0 <= i < |ps| :: ps[i] < 8 * size + bch.d) && (forall i, j | 0 <= i < j < |ps| :: ps[i] != ps[j])
    }

    /** The difference of the codes is the remainder of the errors. */
    lemma {:induction false} DamageDifference(page: seq<nat>, buf: seq<nat>, readEcc: seq<nat>, calcEcc: seq<nat>, ps: seq<nat>)
      requires HasDegree(bch.g, bch.d) && Damaged(page, buf, readEcc, calcEcc, ps)
      ensures |readEcc| <= 4 * bch.l && |calcEcc| <= 4 * bch.l
      ensures bch.WrongBits(bch.Difference(None, readEcc, Some(calcEcc)), ps)
    {
      hide Number; hide Pow2; hide Join; hide Reduce; hide Xor; hide HasDegree; hide ErrorPoly; hide DataErrors; hide ParityErrors;
      var g, d, n, l := bch.g, bch.d, bch.eccBytes, bch.l;
      var D, Q, M, a := DataErrors(d, ps), ParityErrors(d, ps), Number(mask), 8 * n - d;
      var P := Parity(g, d, Number(page));
      ParityXor(g, d, Number(page), D);
      ErrorParts(d, ps);
      ParityErrorsSmall(d, ps);
      ReduceSmall(g, d, Q);
      ReduceXor(g, d, Join(D, d, 0), Q);
      var R := Parity(g, d, D);
      XorJoinShift(P, R, a); XorJoinShift(R, Q, a);
      CodesDiffer(Join(P, a, 0), Join(R, a, 0), Join(Q, a, 0), M);
      XorJoinShift(Number(calcEcc), Number(readEcc), 32 * l - 8 * n);
      JoinJoin(Xor(R, Q), a, 32 * l - 8 * n);
      ShrOfJoin(Xor(R, Q), 32 * l - d);
    }

    /** Flipping the bits ps makes the page read and its code agree: page has the data bits flipped, and the parity of page with
        the parity bits flipped is the code read without its mask. The bits below the parity are not looked at.
     */
    ghost predicate Repairs(page: seq<nat>, buf: seq<nat>, readEcc: seq<nat>, ps: seq<nat>) {
      && 0 < bch.d <= 8 * bch.eccBytes && |page| == |buf| && IsBytes(page)
      && Number(page) == Xor(Number(buf), DataErrors(bch.d, ps))
      && Shr(Xor(Number(readEcc), Number(mask)), 8 * bch.eccBytes - bch.d) == Xor(Parity(bch.g, bch.d, Number(page)), ParityErrors(bch.d, ps))
    }

    /** The bits that explain the difference of the codes are those that make page and code agree. */
    lemma {:induction false} RepairsIff(page: seq<nat>, buf: seq<nat>, readEcc: seq<nat>, calcEcc: seq<nat>, ps: seq<nat>)
      requires HasDegree(bch.g, bch.d) && 0 < bch.d <= 8 * bch.eccBytes <= 32 * bch.l && bch.eccBytes <= 4 * bch.l
      requires bch.IsEcc(readEcc) && IsCode(buf, calcEcc) && |page| == |buf| && IsBytes(page)
      requires Number(page) == Xor(Number(buf), DataErrors(bch.d, ps))
      ensures bch.WrongBits(bch.Difference(None, readEcc, Some(calcEcc)), ps) <==> Repairs(page, buf, readEcc, ps)
    {
      hide Number; hide Pow2; hide Join; hide Reduce; hide Xor; hide HasDegree; hide ErrorPoly; hide DataErrors; hide ParityErrors; hide Shr;
      var g, d, n, l := bch.g, bch.d, bch.eccBytes, bch.l;
      var D, Q, M, a := DataErrors(d, ps), ParityErrors(d, ps), Number(mask), 8 * n - d;
      var P, R, S := Parity(g, d, Number(buf)), Parity(g, d, D), Number(readEcc);
      ParityXor(g, d, Number(buf), D);
      ErrorParts(d, ps);
      ParityErrorsSmall(d, ps);
      ReduceSmall(g, d, Q);
      ReduceXor(g, d, Join(D, d, 0), Q);
      XorJoinShift(Number(calcEcc), S, 32 * l - 8 * n);
      ShrOfShifted(Xor(Number(calcEcc), S), 8 * n - d, 32 * l - 8 * n);
      ShrXor(Number(calcEcc), S, a); ShrXor(Join(P, a, 0), M, a); ShrXor(S, M, a);
      ShrOfJoin(P, a);
      MoveOver(P, Shr(M, a), Shr(S, a), R, Q);
    }

    /** Flipping what was reported restores the page. */
    lemma {:induction false} FlipsBack(page: seq<nat>, buf: seq<nat>, readEcc: seq<nat>, calcEcc: seq<nat>, ps: seq<nat>, locs: seq<nat>)
      requires Damaged(page, buf, readEcc, calcEcc, ps) && Reported(locs, 8 * size + bch.d, ps)
      ensures FlipAll(buf, locs) == page
    {
      hide Number; hide Pow2; hide Join; hide Reduce; hide Xor; hide FlipAll;
      hide DataErrors; hide ParityErrors; hide IsCode; hide ErrorBit; hide SamePositions;
      var rs :| ReportedAs(locs, 8 * size + bch.d, ps, rs);
      NumberFlips(bch.d, buf, rs, locs);
      DataErrorsSame(bch.d, rs, ps);
      XorCancel(Number(page), DataErrors(bch.d, ps));
      XorComm(Number(page), DataErrors(bch.d, ps));
      XorComm(Xor(DataErrors(bch.d, ps), Number(page)), DataErrors(bch.d, ps));
      NumberInjective(FlipAll(buf, locs), page);
    }
  }

  /** In an exclusive or of five terms any three equal the other two. */
  lemma {:induction false} MoveOver(p: nat, m: nat, s: nat, r: nat, q: nat)
    ensures Xor(Xor(p, m), s) == Xor(r, q) <==> Xor(s, m) == Xor(Xor(p, r), q)
  {
    hide Xor;
    var u := Xor(s, m);
    XorAssoc(p, m, s); XorComm(m, s);
    XorAssoc(p, r, q);
    XorCancel(u, p); XorCancel(Xor(r, q), p);
  }

  lemma {:induction false} ShrXor(x: nat, y: nat, k: nat)
    ensures Shr(Xor(x, y), k) == Xor(Shr(x, k), Shr(y, k))
  {
    hide Xor; hide Pow2;
    Division.Remainder(x, Pow2(k)); Division.Remainder(y, Pow2(k));
    var a, b, c, e := Shr(x, k), x % Pow2(k), Shr(y, k), y % Pow2(k);
    XorJoin(a, b, c, e, k);
    DivModUnique(Xor(x, y), Xor(a, c), Xor(b, e), Pow2(k));
  }

  lemma {:induction false} ShrOfShifted(x: nat, s: nat, k: nat)
    ensures Shr(Join(x, k, 0), k + s) == Shr(x, s)
  {
    hide Pow2; hide Join; hide Shr;
    ShrShr(Join(x, k, 0), k, s);
    ShrOfJoin(x, k);
  }

  lemma {:induction false} CodesDiffer(p: nat, r: nat, q: nat, m: nat)
    ensures Xor(Xor(Xor(p, r), m), Xor(Xor(p, m), q)) == Xor(r, q)
  {
    hide Xor;
    XorComm(p, r); XorAssoc(r, p, m);
    var u := Xor(p, m);
    XorAssoc(r, u, Xor(u, q));
    XorComm(u, Xor(u, q)); XorComm(u, q);
    XorAssoc(q, u, u); XorSelf(u); XorZero(q);
    XorComm(u, Xor(q, u));
  }

  lemma PositionsDistinct(f: Field, ps: seq<nat>)
    requires Positions(f, ps)
    ensures forall i, j | 0 <= i < j < |ps| :: ps[i] != ps[j]
  {
  }

  // ----- errors in the data and in the parity

  /** The wrong bits of the page as a number, and those of the parity. */
  ghost function DataErrors(d: nat, ps: seq<nat>): nat {
    if ps == [] then 0 else Xor(DataErrors(d, ps[..|ps| - 1]), DataTerm(d, ps[|ps| - 1]))
  }

  ghost function DataTerm(d: nat, p: nat): nat { if p < d then 0 else Pow2(p - d) }

  ghost function ParityErrors(d: nat, ps: seq<nat>): nat {
    if ps == [] then 0 else Xor(ParityErrors(d, ps[..|ps| - 1]), ParityTerm(d, ps[|ps| - 1]))
  }

  ghost function ParityTerm(d: nat, p: nat): nat { if p < d then Pow2(p) else 0 }

  lemma {:induction false} ErrorParts(d: nat, ps: seq<nat>)
    ensures ErrorPoly(ps) == Xor(Join(DataErrors(d, ps), d, 0), ParityErrors(d, ps))
  {
    hide Xor; hide Join; hide Pow2; hide DataTerm; hide ParityTerm;
    if ps == [] {
      JoinOfZero(d); XorZero(0);
    } else {
      var k := |ps| - 1;
      ErrorParts(d, ps[..k]);
      var D, Q := DataErrors(d, ps[..k]), ParityErrors(d, ps[..k]);
      XorJoinShift(D, DataTerm(d, ps[k]), d);
      TermParts(d, ps[k]);
      XorSwap(Join(D, d, 0), Join(DataTerm(d, ps[k]), d, 0), Q, ParityTerm(d, ps[k]));
    }
  }

  lemma {:induction false} TermParts(d: nat, p: nat)
    ensures Pow2(p) == Xor(Join(DataTerm(d, p), d, 0), ParityTerm(d, p))
  {
    hide Xor; hide Pow2;
    if p < d { JoinOfZero(d); } else { JoinPow2(p - d, d); }
    XorZero(Pow2(p));
  }

  lemma {:induction false} ParityErrorsSmall(d: nat, ps: seq<nat>)
    ensures ParityErrors(d, ps) < Pow2(d)
  {
    hide Xor; hide Pow2;
    if ps != [] {
      var k := |ps| - 1;
      ParityErrorsSmall(d, ps[..k]);
      if ps[k] < d { Pow2Strict(ps[k], d); }
      XorBound(ParityErrors(d, ps[..k]), ParityTerm(d, ps[k]), d);
    }
  }

  lemma {:induction false} DataErrorsSnoc(d: nat, ps: seq<nat>, p: nat)
    ensures DataErrors(d, ps + [p]) == Xor(DataErrors(d, ps), DataTerm(d, p))
  {
    assert (ps + [p])[..|ps|] == ps;
  }

  /** One position may be taken out of the sum anywhere. */
  lemma {:induction false} DataErrorsWithout(d: nat, rs: seq<nat>, j: nat)
    requires j < |rs|
    ensures DataErrors(d, rs) == Xor(DataErrors(d, rs[..j] + rs[j + 1..]), DataTerm(d, rs[j]))
  {
    hide Xor; hide DataTerm;
    var k := |rs| - 1;
    if j == k {
      assert rs[..j] + rs[j + 1..] == rs[..k];
    } else {
      DataErrorsWithout(d, rs[..k], j);
      var less := rs[..k][..j] + rs[..k][j + 1..];
      assert rs[..j] + rs[j + 1..] == less + [rs[k]];
      DataErrorsSnoc(d, less, rs[k]);
      var u, v, w := DataErrors(d, less), DataTerm(d, rs[j]), DataTerm(d, rs[k]);
      XorAssoc(u, v, w); XorComm(v, w); XorAssoc(u, w, v);
    }
  }

  /** The order of the positions does not matter. */
  lemma {:induction false} DataErrorsSame(d: nat, rs: seq<nat>, ps: seq<nat>)
    requires SamePositions(rs, ps) && forall i, j | 0 <= i < j < |ps| :: ps[i] != ps[j]
    ensures DataErrors(d, rs) == DataErrors(d, ps)
    decreases |ps|
  {
    hide Xor; hide DataTerm;
    if ps != [] {
      var k := |ps| - 1;
      var p := ps[k];
      assert p in rs;
      var j :| 0 <= j < |rs| && rs[j] == p;
      var less := rs[..j] + rs[j + 1..];
      DataErrorsWithout(d, rs, j);
      OneLess(rs, ps, j);
      DataErrorsSame(d, less, ps[..k]);
    }
  }

  lemma {:induction false} OneLess(rs: seq<nat>, ps: seq<nat>, j: nat)
    requires SamePositions(rs, ps) && ps != [] && j < |rs| && rs[j] == ps[|ps| - 1] && forall i, l | 0 <= i < l < |ps| :: ps[i] != ps[l]
    ensures SamePositions(rs[..j] + rs[j + 1..], ps[..|ps| - 1])
  {
    var k := |ps| - 1;
    var less := rs[..j] + rs[j + 1..];
    forall x ensures x in less <==> x in rs && x != rs[j] {
      if x in rs && x != rs[j] {
        var i :| 0 <= i < |rs| && rs[i] == x;
        assert if i < j then less[i] == x else less[i - 1] == x;
      }
      if x in less {
        var i :| 0 <= i < |less| && less[i] == x;
        assert less[i] == if i < j then rs[i] else rs[i + 1];
      }
    }
    assert ps == ps[..k] + [ps[k]];
    forall i, l | 0 <= i < l < |less| ensures less[i] != less[l] {
      assert less[i] == (if i < j then rs[i] else rs[i + 1]) && less[l] == (if l < j then rs[l] else rs[l + 1]);
    }
  }

  /** What flipping the reported bits does to the page as a number. */
  lemma {:induction false} NumberFlips(d: nat, buf: seq<nat>, rs: seq<nat>, locs: seq<nat>)
    requires IsBytes(buf) && |locs| == |rs| && forall i | 0 <= i < |rs| :: rs[i] < 8 * |buf| + d && locs[i] == ErrorBit(8 * |buf| + d, rs[i])
    ensures IsBytes(FlipAll(buf, locs)) && Number(FlipAll(buf, locs)) == Xor(Number(buf), DataErrors(d, rs))
  {
    hide Number; hide Pow2; hide Xor; hide FlipAt; hide DataTerm; hide ErrorBit;
    if rs == [] {
      XorZero(Number(buf));
    } else {
      var k := |rs| - 1;
      NumberFlips(d, buf, rs[..k], locs[..k]);
      NumberFlipAt(d, FlipAll(buf, locs[..k]), rs[k]);
      XorAssoc(Number(buf), DataErrors(d, rs[..k]), DataTerm(d, rs[k]));
    }
  }

  lemma {:induction false} NumberFlipAt(d: nat, buf: seq<nat>, p: nat)
    requires IsBytes(buf) && p < 8 * |buf| + d
    ensures var r := FlipAt(buf, ErrorBit(8 * |buf| + d, p)); IsBytes(r) && Number(r) == Xor(Number(buf), DataTerm(d, p))
  {
    hide Number; hide Pow2; hide Xor;
    var e := ErrorBit(8 * |buf| + d, p);
    if p < d {
      ErrorBitOfParity(|buf|, d, p);
      XorZero(Number(buf));
    } else {
      var k, b := e / 8, e % 8;
      ErrorBitOfData(|buf|, d, p);
      FlipStaysByte(buf[k], b);
      NumberFlip(buf, k, b);
    }
  }

  lemma ErrorBitOfData(size: nat, d: nat, p: nat)
    requires d <= p < 8 * size + d
    ensures var e := ErrorBit(8 * size + d, p); e < 8 * size && p - d == 8 * (size - 1 - e / 8) + e % 8
  {
  }

  lemma ErrorBitOfParity(size: nat, d: nat, q: nat)
    requires q < d
    ensures ErrorBit(8 * size + d, q) >= 8 * size
  {
  }

  // ----- the erased-page mask

  /** n bytes as erased flash reads them. */
  function Erased(n: nat): (s: seq<nat>)
    ensures |s| == n && IsBytes(s)
  {
    seq(n, _ => 0xff)
  }

  /** The mask that nand_bch_init computes: the complemented parity of an erased page. */
  method ErasedMask(bch: BchControl, size: nat, align: nat) returns (mask: seq<nat>)
    requires bch.Valid() && 8 * size + bch.d <= bch.f.N() && align < 4
    modifies bch.eccBuf
    ensures bch.d <= 8 * bch.eccBytes && bch.IsEcc(mask)
    ensures Number(mask) == Xor(Join(Parity(bch.g, bch.d, Number(Erased(size))), 8 * bch.eccBytes - bch.d, 0), Number(Erased(bch.eccBytes)))
  {
    hide BaseOk; hide Number; hide Feed; hide Pow2; hide Join; hide Reduce; hide TablesOk; hide Modulus; hide Xor; hide Erased;
    bch.Sizes();
    var page := Erased(size);
    var code := new nat[bch.eccBytes](_ => 0);
    assert code[..] == Zeros(code.Length);
    ZeroNumber(code.Length);
    assert bch.Loaded(code[..]) == 0 by { JoinOfZero(32 * bch.l - 8 * bch.eccBytes); }
    bch.Encode(page, align, code);
    FreshParity(bch.g, bch.d, bch.l, bch.eccBytes, Number(page), 8 * |page|);
    ghost var plain, ones := code[..], Erased(bch.eccBytes);
    ErasedBytes(bch.eccBytes);
    var i := 0;
    while i < code.Length
      invariant i <= code.Length
      invariant forall k | 0 <= k < i :: code[k] == Xor(plain[k], ones[k])
      invariant forall k | i <= k < code.Length :: code[k] == plain[k]
    {
      code[i] := Xor(code[i], 0xff);
      i := i + 1;
    }
    mask := code[..];
    NumberXor(plain, ones, mask);
  }

  lemma ErasedBytes(n: nat)
    ensures forall i | 0 <= i < n :: Erased(n)[i] == 0xff
  {
  }

  lemma {:induction false} NumberInjective(a: seq<nat>, b: seq<nat>)
    requires |a| == |b| && IsBytes(a) && IsBytes(b) && Number(a) == Number(b)
    ensures a == b
  {
    hide Pow2;
    if a != [] {
      var l := |a| - 1;
      LastByte(Number(a[..l]), a[l], Number(b[..l]), b[l]);
      NumberInjective(a[..l], b[..l]);
      assert a == a[..l] + [a[l]] && b == b[..l] + [b[l]];
    }
  }

  lemma {:induction false} LastByte(m: nat, x: nat, n: nat, y: nat)
    requires 256 * m + x == 256 * n + y && x < 256 && y < 256
    ensures m == n && x == y
  {
  }

  /** With that mask an erased page has an erased code, so reading erased flash reports no error. */
  lemma {:induction false} ErasedPageCode(nbc: NandBchControl, code: seq<nat>)
    requires nbc.bch.d <= 8 * nbc.bch.eccBytes && nbc.IsCode(Erased(nbc.size), code)
    requires Number(nbc.mask) == Xor(Join(Parity(nbc.bch.g, nbc.bch.d, Number(Erased(nbc.size))), 8 * nbc.bch.eccBytes - nbc.bch.d, 0),
                                     Number(Erased(nbc.bch.eccBytes)))
    ensures code == Erased(nbc.bch.eccBytes)
  {
    hide Number; hide Join; hide Reduce; hide Xor; hide Pow2; hide Erased;
    var j := Join(Parity(nbc.bch.g, nbc.bch.d, Number(Erased(nbc.size))), 8 * nbc.bch.eccBytes - nbc.bch.d, 0);
    XorCancel(Number(Erased(nbc.bch.eccBytes)), j);
    NumberInjective(code, Erased(nbc.bch.eccBytes));
  }

  /** One reported position: beyond the data it belongs to the parity. */
  ghost function FlipAt(buf: seq<nat>, e: nat): (r: seq<nat>)
    ensures |r| == |buf|
  {
    if e < 8 * |buf| then buf[e / 8 := Xor(buf[e / 8], Pow2(e % 8))] else buf
  }

  ghost function FlipAll(buf: seq<nat>, es: seq<nat>): (r: seq<nat>)
    ensures |r| == |buf|
  {
    if es == [] then buf else FlipAt(FlipAll(buf, es[..|es| - 1]), es[|es| - 1])
  }

  lemma {:induction false} FlipAllSnoc(buf: seq<nat>, es: seq<nat>, e: nat)
    ensures FlipAll(buf, es + [e]) == FlipAt(FlipAll(buf, es), e)
  {
    assert (es + [e])[..|es|] == es;
  }

  lemma FlipNothing(buf: seq<nat>, locs: seq<nat>)
    ensures FlipAll(buf, locs[..0]) == buf
  {
  }

  lemma {:induction false} FlipStaysByte(x: nat, b: nat)
    requires x < 256 && b < 8
    ensures Xor(x, Pow2(b)) < 256
  {
    hide Xor;
    Powers(); Pow2Strict(b, 8);
    XorBound(x, Pow2(b), 8);
  }

  lemma JoinOfZero(k: nat)
    ensures Join(0, k, 0) == 0
  {
  }
}
