/** load_ecc8 and store_ecc8: parity bytes to and from the words of the register. */
module EccBytes {
  import opened Bits
  import opened Words
  import opened BchGenerator
  import opened BchStream
  import opened BchEncoder

  /** n bytes fill l words, the last one partly. */
  predicate Fits(n: nat, l: nat) {
    l > 0 && 4 * (l - 1) < n <= 4 * l
  }

  lemma {:induction false} OrBytes(a: nat, b: nat, c: nat, d: nat)
    requires a < 256 && b < 256 && c < 256 && d < 256
    ensures Or(Or(Or(a * 0x100_0000, b * 0x1_0000), c * 0x100), d) == BigEndian(a, b, c, d)
  {
    hide Or; hide Pow2;
    Powers();
    OrDisjoint(a, b * 0x1_0000, 24);
    OrDisjoint(a * 0x100 + b, c * 0x100, 16);
    OrDisjoint(a * 0x1_0000 + b * 0x100 + c, d, 8);
  }

  function LoadWord(a: nat, b: nat, c: nat, d: nat): nat {
    Or(Or(Or(a * 0x100_0000, b * 0x1_0000), c * 0x100), d)
  }

  method Load(src: seq<nat>, dst: array<nat>)
    requires IsBytes(src) && Fits(|src|, dst.Length)
    modifies dst
    ensures IsWords(dst[..])
    ensures Value(dst[..]) == Join(Number(src), 32 * dst.Length - 8 * |src|, 0)
  {
    hide Value; hide Number; hide Pow2; hide Or; hide Join; hide BigEndian;
    var n := dst.Length - 1;
    var i := 0;
    EmptyNumbers(); NumberEmpty();
    assert dst[..0] == [] && src[..0] == [];
    while i < n
      invariant i <= n && (forall k | 0 <= k < i :: dst[k] < WORD)
      invariant Value(dst[..i]) == Number(src[..4 * i])
    {
      ghost var was := dst[..i];
      var q := src[4 * i..4 * i + 4];
      OrBytes(q[0], q[1], q[2], q[3]); BigEndianFits(q[0], q[1], q[2], q[3]);
      dst[i] := LoadWord(q[0], q[1], q[2], q[3]);
      assert dst[..i + 1] == was + [BigEndian(q[0], q[1], q[2], q[3])];
      LoadStep(was, src[..4 * i], q[0], q[1], q[2], q[3]);
      assert src[..4 * i + 4] == src[..4 * i] + [q[0], q[1], q[2], q[3]];
      i := i + 1;
    }
    var tail := src[4 * n..];
    var pad := tail + Zeros(4 - |tail|);
    OrBytes(pad[0], pad[1], pad[2], pad[3]); BigEndianFits(pad[0], pad[1], pad[2], pad[3]);
    ghost var was := dst[..n];
    dst[n] := LoadWord(pad[0], pad[1], pad[2], pad[3]);
    assert dst[..] == was + [BigEndian(pad[0], pad[1], pad[2], pad[3])];
    LoadStep(was, src[..4 * n], pad[0], pad[1], pad[2], pad[3]);
    assert src[..4 * n] + [pad[0], pad[1], pad[2], pad[3]] == src + Zeros(4 - |tail|);
    NumberZeros(src, 4 - |tail|);
  }

  function Zeros(k: nat): (z: seq<nat>)
    ensures |z| == k && forall i | 0 <= i < k :: z[i] == 0
  {
    seq(k, _ => 0)
  }

  lemma {:induction false} LoadStep(ws: seq<nat>, bs: seq<nat>, a: nat, b: nat, c: nat, d: nat)
    requires Value(ws) == Number(bs)
    ensures Value(ws + [BigEndian(a, b, c, d)]) == Number(bs + [a, b, c, d])
  {
    hide Value; hide Number; hide Pow2; hide BigEndian;
    ValueSnoc(ws, BigEndian(a, b, c, d));
    NumberFour(bs, a, b, c, d);
    Powers();
  }

  lemma {:induction false} ZeroNumber(k: nat)
    ensures Number(Zeros(k)) == 0
  {
    if k > 0 {
      ZeroNumber(k - 1);
      assert Zeros(k)[..k - 1] == Zeros(k - 1);
    }
  }

  lemma {:induction false} NumberZeros(bs: seq<nat>, k: nat)
    ensures Number(bs + Zeros(k)) == Join(Number(bs), 8 * k, 0)
  {
    hide Number; hide Pow2; hide Join;
    ZeroNumber(k);
    NumberAppend(bs, Zeros(k));
  }

  /** The four bytes of a word, most significant first. */
  function Split(w: nat): (bs: seq<nat>)
    ensures |bs| == 4
  {
    [Shr(w, 24), Shr(w, 16) % 256, Shr(w, 8) % 256, w % 256]
  }

  lemma {:induction false} SplitBytes(w: nat)
    requires w < WORD
    ensures IsBytes(Split(w)) && BigEndian(Split(w)[0], Split(w)[1], Split(w)[2], Split(w)[3]) == w
  {
    hide Pow2; hide Shr;
    WordBytes(w);
  }

  /** The bytes of a row of words. */
  ghost function AllBytes(ws: seq<nat>): (bs: seq<nat>)
    ensures |bs| == 4 * |ws|
  {
    if ws == [] then [] else AllBytes(ws[..|ws| - 1]) + Split(ws[|ws| - 1])
  }

  lemma {:induction false} AllBytesValue(ws: seq<nat>)
    requires IsWords(ws)
    ensures IsBytes(AllBytes(ws)) && Number(AllBytes(ws)) == Value(ws)
  {
    hide Pow2; hide Number; hide Value; hide Split; hide BigEndian;
    EmptyNumbers(); NumberEmpty();
    if ws != [] {
      var k := |ws| - 1;
      AllBytesValue(ws[..k]);
      SplitBytes(ws[k]);
      var q := Split(ws[k]);
      assert q == [q[0], q[1], q[2], q[3]];
      LoadStep(ws[..k], AllBytes(ws[..k]), q[0], q[1], q[2], q[3]);
      assert ws == ws[..k] + [ws[k]];
    }
  }

  method Store(src: seq<nat>, dst: array<nat>)
    requires IsWords(src) && Fits(dst.Length, |src|)
    modifies dst
    ensures IsBytes(dst[..])
    ensures Number(dst[..]) == Shr(Value(src), 32 * |src| - 8 * dst.Length)
  {
    hide Value; hide Number; hide Pow2; hide Split;
    var n := |src| - 1;
    ghost var all := AllBytes(src);
    var i := 0;
    while i < n
      invariant i <= n
      invariant forall k | 0 <= k < 4 * i :: dst[k] == AllBytes(src[..i])[k]
    {
      var q := Split(src[i]);
      dst[4 * i], dst[4 * i + 1], dst[4 * i + 2], dst[4 * i + 3] := q[0], q[1], q[2], q[3];
      assert src[..i + 1][..i] == src[..i];
      assert AllBytes(src[..i + 1]) == AllBytes(src[..i]) + q;
      i := i + 1;
    }
    var pad := Split(src[n]);
    var m := dst.Length - 4 * n;
    forall k | 0 <= k < m { dst[4 * n + k] := pad[k]; }
    assert all == AllBytes(src[..n]) + pad;
    assert dst[..] == all[..dst.Length];
    AllBytesValue(src);
    PrefixNumber(all, dst.Length);
  }

  lemma {:induction false} PrefixNumber(bs: seq<nat>, n: nat)
    requires IsBytes(bs) && n <= |bs|
    ensures Number(bs[..n]) == Shr(Number(bs), 8 * (|bs| - n))
  {
    hide Pow2; hide Number;
    assert bs == bs[..n] + bs[n..];
    NumberAppend(bs[..n], bs[n..]);
    NumberBound(bs[n..]);
    DivModUnique(Number(bs), Number(bs[..n]), Number(bs[n..]), Pow2(8 * (|bs| - n)));
  }
}
