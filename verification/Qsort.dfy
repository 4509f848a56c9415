/** qsort: Bentley and McIlroy's quicksort in place on an array, three-way partition, median of three
    or of nine, insertion sort for short ranges and when nothing moved, tail iteration on the right.

    A range is [lo, hi) in elements; the C code's byte pointers are element indices here.
 */
module Qsort {

  /** cmp orders T: a total preorder, equal elements allowed. */
  ghost predicate Preorder<T(!new)>(cmp: (T, T) -> int) {
    && (forall x, y :: cmp(x, y) < 0 <==> cmp(y, x) > 0)
    && (forall x, y, z :: cmp(x, y) <= 0 && cmp(y, z) <= 0 ==> cmp(x, z) <= 0)
  }

  ghost predicate Sorted<T>(s: seq<T>, lo: int, hi: int, cmp: (T, T) -> int)
    requires 0 <= lo <= hi <= |s|
  {
    forall i, j | lo <= i < j < hi :: cmp(s[i], s[j]) <= 0
  }

  /** t rearranges the range [lo, hi) of s and nothing else. */
  ghost predicate Permuted<T>(s: seq<T>, t: seq<T>, lo: int, hi: int)
    requires 0 <= lo <= hi <= |s|
  {
    |s| == |t| && s[..lo] == t[..lo] && s[hi..] == t[hi..] && multiset(s[lo..hi]) == multiset(t[lo..hi])
  }

  // ----- the comparator

  lemma LeTrans<T(!new)>(cmp: (T, T) -> int, x: T, y: T, z: T)
    requires Preorder(cmp) && cmp(x, y) <= 0 && cmp(y, z) <= 0
    ensures cmp(x, z) <= 0
  {
  }

  lemma Flip<T(!new)>(cmp: (T, T) -> int, x: T, y: T)
    requires Preorder(cmp)
    ensures cmp(x, y) >= 0 ==> cmp(y, x) <= 0
    ensures cmp(x, y) <= 0 ==> cmp(y, x) >= 0
  {
  }

  /** x at or below the pivot, y at or above it. */
  lemma Across<T(!new)>(cmp: (T, T) -> int, x: T, v: T, y: T)
    requires Preorder(cmp) && cmp(x, v) <= 0 && cmp(y, v) >= 0
    ensures cmp(x, y) <= 0
  {
    Flip(cmp, y, v);
    LeTrans(cmp, x, v, y);
  }

  // ----- permutations of a range

  lemma PermutedTrans<T>(s: seq<T>, t: seq<T>, u: seq<T>, lo: int, hi: int)
    requires 0 <= lo <= hi <= |s| && Permuted(s, t, lo, hi) && Permuted(t, u, lo, hi)
    ensures Permuted(s, u, lo, hi)
  {
  }

  lemma PermutedWider<T>(s: seq<T>, t: seq<T>, lo: int, hi: int, l: int, h: int)
    requires 0 <= l <= lo <= hi <= h <= |s| && Permuted(s, t, lo, hi)
    ensures Permuted(s, t, l, h)
  {
    Regroup(s, lo, hi, l, h);
    Regroup(t, lo, hi, l, h);
  }

  lemma Regroup<T>(s: seq<T>, lo: int, hi: int, l: int, h: int)
    requires 0 <= l <= lo <= hi <= h <= |s|
    ensures s[..l] == s[..lo][..l] && s[h..] == s[hi..][h - hi..]
    ensures s[l..h] == s[..lo][l..] + s[lo..hi] + s[hi..][..h - hi]
  {
  }

  lemma SwapPermutes<T>(s: seq<T>, i: int, j: int, lo: int, hi: int)
    requires 0 <= lo <= i < hi <= |s| && lo <= j < hi
    ensures Permuted(s, s[i := s[j]][j := s[i]], lo, hi)
  {
    var t := s[i := s[j]][j := s[i]];
    var w := s[lo..hi];
    assert t[lo..hi] == w[i - lo := w[j - lo]][j - lo := w[i - lo]];
  }

  /** What holds of every element of a range still holds after a rearrangement. */
  lemma PermutedKeeps<T>(s: seq<T>, t: seq<T>, lo: int, hi: int, p: T -> bool)
    requires 0 <= lo <= hi <= |s| && Permuted(s, t, lo, hi)
    requires forall i | lo <= i < hi :: p(s[i])
    ensures forall i | lo <= i < hi :: p(t[i])
  {
    forall i | lo <= i < hi ensures p(t[i]) {
      assert t[i] == t[lo..hi][i - lo];
      assert t[i] in multiset(t[lo..hi]);
      assert t[i] in s[lo..hi];
      var k :| 0 <= k < hi - lo && s[lo..hi][k] == t[i];
      assert s[lo + k] == t[i];
    }
  }

  lemma PermutedOutside<T>(s: seq<T>, t: seq<T>, lo: int, hi: int, i: int)
    requires 0 <= lo <= hi <= |s| && Permuted(s, t, lo, hi) && 0 <= i < |s| && !(lo <= i < hi)
    ensures s[i] == t[i]
  {
    if i < lo { assert s[i] == s[..lo][i] && t[i] == t[..lo][i]; }
    else { assert s[i] == s[hi..][i - hi] && t[i] == t[hi..][i - hi]; }
  }

  // ----- moves

  method Swap<T>(a: array<T>, i: int, j: int)
    requires 0 <= i < a.Length && 0 <= j < a.Length
    modifies a
    ensures a[..] == old(a[..])[i := old(a[j])][j := old(a[i])]
  {
    a[i], a[j] := a[j], a[i];
  }

  /** s with the blocks of r elements at i and at j exchanged. */
  ghost function BlocksSwapped<T>(s: seq<T>, i: int, j: int, r: int): (t: seq<T>)
    requires 0 <= i && 0 <= r && i + r <= j && j + r <= |s|
    ensures |t| == |s|
  {
    seq(|s|, k requires 0 <= k < |s| =>
      if i <= k < i + r then s[k - i + j] else if j <= k < j + r then s[k - j + i] else s[k])
  }

  /** vecswap. */
  method VecSwap<T>(a: array<T>, i: int, j: int, r: int)
    requires 0 <= i && 0 <= r && i + r <= j && j + r <= a.Length
    modifies a
    ensures a[..] == BlocksSwapped(old(a[..]), i, j, r)
    ensures Permuted(old(a[..]), a[..], i, j + r)
  {
    hide Permuted; hide BlocksSwapped;
    ghost var was := a[..];
    PermutedSelf(was, i, j + r);
    var k := 0;
    BlocksStart(was, i, j);
    while k < r
      invariant 0 <= k <= r && a[..] == BlocksSwapped(was, i, j, k)
      invariant Permuted(was, a[..], i, j + r)
    {
      BlocksNext(was, a[..], i, j, k, r);
      Swap(a, i + k, j + k);
      k := k + 1;
    }
  }

  lemma BlocksNext<T>(was: seq<T>, s: seq<T>, i: int, j: int, k: int, r: int)
    requires 0 <= i && 0 <= k < r && i + r <= j && j + r <= |was|
    requires s == BlocksSwapped(was, i, j, k) && Permuted(was, s, i, j + r)
    ensures var t := s[i + k := s[j + k]][j + k := s[i + k]];
      t == BlocksSwapped(was, i, j, k + 1) && Permuted(was, t, i, j + r)
  {
    hide Permuted; hide BlocksSwapped;
    SwapPermutes(s, i + k, j + k, i, j + r);
    PermutedTrans(was, s, s[i + k := s[j + k]][j + k := s[i + k]], i, j + r);
    BlocksStep(was, i, j, k);
  }

  lemma BlocksStart<T>(s: seq<T>, i: int, j: int)
    requires 0 <= i <= j <= |s|
    ensures BlocksSwapped(s, i, j, 0) == s
  {
  }

  lemma BlocksStep<T>(s: seq<T>, i: int, j: int, k: int)
    requires 0 <= i && 0 <= k && i + k + 1 <= j && j + k + 1 <= |s|
    ensures var t := BlocksSwapped(s, i, j, k);
      BlocksSwapped(s, i, j, k + 1) == t[i + k := t[j + k]][j + k := t[i + k]]
  {
  }

  lemma PermutedSelf<T>(s: seq<T>, lo: int, hi: int)
    requires 0 <= lo <= hi <= |s|
    ensures Permuted(s, s, lo, hi)
  {
  }

  // ----- insertion sort

  /** Sorted on [lo, pm] except that the element at pl may be too large for its left neighbours. */
  ghost predicate AlmostSorted<T>(s: seq<T>, lo: int, pl: int, pm: int, cmp: (T, T) -> int)
    requires 0 <= lo <= pl <= pm < |s|
  {
    forall i, j | lo <= i < j <= pm && j != pl :: cmp(s[i], s[j]) <= 0
  }

  lemma StepDown<T(!new)>(s: seq<T>, lo: int, pl: int, pm: int, cmp: (T, T) -> int)
    requires Preorder(cmp) && 0 <= lo < pl <= pm < |s| && AlmostSorted(s, lo, pl, pm, cmp)
    requires cmp(s[pl - 1], s[pl]) > 0
    ensures AlmostSorted(Swapped(s, pl, pl - 1), lo, pl - 1, pm, cmp)
  {
    Flip(cmp, s[pl - 1], s[pl]);
    hide Preorder;
    var t := s[pl := s[pl - 1]][pl - 1 := s[pl]];
    forall i, j | lo <= i < j <= pm && j != pl - 1 ensures cmp(t[i], t[j]) <= 0 {
      if j == pl {
        if i < pl - 1 { assert cmp(s[i], s[pl - 1]) <= 0; }
      } else if i == pl { assert cmp(s[pl - 1], s[j]) <= 0;
      } else if i == pl - 1 { assert cmp(s[pl], s[j]) <= 0;
      } else { assert cmp(s[i], s[j]) <= 0; }
    }
  }

  lemma InPlace<T(!new)>(s: seq<T>, lo: int, pl: int, pm: int, cmp: (T, T) -> int)
    requires Preorder(cmp) && 0 <= lo <= pl <= pm < |s| && AlmostSorted(s, lo, pl, pm, cmp)
    requires pl == lo || cmp(s[pl - 1], s[pl]) <= 0
    ensures Sorted(s, lo, pm + 1, cmp)
  {
    forall i, j | lo <= i < j < pm + 1 ensures cmp(s[i], s[j]) <= 0 {
      if j == pl && i < pl - 1 { LeTrans(cmp, s[i], s[pl - 1], s[pl]); }
    }
  }

  method InsertionSort<T(!new)>(a: array<T>, lo: int, hi: int, cmp: (T, T) -> int)
    requires Preorder(cmp) && 0 <= lo <= hi <= a.Length
    modifies a
    ensures Sorted(a[..], lo, hi, cmp) && Permuted(old(a[..]), a[..], lo, hi)
  {
    hide Preorder; hide Permuted;
    PermutedSelf(a[..], lo, hi);
    var pm := lo + 1;
    while pm < hi
      invariant lo < pm && (lo < hi ==> pm <= hi)
      invariant lo < hi ==> Sorted(a[..], lo, pm, cmp)
      invariant Permuted(old(a[..]), a[..], lo, hi)
    {
      ghost var s := a[..];
      Insert(a, lo, pm, hi, cmp);
      PermutedTrans(old(a[..]), s, a[..], lo, hi);
      pm := pm + 1;
    }
  }

  /** The element at pm moves down to its place. */
  method Insert<T(!new)>(a: array<T>, lo: int, pm: int, hi: int, cmp: (T, T) -> int)
    requires Preorder(cmp) && 0 <= lo < pm < hi <= a.Length && Sorted(a[..], lo, pm, cmp)
    modifies a
    ensures Sorted(a[..], lo, pm + 1, cmp) && Permuted(old(a[..]), a[..], lo, hi)
  {
    hide Preorder; hide Permuted; hide Sorted; hide AlmostSorted;
    ghost var was := a[..];
    PermutedSelf(was, lo, hi);
    SortedAlmost(was, lo, pm, cmp);
    var pl := pm;
    while pl > lo && cmp(a[pl - 1], a[pl]) > 0
      invariant lo <= pl <= pm && AlmostSorted(a[..], lo, pl, pm, cmp)
      invariant Permuted(was, a[..], lo, hi)
    {
      ghost var s := a[..];
      Sift(a, lo, pl, pm, hi, cmp);
      PermutedTrans(was, s, a[..], lo, hi);
      pl := pl - 1;
    }
    ghost var u := a[..];
    InPlace(u, lo, pl, pm, cmp);
  }

  /** The element at pl changes places with its larger left neighbour. */
  method Sift<T(!new)>(a: array<T>, lo: int, pl: int, pm: int, hi: int, cmp: (T, T) -> int)
    requires Preorder(cmp) && 0 <= lo < pl <= pm < hi <= a.Length && AlmostSorted(a[..], lo, pl, pm, cmp) && cmp(a[pl - 1], a[pl]) > 0
    modifies a
    ensures AlmostSorted(a[..], lo, pl - 1, pm, cmp) && Permuted(old(a[..]), a[..], lo, hi)
  {
    hide Preorder; hide Permuted; hide AlmostSorted; hide Swapped;
    ghost var s := a[..];
    StepDown(s, lo, pl, pm, cmp);
    SwapInRange(a, pl, pl - 1, lo, hi);
  }

  lemma SortedAlmost<T>(s: seq<T>, lo: int, pm: int, cmp: (T, T) -> int)
    requires 0 <= lo <= pm < |s| && Sorted(s, lo, pm, cmp)
    ensures AlmostSorted(s, lo, pm, pm, cmp)
  {
  }

  // ----- the pivot

  /** med3 on indices. */
  function Med3<T>(s: seq<T>, a: int, b: int, c: int, cmp: (T, T) -> int): (m: int)
    requires 0 <= a < |s| && 0 <= b < |s| && 0 <= c < |s|
    ensures m == a || m == b || m == c
  {
    if cmp(s[a], s[b]) < 0
    then if cmp(s[b], s[c]) < 0 then b else if cmp(s[a], s[c]) < 0 then c else a
    else if cmp(s[b], s[c]) > 0 then b else if cmp(s[a], s[c]) < 0 then a else c
  }

  /** The index med3 picks holds a median: not below or not above both others. */
  lemma Med3IsMedian<T(!new)>(s: seq<T>, a: int, b: int, c: int, cmp: (T, T) -> int)
    requires Preorder(cmp) && 0 <= a < |s| && 0 <= b < |s| && 0 <= c < |s|
    ensures var m := Med3(s, a, b, c, cmp);
      exists x, y | x in {a, b, c} && y in {a, b, c} :: cmp(s[x], s[m]) <= 0 <= cmp(s[y], s[m])
        && {x, m, y} == {a, b, c}
  {
    var m := Med3(s, a, b, c, cmp);
    Flip(cmp, s[a], s[b]); Flip(cmp, s[b], s[c]); Flip(cmp, s[a], s[c]);
    hide Preorder;
    var x, y := if m == b then (if cmp(s[a], s[b]) < 0 then a else c) else if m == a then b else b,
                if m == b then (if cmp(s[a], s[b]) < 0 then c else a) else if m == a then c else a;
    if cmp(s[x], s[m]) <= 0 <= cmp(s[y], s[m]) {
    } else {
      assert cmp(s[y], s[m]) <= 0 <= cmp(s[x], s[m]);
    }
  }

  function Pivot<T>(s: seq<T>, lo: int, n: int, cmp: (T, T) -> int): (p: int)
    requires 0 <= lo && 7 <= n && lo + n <= |s|
    ensures lo <= p < lo + n
  {
    var pm := lo + n / 2;
    if n <= 7 then pm
    else
      var pl, pn := lo, lo + n - 1;
      if n <= 40 then Med3(s, pl, pm, pn, cmp)
      else
        var d := n / 8;
        Med3(s, Med3(s, pl, pl + d, pl + 2 * d, cmp), Med3(s, pm - d, pm, pm + d, cmp),
             Med3(s, pn - 2 * d, pn - d, pn, cmp), cmp)
  }

  // ----- the partition

  /** equal [lo, pa), less [pa, pb), unknown [pb, pc], greater (pc, pd], equal (pd, hi). */
  ghost predicate Parted<T>(s: seq<T>, lo: int, hi: int, pa: int, pb: int, pc: int, pd: int, cmp: (T, T) -> int)
    requires 0 <= lo < hi <= |s|
  {
    && lo < pa <= pb <= pc + 1 && pc <= pd < hi
    && (forall i | lo <= i < pa :: cmp(s[i], s[lo]) == 0)
    && (forall i | pa <= i < pb :: cmp(s[i], s[lo]) < 0)
    && (forall i | pc < i <= pd :: cmp(s[i], s[lo]) > 0)
    && (forall i | pd < i < hi :: cmp(s[i], s[lo]) == 0)
  }

  lemma PartedBounds<T>(s: seq<T>, lo: int, hi: int, pa: int, pb: int, pc: int, pd: int, cmp: (T, T) -> int)
    requires 0 <= lo < hi <= |s| && Parted(s, lo, hi, pa, pb, pc, pd, cmp)
    ensures lo < pa <= pb <= pc + 1 && pc <= pd < hi
  {
  }

  function Swapped<T>(s: seq<T>, i: int, j: int): (t: seq<T>)
    requires 0 <= i < |s| && 0 <= j < |s|
    ensures |t| == |s|
  {
    s[i := s[j]][j := s[i]]
  }

  /** One step of the upward scan: an equal element goes to the left end. */
  lemma StepUp<T>(s: seq<T>, lo: int, hi: int, pa: int, pb: int, pc: int, pd: int, cmp: (T, T) -> int)
    requires 0 <= lo < hi <= |s| && Parted(s, lo, hi, pa, pb, pc, pd, cmp)
    requires pb <= pc && cmp(s[pb], s[lo]) <= 0
    ensures cmp(s[pb], s[lo]) == 0 ==> Parted(Swapped(s, pa, pb), lo, hi, pa + 1, pb + 1, pc, pd, cmp)
    ensures cmp(s[pb], s[lo]) != 0 ==> Parted(s, lo, hi, pa, pb + 1, pc, pd, cmp)
  {
  }

  /** One step of the downward scan: an equal element goes to the right end. */
  lemma StepPartDown<T>(s: seq<T>, lo: int, hi: int, pa: int, pb: int, pc: int, pd: int, cmp: (T, T) -> int)
    requires 0 <= lo < hi <= |s| && Parted(s, lo, hi, pa, pb, pc, pd, cmp)
    requires pb <= pc && cmp(s[pc], s[lo]) >= 0
    ensures cmp(s[pc], s[lo]) == 0 ==> Parted(Swapped(s, pc, pd), lo, hi, pa, pb, pc - 1, pd - 1, cmp)
    ensures cmp(s[pc], s[lo]) != 0 ==> Parted(s, lo, hi, pa, pb, pc - 1, pd, cmp)
  {
  }

  /** A greater element on the left and a smaller one on the right change places. */
  lemma StepExchange<T>(s: seq<T>, lo: int, hi: int, pa: int, pb: int, pc: int, pd: int, cmp: (T, T) -> int)
    requires 0 <= lo < hi <= |s| && Parted(s, lo, hi, pa, pb, pc, pd, cmp)
    requires pb <= pc && cmp(s[pb], s[lo]) > 0 && cmp(s[pc], s[lo]) < 0
    ensures Parted(Swapped(s, pb, pc), lo, hi, pa, pb + 1, pc - 1, pd, cmp)
  {
  }

  /** Scans up from pb over elements not above the pivot, moving equal ones to the left end. */
  method ScanUp<T(!new)>(a: array<T>, lo: int, hi: int, pa0: int, pb0: int, pc: int, pd: int, cmp: (T, T) -> int)
    returns (pa: int, pb: int, moved: bool)
    requires 0 <= lo < hi <= a.Length && Parted(a[..], lo, hi, pa0, pb0, pc, pd, cmp)
    modifies a
    ensures Parted(a[..], lo, hi, pa, pb, pc, pd, cmp) && pb >= pb0
    ensures pb <= pc ==> 0 <= pb < a.Length && cmp(a[pb], a[lo]) > 0
    ensures Permuted(old(a[..]), a[..], lo, hi)
    ensures !moved ==> a[..] == old(a[..])
  {
    hide Permuted; hide Parted;
    ghost var was := a[..];
    PermutedSelf(was, lo, hi);
    PartedBounds(was, lo, hi, pa0, pb0, pc, pd, cmp);
    pa, pb, moved := pa0, pb0, false;
    while pb <= pc && cmp(a[pb], a[lo]) <= 0
      invariant Parted(a[..], lo, hi, pa, pb, pc, pd, cmp) && pb0 <= pb <= pc + 1
      invariant Permuted(was, a[..], lo, hi)
      invariant !moved ==> a[..] == was
      decreases pc - pb
    {
      ghost var s := a[..];
      StepUp(s, lo, hi, pa, pb, pc, pd, cmp);
      PartedBounds(s, lo, hi, pa, pb, pc, pd, cmp);
      if cmp(a[pb], a[lo]) == 0 {
        moved := true;
        SwapInRange(a, pa, pb, lo, hi);
        PermutedTrans(was, s, a[..], lo, hi);
        pa := pa + 1;
      }
      pb := pb + 1;
    }
  }

  /** Scans down from pc over elements not below the pivot, moving equal ones to the right end. */
  method ScanDown<T(!new)>(a: array<T>, lo: int, hi: int, pa: int, pb: int, pc0: int, pd0: int, cmp: (T, T) -> int)
    returns (pc: int, pd: int, moved: bool)
    requires 0 <= lo < hi <= a.Length && Parted(a[..], lo, hi, pa, pb, pc0, pd0, cmp)
    modifies a
    ensures Parted(a[..], lo, hi, pa, pb, pc, pd, cmp) && pc <= pc0
    ensures pb <= pc ==> 0 <= pc < a.Length && cmp(a[pc], a[lo]) < 0
    ensures pb <= pc ==> 0 <= pb < a.Length && a[pb] == old(a[pb])
    ensures a[lo] == old(a[lo])
    ensures Permuted(old(a[..]), a[..], lo, hi)
    ensures !moved ==> a[..] == old(a[..])
  {
    hide Permuted; hide Parted; hide Swapped;
    ghost var was := a[..];
    PermutedSelf(was, lo, hi);
    PartedBounds(was, lo, hi, pa, pb, pc0, pd0, cmp);
    pc, pd, moved := pc0, pd0, false;
    while pb <= pc && cmp(a[pc], a[lo]) >= 0
      invariant Parted(a[..], lo, hi, pa, pb, pc, pd, cmp) && pb - 1 <= pc <= pc0 && pc <= pd < hi
      invariant a[lo] == was[lo] && (pb <= pc ==> a[pb] == was[pb])
      invariant Permuted(was, a[..], lo, hi)
      invariant !moved ==> a[..] == was
      decreases pc - pb
    {
      ghost var s := a[..];
      StepPartDown(s, lo, hi, pa, pb, pc, pd, cmp);
      PartedBounds(s, lo, hi, pa, pb, pc, pd, cmp);
      if cmp(a[pc], a[lo]) == 0 {
        moved := true;
        SwappedElsewhere(s, pc, pd, lo); SwappedElsewhere(s, pc, pd, pb);
        SwapInRange(a, pc, pd, lo, hi);
        PermutedTrans(was, s, a[..], lo, hi);
        assert a[lo] == a[..][lo] && a[pb] == a[..][pb];
        pd := pd - 1;
      }
      pc := pc - 1;
    }
  }

  lemma SwappedElsewhere<T>(s: seq<T>, i: int, j: int, k: int)
    requires 0 <= i < |s| && 0 <= j < |s| && 0 <= k < |s|
    ensures k != i && k != j ==> Swapped(s, i, j)[k] == s[k]
  {
  }

  /** A swap inside a range permutes it. */
  method SwapInRange<T>(a: array<T>, i: int, j: int, lo: int, hi: int)
    requires 0 <= lo <= i < hi <= a.Length && lo <= j < hi
    modifies a
    ensures a[..] == Swapped(old(a[..]), i, j) && Permuted(old(a[..]), a[..], lo, hi)
  {
    hide Permuted;
    SwapPermutes(a[..], i, j, lo, hi);
    Swap(a, i, j);
  }

  /** The whole partition around a[lo].  Nothing moved means the array is as it was. */
  method Partition<T(!new)>(a: array<T>, lo: int, hi: int, cmp: (T, T) -> int)
    returns (pa: int, pb: int, pc: int, pd: int, moved: bool)
    requires Preorder(cmp) && 0 <= lo < hi <= a.Length
    modifies a
    ensures Parted(a[..], lo, hi, pa, pb, pc, pd, cmp) && pb == pc + 1
    ensures Permuted(old(a[..]), a[..], lo, hi)
    ensures !moved ==> a[..] == old(a[..])
  {
    PartedStart(a[..], lo, hi, cmp);
    hide Permuted; hide Preorder; hide Parted;
    ghost var was := a[..];
    PermutedSelf(was, lo, hi);
    moved := false;
    pa, pb := lo + 1, lo + 1;
    pc, pd := hi - 1, hi - 1;
    while true
      invariant Parted(a[..], lo, hi, pa, pb, pc, pd, cmp)
      invariant Permuted(was, a[..], lo, hi)
      invariant !moved ==> a[..] == was
      decreases pc - pb + 1
    {
      ghost var s := a[..];
      var scanned;
      pa, pb, pc, pd, scanned := ScanBoth(a, lo, hi, pa, pb, pc, pd, cmp);
      ghost var u := a[..];
      PermutedTrans(was, s, u, lo, hi);
      moved := moved || scanned;
      if pb > pc {
        return;
      }
      PartedBounds(u, lo, hi, pa, pb, pc, pd, cmp);
      StepExchange(u, lo, hi, pa, pb, pc, pd, cmp);
      SwapInRange(a, pb, pc, lo, hi);
      PermutedTrans(was, u, a[..], lo, hi);
      moved := true;
      pb, pc := pb + 1, pc - 1;
    }
  }

  /** Both scans, up and down, until each stops at an element for the other side. */
  method ScanBoth<T(!new)>(a: array<T>, lo: int, hi: int, pa0: int, pb0: int, pc0: int, pd0: int, cmp: (T, T) -> int)
    returns (pa: int, pb: int, pc: int, pd: int, moved: bool)
    requires 0 <= lo < hi <= a.Length && Parted(a[..], lo, hi, pa0, pb0, pc0, pd0, cmp)
    modifies a
    ensures Parted(a[..], lo, hi, pa, pb, pc, pd, cmp) && pb >= pb0 && pc <= pc0 && pb <= pc + 1
    ensures pb <= pc ==> 0 <= pb < a.Length && 0 <= pc < a.Length && cmp(a[pb], a[lo]) > 0 && cmp(a[pc], a[lo]) < 0
    ensures Permuted(old(a[..]), a[..], lo, hi)
    ensures !moved ==> a[..] == old(a[..])
  {
    hide Permuted; hide Preorder; hide Parted;
    ghost var s := a[..];
    var up, down;
    pa, pb, up := ScanUp(a, lo, hi, pa0, pb0, pc0, pd0, cmp);
    ghost var t := a[..];
    pc, pd, down := ScanDown(a, lo, hi, pa, pb, pc0, pd0, cmp);
    PermutedTrans(s, t, a[..], lo, hi);
    PartedBounds(a[..], lo, hi, pa, pb, pc, pd, cmp);
    moved := up || down;
  }

  lemma PartedStart<T(!new)>(s: seq<T>, lo: int, hi: int, cmp: (T, T) -> int)
    requires Preorder(cmp) && 0 <= lo < hi <= |s|
    ensures Parted(s, lo, hi, lo + 1, lo + 1, hi - 1, hi - 1, cmp)
  {
    Flip(cmp, s[lo], s[lo]);
  }

  /** less, equal, greater than v, from left to right. */
  ghost predicate ThreeWay<T>(s: seq<T>, lo: int, hi: int, l: int, r: int, v: T, cmp: (T, T) -> int)
    requires 0 <= lo < hi <= |s|
  {
    && 0 <= l && 0 <= r && l + r < hi - lo
    && (forall i | lo <= i < lo + l :: cmp(s[i], v) < 0)
    && (forall i | lo + l <= i < hi - r :: cmp(s[i], v) == 0)
    && (forall i | hi - r <= i < hi :: cmp(s[i], v) > 0)
  }

  /** The two vecswaps that bring the equal elements into the middle. */
  method GatherEqual<T(!new)>(a: array<T>, lo: int, hi: int, pa: int, pb: int, pc: int, pd: int, cmp: (T, T) -> int)
    requires 0 <= lo < hi <= a.Length && Parted(a[..], lo, hi, pa, pb, pc, pd, cmp) && pb == pc + 1
    modifies a
    ensures ThreeWay(a[..], lo, hi, pb - pa, pd - pc, old(a[lo]), cmp)
    ensures Permuted(old(a[..]), a[..], lo, hi)
  {
    hide Permuted; hide Parted; hide ThreeWay; hide BlocksSwapped;
    ghost var s := a[..];
    PartedBounds(s, lo, hi, pa, pb, pc, pd, cmp);
    var r := if pa - lo < pb - pa then pa - lo else pb - pa;
    VecSwap(a, lo, pb - r, r);
    ghost var t := a[..];
    var q := if pd - pc < hi - 1 - pd then pd - pc else hi - 1 - pd;
    VecSwap(a, pb, hi - q, q);
    BlocksGather(s, t, a[..], lo, hi, pa, pb, pc, pd, r, q, cmp);
    PermutedWider(s, t, lo, pb, lo, hi);
    PermutedWider(t, a[..], pb, hi, lo, hi);
    PermutedTrans(s, t, a[..], lo, hi);
  }

  lemma BlocksGather<T>(s: seq<T>, t: seq<T>, u: seq<T>, lo: int, hi: int, pa: int, pb: int, pc: int, pd: int,
                        r: int, q: int, cmp: (T, T) -> int)
    requires 0 <= lo < hi <= |s| && Parted(s, lo, hi, pa, pb, pc, pd, cmp) && pb == pc + 1
    requires r == if pa - lo < pb - pa then pa - lo else pb - pa
    requires q == if pd - pc < hi - 1 - pd then pd - pc else hi - 1 - pd
    requires t == BlocksSwapped(s, lo, pb - r, r) && u == BlocksSwapped(t, pb, hi - q, q)
    ensures ThreeWay(u, lo, hi, pb - pa, pd - pc, s[lo], cmp)
  {
    var l, g := pb - pa, pd - pc;
    forall i | lo <= i < hi ensures u[i] == s[Source(lo, hi, pb, r, q, i)] {
      GatheredAt(s, t, u, lo, hi, pb, r, q, i);
    }
    hide BlocksSwapped;
    forall i | lo <= i < lo + l ensures cmp(u[i], s[lo]) < 0 {
      assert u[i] == s[Source(lo, hi, pb, r, q, i)];
    }
    forall i | lo + l <= i < hi - g ensures cmp(u[i], s[lo]) == 0 {
      assert u[i] == s[Source(lo, hi, pb, r, q, i)];
    }
    forall i | hi - g <= i < hi ensures cmp(u[i], s[lo]) > 0 {
      assert u[i] == s[Source(lo, hi, pb, r, q, i)];
    }
  }

  /** Where the element that ends up at i came from. */
  function Source(lo: int, hi: int, pb: int, r: int, q: int, i: int): int {
    if i < lo + r then i - lo + pb - r
    else if pb - r <= i < pb then i - (pb - r) + lo
    else if pb <= i < pb + q then i - pb + hi - q
    else if hi - q <= i then i - (hi - q) + pb
    else i
  }

  lemma GatheredAt<T>(s: seq<T>, t: seq<T>, u: seq<T>, lo: int, hi: int, pb: int, r: int, q: int, i: int)
    requires 0 <= lo <= i < hi <= |s| && 0 <= r && 0 <= q && lo + r <= pb - r && pb + q <= hi - q
    requires t == BlocksSwapped(s, lo, pb - r, r) && u == BlocksSwapped(t, pb, hi - q, q)
    ensures lo <= Source(lo, hi, pb, r, q, i) < hi && u[i] == s[Source(lo, hi, pb, r, q, i)]
  {
    if i < pb {
      assert u[i] == t[i];
    } else {
      var k := if i < pb + q then i - pb + hi - q else if hi - q <= i then i - (hi - q) + pb else i;
      assert u[i] == t[k] && t[k] == s[k];
    }
  }

  // ----- putting the parts together

  /** A sorted left part next to equal elements: everything before the right part is final. */
  lemma LeftDone<T(!new)>(t: seq<T>, u: seq<T>, lo: int, hi: int, l: int, r: int, v: T, cmp: (T, T) -> int)
    requires Preorder(cmp) && 0 <= lo < hi <= |t| && ThreeWay(t, lo, hi, l, r, v, cmp)
    requires Permuted(t, u, lo, lo + l) && Sorted(u, lo, lo + l, cmp)
    ensures ThreeWay(u, lo, hi, l, r, v, cmp)
    ensures forall i, j | lo <= i < j < hi && i < hi - r :: cmp(u[i], u[j]) <= 0
  {
    PermutedKeeps(t, u, lo, lo + l, x => cmp(x, v) < 0);
    forall i | lo + l <= i < hi ensures u[i] == t[i] { PermutedOutside(t, u, lo, lo + l, i); }
    hide Preorder; hide Permuted;
    forall i, j | lo <= i < j < hi && i < hi - r ensures cmp(u[i], u[j]) <= 0 {
      if j >= lo + l { Across(cmp, u[i], v, u[j]); }
    }
  }

  /** Everything before lo is in its final place. */
  ghost predicate Settled<T>(s: seq<T>, lo0: int, lo: int, hi: int, cmp: (T, T) -> int)
    requires 0 <= lo0 <= lo <= hi <= |s|
  {
    forall i, j | lo0 <= i < j < hi && i < lo :: cmp(s[i], s[j]) <= 0
  }

  lemma SettledKept<T>(s: seq<T>, t: seq<T>, lo0: int, lo: int, hi: int, cmp: (T, T) -> int)
    requires 0 <= lo0 <= lo <= hi <= |s| && Settled(s, lo0, lo, hi, cmp) && Permuted(s, t, lo, hi)
    ensures Settled(t, lo0, lo, hi, cmp)
  {
    forall i, j | lo0 <= i < j < hi && i < lo ensures cmp(t[i], t[j]) <= 0 {
      PermutedOutside(s, t, lo, hi, i);
      if j < lo {
        PermutedOutside(s, t, lo, hi, j);
      } else {
        PermutedKeeps(s, t, lo, hi, x => cmp(s[i], x) <= 0);
      }
    }
  }

  lemma SettledGrows<T>(s: seq<T>, lo0: int, lo: int, hi: int, r: int, cmp: (T, T) -> int)
    requires 0 <= lo0 <= lo <= hi - r && 0 <= r && hi <= |s| && Settled(s, lo0, lo, hi, cmp)
    requires forall i, j | lo <= i < j < hi && i < hi - r :: cmp(s[i], s[j]) <= 0
    ensures Settled(s, lo0, hi - r, hi, cmp)
  {
  }

  /** One round on [lo, hi): the pivot to the front, the partition.  done means the range was sorted
      on the spot; otherwise it is split into less (l), equal and greater (r). */
  method Round<T(!new)>(a: array<T>, lo: int, hi: int, cmp: (T, T) -> int)
    returns (done: bool, l: int, r: int, ghost v: T)
    requires Preorder(cmp) && 0 <= lo && lo + 7 <= hi <= a.Length
    modifies a
    ensures Permuted(old(a[..]), a[..], lo, hi)
    ensures done ==> Sorted(a[..], lo, hi, cmp)
    ensures !done ==> ThreeWay(a[..], lo, hi, l, r, v, cmp)
  {
    hide Permuted; hide Preorder; hide Parted; hide Sorted; hide ThreeWay;
    ghost var s := a[..];
    var p := Pivot(a[..], lo, hi - lo, cmp);
    SwapPermutes(s, lo, p, lo, hi);
    Swap(a, lo, p);
    ghost var t := a[..];
    var pa, pb, pc, pd, moved := Partition(a, lo, hi, cmp);
    ghost var u := a[..];
    PermutedTrans(s, t, u, lo, hi);
    v := a[lo];
    l, r := pb - pa, pd - pc;
    if !moved {
      InsertionSort(a, lo, hi, cmp);
      done := true;
    } else {
      GatherEqual(a, lo, hi, pa, pb, pc, pd, cmp);
      done := false;
    }
    PermutedTrans(s, u, a[..], lo, hi);
  }

  /** One pass of the loop on [lo, hi): r is the size of the right part still to be sorted. */
  method Iterate<T(!new)>(a: array<T>, lo0: int, lo: int, hi: int, cmp: (T, T) -> int) returns (r: int)
    requires Preorder(cmp) && 0 <= lo0 <= lo <= hi <= a.Length && Settled(a[..], lo0, lo, hi, cmp)
    modifies a
    ensures Permuted(old(a[..]), a[..], lo, hi)
    ensures 0 <= r <= hi - lo && (r > 0 ==> r < hi - lo) && Settled(a[..], lo0, hi - r, hi, cmp)
    decreases hi - lo, 0
  {
    hide Permuted; hide Preorder; hide ThreeWay; hide Settled; hide Sorted;
    ghost var s := a[..];
    if hi - lo < 7 {
      InsertionSort(a, lo, hi, cmp);
      SettledKept(s, a[..], lo0, lo, hi, cmp);
      AllSettled(a[..], lo0, lo, hi, cmp);
      return 0;
    }
    var done, l, r', v := Round(a, lo, hi, cmp);
    ghost var t := a[..];
    SettledKept(s, t, lo0, lo, hi, cmp);
    if done {
      AllSettled(t, lo0, lo, hi, cmp);
      return 0;
    }
    ThreeWaySizes(t, lo, hi, l, r', v, cmp);
    SortLeft(a, lo, l, cmp);
    LeftSettled(t, a[..], lo0, lo, hi, l, r', v, cmp);
    PermutedTrans(s, t, a[..], lo, hi);
    return r';
  }

  /** With the left part sorted, everything but the right part is settled. */
  lemma LeftSettled<T(!new)>(t: seq<T>, u: seq<T>, lo0: int, lo: int, hi: int, l: int, r: int, v: T, cmp: (T, T) -> int)
    requires Preorder(cmp) && 0 <= lo0 <= lo < hi <= |t| && ThreeWay(t, lo, hi, l, r, v, cmp) && Settled(t, lo0, lo, hi, cmp)
    requires 0 <= l && 0 <= r && l + r < hi - lo && Permuted(t, u, lo, lo + l) && |u| == |t| && Sorted(u, lo, lo + l, cmp)
    ensures Permuted(t, u, lo, hi) && Settled(u, lo0, hi - r, hi, cmp)
  {
    hide Preorder; hide Permuted; hide Settled; hide ThreeWay; hide Sorted;
    LeftDone(t, u, lo, hi, l, r, v, cmp);
    PermutedWider(t, u, lo, lo + l, lo, hi);
    SettledKept(t, u, lo0, lo, hi, cmp);
    SettledGrows(u, lo0, lo, hi, r, cmp);
  }

  /** The recursive call on the left part, made only for two elements or more. */
  method SortLeft<T(!new)>(a: array<T>, lo: int, l: int, cmp: (T, T) -> int)
    requires Preorder(cmp) && 0 <= lo && 0 <= l && lo + l <= a.Length
    modifies a
    ensures Sorted(a[..], lo, lo + l, cmp) && Permuted(old(a[..]), a[..], lo, lo + l)
    decreases l, 2
  {
    if l > 1 {
      Sort(a, lo, l, cmp);
    }
  }

  /** qsort on n elements from lo0. */
  method Sort<T(!new)>(a: array<T>, lo0: int, n0: int, cmp: (T, T) -> int)
    requires Preorder(cmp) && 0 <= lo0 && 0 <= n0 && lo0 + n0 <= a.Length
    modifies a
    ensures Sorted(a[..], lo0, lo0 + n0, cmp)
    ensures Permuted(old(a[..]), a[..], lo0, lo0 + n0)
    decreases n0, 1
  {
    hide Permuted; hide Preorder; hide Settled; hide Sorted;
    var lo, hi := lo0, lo0 + n0;
    PermutedSelf(a[..], lo0, hi);
    SettledStart(a[..], lo0, hi, cmp);
    while true
      invariant lo0 <= lo <= hi
      invariant Settled(a[..], lo0, lo, hi, cmp)
      invariant Permuted(old(a[..]), a[..], lo0, hi)
      decreases hi - lo
    {
      ghost var s := a[..];
      var r := Iterate(a, lo0, lo, hi, cmp);
      Widen(old(a[..]), s, a[..], lo0, lo, hi);
      if r <= 1 {
        SettledIsSorted(a[..], lo0, hi - r, hi, cmp);
        return;
      }
      lo := hi - r;
    }
  }

  lemma AllSettled<T>(s: seq<T>, lo0: int, lo: int, hi: int, cmp: (T, T) -> int)
    requires 0 <= lo0 <= lo <= hi <= |s| && Settled(s, lo0, lo, hi, cmp) && Sorted(s, lo, hi, cmp)
    ensures Settled(s, lo0, hi, hi, cmp)
  {
  }

  lemma SettledIsSorted<T>(s: seq<T>, lo0: int, lo: int, hi: int, cmp: (T, T) -> int)
    requires 0 <= lo0 <= lo <= hi <= |s| && hi <= lo + 1 && Settled(s, lo0, lo, hi, cmp)
    ensures Sorted(s, lo0, hi, cmp)
  {
  }

  lemma SettledStart<T>(s: seq<T>, lo: int, hi: int, cmp: (T, T) -> int)
    requires 0 <= lo <= hi <= |s|
    ensures Settled(s, lo, lo, hi, cmp)
  {
  }

  lemma ThreeWaySizes<T>(s: seq<T>, lo: int, hi: int, l: int, r: int, v: T, cmp: (T, T) -> int)
    requires 0 <= lo < hi <= |s| && ThreeWay(s, lo, hi, l, r, v, cmp)
    ensures 0 <= l && 0 <= r && l + r < hi - lo
  {
  }

  lemma Widen<T>(s: seq<T>, t: seq<T>, u: seq<T>, lo0: int, lo: int, hi: int)
    requires 0 <= lo0 <= lo <= hi <= |s| == |t| && Permuted(s, t, lo0, hi) && Permuted(t, u, lo, hi)
    ensures Permuted(s, u, lo0, hi)
  {
    PermutedWider(t, u, lo, hi, lo0, hi);
    PermutedTrans(s, t, u, lo0, hi);
  }
}
