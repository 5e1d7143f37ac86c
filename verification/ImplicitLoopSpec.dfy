/** Implicit loops over array sections: the odometer of the open indices, the mixed-radix decoding of an offset, and
    the offset of an index tuple. Source: pkg/cl/opcodes.c, modes.c, param.c, decl.c. */
module ImplicitLoopSpec {
  import opened Arith
  import opened Wrappers

  /** One dimension of an array: its length and the lowest index. */
  datatype Dim = Dim(len: int, off: int)

  // ---------------------------------------------------------------- arithmetic

  /** Quotient and remainder are unique. */
  lemma DivModIs(k: int, w: int, q: int, r: int)
    requires w > 0 && 0 <= r < w && k == q * w + r
    ensures k / w == q && k % w == r
  {
    var q', r' := k / w, k % w;
    assert k == q' * w + r';
    assert (q + 1) * w == q * w + w && (q' + 1) * w == q' * w + w;
    if q' > q { MulAtLeast(q', q + 1, w); }
    if q' < q { MulAtLeast(q, q' + 1, w); }
  }

  lemma DigitsLess(w: int, r: int, a: int, r': int, b: int)
    requires 0 <= r < w && 0 <= r' && a < b
    ensures r + a * w < r' + b * w
  {
    MulAtLeast(b, a + 1, w);
    assert (a + 1) * w == a * w + w;
  }

  lemma QuotientLess(w: int, j: int, k: int)
    requires w > 0 && 0 <= j < k
    ensures j / w < k / w || (j / w == k / w && j % w < k % w)
  {
    DivMod(j, w);
    DivMod(k, w);
    if k / w < j / w { DigitsLess(w, k % w, k / w, j % w, j / w); }
  }

  lemma QuotientBound(k: int, w: int, t: int)
    requires w > 0 && t > 0 && 0 <= k < t * w
    ensures 0 <= k / w < t
  {
    DivMod(k, w);
    if k / w >= t { MulAtLeast(k / w, t, w); }
  }

  lemma NoCarry(w: int, t: int, q: int, r: int)
    requires w > 0 && 0 <= r && r + 1 < w && q < t
    ensures (q * w + r + 1) % w == r + 1 && (q * w + r + 1) / w == q && q * w + r + 1 < t * w
  {
    DivModIs(q * w + r + 1, w, q, r + 1);
    MulAtLeast(t, q + 1, w);
    assert (q + 1) * w == q * w + w;
  }

  lemma Carry(w: int, t: int, q: int)
    requires w > 0 && q < t
    ensures (q * w + w) % w == 0 && (q * w + w) / w == q + 1 && (q * w + w < t * w <==> q + 1 < t)
  {
    assert (q + 1) * w == q * w + w;
    DivModIs(q * w + w, w, q + 1, 0);
    if q + 1 < t { DigitsLess(w, 0, q + 1, 0, t); }
  }

  /** The successor of k in radix w and a higher part below t. */
  lemma Successor(k: int, w: int, t: int)
    requires w > 0 && t > 0 && 0 <= k < w * t
    ensures 0 <= k / w < t
    ensures k % w + 1 < w ==> (k + 1) % w == k % w + 1 && (k + 1) / w == k / w && k + 1 < w * t
    ensures k % w + 1 == w ==> (k + 1) % w == 0 && (k + 1) / w == k / w + 1 && (k + 1 < w * t <==> k / w + 1 < t)
  {
    assert w * t == t * w;
    QuotientBound(k, w, t);
    DivMod(k, w);
    if k % w + 1 < w { NoCarry(w, t, k / w, k % w); } else { Carry(w, t, k / w); }
  }

  // ---------------------------------------------------------------- the odometer

  /** How many values an index runs through: at least one, whatever the limits. */
  function Width(b: int, e: int): (w: int)
    ensures w >= 1
  {
    if e >= b then e - b + 1 else 1
  }

  function Total(beg: seq<int>, end: seq<int>): (t: int)
    requires |beg| == |end|
    ensures t >= 1
  {
    if beg == [] then 1
    else
      var w, t := Width(beg[0], end[0]), Total(beg[1..], end[1..]);
      MulAtLeast(w, 1, t);
      w * t
  }

  /** The k-th tuple of indices, the first index running fastest. */
  function Tuple(beg: seq<int>, end: seq<int>, k: int): (t: seq<int>)
    requires |beg| == |end|
    ensures |t| == |beg|
  {
    if beg == [] then []
    else
      var w := Width(beg[0], end[0]);
      [beg[0] + k % w] + Tuple(beg[1..], end[1..], k / w)
  }

  /** o_indxincr: the next tuple, and whether there is one. */
  function Next(curr: seq<int>, beg: seq<int>, end: seq<int>): (r: (seq<int>, bool))
    requires |curr| == |beg| == |end|
    ensures |r.0| == |curr|
  {
    if curr == [] then ([], false)
    else if curr[0] < end[0] then ([curr[0] + 1] + curr[1..], true)
    else
      var (c, more) := Next(curr[1..], beg[1..], end[1..]);
      ([beg[0]] + c, more)
  }

  lemma {:induction false} TupleZero(beg: seq<int>, end: seq<int>)
    requires |beg| == |end|
    ensures Tuple(beg, end, 0) == beg
  {
    if beg != [] {
      TupleZero(beg[1..], end[1..]);
      assert beg == [beg[0]] + beg[1..];
      DivModIs(0, Width(beg[0], end[0]), 0, 0);
    }
  }

  /** The odometer counts: it steps from the k-th tuple to the next, and after the last one back to the first. */
  lemma {:induction false} OdometerCounts(beg: seq<int>, end: seq<int>, k: int)
    requires |beg| == |end| && 0 <= k < Total(beg, end)
    ensures Next(Tuple(beg, end, k), beg, end)
              == if k + 1 < Total(beg, end) then (Tuple(beg, end, k + 1), true) else (beg, false)
  {
    if beg != [] {
      var w, t := Width(beg[0], end[0]), Total(beg[1..], end[1..]);
      var c := Tuple(beg, end, k);
      assert w * t == Total(beg, end);
      Successor(k, w, t);
      assert c[0] < end[0] <==> k % w + 1 < w;
      assert c[1..] == Tuple(beg[1..], end[1..], k / w);
      if k % w + 1 < w {
        assert Tuple(beg, end, k + 1) == [c[0] + 1] + c[1..];
      } else {
        OdometerCounts(beg[1..], end[1..], k / w);
        assert [beg[0]] + beg[1..] == beg;
      }
    }
  }

  // ---------------------------------------------------------------- offsets

  ghost predicate Proper(dims: seq<Dim>) {
    forall d :: 0 <= d < |dims| ==> dims[d].len >= 1
  }

  function Size(dims: seq<Dim>): int {
    if dims == [] then 1 else dims[0].len * Size(dims[1..])
  }

  function Begs(dims: seq<Dim>): (r: seq<int>)
    ensures |r| == |dims| && forall d :: 0 <= d < |dims| ==> r[d] == dims[d].off
  {
    seq(|dims|, d requires 0 <= d < |dims| => dims[d].off)
  }

  function Ends(dims: seq<Dim>): (r: seq<int>)
    ensures |r| == |dims| && forall d :: 0 <= d < |dims| ==> r[d] == dims[d].off + dims[d].len - 1
  {
    seq(|dims|, d requires 0 <= d < |dims| => dims[d].off + dims[d].len - 1)
  }

  /** The indices pquery prints for an offset. */
  function Decode(dims: seq<Dim>, offset: int): (t: seq<int>)
    requires Proper(dims)
    ensures |t| == |dims|
  {
    if dims == [] then [] else [offset % dims[0].len + dims[0].off] + Decode(dims[1..], offset / dims[0].len)
  }

  /** The offset of an index tuple. */
  function Offset(dims: seq<Dim>, t: seq<int>): int
    requires |t| == |dims|
  {
    if dims == [] then 0 else t[0] - dims[0].off + dims[0].len * Offset(dims[1..], t[1..])
  }

  predicate InRange(d: Dim, i: int) {
    d.off <= i <= d.off + d.len - 1
  }

  ghost predicate Inside(dims: seq<Dim>, t: seq<int>) {
    |t| == |dims| && forall d :: 0 <= d < |dims| ==> InRange(dims[d], t[d])
  }

  lemma Tail(dims: seq<Dim>)
    requires dims != []
    ensures Begs(dims)[1..] == Begs(dims[1..]) && Ends(dims)[1..] == Ends(dims[1..])
  {
  }

  /** With the limits getlimits gives, the k-th tuple of the loop is the one pquery prints for offset k, and there are
      as many as the array has elements. */
  lemma {:induction false} LoopAgrees(dims: seq<Dim>, k: int)
    requires Proper(dims)
    ensures Tuple(Begs(dims), Ends(dims), k) == Decode(dims, k)
    ensures Total(Begs(dims), Ends(dims)) == Size(dims)
  {
    if dims != [] {
      Tail(dims);
      LoopAgrees(dims[1..], k / dims[0].len);
    }
  }

  lemma {:induction false} SizePositive(dims: seq<Dim>)
    requires Proper(dims)
    ensures Size(dims) >= 1
  {
    if dims != [] {
      SizePositive(dims[1..]);
      MulAtLeast(dims[0].len, 1, Size(dims[1..]));
    }
  }

  /** The number of iterations is the number of elements exactly when no dimension is empty. */
  lemma {:induction false} IterationsIff(dims: seq<Dim>)
    requires forall d :: 0 <= d < |dims| ==> dims[d].len >= 0
    ensures Total(Begs(dims), Ends(dims)) == Size(dims) <==> Proper(dims)
  {
    if Proper(dims) {
      LoopAgrees(dims, 0);
    } else {
      EmptySize(dims);
    }
  }

  lemma {:induction false} EmptySize(dims: seq<Dim>)
    requires (forall d :: 0 <= d < |dims| ==> dims[d].len >= 0) && !Proper(dims)
    ensures Size(dims) == 0
  {
    if dims[0].len > 0 {
      assert !Proper(dims[1..]) by {
        var d :| 0 <= d < |dims| && dims[d].len < 1;
        assert dims[1..][d - 1] == dims[d];
      }
      EmptySize(dims[1..]);
    }
  }

  /** Decoding an offset and computing the offset of the tuple are inverse to each other. */
  lemma {:induction false} OffsetOfDecode(dims: seq<Dim>, k: int)
    requires Proper(dims) && 0 <= k < Size(dims)
    ensures Inside(dims, Decode(dims, k)) && Offset(dims, Decode(dims, k)) == k
  {
    if dims != [] {
      var w := dims[0].len;
      SizePositive(dims[1..]);
      Successor(k, w, Size(dims[1..]));
      DivMod(k, w);
      OffsetOfDecode(dims[1..], k / w);
      assert Decode(dims, k)[1..] == Decode(dims[1..], k / w);
      assert (k / w) * w == w * (k / w);
    }
  }

  lemma {:induction false} DecodeOfOffset(dims: seq<Dim>, t: seq<int>)
    requires Inside(dims, t)
    ensures Proper(dims) && 0 <= Offset(dims, t) < Size(dims) && Decode(dims, Offset(dims, t)) == t
  {
    InsideProper(dims, t);
    if dims != [] {
      var w, o := dims[0].len, Offset(dims[1..], t[1..]);
      assert InRange(dims[0], t[0]);
      DecodeOfOffset(dims[1..], t[1..]);
      DigitOnTop(w, o, Size(dims[1..]), t[0] - dims[0].off);
      assert t == [t[0]] + t[1..];
    }
  }

  lemma InsideProper(dims: seq<Dim>, t: seq<int>)
    requires Inside(dims, t)
    ensures Proper(dims)
  {
    forall d | 0 <= d < |dims| ensures dims[d].len >= 1 { assert InRange(dims[d], t[d]); }
  }

  /** A digit r in radix w below a number o less than n. */
  lemma DigitOnTop(w: int, o: int, n: int, r: int)
    requires 0 <= r < w && 0 <= o < n
    ensures 0 <= r + w * o < w * n && (r + w * o) / w == o && (r + w * o) % w == r
  {
    assert w * o == o * w && w * n == n * w;
    DivModIs(r + w * o, w, o, r);
    MulAtLeast(n, o + 1, w);
    MulAtLeast(o, 0, w);
    assert (o + 1) * w == o * w + w;
  }

  // ---------------------------------------------------------------- sections

  /** An array reference: in each dimension an index, or open (None). */
  type Refs = seq<Option<int>>

  /** The dimensions that are open. */
  function OpenDims(dims: seq<Dim>, refs: Refs): (r: seq<Dim>)
    requires |dims| == |refs|
    ensures |r| <= |dims|
  {
    if refs == [] then []
    else (if refs[0] == None then [dims[0]] else []) + OpenDims(dims[1..], refs[1..])
  }

  function OpenCount(refs: Refs): (n: nat)
    ensures n <= |refs|
  {
    if refs == [] then 0 else (if refs[0] == None then 1 else 0) + OpenCount(refs[1..])
  }

  /** The tuple with the open places filled from s. */
  function Fill(refs: Refs, s: seq<int>): (t: seq<int>)
    requires |s| == OpenCount(refs)
    ensures |t| == |refs|
  {
    if refs == [] then []
    else if refs[0] == None then [s[0]] + Fill(refs[1..], s[1..])
    else [refs[0].value] + Fill(refs[1..], s)
  }

  /** What is in the open places of a tuple. */
  function Pick(refs: Refs, t: seq<int>): (s: seq<int>)
    requires |t| == |refs|
    ensures |s| == OpenCount(refs)
  {
    if refs == [] then []
    else (if refs[0] == None then [t[0]] else []) + Pick(refs[1..], t[1..])
  }

  ghost predicate Matches(refs: Refs, t: seq<int>) {
    |t| == |refs| && forall d :: 0 <= d < |refs| && refs[d].Some? ==> t[d] == refs[d].value
  }

  lemma {:induction false} OpenDimsProper(dims: seq<Dim>, refs: Refs)
    requires |dims| == |refs| && Proper(dims)
    ensures Proper(OpenDims(dims, refs)) && |OpenDims(dims, refs)| == OpenCount(refs)
  {
    if refs != [] { OpenDimsProper(dims[1..], refs[1..]); }
  }

  /** The element the k-th iteration refers to. */
  function SectionOffset(dims: seq<Dim>, refs: Refs, k: int): int
    requires |dims| == |refs| && Proper(dims)
  {
    OpenDimsProper(dims, refs);
    Offset(dims, Fill(refs, Decode(OpenDims(dims, refs), k)))
  }

  /** The elements of the section are visited in the order of their offsets, none twice. */
  lemma {:induction false} SectionAscends(dims: seq<Dim>, refs: Refs, j: int, k: int)
    requires |dims| == |refs| && Proper(dims) && 0 <= j < k < Size(OpenDims(dims, refs))
    ensures SectionOffset(dims, refs, j) < SectionOffset(dims, refs, k)
  {
    OpenDimsProper(dims, refs);
    if refs != [] {
      var open, rest := OpenDims(dims, refs), OpenDims(dims[1..], refs[1..]);
      OpenDimsProper(dims[1..], refs[1..]);
      SizePositive(rest);
      var w := dims[0].len;
      if refs[0] == None {
        assert open[1..] == rest;
        Successor(j, w, Size(rest));
        Successor(k, w, Size(rest));
        DivMod(j, w);
        DivMod(k, w);
        QuotientLess(w, j, k);
        SplitOpen(dims, refs, j);
        SplitOpen(dims, refs, k);
        if j / w < k / w {
          SectionAscends(dims[1..], refs[1..], j / w, k / w);
          DigitsLess(w, j % w, SectionOffset(dims[1..], refs[1..], j / w), k % w, SectionOffset(dims[1..], refs[1..], k / w));
        }
      } else {
        assert open == rest;
        SectionAscends(dims[1..], refs[1..], j, k);
        SplitFixed(dims, refs, j);
        SplitFixed(dims, refs, k);
        DigitsLess(w, 0, SectionOffset(dims[1..], refs[1..], j), 0, SectionOffset(dims[1..], refs[1..], k));
      }
    }
  }

  lemma SplitOpen(dims: seq<Dim>, refs: Refs, k: int)
    requires |dims| == |refs| && Proper(dims) && refs != [] && refs[0] == None
    ensures SectionOffset(dims, refs, k)
              == k % dims[0].len + SectionOffset(dims[1..], refs[1..], k / dims[0].len) * dims[0].len
  {
    OpenDimsProper(dims, refs);
    var open := OpenDims(dims, refs);
    assert open[0] == dims[0] && open[1..] == OpenDims(dims[1..], refs[1..]);
    var s := Decode(open, k);
    assert s[1..] == Decode(open[1..], k / dims[0].len);
    assert Fill(refs, s)[1..] == Fill(refs[1..], s[1..]);
  }

  lemma SplitFixed(dims: seq<Dim>, refs: Refs, k: int)
    requires |dims| == |refs| && Proper(dims) && refs != [] && refs[0].Some?
    ensures SectionOffset(dims, refs, k)
              == refs[0].value - dims[0].off + SectionOffset(dims[1..], refs[1..], k) * dims[0].len
  {
    OpenDimsProper(dims, refs);
    var open := OpenDims(dims, refs);
    assert open == OpenDims(dims[1..], refs[1..]);
    var s := Decode(open, k);
    assert Fill(refs, s)[1..] == Fill(refs[1..], s);
  }

  lemma {:induction false} FillPick(refs: Refs, t: seq<int>)
    requires Matches(refs, t)
    ensures Fill(refs, Pick(refs, t)) == t
  {
    if refs != [] {
      FillPick(refs[1..], t[1..]);
      assert t == [t[0]] + t[1..];
      if refs[0] == None {
        assert Pick(refs, t)[1..] == Pick(refs[1..], t[1..]);
      } else {
        assert Pick(refs, t) == Pick(refs[1..], t[1..]);
      }
    }
  }

  lemma {:induction false} PickInside(dims: seq<Dim>, refs: Refs, t: seq<int>)
    requires |dims| == |refs| && Inside(dims, t)
    ensures Inside(OpenDims(dims, refs), Pick(refs, t))
  {
    if refs != [] { PickInside(dims[1..], refs[1..], t[1..]); }
  }

  /** Every element of the section is visited. */
  lemma SectionCovered(dims: seq<Dim>, refs: Refs, t: seq<int>)
    requires |dims| == |refs| && Inside(dims, t) && Matches(refs, t)
    ensures Proper(dims)
    ensures exists k :: 0 <= k < Size(OpenDims(dims, refs)) && SectionOffset(dims, refs, k) == Offset(dims, t)
  {
    DecodeOfOffset(dims, t);
    PickInside(dims, refs, t);
    var open, s := OpenDims(dims, refs), Pick(refs, t);
    DecodeOfOffset(open, s);
    FillPick(refs, t);
    assert SectionOffset(dims, refs, Offset(open, s)) == Offset(dims, t);
  }

  lemma {:induction false} AllOpen(dims: seq<Dim>, refs: Refs, s: seq<int>)
    requires |dims| == |refs| == |s| && forall d :: 0 <= d < |refs| ==> refs[d] == None
    ensures OpenDims(dims, refs) == dims && OpenCount(refs) == |refs| && Fill(refs, s) == s
  {
    if refs != [] {
      AllOpen(dims[1..], refs[1..], s[1..]);
      assert dims == [dims[0]] + dims[1..] && s == [s[0]] + s[1..];
    }
  }

  /** With every index open the k-th iteration refers to the element at offset k. */
  lemma {:induction false} WholeArray(dims: seq<Dim>, refs: Refs, k: int)
    requires |dims| == |refs| && Proper(dims) && 0 <= k < Size(dims)
    requires forall d :: 0 <= d < |refs| ==> refs[d] == None
    ensures SectionOffset(dims, refs, k) == k
  {
    AllOpen(dims, refs, Decode(dims, k));
    OffsetOfDecode(dims, k);
  }
}
