/** The chains of the dictionary (packages with their ltasks, parameter files with their parameters) as sequences of
    addresses, and what cutting them back to a mark does to them. Source: pkg/cl/exec.c, pkg/cl/main.c. */
module DictionarySpec {
  import opened Chains
  import opened Wrappers

  // ---------------------------------------------------------------- addresses and marks

  ghost predicate Ascending(s: seq<int>) {
    forall j, k :: 0 <= j < k < |s| ==> s[j] < s[k]
  }

  ghost predicate Descending(s: seq<int>) {
    forall j, k :: 0 <= j < k < |s| ==> s[j] > s[k]
  }

  /** The addresses below the mark. */
  function Below(s: seq<int>, mark: int): seq<int> {
    if s == [] then []
    else if s[0] < mark then [s[0]] + Below(s[1..], mark)
    else Below(s[1..], mark)
  }

  /** How many addresses at the front are at or above the mark. */
  function LeadAbove(s: seq<int>, mark: int): (n: nat)
    ensures n <= |s| && (n < |s| ==> s[n] < mark) && forall k :: 0 <= k < n ==> s[k] >= mark
  {
    if s != [] && s[0] >= mark then LeadAbove(s[1..], mark) + 1 else 0
  }

  /** How many addresses at the front are below the mark. */
  function LeadBelow(s: seq<int>, mark: int): (n: nat)
    ensures n <= |s| && (n < |s| ==> s[n] >= mark) && forall k :: 0 <= k < n ==> s[k] < mark
  {
    if s != [] && s[0] < mark then LeadBelow(s[1..], mark) + 1 else 0
  }

  lemma {:induction false} AllBelow(s: seq<int>, mark: int)
    requires forall k :: 0 <= k < |s| ==> s[k] < mark
    ensures Below(s, mark) == s
  {
    if s != [] {
      AllBelow(s[1..], mark);
      assert s == [s[0]] + s[1..];
    }
  }

  lemma {:induction false} NoneBelow(s: seq<int>, mark: int)
    requires forall k :: 0 <= k < |s| ==> s[k] >= mark
    ensures Below(s, mark) == []
  {
    if s != [] { NoneBelow(s[1..], mark); }
  }

  lemma {:induction false} BelowConcat(s: seq<int>, t: seq<int>, mark: int)
    ensures Below(s + t, mark) == Below(s, mark) + Below(t, mark)
  {
    if s == [] {
      assert s + t == t;
    } else {
      BelowConcat(s[1..], t, mark);
      assert (s + t)[1..] == s[1..] + t && (s + t)[0] == s[0];
      Cons(s[0], Below(s[1..], mark), Below(t, mark));
    }
  }

  lemma Cons(a: int, s: seq<int>, t: seq<int>)
    ensures [a] + (s + t) == ([a] + s) + t
  {
  }

  lemma {:induction false} DescendingCut(s: seq<int>, mark: int)
    requires Descending(s)
    ensures s[LeadAbove(s, mark)..] == Below(s, mark)
  {
    var n := LeadAbove(s, mark);
    assert s == s[..n] + s[n..];
    BelowConcat(s[..n], s[n..], mark);
    NoneBelow(s[..n], mark);
    forall k | n <= k < |s| ensures s[k] < mark {
      if n < k { assert s[n] > s[k]; }
    }
    AllBelow(s[n..], mark);
  }

  lemma {:induction false} AscendingCut(s: seq<int>, mark: int)
    requires Ascending(s)
    ensures s[..LeadBelow(s, mark)] == Below(s, mark)
  {
    var n := LeadBelow(s, mark);
    assert s == s[..n] + s[n..];
    BelowConcat(s[..n], s[n..], mark);
    AllBelow(s[..n], mark);
    forall k | n <= k < |s| ensures s[k] >= mark {
      if n < k { assert s[n] < s[k]; }
    }
    NoneBelow(s[n..], mark);
  }

  // ---------------------------------------------------------------- the dictionary

  /** A package and its ltasks, from pk_ltp on. */
  datatype PackageView = PackageView(addr: int, ltasks: seq<int>)

  /** A parameter file: the parameters from pf_pp on, pf_lastpp, pf_n and PF_UPDATE. */
  datatype PfileView = PfileView(addr: int, params: seq<int>, last: int, n: int, update: bool)

  datatype View = View(packages: seq<PackageView>, pfiles: seq<PfileView>)

  function PackageAddrs(ps: seq<PackageView>): (r: seq<int>)
    ensures |r| == |ps| && forall k :: 0 <= k < |ps| ==> r[k] == ps[k].addr
  {
    seq(|ps|, k requires 0 <= k < |ps| => ps[k].addr)
  }

  function PfileAddrs(fs: seq<PfileView>): (r: seq<int>)
    ensures |r| == |fs| && forall k :: 0 <= k < |fs| ==> r[k] == fs[k].addr
  {
    seq(|fs|, k requires 0 <= k < |fs| => fs[k].addr)
  }

  // ---------------------------------------------------------------- what restor does

  function CutPackage(p: PackageView, mark: int): PackageView {
    p.(ltasks := p.ltasks[LeadAbove(p.ltasks, mark)..])
  }

  /** The parameters of a pfile below the mark: nothing is done if pf_lastpp is below it. With the first parameter
      above the mark pf_pp is left as it was. */
  function CutPfile(f: PfileView, mark: int): PfileView {
    if f.last < mark then f
    else
      var n := LeadBelow(f.params, mark);
      if n == |f.params| then f else EndedAt(f, n)
  }

  function EndedAt(f: PfileView, n: nat): PfileView
    requires n < |f.params|
  {
    if n == 0 then f.(last := NULL, n := 0) else f.(params := f.params[..n], last := f.params[n - 1], n := n)
  }

  // The first k entries of a list treated, the others as they were.

  function CutFirst(ps: seq<PackageView>, k: nat, mark: int): (r: seq<PackageView>)
    ensures |r| == |ps|
  {
    seq(|ps|, i requires 0 <= i < |ps| => if i < k then CutPackage(ps[i], mark) else ps[i])
  }

  lemma CutFirstStep(ps: seq<PackageView>, k: nat, mark: int)
    requires k < |ps|
    ensures CutFirst(ps, k, mark)[k] == ps[k]
    ensures CutFirst(ps, k, mark)[k := CutPackage(ps[k], mark)] == CutFirst(ps, k + 1, mark)
  {
  }

  lemma CutFirstAddrs(ps: seq<PackageView>, k: nat, mark: int)
    ensures PackageAddrs(CutFirst(ps, k, mark)) == PackageAddrs(ps) && CutFirst(ps, 0, mark) == ps
  {
  }

  function FlagFirst(fs: seq<PfileView>, k: nat, sets: set<int>): (r: seq<PfileView>)
    ensures |r| == |fs|
  {
    seq(|fs|, i requires 0 <= i < |fs| => if i < k then Flagged(fs[i], sets) else fs[i])
  }

  lemma FlagFirstStep(fs: seq<PfileView>, k: nat, sets: set<int>)
    requires k < |fs|
    ensures FlagFirst(fs, k, sets)[k] == fs[k]
    ensures FlagFirst(fs, k, sets)[k := Flagged(fs[k], sets)] == FlagFirst(fs, k + 1, sets)
  {
  }

  lemma FlagFirstAddrs(fs: seq<PfileView>, k: nat, sets: set<int>)
    ensures PfileAddrs(FlagFirst(fs, k, sets)) == PfileAddrs(fs) && FlagFirst(fs, 0, sets) == fs
  {
  }

  function TrimFirst(fs: seq<PfileView>, k: nat, mark: int): (r: seq<PfileView>)
    ensures |r| == |fs|
  {
    seq(|fs|, i requires 0 <= i < |fs| => if i < k then CutPfile(fs[i], mark) else fs[i])
  }

  lemma TrimFirstStep(fs: seq<PfileView>, k: nat, mark: int)
    requires k < |fs|
    ensures TrimFirst(fs, k, mark)[k] == fs[k]
    ensures TrimFirst(fs, k, mark)[k := CutPfile(fs[k], mark)] == TrimFirst(fs, k + 1, mark)
  {
  }

  lemma TrimFirstAddrs(fs: seq<PfileView>, k: nat, mark: int)
    ensures PfileAddrs(TrimFirst(fs, k, mark)) == PfileAddrs(fs) && TrimFirst(fs, 0, mark) == fs
  {
  }

  /** The packages after restor, if one of them is below the mark. */
  function PackagesAfter(ps: seq<PackageView>, mark: int): seq<PackageView> {
    var i := LeadAbove(PackageAddrs(ps), mark);
    CutFirst(ps[i..], |ps| - i, mark)
  }

  /** The pfiles after restor. If none is below the mark parhead is not touched. */
  function PfilesAfter(fs: seq<PfileView>, mark: int, sets: set<int>): seq<PfileView> {
    var j := LeadAbove(PfileAddrs(fs), mark);
    if j == |fs| then FlagFirst(fs, j, sets) else TrimFirst(fs[j..], |fs| - j, mark)
  }

  /** sets are the parameters with P_SET: a discarded pfile that has one is flagged PF_UPDATE. */
  function Flagged(f: PfileView, sets: set<int>): PfileView {
    f.(update := f.update || exists k :: 0 <= k < |f.params| && f.params[k] in sets)
  }

  /** The list parameters among s, whose files are closed. */
  function Lists(s: seq<int>, lists: set<int>): seq<int> {
    if s == [] then [] else Lists(s[..|s| - 1], lists) + if s[|s| - 1] in lists then [s[|s| - 1]] else []
  }

  /** The list files closed: those of the parameters of the first n pfiles. */
  function ClosedLists(fs: seq<PfileView>, n: nat, lists: set<int>): seq<int>
    requires n <= |fs|
  {
    if n == 0 then [] else ClosedLists(fs, n - 1, lists) + Lists(fs[n - 1].params, lists)
  }

  /** The pfiles written out: of the first n those flagged, or now flagged, PF_UPDATE that are no copies. */
  function Written(fs: seq<PfileView>, n: nat, sets: set<int>, copies: set<int>): seq<int>
    requires n <= |fs|
  {
    if n == 0 then []
    else
      var f := Flagged(fs[n - 1], sets);
      Written(fs, n - 1, sets, copies) + if f.update && f.addr !in copies then [f.addr] else []
  }

  /** The pfiles restor writes out, when not in batch mode. */
  function WrittenBy(fs: seq<PfileView>, mark: int, sets: set<int>, copies: set<int>): seq<int> {
    Written(fs, LeadAbove(PfileAddrs(fs), mark), sets, copies)
  }

  /** The list parameters whose files restor closes. */
  function ClosedBy(fs: seq<PfileView>, mark: int, lists: set<int>): seq<int> {
    ClosedLists(fs, LeadAbove(PfileAddrs(fs), mark), lists)
  }

  /** What discarding one more pfile adds to the files written and the lists closed. */
  lemma DiscardStep(fs: seq<PfileView>, j: nat, sets: set<int>, copies: set<int>, lists: set<int>, w: seq<int>,
        c: seq<int>)
    requires j < |fs|
    ensures w + Written(fs, j, sets, copies) + (if Flagged(fs[j], sets).update && fs[j].addr !in copies then [fs[j].addr] else [])
            == w + Written(fs, j + 1, sets, copies)
    ensures c + ClosedLists(fs, j, lists) + Lists(fs[j].params, lists) == c + ClosedLists(fs, j + 1, lists)
  {
  }

  // ---------------------------------------------------------------- what that means for ordered chains

  /** Of each chain exactly the entries below the mark, in their old order. */
  ghost predicate PackagesBelow(before: seq<PackageView>, after: seq<PackageView>, mark: int) {
    && PackageAddrs(after) == Below(PackageAddrs(before), mark)
    && forall i, k :: 0 <= i < |before| && 0 <= k < |after| && before[i].addr == after[k].addr ==>
         after[k].ltasks == Below(before[i].ltasks, mark)
  }

  ghost predicate PfileBelow(f: PfileView, g: PfileView, mark: int) {
    && g.addr == f.addr && g.params == Below(f.params, mark) && g.last == Last(g.params) && g.update == f.update
    && (g.params != f.params ==> g.n == |g.params|) && (g.params == f.params ==> g.n == f.n)
  }

  lemma PackagesExact(before: seq<PackageView>, after: seq<PackageView>, mark: int)
    requires Descending(PackageAddrs(before)) && forall i :: 0 <= i < |before| ==> Descending(before[i].ltasks)
    requires after == PackagesAfter(before, mark)
    ensures PackagesBelow(before, after, mark)
  {
    var i := LeadAbove(PackageAddrs(before), mark);
    DescendingCut(PackageAddrs(before), mark);
    assert PackageAddrs(after) == PackageAddrs(before)[i..];
    forall j, k | 0 <= j < |before| && 0 <= k < |after| && before[j].addr == after[k].addr
      ensures after[k].ltasks == Below(before[j].ltasks, mark)
    {
      assert PackageAddrs(before)[j] == PackageAddrs(before)[i + k];
      DescendingCut(before[j].ltasks, mark);
    }
  }

  /** A surviving pfile is cut right exactly when it has no parameter or its first one is below the mark. */
  lemma PfileExact(f: PfileView, mark: int)
    requires Ascending(f.params) && f.last == Last(f.params) && mark >= 0
    ensures PfileBelow(f, CutPfile(f, mark), mark) <==> f.params == [] || f.params[0] < mark
  {
    AscendingCut(f.params, mark);
    var n := LeadBelow(f.params, mark);
    if f.last < mark && f.params != [] {
      assert f.params[..n] == f.params;
    }
  }

  /** A pfile at 10 whose only parameter is at 30, cut back to 20: pf_pp still leads to a parameter that is gone. */
  lemma FirstParamAbove()
    ensures var f := PfileView(10, [30], 30, 1, false);
            && Ascending(f.params) && f.last == Last(f.params)
            && CutPfile(f, 20).params == [30] && Below(f.params, 20) == [] && !PfileBelow(f, CutPfile(f, 20), 20)
  {
    var f := PfileView(10, [30], 30, 1, false);
    PfileExact(f, 20);
    NoneBelow(f.params, 20);
    assert LeadBelow(f.params, 20) == 0;
  }

  /** After restor the pfile list is exactly the pfiles below the mark, if there is one; each is cut right exactly
      when its first parameter, if any, is below the mark. */
  lemma PfilesExact(before: seq<PfileView>, mark: int, sets: set<int>)
    requires Descending(PfileAddrs(before)) && mark >= 0
    requires forall i :: 0 <= i < |before| ==> Ascending(before[i].params) && before[i].last == Last(before[i].params)
    requires LeadAbove(PfileAddrs(before), mark) < |before|
    ensures var after, j := PfilesAfter(before, mark, sets), LeadAbove(PfileAddrs(before), mark);
            && PfileAddrs(after) == Below(PfileAddrs(before), mark) && |after| == |before| - j
            && forall k :: 0 <= k < |after| ==>
                 (PfileBelow(before[j + k], after[k], mark) <==> before[j + k].params == [] || before[j + k].params[0] < mark)
  {
    var after, j := PfilesAfter(before, mark, sets), LeadAbove(PfileAddrs(before), mark);
    DescendingCut(PfileAddrs(before), mark);
    TrimFirstAddrs(before[j..], |before| - j, mark);
    assert PfileAddrs(after) == PfileAddrs(before)[j..];
    forall k | 0 <= k < |after|
      ensures PfileBelow(before[j + k], after[k], mark) <==>
          before[j + k].params == [] || before[j + k].params[0] < mark
    {
      PfileExact(before[j + k], mark);
    }
  }

  ghost predicate ToBeWritten(f: PfileView, sets: set<int>, copies: set<int>) {
    f.addr !in copies && (f.update || exists i :: 0 <= i < |f.params| && f.params[i] in sets)
  }

  lemma {:induction false} WrittenAmong(fs: seq<PfileView>, n: nat, sets: set<int>, copies: set<int>, a: int)
    requires n <= |fs|
    ensures a in Written(fs, n, sets, copies) <==>
        exists k :: 0 <= k < n && fs[k].addr == a && ToBeWritten(fs[k], sets, copies)
  {
    if n > 0 { WrittenAmong(fs, n - 1, sets, copies, a); }
  }

  /** A pfile is written out exactly when it is discarded, no copy, and flagged PF_UPDATE or holding a P_SET
      parameter. */
  lemma WrittenIff(fs: seq<PfileView>, mark: int, sets: set<int>, copies: set<int>, a: int)
    requires Descending(PfileAddrs(fs))
    ensures a in WrittenBy(fs, mark, sets, copies) <==>
            a >= mark && exists k :: 0 <= k < |fs| && fs[k].addr == a && ToBeWritten(fs[k], sets, copies)
  {
    var n := LeadAbove(PfileAddrs(fs), mark);
    WrittenAmong(fs, n, sets, copies, a);
    forall k | 0 <= k < |fs| ensures k < n <==> fs[k].addr >= mark {
      if n < k { assert PfileAddrs(fs)[n] > PfileAddrs(fs)[k]; }
      assert PfileAddrs(fs)[k] == fs[k].addr;
    }
  }

  lemma {:induction false} ListsAre(s: seq<int>, lists: set<int>, a: int)
    ensures a in Lists(s, lists) <==> a in s && a in lists
  {
    if s != [] {
      ListsAre(s[..|s| - 1], lists, a);
      assert s == s[..|s| - 1] + [s[|s| - 1]];
    }
  }

  lemma {:induction false} ClosedAmong(fs: seq<PfileView>, n: nat, lists: set<int>, a: int)
    requires n <= |fs|
    ensures a in ClosedLists(fs, n, lists) <==> a in lists && exists k :: 0 <= k < n && a in fs[k].params
  {
    if n > 0 {
      ClosedAmong(fs, n - 1, lists, a);
      ListsAre(fs[n - 1].params, lists, a);
    }
  }

  /** A list file is closed exactly when it belongs to a parameter of a discarded pfile. */
  lemma ClosedIff(fs: seq<PfileView>, mark: int, lists: set<int>, a: int)
    requires Descending(PfileAddrs(fs))
    ensures a in ClosedBy(fs, mark, lists) <==>
            a in lists && exists k :: 0 <= k < |fs| && fs[k].addr >= mark && a in fs[k].params
  {
    var n := LeadAbove(PfileAddrs(fs), mark);
    ClosedAmong(fs, n, lists, a);
    forall k | 0 <= k < |fs| ensures k < n <==> fs[k].addr >= mark {
      if n < k { assert PfileAddrs(fs)[n] > PfileAddrs(fs)[k]; }
      assert PfileAddrs(fs)[k] == fs[k].addr;
    }
  }

  // ---------------------------------------------------------------- each once, in order

  /** The pfiles discarded are written out in the order of the list, the newest first, each once. */
  lemma {:induction false} WrittenInOrder(fs: seq<PfileView>, n: nat, sets: set<int>, copies: set<int>)
    requires Descending(PfileAddrs(fs)) && n <= |fs|
    ensures Descending(Written(fs, n, sets, copies))
    ensures forall a :: a in Written(fs, n, sets, copies) ==> n > 0 && a >= fs[n - 1].addr
  {
    if n > 0 {
      WrittenInOrder(fs, n - 1, sets, copies);
      var w := Written(fs, n - 1, sets, copies);
      forall k | 0 <= k < |w| ensures w[k] > fs[n - 1].addr {
        assert w[k] in w && PfileAddrs(fs)[n - 2] > PfileAddrs(fs)[n - 1];
      }
    }
  }

  lemma {:induction false} ListsInOrder(s: seq<int>, lists: set<int>)
    requires Ascending(s)
    ensures Ascending(Lists(s, lists))
  {
    if s != [] {
      var n := |s| - 1;
      ListsInOrder(s[..n], lists);
      var l := Lists(s[..n], lists);
      forall k | 0 <= k < |l| ensures l[k] < s[n] { ListsAre(s[..n], lists, l[k]); }
    }
  }

  ghost predicate Disjoint(fs: seq<PfileView>) {
    forall j, k, a :: 0 <= j < k < |fs| && a in fs[j].params ==> a !in fs[k].params
  }

  /** No list file is closed twice. */
  lemma {:induction false} ClosedOnce(fs: seq<PfileView>, n: nat, lists: set<int>)
    requires n <= |fs| && Disjoint(fs) && forall k :: 0 <= k < |fs| ==> Ascending(fs[k].params)
    ensures Distinct(ClosedLists(fs, n, lists))
  {
    if n > 0 {
      ClosedOnce(fs, n - 1, lists);
      var c, l := ClosedLists(fs, n - 1, lists), Lists(fs[n - 1].params, lists);
      ListsInOrder(fs[n - 1].params, lists);
      forall j, k | 0 <= j < |c| && 0 <= k < |l| ensures c[j] != l[k] {
        ClosedAmong(fs, n - 1, lists, c[j]);
        ListsAre(fs[n - 1].params, lists, l[k]);
      }
    }
  }

  // ---------------------------------------------------------------- what is left uncut

  /** With its first parameter at or above the mark a surviving pfile has, by its count and its last parameter, none
      left, but still leads to all of them. */
  lemma LeftLeading(f: PfileView, mark: int)
    requires f.params != [] && Ascending(f.params) && f.last == Last(f.params) && f.params[0] >= mark
    ensures CutPfile(f, mark) == PfileView(f.addr, f.params, NULL, 0, f.update)
  {
    assert f.params[0] <= f.last;
  }

  /** When no pfile is below the mark all stay in the list, and their parameters as they were; PF_UPDATE is set on those
      with a P_SET parameter. */
  lemma AllPfilesStay(fs: seq<PfileView>, mark: int, sets: set<int>, k: nat)
    requires k < |fs| && forall i :: 0 <= i < |fs| ==> fs[i].addr >= mark
    ensures var after := PfilesAfter(fs, mark, sets);
            && |after| == |fs| && after[k].(update := false) == fs[k].(update := false)
            && (after[k].update <==> fs[k].update || exists i :: 0 <= i < |fs[k].params| && fs[k].params[i] in sets)
  {
    assert LeadAbove(PfileAddrs(fs), mark) == |fs|;
  }
}
