/** restor: cutting every chain of the dictionary back to a mark by following and changing the links in place. The
    fields of the records are maps from the address of the record. Source: pkg/cl/exec.c, pkg/cl/main.c. */
module Dictionary {
  import opened Chains
  import opened Wrappers
  import opened DictionarySpec

  /** The part of a task frame that restor puts back. */
  datatype Saved = Saved(topd: int, pc: int, topos: int, basos: int, topcs: int, curpack: int)

  // ---------------------------------------------------------------- records in memory

  /** The fields of packages and ltasks. */
  datatype PackageCells = PackageCells(npk: map<int, int>, ltp: map<int, int>, nlt: map<int, int>)

  /** The fields of pfiles and parameters; update holds the pfiles flagged PF_UPDATE. */
  datatype PfileCells = PfileCells(npf: map<int, int>, pp: map<int, int>, lastpp: map<int, int>, n: map<int, int>,
                                   update: set<int>, np: map<int, int>)

  ghost predicate PackageOk(h: PackageCells, p: PackageView) {
    p.addr in h.ltp && Chain(h.nlt, h.ltp[p.addr], p.ltasks)
  }

  ghost predicate PackagesIn(h: PackageCells, head: int, ps: seq<PackageView>) {
    && Chain(h.npk, head, PackageAddrs(ps)) && Descending(PackageAddrs(ps))
    && forall i :: 0 <= i < |ps| ==> PackageOk(h, ps[i])
  }

  ghost predicate PfileOk(h: PfileCells, f: PfileView) {
    && f.addr in h.pp && f.addr in h.lastpp && f.addr in h.n && Chain(h.np, h.pp[f.addr], f.params)
    && h.lastpp[f.addr] == f.last && h.n[f.addr] == f.n && (f.addr in h.update) == f.update && Ascending(f.params)
  }

  ghost predicate Apart(s: seq<int>, t: seq<int>) {
    forall a :: a in s ==> a !in t
  }

  ghost predicate PfilesIn(h: PfileCells, head: int, fs: seq<PfileView>) {
    && Chain(h.npf, head, PfileAddrs(fs)) && Descending(PfileAddrs(fs))
    && (forall i :: 0 <= i < |fs| ==> PfileOk(h, fs[i]))
    && forall i, j :: 0 <= i < |fs| && 0 <= j < |fs| && i != j ==> Apart(fs[i].params, fs[j].params)
  }

  lemma PackagesFrom(h: PackageCells, head: int, ps: seq<PackageView>, k: nat)
    requires PackagesIn(h, head, ps) && k <= |ps|
    ensures PackagesIn(h, At(PackageAddrs(ps), k), ps[k..])
  {
    ChainFrom(h.npk, head, PackageAddrs(ps), k);
    assert PackageAddrs(ps[k..]) == PackageAddrs(ps)[k..];
  }

  lemma PackageCut(h: PackageCells, head: int, ps: seq<PackageView>, i: nat, k: nat)
    requires PackagesIn(h, head, ps) && i < |ps| && k <= |ps[i].ltasks|
    ensures PackagesIn(h.(ltp := h.ltp[ps[i].addr := At(ps[i].ltasks, k)]), head, ps[i := ps[i].(ltasks := ps[i].ltasks[k..])])
  {
    var h', ps' := h.(ltp := h.ltp[ps[i].addr := At(ps[i].ltasks, k)]), ps[i := ps[i].(ltasks := ps[i].ltasks[k..])];
    assert PackageAddrs(ps') == PackageAddrs(ps);
    assert PackageOk(h, ps[i]);
    ChainFrom(h.nlt, h.ltp[ps[i].addr], ps[i].ltasks, k);
    forall j | 0 <= j < |ps'| ensures PackageOk(h', ps'[j]) {
      assert PackageOk(h, ps[j]);
      if j != i { assert PackageAddrs(ps)[j] != PackageAddrs(ps)[i]; }
    }
  }

  lemma PfilesFrom(h: PfileCells, head: int, fs: seq<PfileView>, k: nat)
    requires PfilesIn(h, head, fs) && k <= |fs|
    ensures PfilesIn(h, At(PfileAddrs(fs), k), fs[k..])
  {
    ChainFrom(h.npf, head, PfileAddrs(fs), k);
    assert PfileAddrs(fs[k..]) == PfileAddrs(fs)[k..];
  }

  lemma PfileFlag(h: PfileCells, head: int, fs: seq<PfileView>, i: nat)
    requires PfilesIn(h, head, fs) && i < |fs|
    ensures PfilesIn(h.(update := h.update + {fs[i].addr}), head, fs[i := fs[i].(update := true)])
  {
    var h', fs' := h.(update := h.update + {fs[i].addr}), fs[i := fs[i].(update := true)];
    assert PfileAddrs(fs') == PfileAddrs(fs);
    forall j | 0 <= j < |fs'| ensures PfileOk(h', fs'[j]) {
      assert PfileOk(h, fs[j]);
      if j != i { assert PfileAddrs(fs)[j] != PfileAddrs(fs)[i]; }
    }
  }

  /** The cells after the parameter list of pfile f was ended at its n-th parameter. */
  ghost function CellsEnded(h: PfileCells, f: PfileView, n: nat): PfileCells
    requires n < |f.params|
  {
    h.(np := if n == 0 then h.np else h.np[f.params[n - 1] := NULL],
       lastpp := h.lastpp[f.addr := if n == 0 then NULL else f.params[n - 1]], n := h.n[f.addr := n])
  }

  lemma PfileEnds(h: PfileCells, f: PfileView, n: nat)
    requires PfileOk(h, f) && n < |f.params|
    ensures PfileOk(CellsEnded(h, f, n), EndedAt(f, n))
  {
    if n > 0 { ChainCut(h.np, h.pp[f.addr], f.params, n); }
  }

  lemma OthersKept(h: PfileCells, f: PfileView, n: nat, g: PfileView)
    requires PfileOk(h, g) && n < |f.params| && f.addr != g.addr && Apart(f.params, g.params)
    ensures PfileOk(CellsEnded(h, f, n), g)
  {
    if n > 0 {
      assert f.params[n - 1] in f.params;
      ChainKept(h.np, h.pp[g.addr], g.params, f.params[n - 1], NULL);
    }
  }

  lemma PfilesEnd(h: PfileCells, head: int, fs: seq<PfileView>, i: nat, n: nat)
    requires PfilesIn(h, head, fs) && i < |fs| && n < |fs[i].params|
    ensures PfilesIn(CellsEnded(h, fs[i], n), head, fs[i := EndedAt(fs[i], n)])
  {
    var h', fs' := CellsEnded(h, fs[i], n), fs[i := EndedAt(fs[i], n)];
    assert PfileAddrs(fs') == PfileAddrs(fs);
    forall j | 0 <= j < |fs'| ensures PfileOk(h', fs'[j]) {
      assert PfileOk(h, fs[j]);
      if j == i {
        PfileEnds(h, fs[i], n);
      } else {
        assert PfileAddrs(fs)[j] != PfileAddrs(fs)[i];
        OthersKept(h, fs[i], n, fs[j]);
      }
    }
    forall j, k | 0 <= j < |fs'| && 0 <= k < |fs'| && j != k ensures Apart(fs'[j].params, fs'[k].params) {
      assert Apart(fs[j].params, fs[k].params);
    }
  }

  // ---------------------------------------------------------------- searching the chains

  /** A search along a chain for the first address below the mark. */
  method FirstBelow(next: map<int, int>, head: int, ghost s: seq<int>, mark: int) returns (a: int, ghost k: nat)
    requires Chain(next, head, s)
    ensures k == LeadAbove(s, mark) && a == At(s, k) && (a == NULL <==> k == |s|)
  {
    k := 0;
    a := head;
    while a != NULL && a >= mark
      invariant 0 <= k <= |s| && a == At(s, k) && forall j :: 0 <= j < k ==> s[j] >= mark
      decreases |s| - k
    {
      if k < |s| { ChainStep(next, head, s, k); }
      a := next[a];
      k := k + 1;
    }
    if k < |s| { ChainStep(next, head, s, k); }
  }

  /** A search along a parameter chain for the first address not below the mark; last is the one before. */
  method FirstAbove(next: map<int, int>, head: int, ghost s: seq<int>, mark: int) returns (last: int, a: int, n: nat)
    requires Chain(next, head, s)
    ensures n == LeadBelow(s, mark) && a == At(s, n) && last == Last(s[..n]) && (a == NULL <==> n == |s|)
  {
    last, a, n := NULL, head, 0;
    while a != NULL && a < mark
      invariant 0 <= n <= |s| && a == At(s, n) && last == Last(s[..n]) && forall k :: 0 <= k < n ==> s[k] < mark
      decreases |s| - n
    {
      if n < |s| { ChainStep(next, head, s, n); }
      last, a, n := a, next[a], n + 1;
    }
    if n < |s| { ChainStep(next, head, s, n); }
  }

  // ---------------------------------------------------------------- restor

  class Dictionary {
    // Registers.
    var topd: int
    var pc: int
    var topos: int
    var basos: int
    var topcs: int
    var curpack: int
    const maxd: int
    // List heads.
    var pachead: int
    var parhead: int
    // Fields of packages, ltasks, pfiles and params.
    var packages: PackageCells
    var pfiles: PfileCells
    var pfCopy: set<int>
    var pSet: set<int>
    var pList: set<int>
    // The pfiles written by pfileupdate and the parameters given to closelist, in order.
    var written: seq<int>
    var closed: seq<int>
    ghost var view: View

    ghost predicate Valid()
      reads this
    {
      topd >= 0 && PackagesIn(packages, pachead, view.packages) && PfilesIn(pfiles, parhead, view.pfiles)
    }

    /** The first loop of restor: pachead becomes the first package below topd. */
    method DropPackages() returns (ok: bool)
      requires Valid()
      modifies this`pachead, this`view
      ensures Valid() && view.pfiles == old(view).pfiles
      ensures ok <==> LeadAbove(PackageAddrs(old(view).packages), topd) < |old(view).packages|
      ensures view.packages == if ok then old(view).packages[LeadAbove(PackageAddrs(old(view).packages), topd)..]
                               else old(view).packages
    {
      var pkp, k := FirstBelow(packages.npk, pachead, PackageAddrs(view.packages), topd);
      if pkp == NULL { return false; }
      PackagesFrom(packages, pachead, view.packages, k);
      pachead := pkp;
      view := view.(packages := view.packages[k..]);
      ok := true;
    }

    /** The body of the second loop: the ltasks of a package at or above topd are dropped. */
    method DropLtasks(pkp: int, ghost i: nat)
      requires Valid() && i < |view.packages| && view.packages[i].addr == pkp
      modifies this`packages, this`view
      ensures Valid() && packages.npk == old(packages).npk
      ensures view == old(view).(packages := old(view).packages[i := CutPackage(old(view).packages[i], topd)])
    {
      ghost var p := view.packages[i];
      assert PackageOk(packages, p);
      var ltp, k := FirstBelow(packages.nlt, packages.ltp[pkp], p.ltasks, topd);
      PackageCut(packages, pachead, view.packages, i, k);
      packages := packages.(ltp := packages.ltp[pkp := ltp]);
      view := view.(packages := view.packages[i := p.(ltasks := p.ltasks[k..])]);
    }

    /** The second loop of restor. */
    method CutPackages()
      requires Valid()
      modifies this`packages, this`view
      ensures Valid() && view == old(view).(packages := CutFirst(old(view).packages, |old(view).packages|, topd))
    {
      ghost var v := view;
      ghost var addrs := PackageAddrs(v.packages);
      ghost var k := 0;
      var pkp := pachead;
      CutFirstAddrs(v.packages, 0, topd);
      while pkp != NULL
        invariant 0 <= k <= |addrs| && pkp == At(addrs, k)
        invariant Valid() && view == v.(packages := CutFirst(v.packages, k, topd))
        decreases |addrs| - k
      {
        CutFirstAddrs(v.packages, k, topd);
        CutFirstStep(v.packages, k, topd);
        ChainStep(packages.npk, pachead, addrs, k);
        DropLtasks(pkp, k);
        pkp := packages.npk[pkp];
        k := k + 1;
      }
      CutFirstAddrs(v.packages, k, topd);
      if k < |addrs| { ChainStep(packages.npk, pachead, addrs, k); }
    }

    method RestorPackages() returns (ok: bool)
      requires Valid()
      modifies this`pachead, this`packages, this`view
      ensures ok <==> LeadAbove(PackageAddrs(old(view).packages), topd) < |old(view).packages|
      ensures Valid() && view == if ok then old(view).(packages := PackagesAfter(old(view).packages, topd)) else old(view)
    {
      ok := DropPackages();
      if ok { CutPackages(); }
    }

    /** The loop over the parameters of a discarded pfile: the list files are closed. */
    method CloseLists(head: int, ghost s: seq<int>)
      requires Chain(pfiles.np, head, s)
      modifies this`closed
      ensures closed == old(closed) + Lists(s, pList)
    {
      var pp := head;
      ghost var k := 0;
      assert old(closed) + Lists(s[..0], pList) == closed;
      while pp != NULL
        invariant 0 <= k <= |s| && pp == At(s, k) && closed == old(closed) + Lists(s[..k], pList)
        decreases |s| - k
      {
        ChainStep(pfiles.np, head, s, k);
        assert s[..k + 1][..k] == s[..k];
        if pp in pList { closed := closed + [pp]; }
        pp := pfiles.np[pp];
        k := k + 1;
      }
      if k < |s| { ChainStep(pfiles.np, head, s, k); }
      assert s[..|s|] == s;
    }

    /** The same loop: is any parameter flagged P_SET? */
    method AnySet(head: int, ghost s: seq<int>) returns (r: bool)
      requires Chain(pfiles.np, head, s)
      ensures r == exists k :: 0 <= k < |s| && s[k] in pSet
    {
      var pp := head;
      ghost var k := 0;
      r := false;
      while pp != NULL
        invariant 0 <= k <= |s| && pp == At(s, k) && r == exists j :: 0 <= j < k && s[j] in pSet
        decreases |s| - k
      {
        ChainStep(pfiles.np, head, s, k);
        if pp in pSet { r := true; }
        pp := pfiles.np[pp];
        k := k + 1;
      }
      if k < |s| { ChainStep(pfiles.np, head, s, k); }
    }

    /** A pfile that is discarded: its list files are closed, it is flagged PF_UPDATE if it has a P_SET parameter,
        and written out if so flagged, no copy, and we are not in batch mode. */
    method DiscardPfile(pfp: int, batch: bool, ghost i: nat)
      requires Valid() && i < |view.pfiles| && view.pfiles[i].addr == pfp
      modifies this`pfiles, this`written, this`closed, this`view
      ensures Valid() && pfiles.npf == old(pfiles).npf
      ensures view == old(view).(pfiles := old(view).pfiles[i := Flagged(old(view).pfiles[i], pSet)])
      ensures closed == old(closed) + Lists(old(view).pfiles[i].params, pList)
      ensures written == old(written) + if view.pfiles[i].update && pfp !in pfCopy && !batch then [pfp] else []
    {
      ghost var f := view.pfiles[i];
      assert PfileOk(pfiles, f);
      CloseLists(pfiles.pp[pfp], f.params);
      var set' := AnySet(pfiles.pp[pfp], f.params);
      if set' {
        PfileFlag(pfiles, parhead, view.pfiles, i);
        pfiles := pfiles.(update := pfiles.update + {pfp});
        view := view.(pfiles := view.pfiles[i := f.(update := true)]);
      }
      assert view.pfiles[i] == Flagged(f, pSet);
      if pfp in pfiles.update && pfp !in pfCopy && !batch { written := written + [pfp]; }
    }

    /** The first j pfiles of v are discarded; w and c are the files written and the lists closed before. */
    ghost predicate DiscardedTo(v: View, j: nat, batch: bool, w: seq<int>, c: seq<int>)
      reads this
    {
      && Valid() && j <= |v.pfiles| && view == v.(pfiles := FlagFirst(v.pfiles, j, pSet))
      && written == w + (if batch then [] else Written(v.pfiles, j, pSet, pfCopy))
      && closed == c + ClosedLists(v.pfiles, j, pList)
    }

    /** One turn of the loop over the pfiles v. */
    method DiscardNext(pfp: int, batch: bool, ghost v: View, ghost j: nat, ghost w: seq<int>, ghost c: seq<int>)
      returns (next: int)
      requires DiscardedTo(v, j, batch, w, c) && j < |v.pfiles| && pfp == At(PfileAddrs(v.pfiles), j)
      modifies this`pfiles, this`written, this`closed, this`view
      ensures DiscardedTo(v, j + 1, batch, w, c) && next == At(PfileAddrs(v.pfiles), j + 1)
    {
      FlagFirstAddrs(v.pfiles, j, pSet);
      FlagFirstStep(v.pfiles, j, pSet);
      DiscardStep(v.pfiles, j, pSet, pfCopy, pList, w, c);
      ChainStep(pfiles.npf, parhead, PfileAddrs(v.pfiles), j);
      DiscardPfile(pfp, batch, j);
      next := pfiles.npf[pfp];
    }

    lemma ListEnds(v: View, j: nat, batch: bool, w: seq<int>, c: seq<int>)
      requires DiscardedTo(v, j, batch, w, c)
      ensures At(PfileAddrs(v.pfiles), j) == NULL <==> j == |v.pfiles|
    {
      FlagFirstAddrs(v.pfiles, j, pSet);
      if j < |v.pfiles| { ChainStep(pfiles.npf, parhead, PfileAddrs(v.pfiles), j); }
    }

    /** The third loop of restor: the pfiles at or above topd are discarded. */
    method DiscardPfiles(batch: bool) returns (pfp: int, ghost j: nat)
      requires Valid()
      modifies this`pfiles, this`written, this`closed, this`view
      ensures j == LeadAbove(PfileAddrs(old(view).pfiles), topd) && pfp == At(PfileAddrs(old(view).pfiles), j)
      ensures (pfp == NULL <==> j == |old(view).pfiles|)
              && DiscardedTo(old(view), j, batch, old(written), old(closed))
    {
      ghost var v, w, c := view, written, closed;
      pfp := parhead;
      j := 0;
      FlagFirstAddrs(v.pfiles, 0, pSet);
      ListEnds(v, 0, batch, w, c);
      while pfp != NULL && pfp >= topd
        invariant DiscardedTo(v, j, batch, w, c) && pfp == At(PfileAddrs(v.pfiles), j)
        invariant pfp == NULL <==> j == |v.pfiles|
        invariant forall k :: 0 <= k < j ==> PfileAddrs(v.pfiles)[k] >= topd
        decreases |v.pfiles| - j
      {
        pfp := DiscardNext(pfp, batch, v, j, w, c);
        j := j + 1;
        ListEnds(v, j, batch, w, c);
      }
    }

    /** After it, parhead becomes the first pfile below topd, if there is one. */
    method DropPfiles(batch: bool) returns (pfp: int, ghost j: nat)
      requires Valid()
      modifies this`parhead, this`pfiles, this`written, this`closed, this`view
      ensures j == LeadAbove(PfileAddrs(old(view).pfiles), topd) && (pfp == NULL <==> j == |old(view).pfiles|)
      ensures written == old(written) + if batch then [] else Written(old(view).pfiles, j, pSet, pfCopy)
      ensures closed == old(closed) + ClosedLists(old(view).pfiles, j, pList)
      ensures Valid() && view == old(view).(pfiles := if j < |old(view).pfiles| then old(view).pfiles[j..]
                                                      else FlagFirst(old(view).pfiles, j, pSet))
    {
      pfp, j := DiscardPfiles(batch);
      FlagFirstAddrs(old(view).pfiles, j, pSet);
      if pfp != NULL {
        StartAt(pfp, j);
        assert view.pfiles == old(view).pfiles[j..];
      }
    }

    method StartAt(pfp: int, ghost j: nat)
      requires Valid() && j < |view.pfiles| && pfp == At(PfileAddrs(view.pfiles), j)
      modifies this`parhead, this`view
      ensures Valid() && view == old(view).(pfiles := old(view).pfiles[j..])
    {
      PfilesFrom(pfiles, parhead, view.pfiles, j);
      parhead := pfp;
      view := view.(pfiles := view.pfiles[j..]);
    }

    /** The body of the last loop: the parameters of a surviving pfile at or above topd are discarded. */
    method CutParams(pfp: int, ghost i: nat)
      requires Valid() && i < |view.pfiles| && view.pfiles[i].addr == pfp
      modifies this`pfiles, this`view
      ensures Valid() && pfiles.npf == old(pfiles).npf
      ensures view == old(view).(pfiles := old(view).pfiles[i := CutPfile(old(view).pfiles[i], topd)])
    {
      ghost var f := view.pfiles[i];
      assert PfileOk(pfiles, f) && view.pfiles[i := f] == view.pfiles;
      if pfiles.lastpp[pfp] < topd { return; }
      var last, pp, n := FirstAbove(pfiles.np, pfiles.pp[pfp], f.params, topd);
      if pp != NULL {
        PfilesEnd(pfiles, parhead, view.pfiles, i, n);
        assert n > 0 ==> last == f.params[n - 1] >= 0 by { if n > 0 { ChainStep(pfiles.np, pfiles.pp[pfp], f.params, n - 1); } }
        pfiles := pfiles.(np := if last != NULL then pfiles.np[last := NULL] else pfiles.np,
                          lastpp := pfiles.lastpp[pfp := last], n := pfiles.n[pfp := n]);
        view := view.(pfiles := view.pfiles[i := EndedAt(f, n)]);
      }
    }

    /** The last loop of restor. */
    method CutPfiles()
      requires Valid()
      modifies this`pfiles, this`view
      ensures Valid() && view == old(view).(pfiles := TrimFirst(old(view).pfiles, |old(view).pfiles|, topd))
    {
      ghost var v := view;
      ghost var addrs := PfileAddrs(v.pfiles);
      ghost var k := 0;
      var pfp := parhead;
      TrimFirstAddrs(v.pfiles, 0, topd);
      while pfp != NULL
        invariant 0 <= k <= |addrs| && pfp == At(addrs, k)
        invariant Valid() && view == v.(pfiles := TrimFirst(v.pfiles, k, topd))
        decreases |addrs| - k
      {
        TrimFirstAddrs(v.pfiles, k, topd);
        TrimFirstStep(v.pfiles, k, topd);
        ChainStep(pfiles.npf, parhead, addrs, k);
        CutParams(pfp, k);
        pfp := pfiles.npf[pfp];
        k := k + 1;
      }
      TrimFirstAddrs(v.pfiles, k, topd);
      if k < |addrs| { ChainStep(pfiles.npf, parhead, addrs, k); }
    }

    method RestorPfiles(batch: bool)
      requires Valid()
      modifies this`parhead, this`pfiles, this`written, this`closed, this`view
      ensures Valid() && view == old(view).(pfiles := PfilesAfter(old(view).pfiles, topd, pSet))
      ensures closed == old(closed) + ClosedBy(old(view).pfiles, topd, pList)
      ensures written == old(written) + if batch then [] else WrittenBy(old(view).pfiles, topd, pSet, pfCopy)
    {
      var pfp;
      ghost var j;
      pfp, j := DropPfiles(batch);
      if pfp != NULL { CutPfiles(); }
    }

    /** The loops of restor, topd already set. */
    method RestorChains(batch: bool) returns (ok: bool)
      requires Valid()
      modifies this`pachead, this`parhead, this`packages, this`pfiles, this`written, this`closed, this`view
      ensures Valid() && (ok <==> LeadAbove(PackageAddrs(old(view).packages), topd) < |old(view).packages|)
      ensures !ok ==> view == old(view) && written == old(written) && closed == old(closed)
      ensures ok ==> view == View(PackagesAfter(old(view).packages, topd), PfilesAfter(old(view).pfiles, topd, pSet))
      ensures ok ==> closed == old(closed) + ClosedBy(old(view).pfiles, topd, pList)
      ensures ok ==> written == old(written) + if batch then [] else WrittenBy(old(view).pfiles, topd, pSet, pfCopy)
    {
      ok := RestorPackages();
      if ok { RestorPfiles(batch); }
    }

    /** RESTOR: the registers and the chains go back to what the task had saved; false is the fatal error "package
        list broken". */
    method Restor(tp: Saved, batch: bool) returns (ok: bool)
      requires Valid() && tp.topd >= 0
      modifies this`topd, this`pc, this`topos, this`basos, this`topcs, this`curpack, this`pachead, this`parhead,
               this`packages, this`pfiles, this`written, this`closed, this`view
      ensures Valid() && Saved(topd, pc, topos, basos, topcs, curpack) == tp
      ensures ok <==> LeadAbove(PackageAddrs(old(view).packages), tp.topd) < |old(view).packages|
      ensures !ok ==> view == old(view) && written == old(written) && closed == old(closed)
      ensures ok ==> view == View(PackagesAfter(old(view).packages, tp.topd), PfilesAfter(old(view).pfiles, tp.topd, pSet))
      ensures ok ==> closed == old(closed) + ClosedBy(old(view).pfiles, tp.topd, pList)
      ensures ok ==> written == old(written) + if batch then [] else WrittenBy(old(view).pfiles, tp.topd, pSet, pfCopy)
    {
      topd, pc, topos, basos, topcs, curpack := tp.topd, tp.pc, tp.topos, tp.basos, tp.topcs, tp.curpack;
      ok := RestorChains(batch);
    }
  }
}
