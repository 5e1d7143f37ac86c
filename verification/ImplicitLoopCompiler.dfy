/** Compiling a statement with an open array reference: make_imloop, the instructions of the indices, and the end of
    the statement, where INDXINCR and the limits are stored. Source: pkg/cl/gram.c, grammar.y, compile.c. */
module ImplicitLoopCompiler {
  import opened Wrappers
  import ClCode
  import opened ImplicitLoopSpec
  import opened ImplicitLoopCode
  import opened ImplicitLoop

  class Compiler {
    const stack: array<int>
    const oarrBeg: array<int>
    const oarrEnd: array<int>
    var pc: nat
    var nOarr: int
    var iOarr: int
    /** The control stack of the parser, the top last. */
    var control: seq<int>

    ghost predicate Valid()
      reads this
    {
      && oarrBeg.Length == oarrEnd.Length == N_OPEN_ARR && oarrBeg != oarrEnd
      && stack != oarrBeg && stack != oarrEnd && pc <= stack.Length
    }

    /** The limits of the first n open indices have been recorded. */
    ghost predicate Recorded(open: seq<Dim>, n: nat)
      requires Valid()
      reads this, oarrBeg, oarrEnd
    {
      n <= |open| && n <= N_OPEN_ARR
      && forall i :: 0 <= i < n ==> oarrBeg[i] == Begs(open)[i] && oarrEnd[i] == Ends(open)[i]
    }

    /** MAKE_IMLOOP: the mode of an open index, 0 for the one that will set up the loop; None is the error
        "Inconsistent open refs", which a later reference in the same statement meets exactly when its limits are not
        those of the first one. */
    method MakeImLoop(i1: int, i2: int) returns (mode: Option<int>)
      requires Valid() && 0 <= iOarr < N_OPEN_ARR
      modifies this`iOarr, oarrBeg, oarrEnd
      ensures Valid()
      ensures nOarr != 0 ==> oarrBeg[..] == old(oarrBeg[..]) && oarrEnd[..] == old(oarrEnd[..])
      ensures nOarr != 0 ==> (mode == None <==> i1 != oarrBeg[old(iOarr)] || i2 != oarrEnd[old(iOarr)])
      ensures nOarr == 0 ==>
                && oarrBeg[..] == old(oarrBeg[..])[old(iOarr) := i1]
                && oarrEnd[..] == old(oarrEnd[..])[old(iOarr) := i2]
      ensures nOarr == 0 ==> mode == Some(if old(iOarr) == 0 then 0 else -1)
      ensures mode.Some? ==> iOarr == old(iOarr) + 1
      ensures mode.Some? && nOarr != 0 ==> mode.value == -1
    {
      var m;
      if nOarr != 0 {
        if i1 != oarrBeg[iOarr] || i2 != oarrEnd[iOarr] { return None; }
        m := -1;
      } else {
        oarrBeg[iOarr] := i1;
        oarrEnd[iOarr] := i2;
        m := if iOarr != 0 then -1 else 0;
      }
      iOarr := iOarr + 1;
      mode := Some(m);
    }

    /** compile of an instruction with one argument. */
    method Compile(op: int, arg: int) returns (loc: nat)
      requires Valid() && pc + 3 <= stack.Length
      modifies this`pc, stack
      ensures Valid() && loc == old(pc) && pc == loc + 3
      ensures stack[..] == old(stack[..])[loc := op][loc + 1 := 3][loc + 2 := arg]
    {
      loc := pc;
      stack[pc] := op;
      stack[pc + 1] := 3;
      stack[pc + 2] := arg;
      pc := pc + 3;
    }

    /** The statement up to index d is compiled from p on; c0 is the control stack before it. */
    ghost predicate Compiled(p: nat, dims: seq<Dim>, refs: Refs, d: nat, c0: seq<int>)
      requires Valid() && |dims| == |refs| && d <= |refs|
      reads this, stack, oarrBeg, oarrEnd
    {
      && pc == p + IndexSize(refs, d) && nOarr == 0 && iOarr == OpenCount(refs[..d])
      && Recorded(OpenDims(dims, refs), OpenCount(refs[..d]))
      && IndicesWait(stack[..], p, refs, d)
      && control == c0 + if iOarr > 0 then [p + IndexSize(refs, FirstOpen(refs))] else []
    }

    /** One index: a constant, or an open one, whose limits getlimits gives. False is the error "Implicit index
        error". */
    method CompileIndex(dims: seq<Dim>, refs: Refs, d: nat, ghost p: nat, ghost c0: seq<int>) returns (ok: bool)
      requires Valid() && d < |refs| && Compiled(p, Fit(dims, |refs|), refs, d, c0)
      requires OpenCount(refs) <= N_OPEN_ARR && pc + 6 <= stack.Length
      modifies this`pc, this`iOarr, this`control, stack, oarrBeg, oarrEnd
      ensures Valid() && ok == (refs[d] == None ==> d < |dims|)
      ensures ok ==> Compiled(p, Fit(dims, |refs|), refs, d + 1, c0)
      ensures forall i :: 0 <= i < p && i < stack.Length ==> stack[i] == old(stack[i])
    {
      ghost var code := stack[..];
      OpenStep(Fit(dims, |refs|), refs, d);
      FirstOpenIff(refs, d);
      if refs[d].Some? {
        var loc := Compile(PUSHCONST, refs[d].value);
        loc := Compile(PUSHINDEX, 0);
        WaitsMore(code, stack[..], p, refs, d);
        return true;
      }
      var limits := GetLimits(dims, d);
      if limits == None { return false; }
      var mode := MakeImLoop(limits.value.0, limits.value.1);
      if mode.value != 0 {
        var loc := Compile(PUSHINDEX, mode.value);
      } else {
        var loc := Compile(PUSHINDEX, 0);
        control := control + [loc];
      }
      WaitsMore(code, stack[..], p, refs, d);
      ok := true;
    }

    /** A statement that accesses an array, some index being open: the indices, the access, and the end of the
        statement (xstmt). False is the error "Implicit index error", exactly when the array has no dimension for an open
        index. */
    method CompileStatement(dims: seq<Dim>, refs: Refs, name: int) returns (ok: bool)
      requires Valid() && 0 < OpenCount(refs) <= N_OPEN_ARR && EndLoc(pc, refs) <= stack.Length
      modifies this`pc, this`nOarr, this`iOarr, this`control, stack, oarrBeg, oarrEnd
      ensures Valid() && ok == forall d :: 0 <= d < |refs| && refs[d] == None ==> d < |dims|
      ensures ok ==> LoopCode(stack[..], old(pc), Fit(dims, |refs|), refs) && pc == EndLoc(old(pc), refs)
      ensures ok ==> control == old(control) && nOarr == 0
      ensures forall i :: 0 <= i < old(pc) && i < stack.Length ==> stack[i] == old(stack[i])
    {
      ghost var p, c0 := pc, control;
      var stmtPc := pc;
      nOarr, iOarr := 0, 0;
      assert refs[..0] == [] && control == c0 + [];
      for d := 0 to |refs|
        invariant Valid() && Compiled(p, Fit(dims, |refs|), refs, d, c0)
        invariant forall e :: 0 <= e < d && refs[e] == None ==> e < |dims|
        invariant forall i :: 0 <= i < p && i < stack.Length ==> stack[i] == old(stack[i])
      {
        IndexSizeGrows(refs, d + 1, |refs|);
        ok := CompileIndex(dims, refs, d, p, c0);
        if !ok { return; }
      }
      OpenAll(refs);
      OpenDimsCount(Fit(dims, |refs|), refs);
      ok := true;
      if iOarr > 0 && nOarr == 0 { nOarr := iOarr; }
      iOarr := 0;
      CompileEnd(stmtPc, Fit(dims, |refs|), refs, name, c0);
    }

    /** The access and the end of the statement, the indices having been compiled from stmt_pc on. */
    method CompileEnd(stmtPc: nat, ghost dims: seq<Dim>, ghost refs: Refs, name: int, ghost c0: seq<int>)
      requires Valid() && |dims| == |refs| && 0 < OpenCount(refs) <= N_OPEN_ARR && EndLoc(stmtPc, refs) <= stack.Length
      requires pc == AccessLoc(stmtPc, refs) && nOarr == OpenCount(refs) && Recorded(OpenDims(dims, refs), OpenCount(refs))
      requires |OpenDims(dims, refs)| == OpenCount(refs) && IndicesWait(stack[..], stmtPc, refs, |refs|)
      requires control == c0 + [stmtPc + IndexSize(refs, FirstOpen(refs))]
      modifies this`pc, this`nOarr, this`iOarr, this`control, stack
      ensures Valid() && LoopCode(stack[..], stmtPc, dims, refs) && pc == EndLoc(stmtPc, refs)
      ensures control == c0 && nOarr == 0
      ensures forall i :: 0 <= i < stmtPc ==> stack[i] == old(stack[i])
    {
      ghost var c1 := stack[..];
      FirstOpenThere(refs);
      IndexSizeGrows(refs, FirstOpen(refs) + 1, |refs|);
      var loc := Compile(PUSHPARAM, name);
      CompileIncr(stmtPc - pc - 4, 2 * nOarr + 1);
      var pushPc := control[|control| - 1];
      control := control[..|control| - 1];
      assert control == c0;
      stack[pushPc + 2] := pc - pushPc - 3;
      ghost var c2 := stack[..];
      StoreLimits(OpenDims(dims, refs));
      nOarr, iOarr := 0, 0;
      EndDone(c1, c2, stack[..], stmtPc, dims, refs);
    }

    /** compile (INDXINCR, back, past) */
    method CompileIncr(back: int, past: int)
      requires Valid() && pc + 4 <= stack.Length
      modifies this`pc, stack
      ensures Valid() && pc == old(pc) + 4
      ensures stack[..] == old(stack[..])[old(pc) := INDXINCR][old(pc) + 1 := 4][old(pc) + 2 := back][old(pc) + 3 := past]
    {
      stack[pc] := INDXINCR;
      stack[pc + 1] := 4;
      stack[pc + 2] := back;
      stack[pc + 3] := past;
      pc := pc + 4;
    }

    /** The number of open indices and their limits, stored as data. */
    method StoreLimits(ghost open: seq<Dim>)
      requires Valid() && 1 <= nOarr == |open| <= N_OPEN_ARR && Recorded(open, |open|)
      requires pc + 1 + 2 * nOarr <= stack.Length
      modifies this`pc, this`iOarr, stack
      ensures Valid() && pc == old(pc) + 1 + 2 * nOarr && InfoAt(stack[..], old(pc), Begs(open), Ends(open))
      ensures forall i :: 0 <= i < old(pc) ==> stack[i] == old(stack[i])
    {
      ghost var p := pc;
      stack[pc] := nOarr;
      pc := pc + 1;
      iOarr := 0;
      while iOarr < nOarr
        invariant 0 <= iOarr <= nOarr && pc == p + 1 + 2 * iOarr && stack[p] == nOarr
        invariant Valid() && Recorded(open, |open|)
        invariant forall i :: 0 <= i < p ==> stack[i] == old(stack[i])
        invariant forall i {:trigger Begs(open)[i]} :: 0 <= i < iOarr ==>
            stack[p + 1 + 2 * i] == Begs(open)[i] && stack[p + 2 + 2 * i] == Ends(open)[i]
      {
        stack[pc] := oarrBeg[iOarr];
        stack[pc + 1] := oarrEnd[iOarr];
        pc := pc + 2;
        iOarr := iOarr + 1;
      }
    }
  }

  /** c1: the indices are compiled; c2: the access and the INDXINCR too, and the first open index has its argument;
      c3: the limits are stored. */
  lemma EndDone(c1: seq<int>, c2: seq<int>, c3: seq<int>, p: nat, dims: seq<Dim>, refs: Refs)
    requires |dims| == |refs| && 0 < OpenCount(refs) <= N_OPEN_ARR && EndLoc(p, refs) <= |c1| == |c2| == |c3|
    requires |OpenDims(dims, refs)| == OpenCount(refs) && IndicesWait(c1, p, refs, |refs|)
    requires var q, info := AccessLoc(p, refs), InfoLoc(p, refs);
             var x := p + IndexSize(refs, FirstOpen(refs)) + 2;
             && (forall i :: 0 <= i < q && i != x ==> c2[i] == c1[i]) && x < q && c2[x] == info - x - 1
             && ArgAt(c2, q, PUSHPARAM, c2[q + 2]) && ClCode.InstrAt(c2, q + 3, INDXINCR, 4)
             && c2[q + 5] == p - (q + 7) && c2[q + 6] == 1 + 2 * OpenCount(refs)
             && (forall i :: 0 <= i < info ==> c3[i] == c2[i])
             && InfoAt(c3, info, Begs(OpenDims(dims, refs)), Ends(OpenDims(dims, refs)))
    ensures LoopCode(c3, p, dims, refs)
  {
    var f := FirstOpen(refs);
    FirstOpenThere(refs);
    forall d | 0 <= d < |refs| ensures IndexAt(c3, p, refs, d, InfoLoc(p, refs)) {
      assert IndexWaits(c1, p, refs, d);
      FirstOpenIff(refs, d);
      IndexSizeGrows(refs, d + 1, |refs|);
      if d < f { IndexSizeGrows(refs, d + 1, f); }
      if f < d { IndexSizeGrows(refs, f + 1, d); }
    }
  }

  /** The dimensions an index list is looked up in; what stands for those the array does not have is never used. */
  function Fit(dims: seq<Dim>, n: nat): (r: seq<Dim>)
    ensures |r| == n
    ensures |dims| == n ==> r == dims
  {
    seq(n, d => if 0 <= d < |dims| then dims[d] else Dim(1, 0))
  }

  /** An index compiled, the argument of the first open one missing. */
  predicate IndexWaits(code: seq<int>, p: nat, refs: Refs, d: nat)
    requires d < |refs|
  {
    var q := p + IndexSize(refs, d);
    match refs[d]
    case Some(v) => ArgAt(code, q, PUSHCONST, v) && ArgAt(code, q + 3, PUSHINDEX, 0)
    case None => ClCode.InstrAt(code, q, PUSHINDEX, 3) && (OpenCount(refs[..d]) > 0 ==> code[q + 2] == -1)
  }

  ghost predicate IndicesWait(code: seq<int>, p: nat, refs: Refs, n: nat)
    requires n <= |refs|
  {
    forall d {:trigger IndexWaits(code, p, refs, d)} :: 0 <= d < n ==> IndexWaits(code, p, refs, d)
  }

  lemma WaitsMore(c1: seq<int>, c2: seq<int>, p: nat, refs: Refs, d: nat)
    requires d < |refs| && IndicesWait(c1, p, refs, d) && IndexWaits(c2, p, refs, d) && |c2| == |c1|
    requires forall i :: 0 <= i < p + IndexSize(refs, d) && i < |c1| ==> c2[i] == c1[i]
    ensures IndicesWait(c2, p, refs, d + 1)
  {
    forall e | 0 <= e < d + 1 ensures IndexWaits(c2, p, refs, e) {
      if e < d {
        assert IndexWaits(c1, p, refs, e);
        IndexSizeGrows(refs, e + 1, d);
      }
    }
  }

  lemma {:induction false} OpenStep(dims: seq<Dim>, refs: Refs, d: nat)
    requires |dims| == |refs| && d < |refs|
    ensures OpenCount(refs[..d + 1]) == OpenCount(refs[..d]) + (if refs[d] == None then 1 else 0) <= OpenCount(refs)
    ensures |OpenDims(dims, refs)| == OpenCount(refs)
    ensures refs[d] == None ==> OpenDims(dims, refs)[OpenCount(refs[..d])] == dims[d]
    decreases d
  {
    OpenDimsCount(dims, refs);
    if d == 0 {
      assert refs[..1][1..] == [] && refs[..0] == [];
    } else {
      var r := refs[1..];
      assert refs[..d + 1][1..] == r[..d] && refs[..d][1..] == r[..d - 1];
      OpenStep(dims[1..], r, d - 1);
    }
  }

  lemma {:induction false} OpenDimsCount(dims: seq<Dim>, refs: Refs)
    requires |dims| == |refs|
    ensures |OpenDims(dims, refs)| == OpenCount(refs)
  {
    if refs != [] { OpenDimsCount(dims[1..], refs[1..]); }
  }

  /** The first open index; |refs| if there is none. */
  function FirstOpen(refs: Refs): (f: nat)
    ensures f <= |refs|
  {
    if refs == [] || refs[0] == None then 0 else 1 + FirstOpen(refs[1..])
  }

  lemma {:induction false} FirstOpenIff(refs: Refs, d: nat)
    requires d < |refs|
    ensures FirstOpen(refs) == d <==> OpenCount(refs[..d]) == 0 && refs[d] == None
    decreases d
  {
    if d == 0 {
      assert refs[..0] == [];
    } else {
      assert refs[..d][1..] == refs[1..][..d - 1];
      if refs[0].Some? { FirstOpenIff(refs[1..], d - 1); }
    }
  }

  lemma {:induction false} FirstOpenThere(refs: Refs)
    requires OpenCount(refs) > 0
    ensures FirstOpen(refs) < |refs|
  {
    if refs[0].Some? { FirstOpenThere(refs[1..]); }
  }
}
