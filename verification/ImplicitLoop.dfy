/** The machine state of an implicit array loop: PUSHINDEX, INDXINCR, getoffset and the printing loop of pquery.
    Source: pkg/cl/opcodes.c, param.c, modes.c, decl.c. */
module ImplicitLoop {
  import opened Wrappers
  import opened ImplicitLoopSpec
  import opened ImplicitLoopCode

  /** GETLIMITS: the limits of the n-th index; None is ERR. */
  function GetLimits(dims: seq<Dim>, n: nat): Option<(int, int)> {
    if n >= |dims| then None else Some((dims[n].off, dims[n].off + dims[n].len - 1))
  }

  /** The loop of pquery that prints the indices of an offset. */
  method PrintIndices(dims: seq<Dim>, offset: int) returns (indices: seq<int>)
    requires Proper(dims)
    ensures indices == Decode(dims, offset)
  {
    indices := [];
    var temp := offset;
    for d := 0 to |dims|
      invariant indices + Decode(dims[d..], temp) == Decode(dims, offset)
    {
      assert dims[d..][0] == dims[d] && dims[d..][1..] == dims[d + 1..];
      indices := indices + [temp % dims[d].len + dims[d].off];
      temp := temp / dims[d].len;
    }
  }

  class LoopMachine {
    const code: seq<int>
    const oarrBeg: array<int>
    const oarrCurr: array<int>
    const oarrEnd: array<int>
    var nOarr: int
    var iOarr: int
    var imloopset: int
    var nIndexes: int
    var pc: int
    /** mode_offset is DIRECT_OFFSET. */
    var directOffset: bool
    /** The control stack above the task frame, and the operand stack, the top last. */
    var pushed: seq<int>
    var operands: seq<int>

    ghost predicate Valid()
      reads this, oarrBeg, oarrCurr, oarrEnd
    {
      && oarrBeg.Length == oarrCurr.Length == oarrEnd.Length == N_OPEN_ARR
      && oarrBeg != oarrCurr && oarrCurr != oarrEnd && oarrBeg != oarrEnd
      && 0 <= nIndexes <= |pushed|
    }

    /** A loop is under way, with the given limits and current indices. */
    ghost predicate Looping(beg: seq<int>, end: seq<int>, curr: seq<int>)
      reads this, oarrBeg, oarrCurr, oarrEnd
      requires Valid()
    {
      && 1 <= nOarr == |beg| == |end| == |curr| <= N_OPEN_ARR && imloopset > 0
      && oarrBeg[..nOarr] == beg && oarrEnd[..nOarr] == end && oarrCurr[..nOarr] == curr
    }

    method Push(v: int)
      requires Valid()
      modifies this`pushed, this`nIndexes
      ensures Valid() && pushed == old(pushed) + [v] && nIndexes == old(nIndexes) + 1
    {
      pushed := pushed + [v];
      nIndexes := nIndexes + 1;
    }

    /** O_PUSHINDEX. In mode 0 the index is popped from the operand stack. */
    method PushIndex(mode: int, ghost beg: seq<int>, ghost end: seq<int>, ghost curr: seq<int>)
      requires Valid() && (mode == 0 ==> operands != [])
      requires mode != 0 && imloopset != 0 ==> Looping(beg, end, curr) && 0 <= iOarr < nOarr
      requires mode != 0 && imloopset == 0 ==> mode != -1 && InfoAt(code, pc + mode, beg, end)
      modifies this`operands, this`pushed, this`nIndexes, this`iOarr, this`nOarr, this`imloopset
      modifies oarrBeg, oarrCurr, oarrEnd
      ensures Valid() && nIndexes == old(nIndexes) + 1
      ensures mode == 0 ==>
                && operands == old(operands)[..|old(operands)| - 1]
                && pushed == old(pushed) + [old(operands)[|old(operands)| - 1]]
                && iOarr == old(iOarr) && nOarr == old(nOarr) && imloopset == old(imloopset)
                && (old(Looping(beg, end, curr)) ==> Looping(beg, end, curr))
      ensures mode != 0 ==> operands == old(operands)
      ensures mode != 0 && old(imloopset) != 0 ==>
                && Looping(beg, end, curr) && pushed == old(pushed) + [curr[old(iOarr)]]
                && iOarr == if old(iOarr) + 1 >= nOarr then 0 else old(iOarr) + 1
      ensures mode != 0 && old(imloopset) == 0 ==>
                && Looping(beg, end, beg) && pushed == old(pushed) + [beg[0]] && iOarr == if nOarr == 1 then 0 else 1
    {
      if mode == 0 {
        var v := operands[|operands| - 1];
        operands := operands[..|operands| - 1];
        Push(v);
      } else if mode == -1 || imloopset != 0 {
        PushIndexOpen(beg, end, curr);
      } else {
        PushIndexFirst(mode, beg, end);
      }
    }

    /** O_PUSHINDEX in a loop under way, mode -1 or any other than 0: the current value of the next open index. */
    method PushIndexOpen(ghost beg: seq<int>, ghost end: seq<int>, ghost curr: seq<int>)
      requires Valid() && Looping(beg, end, curr) && 0 <= iOarr < nOarr
      modifies this`pushed, this`nIndexes, this`iOarr
      ensures Valid() && Looping(beg, end, curr) && nIndexes == old(nIndexes) + 1
      ensures pushed == old(pushed) + [curr[old(iOarr)]]
      ensures iOarr == if old(iOarr) + 1 >= nOarr then 0 else old(iOarr) + 1
    {
      assert oarrCurr[..nOarr][iOarr] == oarrCurr[iOarr];
      Push(oarrCurr[iOarr]);
      iOarr := iOarr + 1;
      if iOarr >= nOarr { iOarr := 0; }
    }

    /** O_PUSHINDEX at the first open index of a statement, no loop under way: mode is the offset of the
        initialisation data. */
    method PushIndexFirst(mode: int, ghost beg: seq<int>, ghost end: seq<int>)
      requires Valid() && imloopset == 0 && InfoAt(code, pc + mode, beg, end)
      modifies this`pushed, this`nIndexes, this`iOarr, this`nOarr, this`imloopset, oarrBeg, oarrCurr, oarrEnd
      ensures Valid() && Looping(beg, end, beg) && nIndexes == old(nIndexes) + 1
      ensures pushed == old(pushed) + [beg[0]] && iOarr == if nOarr == 1 then 0 else 1
    {
      InitLoop(pc + mode, beg, end);
      imloopset := imloopset + 1;
      assert oarrCurr[..nOarr][0] == oarrCurr[0];
      Push(oarrCurr[0]);
      iOarr := 1;
      if iOarr >= nOarr { iOarr := 0; }
    }

    /** The loop in it that copies the limits. */
    method InitLoop(at: int, ghost beg: seq<int>, ghost end: seq<int>)
      requires Valid() && InfoAt(code, at, beg, end)
      modifies this`iOarr, this`nOarr, oarrBeg, oarrCurr, oarrEnd
      ensures Valid() && nOarr == |beg|
      ensures oarrBeg[..|beg|] == beg && oarrEnd[..|beg|] == end && oarrCurr[..|beg|] == beg
    {
      var stk := at;
      nOarr := code[stk];
      stk := stk + 1;
      iOarr := 0;
      while iOarr < nOarr
        invariant 0 <= iOarr <= nOarr == |beg| && stk == at + 1 + 2 * iOarr
        invariant forall i :: 0 <= i < iOarr ==>
            oarrBeg[i] == beg[i] && oarrEnd[i] == end[i] && oarrCurr[i] == beg[i]
      {
        assert code[stk] == beg[iOarr] && code[stk + 1] == end[iOarr];
        oarrBeg[iOarr] := code[stk];
        stk := stk + 1;
        oarrCurr[iOarr] := oarrBeg[iOarr];
        oarrEnd[iOarr] := code[stk];
        stk := stk + 1;
        iOarr := iOarr + 1;
      }
    }

    /** The loop of o_indxincr: indices at their limit go back to the start, up to the first that is not. */
    method ResetFull(ghost beg: seq<int>, ghost end: seq<int>, ghost curr: seq<int>) returns (i: nat)
      requires Valid() && Looping(beg, end, curr)
      modifies oarrCurr
      ensures i <= nOarr && oarrCurr[..nOarr] == beg[..i] + curr[i..]
      ensures oarrBeg[..nOarr] == beg && oarrEnd[..nOarr] == end
      ensures (forall j :: 0 <= j < i ==> curr[j] >= end[j]) && (i < nOarr ==> curr[i] < end[i])
    {
      i := 0;
      Elements(oarrBeg[..], beg, nOarr);
      Elements(oarrEnd[..], end, nOarr);
      Elements(oarrCurr[..], curr, nOarr);
      while i < nOarr && oarrCurr[i] >= oarrEnd[i]
        invariant 0 <= i <= nOarr
        invariant forall j :: 0 <= j < nOarr ==> oarrCurr[j] == if j < i then beg[j] else curr[j]
        invariant forall j :: 0 <= j < i ==> curr[j] >= end[j]
      {
        oarrCurr[i] := oarrBeg[i];
        i := i + 1;
      }
      assert oarrCurr[..nOarr] == beg[..i] + curr[i..];
    }

    lemma Elements(a: seq<int>, s: seq<int>, n: int)
      requires 0 <= n <= |a| && a[..n] == s
      ensures forall j :: 0 <= j < n ==> a[j] == s[j]
    {
      forall j | 0 <= j < n ensures a[j] == s[j] { assert a[..n][j] == s[j]; }
    }

    /** O_INDXINCR: branches back by argp[0] if there is a next tuple, else by argp[1] around the stored data. */
    method IndxIncr(argp: (int, int), ghost beg: seq<int>, ghost end: seq<int>, ghost curr: seq<int>)
      returns (more: bool)
      requires Valid() && Looping(beg, end, curr)
      modifies this`pc, this`iOarr, this`imloopset, oarrCurr
      ensures Valid() && more == Next(curr, beg, end).1
      ensures oarrCurr[..nOarr] == Next(curr, beg, end).0
      ensures more ==> Looping(beg, end, Next(curr, beg, end).0) && iOarr == 0 && pc == old(pc) + argp.0
      ensures !more ==> imloopset == 0 && iOarr == old(iOarr) && pc == old(pc) + argp.1
    {
      var i := ResetFull(beg, end, curr);
      if i < nOarr {
        NextCarries(curr, beg, end, i);
        ghost var was := oarrCurr[..nOarr];
        oarrCurr[i] := oarrCurr[i] + 1;
        assert oarrCurr[..nOarr] == was[i := curr[i] + 1];
        iOarr := 0;
        pc := pc + argp.0;
        more := true;
      } else {
        NextWraps(curr, beg, end);
        pc := pc + argp.1;
        imloopset := 0;
        more := false;
      }
    }

    // -------------------------------------------------------------- running a statement

    /** PUSHCONST with an integer constant. */
    method PushConst(v: int)
      modifies this`operands
      ensures operands == old(operands) + [v]
    {
      operands := operands + [v];
    }

    /** The machine in iteration k of the loop at p, before the instructions of index d or, given being set, before the
        PUSHINDEX of an index that is given; d is |refs| before the array is accessed and |refs| + 1 after. */
    ghost predicate Before(p: nat, dims: seq<Dim>, refs: Refs, s: Start, k: nat, d: nat, given: bool)
      requires Valid() && Proper(dims) && |dims| == |refs| && d <= |refs| + 1
      requires |OpenDims(dims, refs)| == OpenCount(refs) && Proper(OpenDims(dims, refs))
      reads this, oarrBeg, oarrCurr, oarrEnd
    {
      var open := OpenDims(dims, refs);
      var curr := Decode(open, k);
      && (given ==> d < |refs| && refs[d].Some?) && !directOffset
      && pc == InstrLoc(p, refs, d, given) && operands == s.operands + (if given then [refs[d].value] else [])
      && pushed == s.pushed + (if d <= |refs| then Fill(refs, curr)[..d] else [])
      && 0 <= s.indexes && nIndexes == s.indexes + (if d <= |refs| then d else 0)
      && var c := if d <= |refs| then OpenCount(refs[..d]) else |open|;
         if k == 0 && c == 0 then imloopset == 0
         else Looping(Begs(open), Ends(open), curr) && iOarr == if c == |open| then 0 else c
    }

    /** What the statement needs to run. */
    ghost predicate Runs(p: nat, dims: seq<Dim>, refs: Refs)
      reads this
    {
      && Proper(dims) && |refs| == |dims| && OpenCount(refs) > 0 && LoopCode(code, p, dims, refs)
      && Proper(OpenDims(dims, refs)) && |OpenDims(dims, refs)| == OpenCount(refs)
      && forall d :: 0 <= d < |refs| && refs[d].Some? ==> InRange(dims[d], refs[d].value)
    }

    /** The constant of an index that is given. */
    method StepConst(ghost p: nat, ghost dims: seq<Dim>, ghost refs: Refs, ghost s: Start, ghost k: nat, ghost d: nat)
      requires Valid() && Runs(p, dims, refs) && d < |refs| && refs[d].Some? && Before(p, dims, refs, s, k, d, false)
      modifies this`pc, this`operands
      ensures Valid() && Before(p, dims, refs, s, k, d, true)
    {
      assert IndexAt(code, p, refs, d, InfoLoc(p, refs));
      var v := code[pc + 2];
      pc := pc + code[pc + 1];
      PushConst(v);
    }

    /** The PUSHINDEX of index d, one that is given. */
    method StepGiven(ghost p: nat, ghost dims: seq<Dim>, ghost refs: Refs, ghost s: Start, ghost k: nat, ghost d: nat)
      requires Valid() && Runs(p, dims, refs) && k < Size(OpenDims(dims, refs))
      requires d < |refs| && refs[d].Some? && Before(p, dims, refs, s, k, d, true)
      modifies this`pc, this`operands, this`pushed, this`nIndexes, this`iOarr, this`nOarr, this`imloopset
      modifies oarrBeg, oarrCurr, oarrEnd
      ensures Valid() && Before(p, dims, refs, s, k, d + 1, false)
    {
      assert IndexAt(code, p, refs, d, InfoLoc(p, refs));
      ghost var open := OpenDims(dims, refs);
      NextPushed(refs, Decode(open, k), d, s.pushed);
      var mode := code[pc + 2];
      pc := pc + code[pc + 1];
      PushIndex(mode, Begs(open), Ends(open), Decode(open, k));
    }

    /** The PUSHINDEX of index d, an open one, in a loop under way. */
    method StepOpen(ghost p: nat, ghost dims: seq<Dim>, ghost refs: Refs, ghost s: Start, ghost k: nat, ghost d: nat)
      requires Valid() && Runs(p, dims, refs) && k < Size(OpenDims(dims, refs)) && imloopset != 0
      requires d < |refs| && refs[d] == None && Before(p, dims, refs, s, k, d, false)
      modifies this`pc, this`pushed, this`nIndexes, this`iOarr
      ensures Valid() && Before(p, dims, refs, s, k, d + 1, false)
    {
      assert IndexAt(code, p, refs, d, InfoLoc(p, refs));
      ghost var open := OpenDims(dims, refs);
      NextPushed(refs, Decode(open, k), d, s.pushed);
      pc := pc + code[pc + 1];
      PushIndexOpen(Begs(open), Ends(open), Decode(open, k));
    }

    /** The PUSHINDEX of index d, the first open one, that sets up the loop. */
    method StepFirst(ghost p: nat, ghost dims: seq<Dim>, ghost refs: Refs, ghost s: Start, ghost d: nat)
      requires Valid() && Runs(p, dims, refs) && imloopset == 0
      requires d < |refs| && refs[d] == None && Before(p, dims, refs, s, 0, d, false)
      modifies this`pc, this`pushed, this`nIndexes, this`iOarr, this`nOarr, this`imloopset
      modifies oarrBeg, oarrCurr, oarrEnd
      ensures Valid() && Before(p, dims, refs, s, 0, d + 1, false)
    {
      assert IndexAt(code, p, refs, d, InfoLoc(p, refs));
      ghost var open := OpenDims(dims, refs);
      FirstTuple(open);
      NextPushed(refs, Decode(open, 0), d, s.pushed);
      var mode := code[pc + 2];
      pc := pc + code[pc + 1];
      PushIndexFirst(mode, Begs(open), Ends(open));
    }

    /** The PUSHINDEX of index d. */
    method StepIndex(ghost p: nat, ghost dims: seq<Dim>, ghost refs: Refs, ghost s: Start, ghost k: nat, ghost d: nat,
                     ghost given: bool)
      requires Valid() && Runs(p, dims, refs) && k < Size(OpenDims(dims, refs))
      requires d < |refs| && given == refs[d].Some? && Before(p, dims, refs, s, k, d, given)
      modifies this`pc, this`operands, this`pushed, this`nIndexes, this`iOarr, this`nOarr, this`imloopset
      modifies oarrBeg, oarrCurr, oarrEnd
      ensures Valid() && Before(p, dims, refs, s, k, d + 1, false)
    {
      OpcodeThere(p, dims, refs, d, given);
      if code[pc + 2] == 0 {
        StepGiven(p, dims, refs, s, k, d);
      } else if imloopset != 0 {
        StepOpen(p, dims, refs, s, k, d);
      } else {
        assert k == 0;
        StepFirst(p, dims, refs, s, d);
      }
    }

    lemma NextPushed(refs: Refs, curr: seq<int>, d: nat, p: seq<int>)
      requires |curr| == OpenCount(refs) && d < |refs|
      ensures OpenCount(refs[..d + 1]) == OpenCount(refs[..d]) + if refs[d] == None then 1 else 0
      ensures OpenCount(refs[..d + 1]) <= |curr|
      ensures p + Fill(refs, curr)[..d + 1]
              == p + Fill(refs, curr)[..d] + [if refs[d] == None then curr[OpenCount(refs[..d])] else refs[d].value]
    {
      FillAt(refs, curr, d);
    }

    /** The access to the array: the offset of the element. */
    method StepAccess(dims: seq<Dim>, ghost p: nat, ghost refs: Refs, ghost s: Start, ghost k: nat) returns (offset: int)
      requires Valid() && Runs(p, dims, refs) && k < Size(OpenDims(dims, refs))
      requires Before(p, dims, refs, s, k, |refs|, false)
      modifies this`pc, this`pushed, this`nIndexes, this`directOffset
      ensures Valid() && Before(p, dims, refs, s, k, |refs| + 1, false) && offset == SectionOffset(dims, refs, k)
    {
      ghost var curr := Decode(OpenDims(dims, refs), k);
      Iteration(dims, refs, k);
      OpenAll(refs);
      pc := pc + code[pc + 1];
      assert Fill(refs, curr)[..|refs|] == Fill(refs, curr);
      assert pushed[|pushed| - |dims|..] == Fill(refs, curr) && pushed[..|pushed| - |dims|] == s.pushed;
      var r := GetOffset(dims);
      offset := r.value;
    }

    /** INDXINCR: back to the statement, or past the data. */
    method StepIncr(ghost p: nat, ghost dims: seq<Dim>, ghost refs: Refs, ghost s: Start, ghost k: nat)
      returns (more: bool)
      requires Valid() && Runs(p, dims, refs) && k < Size(OpenDims(dims, refs))
      requires Before(p, dims, refs, s, k, |refs| + 1, false)
      modifies this`pc, this`iOarr, this`imloopset, oarrCurr
      ensures Valid() && more == (k + 1 < Size(OpenDims(dims, refs)))
      ensures more ==> Before(p, dims, refs, s, k + 1, 0, false)
      ensures !more ==> && pc == EndLoc(p, refs) && imloopset == 0 && iOarr == 0
                        && pushed == s.pushed && operands == s.operands && nIndexes == s.indexes
    {
      ghost var open := OpenDims(dims, refs);
      Iteration(dims, refs, k);
      OpenAll(refs);
      var back, past := code[pc + 2], code[pc + 3];
      pc := pc + code[pc + 1];
      more := IndxIncr((back, past), Begs(open), Ends(open), Decode(open, k));
    }

    /** RUN: a statement with an open array reference, fetched and executed instruction by instruction until the pc is
        past the data of its loop: the offsets of the elements accessed, in order. */
    method RunLoop(dims: seq<Dim>, refs: Refs) returns (offsets: seq<int>)
      requires Valid() && Proper(dims) && |refs| == |dims| && OpenCount(refs) > 0 && !directOffset
      requires forall d :: 0 <= d < |refs| && refs[d].Some? ==> InRange(dims[d], refs[d].value)
      requires imloopset == 0 && 0 <= pc && LoopCode(code, pc, dims, refs)
      modifies this, oarrBeg, oarrCurr, oarrEnd
      ensures Valid() && imloopset == 0 && iOarr == 0 && pc == EndLoc(old(pc), refs)
      ensures pushed == old(pushed) && operands == old(operands) && nIndexes == old(nIndexes)
      ensures |offsets| == Size(OpenDims(dims, refs))
      ensures forall k :: 0 <= k < |offsets| ==> offsets[k] == SectionOffset(dims, refs, k)
    {
      ghost var p: nat, s := pc, Start(pushed, operands, nIndexes);
      ghost var k: nat, d: nat, given := 0, 0, false;
      OpenDimsProper(dims, refs);
      SizePositive(OpenDims(dims, refs));
      OpenAll(refs);
      offsets := [];
      var running := true;
      while running
        invariant Valid() && Runs(p, dims, refs) && k <= Size(OpenDims(dims, refs)) && d <= |refs| + 1
        invariant |offsets| == k + if running && d == |refs| + 1 then 1 else 0
        invariant forall i :: 0 <= i < |offsets| ==> offsets[i] == SectionOffset(dims, refs, i)
        invariant running ==> k < Size(OpenDims(dims, refs)) && Before(p, dims, refs, s, k, d, given)
        invariant !running ==>
            && k == Size(OpenDims(dims, refs)) && pc == EndLoc(p, refs) && imloopset == 0 && iOarr == 0
            && pushed == s.pushed && operands == s.operands && nIndexes == s.indexes
        decreases running, Size(OpenDims(dims, refs)) - k, |refs| + 2 - d, !given
      {
        var offset;
        running, offset, k, d, given := Execute(dims, p, refs, s, k, d, given);
        if offset.Some? { offsets := offsets + [offset.value]; }
      }
    }

    /** One instruction. */
    method Execute(dims: seq<Dim>, ghost p: nat, ghost refs: Refs, ghost s: Start, ghost k: nat, ghost d: nat,
                   ghost given: bool)
      returns (running: bool, offset: Option<int>, ghost k': nat, ghost d': nat, ghost given': bool)
      requires Valid() && Runs(p, dims, refs) && k < Size(OpenDims(dims, refs)) && d <= |refs| + 1
      requires Before(p, dims, refs, s, k, d, given)
      modifies this, oarrBeg, oarrCurr, oarrEnd
      ensures Valid() && offset == if d == |refs| then Some(SectionOffset(dims, refs, k)) else None
      ensures if d > |refs| then k' == k + 1 && d' == 0 && !given' && (running <==> k' < Size(OpenDims(dims, refs)))
              else running && k' == k && if d < |refs| && refs[d].Some? && !given then d' == d && given'
                                         else d' == d + 1 && !given'
      ensures running ==> d' <= |refs| + 1 && Before(p, dims, refs, s, k', d', given')
      ensures !running ==>
                && pc == EndLoc(p, refs) && imloopset == 0 && iOarr == 0
                && pushed == s.pushed && operands == s.operands && nIndexes == s.indexes
    {
      OpcodeThere(p, dims, refs, d, given);
      running, offset, k', d', given' := true, None, k, d, given;
      var op := code[pc];
      if op == PUSHCONST {
        StepConst(p, dims, refs, s, k, d);
        given' := true;
      } else if op == PUSHINDEX {
        StepIndex(p, dims, refs, s, k, d, given);
        d', given' := d + 1, false;
      } else if op == PUSHPARAM {
        var o := StepAccess(dims, p, refs, s, k);
        offset, d' := Some(o), d + 1;
      } else {
        running := StepIncr(p, dims, refs, s, k);
        k', d' := k + 1, 0;
      }
    }

    lemma OpcodeThere(p: nat, dims: seq<Dim>, refs: Refs, d: nat, given: bool)
      requires Runs(p, dims, refs) && d <= |refs| + 1 && (given ==> d < |refs| && refs[d].Some?)
      ensures var q := InstrLoc(p, refs, d, given);
              q < |code| && code[q] == if d > |refs| then INDXINCR
                                       else if d == |refs| then PUSHPARAM
                                       else if refs[d].Some? && !given then PUSHCONST
                                       else PUSHINDEX
      ensures d < |refs| ==>
                var q := InstrLoc(p, refs, d, given);
                q + 2 < |code| && (code[q] == PUSHINDEX ==> (code[q + 2] == 0 <==> given))
    {
      if d < |refs| {
        assert IndexAt(code, p, refs, d, InfoLoc(p, refs));
        IndexSizeGrows(refs, d, |refs|);
      }
    }

    /** GETOFFSET: the indices of the reference are popped, the last one first, or in direct mode the offset itself; None
        stands for the errors. */
    method GetOffset(dims: seq<Dim>) returns (r: Option<int>)
      requires Valid()
      modifies this`pushed, this`nIndexes, this`directOffset
      ensures old(directOffset) ==> (r.Some? <==> old(nIndexes) >= 1)
      ensures old(directOffset) && r.Some? ==>
                && Valid() && !directOffset && r.value == old(pushed)[|old(pushed)| - 1]
                && pushed == old(pushed)[..|old(pushed)| - 1] && nIndexes == old(nIndexes) - 1
      ensures !old(directOffset) ==>
                !directOffset
                && (r.Some? <==> old(nIndexes) >= |dims| && Inside(dims, old(pushed)[|old(pushed)| - |dims|..]))
      ensures !old(directOffset) && r.Some? ==>
                && Valid() && pushed == old(pushed)[..|old(pushed)| - |dims|] && nIndexes == old(nIndexes) - |dims|
                && r.value == Offset(dims, old(pushed)[|old(pushed)| - |dims|..])
    {
      if directOffset {
        nIndexes := nIndexes - 1;
        if nIndexes < 0 { return None; }
        r := Some(pushed[|pushed| - 1]);
        pushed := pushed[..|pushed| - 1];
        directOffset := false;
      } else {
        r := OffsetOfIndices(dims);
      }
    }

    /** The loop in it. */
    method OffsetOfIndices(dims: seq<Dim>) returns (r: Option<int>)
      requires Valid()
      modifies this`pushed, this`nIndexes
      ensures r.Some? <==> old(nIndexes) >= |dims| && Inside(dims, old(pushed)[|old(pushed)| - |dims|..])
      ensures r.Some? ==>
          Valid() && pushed == old(pushed)[..|old(pushed)| - |dims|] && nIndexes == old(nIndexes) - |dims|
      ensures r.Some? ==> r.value == Offset(dims, old(pushed)[|old(pushed)| - |dims|..])
    {
      var dim := |dims|;
      var offset := 0;
      ghost var p, n := pushed, nIndexes;
      ghost var t := if n >= |dims| then p[|p| - |dims|..] else [];
      while dim > 0
        invariant 0 <= dim <= |dims| && nIndexes == n - (|dims| - dim) && 0 <= nIndexes <= |pushed|
        invariant pushed == p[..|p| - (|dims| - dim)]
        invariant n >= |dims| ==>
            Inside(dims[dim..], t[dim..]) && offset == Offset(dims[dim..], t[dim..]) && offset >= 0
      {
        dim := dim - 1;
        if n >= |dims| { OneMore(dims, t, dim, offset); }
        if offset > 0 { offset := offset * dims[dim].len; }
        nIndexes := nIndexes - 1;
        if nIndexes < 0 { return None; }
        var index := pushed[|pushed| - 1];
        assert n >= |dims| ==> index == t[dim];
        pushed := pushed[..|pushed| - 1];
        if index < dims[dim].off || index > dims[dim].off + dims[dim].len - 1 { return None; }
        offset := offset + index - dims[dim].off;
      }
      assert n >= |dims|;
      r := Some(offset);
    }
  }

  /** The stacks before the statement. */
  datatype Start = Start(pushed: seq<int>, operands: seq<int>, indexes: int)

  function InstrLoc(p: nat, refs: Refs, d: nat, given: bool): nat
    requires d <= |refs| + 1
  {
    if d > |refs| then AccessLoc(p, refs) + 3 else p + IndexSize(refs, d) + if given then 3 else 0
  }

  lemma OneMore(dims: seq<Dim>, t: seq<int>, d: nat, o: int)
    requires d < |dims| == |t| && o == Offset(dims[d + 1..], t[d + 1..]) >= 0 && Inside(dims[d + 1..], t[d + 1..])
    ensures Inside(dims[d..], t[d..]) <==> InRange(dims[d], t[d])
    ensures var scaled := if o > 0 then o * dims[d].len else o;
            Offset(dims[d..], t[d..]) == scaled + t[d] - dims[d].off
    ensures InRange(dims[d], t[d]) ==> Offset(dims[d..], t[d..]) >= 0
    ensures Inside(dims, t) ==> InRange(dims[d], t[d])
  {
    LastIndex(dims, t, d);
    assert (if o > 0 then o * dims[d].len else o) == dims[d].len * o;
  }

  /** One more index in front of the last ones. */
  lemma LastIndex(dims: seq<Dim>, t: seq<int>, d: nat)
    requires d < |dims| == |t|
    ensures Offset(dims[d..], t[d..]) == t[d] - dims[d].off + dims[d].len * Offset(dims[d + 1..], t[d + 1..])
    ensures Inside(dims[d..], t[d..]) <==> InRange(dims[d], t[d]) && Inside(dims[d + 1..], t[d + 1..])
    ensures Inside(dims[d..], t[d..]) ==> Offset(dims[d..], t[d..]) >= 0
    ensures Inside(dims, t) ==> Inside(dims[d..], t[d..])
  {
    var a, b := dims[d..], t[d..];
    assert a[1..] == dims[d + 1..] && b[1..] == t[d + 1..];
    if InRange(dims[d], t[d]) && Inside(dims[d + 1..], t[d + 1..]) {
      forall k | 0 <= k < |a| ensures InRange(a[k], b[k]) {
        if k > 0 { assert InRange(dims[d + 1..][k - 1], t[d + 1..][k - 1]); }
      }
    }
    if Inside(a, b) {
      assert InRange(a[0], b[0]);
      var a', b' := dims[d + 1..], t[d + 1..];
      forall k | 0 <= k < |a'| ensures InRange(a'[k], b'[k]) { assert InRange(a[k + 1], b[k + 1]); }
      DecodeOfOffset(a, b);
    }
    if Inside(dims, t) {
      forall k | 0 <= k < |a| ensures InRange(a[k], b[k]) { assert InRange(dims[d + k], t[d + k]); }
    }
  }

  /** Iteration k of a loop over an array section: which element it refers to, and which tuple comes next. */
  lemma Iteration(dims: seq<Dim>, refs: Refs, k: nat)
    requires Proper(dims) && |refs| == |dims| && k < Size(OpenDims(dims, refs))
    requires forall d :: 0 <= d < |refs| && refs[d].Some? ==> InRange(dims[d], refs[d].value)
    ensures Proper(OpenDims(dims, refs)) && |OpenDims(dims, refs)| == OpenCount(refs)
    ensures var open := OpenDims(dims, refs);
            && Inside(dims, Fill(refs, Decode(open, k))) && (k == 0 ==> Decode(open, k) == Begs(open))
            && Next(Decode(open, k), Begs(open), Ends(open))
                 == if k + 1 < Size(open) then (Decode(open, k + 1), true) else (Begs(open), false)
  {
    OpenDimsProper(dims, refs);
    var open := OpenDims(dims, refs);
    LoopAgrees(open, k);
    LoopAgrees(open, k + 1);
    LoopAgrees(open, 0);
    TupleZero(Begs(open), Ends(open));
    OdometerCounts(Begs(open), Ends(open), k);
    OffsetOfDecode(open, k);
    FillInside(dims, refs, Decode(open, k));
  }

  lemma FirstTuple(open: seq<Dim>)
    requires Proper(open)
    ensures Decode(open, 0) == Begs(open)
  {
    LoopAgrees(open, 0);
    TupleZero(Begs(open), Ends(open));
  }

  lemma {:induction false} FillInside(dims: seq<Dim>, refs: Refs, s: seq<int>)
    requires |dims| == |refs| && |s| == OpenCount(refs) && Inside(OpenDims(dims, refs), s)
    requires forall d :: 0 <= d < |refs| && refs[d].Some? ==> InRange(dims[d], refs[d].value)
    ensures Inside(dims, Fill(refs, s))
  {
    if refs != [] {
      var open := OpenDims(dims, refs);
      if refs[0] == None {
        assert InRange(open[0], s[0]);
        var o, r := OpenDims(dims[1..], refs[1..]), s[1..];
        forall k | 0 <= k < |o| ensures InRange(o[k], r[k]) { assert InRange(open[k + 1], s[k + 1]); }
        FillInside(dims[1..], refs[1..], s[1..]);
      } else {
        assert open == OpenDims(dims[1..], refs[1..]);
        FillInside(dims[1..], refs[1..], s);
      }
      var t := Fill(refs, s);
      forall k | 0 <= k < |dims| ensures InRange(dims[k], t[k]) {
        if k > 0 { assert InRange(dims[1..][k - 1], t[1..][k - 1]); }
      }
    }
  }

  /** The odometer carries past the indices at their limits. */
  lemma {:induction false} NextCarries(curr: seq<int>, beg: seq<int>, end: seq<int>, i: nat)
    requires |curr| == |beg| == |end| && i < |curr| && curr[i] < end[i] && forall j :: 0 <= j < i ==> curr[j] >= end[j]
    ensures Next(curr, beg, end) == ((beg[..i] + curr[i..])[i := curr[i] + 1], true)
  {
    if i == 0 {
      assert (beg[..0] + curr[0..])[0 := curr[0] + 1] == [curr[0] + 1] + curr[1..];
    } else {
      NextCarries(curr[1..], beg[1..], end[1..], i - 1);
      assert (beg[..i] + curr[i..])[i := curr[i] + 1]
          == [beg[0]] + (beg[1..][..i - 1] + curr[1..][i - 1..])[i - 1 := curr[i] + 1];
    }
  }

  lemma {:induction false} NextWraps(curr: seq<int>, beg: seq<int>, end: seq<int>)
    requires |curr| == |beg| == |end| && forall j :: 0 <= j < |curr| ==> curr[j] >= end[j]
    ensures Next(curr, beg, end) == (beg, false)
  {
    if curr != [] {
      NextWraps(curr[1..], beg[1..], end[1..]);
      assert beg == [beg[0]] + beg[1..];
    }
  }
}
