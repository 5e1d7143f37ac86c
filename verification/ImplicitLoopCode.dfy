/** The code of a statement with an open array reference, such as a[*,5]: what the parser emits for the indices, and
    the INDXINCR and the limits stored at the end of the statement.
    Source: pkg/cl/grammar.y, gram.c, compile.c, opcodes.c. */
module ImplicitLoopCode {
  import opened Wrappers
  import ClCode
  import opened ImplicitLoopSpec

  const INDXINCR := ClCode.INDXINCR
  const PUSHCONST := 44
  const PUSHINDEX := 45
  const PUSHPARAM := 46
  const N_OPEN_ARR := 15

  predicate ArgAt(code: seq<int>, p: nat, op: int, arg: int) {
    ClCode.InstrAt(code, p, op, 3) && code[p + 2] == arg
  }

  /** Cells taken by the first d indices: one that is given is pushed as a constant first. */
  function IndexSize(refs: Refs, d: nat): nat
    requires d <= |refs|
  {
    if d == 0 then 0 else IndexSize(refs, d - 1) + if refs[d - 1].Some? then 6 else 3
  }

  lemma {:induction false} IndexSizeGrows(refs: Refs, d: nat, e: nat)
    requires d <= e <= |refs|
    ensures IndexSize(refs, d) <= IndexSize(refs, e)
    decreases e
  {
    if d < e { IndexSizeGrows(refs, d, e - 1); }
  }

  /** The instructions of index d; the first open index leads to the stored limits at info, the others have mode -1. */
  predicate IndexAt(code: seq<int>, p: nat, refs: Refs, d: nat, info: nat)
    requires d < |refs|
  {
    var q := p + IndexSize(refs, d);
    match refs[d]
    case Some(v) => ArgAt(code, q, PUSHCONST, v) && ArgAt(code, q + 3, PUSHINDEX, 0)
    case None => ArgAt(code, q, PUSHINDEX, if OpenCount(refs[..d]) == 0 then info - q - 3 else -1)
  }

  ghost predicate IndicesAt(code: seq<int>, p: nat, refs: Refs, n: nat, info: nat)
    requires n <= |refs|
  {
    forall d {:trigger IndexAt(code, p, refs, d, info)} :: 0 <= d < n ==> IndexAt(code, p, refs, d, info)
  }

  /** The initialisation data of a loop: the number of open indices, then the limits of each. */
  ghost predicate InfoAt(code: seq<int>, at: int, beg: seq<int>, end: seq<int>) {
    && 0 <= at && 1 <= |beg| == |end| <= N_OPEN_ARR && at + 1 + 2 * |beg| <= |code| && code[at] == |beg|
    && forall i {:trigger beg[i]} :: 0 <= i < |beg| ==> code[at + 1 + 2 * i] == beg[i] && code[at + 2 + 2 * i] == end[i]
  }

  /** Where the array is accessed, after the indices. */
  function AccessLoc(p: nat, refs: Refs): nat {
    p + IndexSize(refs, |refs|)
  }

  function InfoLoc(p: nat, refs: Refs): nat {
    AccessLoc(p, refs) + 7
  }

  function EndLoc(p: nat, refs: Refs): nat {
    InfoLoc(p, refs) + 1 + 2 * OpenCount(refs)
  }

  /** The whole statement at p: indices, access, INDXINCR back to p or around the data, and the data. */
  ghost predicate LoopCode(code: seq<int>, p: nat, dims: seq<Dim>, refs: Refs)
    requires |dims| == |refs|
  {
    var q := AccessLoc(p, refs);
    && IndicesAt(code, p, refs, |refs|, InfoLoc(p, refs))
    && ClCode.InstrAt(code, q, PUSHPARAM, 3)
    && ClCode.InstrAt(code, q + 3, INDXINCR, 4) && code[q + 5] == p - (q + 7) && code[q + 6] == 1 + 2 * OpenCount(refs)
    && InfoAt(code, q + 7, Begs(OpenDims(dims, refs)), Ends(OpenDims(dims, refs)))
  }

  /** What is pushed for index d: the index given, or the current value of the next open one. */
  lemma {:induction false} FillAt(refs: Refs, s: seq<int>, d: nat)
    requires |s| == OpenCount(refs) && d < |refs|
    ensures OpenCount(refs[..d + 1]) == OpenCount(refs[..d]) + if refs[d] == None then 1 else 0
    ensures OpenCount(refs[..d + 1]) <= |s|
    ensures Fill(refs, s)[d] == if refs[d] == None then s[OpenCount(refs[..d])] else refs[d].value
    decreases d
  {
    if d == 0 {
      assert refs[..1][1..] == [] && refs[..0] == [];
    } else {
      var r := refs[1..];
      assert refs[..d + 1][1..] == r[..d] && refs[..d][1..] == r[..d - 1];
      FillAt(r, if refs[0] == None then s[1..] else s, d - 1);
    }
  }

  lemma OpenAll(refs: Refs)
    ensures OpenCount(refs[..|refs|]) == OpenCount(refs) && OpenCount(refs[..0]) == 0
  {
    assert refs[..|refs|] == refs;
  }
}
