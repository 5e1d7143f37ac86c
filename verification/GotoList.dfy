/** Labels and gotos: the list of GOTO instructions waiting for their label is threaded through their argument cells,
    and every goto ends up at its label. Source: pkg/cl/gram.c, pkg/cl/grammar.y, pkg/cl/opcodes.c. */
module GotoList {
  import opened Chains
  import opened ClCode
  import opened Simulation

  const ARG := 2      // the cell of the argument in an instruction
  const LENGTH := 3   // the length of a GOTO

  // ---------------------------------------------------------------- the threaded list

  function EndLink(tail: int): int {
    if tail < 0 then -1 else tail
  }

  function Link(s: seq<int>, tail: int, k: nat): int {
    if k < |s| then s[k] else EndLink(tail)
  }

  predicate CellAt(code: seq<int>, s: seq<int>, tail: int, k: nat)
    requires k < |s|
  {
    0 <= s[k] && s[k] + ARG < |code| && code[s[k] + ARG] == Link(s, tail, k + 1)
  }

  /** The waiting GOTOs s, newest first, threaded through their argument cells; the last link is tail, which is what
      the list was before the script: -1, or the head of the entries an earlier script left behind. */
  ghost predicate Threaded(code: seq<int>, head: int, s: seq<int>, tail: int) {
    && Distinct(s) && (if s == [] then EndLink(head) == EndLink(tail) else head == s[0])
    && forall k {:trigger CellAt(code, s, tail, k)} :: 0 <= k < |s| ==> CellAt(code, s, tail, k)
  }

  /** The list unsetigoto leaves when it takes out the k-th entry: it takes an entry at address 0 for the head. */
  function Unset(s: seq<int>, k: nat): seq<int>
    requires k < |s|
  {
    if k > 0 && s[k - 1] == 0 then s[k + 1..] else Without(s, k)
  }

  /** unsetigoto removes exactly its entry unless the entry before it is at address 0. */
  lemma UnsetRightIff(s: seq<int>, k: nat)
    requires k < |s|
    ensures Unset(s, k) == Without(s, k) <==> k == 0 || s[k - 1] != 0
  {
    if k > 0 { assert |s[k + 1..]| < |Without(s, k)|; }
  }

  /** With newer entries at higher addresses that cannot happen. */
  lemma UnsetRight(s: seq<int>, k: nat)
    requires k < |s| && (forall j :: 0 <= j < |s| ==> s[j] >= 0) && forall i, j :: 0 <= i < j < |s| ==> s[i] > s[j]
    ensures Unset(s, k) == Without(s, k)
  {
    if k > 0 { assert s[k - 1] > s[k]; }
  }

  lemma ThreadedFrame(code: seq<int>, code': seq<int>, head: int, s: seq<int>, tail: int)
    requires Threaded(code, head, s, tail) && |code'| >= |code|
    requires forall k :: 0 <= k < |s| && 0 <= s[k] && s[k] + ARG < |code| ==> code'[s[k] + ARG] == code[s[k] + ARG]
    ensures Threaded(code', head, s, tail)
  {
    forall k | 0 <= k < |s| ensures CellAt(code', s, tail, k) { assert CellAt(code, s, tail, k); }
  }

  lemma ThreadedPush(code: seq<int>, head: int, s: seq<int>, tail: int, loc: int)
    requires Threaded(code, head, s, tail) && 0 <= loc && loc + ARG < |code| && loc !in s
    ensures Threaded(code[loc + ARG := EndLink(head)], loc, [loc] + s, tail)
  {
    var code', t := code[loc + ARG := EndLink(head)], [loc] + s;
    forall k | 0 <= k < |t| ensures CellAt(code', t, tail, k) {
      if k > 0 { assert CellAt(code, s, tail, k - 1); }
      if k == 0 && s != [] { assert CellAt(code, s, tail, 0); }
    }
  }

  lemma ThreadedEntry(code: seq<int>, head: int, s: seq<int>, tail: int, k: nat)
    requires Threaded(code, head, s, tail) && k < |s|
    ensures 0 <= s[k] && s[k] + ARG < |code| && code[s[k] + ARG] == Link(s, tail, k + 1)
  {
    assert CellAt(code, s, tail, k);
  }

  /** The entries after the k-th are a list too. */
  lemma ThreadedAfter(code: seq<int>, head: int, s: seq<int>, tail: int, k: nat)
    requires Threaded(code, head, s, tail) && k < |s|
    ensures 0 <= s[k] && s[k] + ARG < |code| && Threaded(code, code[s[k] + ARG], s[k + 1..], tail)
  {
    var t := s[k + 1..];
    ThreadedEntry(code, head, s, tail, k);
    forall j | 0 <= j < |t| ensures CellAt(code, t, tail, j) { ThreadedEntry(code, head, s, tail, k + 1 + j); }
  }

  /** Linking the entry before the k-th to the one after it. */
  lemma ThreadedRemove(code: seq<int>, head: int, s: seq<int>, tail: int, k: nat)
    requires Threaded(code, head, s, tail) && 0 < k < |s|
    ensures 0 <= s[k] && s[k] + ARG < |code| && 0 <= s[k - 1] && s[k - 1] + ARG < |code|
    ensures Threaded(code[s[k - 1] + ARG := code[s[k] + ARG]], head, Without(s, k), tail)
  {
    ThreadedEntry(code, head, s, tail, k);
    ThreadedEntry(code, head, s, tail, k - 1);
    var code', t := code[s[k - 1] + ARG := code[s[k] + ARG]], Without(s, k);
    forall j | 0 <= j < |t| ensures CellAt(code', t, tail, j) {
      ThreadedEntry(code, head, s, tail, if j < k then j else j + 1);
    }
  }

  // ---------------------------------------------------------------- entries left by an earlier script

  /** The list that starts at head ends: with -1, after visiting no entry twice. */
  ghost predicate Ends(code: seq<int>, head: int) {
    exists t :: Threaded(code, head, t, -1)
  }

  /** Two lists that share an entry share those that follow. */
  lemma {:induction false} SameFrom(code: seq<int>, h: int, s: seq<int>, tail: int, h': int, t: seq<int>, k: nat, j: nat,
                                    d: nat)
    requires Threaded(code, h, s, tail) && Threaded(code, h', t, -1) && k + d < |s| && j < |t| && s[k] == t[j]
    ensures j + d < |t| && s[k + d] == t[j + d]
  {
    if d > 0 {
      SameFrom(code, h, s, tail, h', t, k, j, d - 1);
      ThreadedEntry(code, h, s, tail, k + d - 1);
      ThreadedEntry(code, h', t, -1, j + d - 1);
      ThreadedEntry(code, h, s, tail, k + d);
    }
  }

  /** What an earlier script left behind does not come back to the entries of this one, if it ends. */
  lemma Apart(code: seq<int>, head: int, s: seq<int>, tail: int, u: seq<int>, k: nat, j: nat)
    requires Threaded(code, head, s, tail) && Threaded(code, tail, u, -1) && k < |s| && j < |u|
    ensures s[k] != u[j]
  {
    if s[k] == u[j] {
      var d := |s| - 1 - k;
      SameFrom(code, head, s, tail, tail, u, k, j, d);
      ThreadedEntry(code, head, s, tail, |s| - 1);
      ThreadedEntry(code, tail, u, -1, j + d);
      ThreadedEntry(code, tail, u, -1, 0);
      assert false;
    }
  }

  /** Whatever is compiled, the whole list ends exactly when what was left of it by earlier scripts ends. */
  lemma EndsIff(code: seq<int>, head: int, s: seq<int>, tail: int)
    requires Threaded(code, head, s, tail)
    ensures Ends(code, head) <==> Ends(code, tail)
  {
    if Ends(code, tail) {
      var u :| Threaded(code, tail, u, -1);
      EndsAfter(code, head, s, tail, u);
    }
    if Ends(code, head) {
      var t :| Threaded(code, head, t, -1);
      if s == [] {
        SameEnd(code, head, tail, t);
      } else {
        ThreadedEntry(code, head, s, tail, 0);
        SameFrom(code, head, s, tail, head, t, 0, 0, |s| - 1);
        ThreadedEntry(code, head, s, tail, |s| - 1);
        ThreadedAfter(code, head, t, -1, |s| - 1);
        SameEnd(code, EndLink(tail), tail, t[|s|..]);
      }
    }
  }

  lemma SameEnd(code: seq<int>, h: int, h': int, t: seq<int>)
    requires Threaded(code, h, t, -1) && EndLink(h) == EndLink(h')
    ensures Threaded(code, h', t, -1)
  {
    if t != [] { ThreadedEntry(code, h, t, -1, 0); }
  }

  lemma EndsAfter(code: seq<int>, head: int, s: seq<int>, tail: int, u: seq<int>)
    requires Threaded(code, head, s, tail) && Threaded(code, tail, u, -1)
    ensures Threaded(code, head, s + u, -1)
  {
    var t := s + u;
    if u != [] { ThreadedEntry(code, tail, u, -1, 0); }
    forall j, k | 0 <= j < k < |t| ensures t[j] != t[k] {
      if j < |s| <= k { Apart(code, head, s, tail, u, j, k - |s|); }
    }
    forall k | 0 <= k < |t| ensures CellAt(code, t, -1, k) {
      if k < |s| { ThreadedEntry(code, head, s, tail, k); } else { ThreadedEntry(code, tail, u, -1, k - |s|); }
    }
  }

  /** It need not: a goto compiled over the one an earlier script left waiting is linked to itself. */
  lemma LeftoverLoops(code: seq<int>, loc: nat)
    requires loc + ARG < |code|
    ensures var code' := code[loc + ARG := loc];   // setigoto (loc), with igoto1 == loc
            Threaded(code', loc, [loc], loc) && !Ends(code', loc)
  {
    var code' := code[loc + ARG := loc];
    assert CellAt(code', [loc], loc, 0);
    forall t ensures !Threaded(code', loc, t, -1) {
      if Threaded(code', loc, t, -1) { ThreadedEntry(code', loc, t, -1, 0); }
    }
  }

  // ---------------------------------------------------------------- where gotos lead

  /** o_dogoto: where the GOTO at g goes. */
  function Lands(code: seq<int>, g: int): int
    requires 0 <= g && g + ARG < |code|
  {
    g + LENGTH + code[g + ARG]
  }

  ghost predicate GotoAt(code: seq<int>, g: int) {
    0 <= g && InstrAt(code, g, GOTO, LENGTH)
  }

  /** A label: where it, or the first goto to it, is; and whether it has been defined. */
  datatype Label = Label(loc: int, defined: bool)

  /** All that has been compiled: the waiting GOTOs, the label each GOTO was written with, the labels, and where each
      defined label is. */
  datatype Compiled = Compiled(pending: seq<int>, sites: map<int, string>, labels: map<string, Label>,
                               places: map<string, int>)

  /** The GOTO at g leads to place, at once or by way of the GOTO at first. */
  predicate LeadsTo(code: seq<int>, g: int, first: int, place: int) {
    && 0 <= g && g + ARG < |code|
    && (|| Lands(code, g) == place
        || (Lands(code, g) == first && 0 <= first && first + ARG < |code| && Lands(code, first) == place))
  }

  /** A GOTO written with the label x: it leads to the place of x, or, x not being defined yet, it waits for it or
      leads to the one that does. */
  ghost predicate SiteOk(code: seq<int>, c: Compiled, g: int, x: string) {
    && GotoAt(code, g) && x in c.labels
    && if c.labels[x].defined then x in c.places && LeadsTo(code, g, c.labels[x].loc, c.places[x])
       else g == c.labels[x].loc || Lands(code, g) == c.labels[x].loc
  }

  ghost predicate LabelOk(code: seq<int>, c: Compiled, x: string)
    requires x in c.labels
  {
    var l := c.labels[x];
    if l.defined then
      x in c.places && (l.loc == c.places[x] || (l.loc in c.sites && c.sites[l.loc] == x && LeadsTo(code, l.loc, l.loc, c.places[x])))
    else l.loc in c.pending && l.loc in c.sites && c.sites[l.loc] == x
  }

  ghost predicate PendingOk(c: Compiled, p: int) {
    && p in c.sites && c.sites[p] in c.labels
    && c.labels[c.sites[p]] == Label(p, false)
  }

  ghost predicate CodeOk(code: seq<int>, c: Compiled) {
    && (forall g :: g in c.sites ==> SiteOk(code, c, g, c.sites[g]))
    && (forall x :: x in c.labels ==> LabelOk(code, c, x))
    && (forall p :: p in c.pending ==> PendingOk(c, p))
  }

  /** Every goto to a label that is defined gets there: run from the goto, the machine is at the label after one
      jump or two, with nothing else changed. */
  lemma GotosArrive(I: Interp, code: seq<int>, c: Compiled, g: int, st: State) returns (n: nat)
    requires CodeOk(code, c) && g in c.sites && c.sites[g] in c.labels && c.labels[c.sites[g]].defined
    requires c.sites[g] in c.places ==> 0 <= c.places[c.sites[g]] < STACKSIZ && |code| <= STACKSIZ
    ensures 0 <= g && c.sites[g] in c.places && 1 <= n <= 2
    ensures Run(I, code, Running(g, st), n) == Running(c.places[c.sites[g]], st)
  {
    var x := c.sites[g];
    var place, first := c.places[x], c.labels[x].loc;
    assert SiteOk(code, c, g, x) && LabelOk(code, c, x);
    n := 1;
    if Lands(code, g) == place {
      JumpRuns(I, code, g, place, st);
    } else {
      n := 2;
      assert SiteOk(code, c, first, x);
      JumpRuns(I, code, g, first, st);
      JumpRuns(I, code, first, place, st);
      RunAdd(I, code, Running(g, st), 1, 1);
    }
  }

  // ---------------------------------------------------------------- what compiling keeps

  /** All GOTOs are below pc, and the waiting ones are listed newest first. */
  ghost predicate Placed(c: Compiled, pc: int) {
    && (forall g :: g in c.sites ==> 0 <= g && g + LENGTH <= pc)
    && (forall g, h :: g in c.sites && h in c.sites && g < h ==> g + LENGTH <= h)
    && (forall p :: p in c.pending ==> p in c.sites)
    && forall i, j :: 0 <= i < j < |c.pending| ==> c.pending[i] > c.pending[j]
  }

  /** All GOTOs are as before. */
  ghost predicate SameGotos(code: seq<int>, code': seq<int>, c: Compiled) {
    forall g :: g in c.sites && GotoAt(code, g) ==> GotoAt(code', g) && code'[g + ARG] == code[g + ARG]
  }

  lemma SameKeepsCode(code: seq<int>, code': seq<int>, c: Compiled)
    requires CodeOk(code, c) && SameGotos(code, code', c)
    ensures CodeOk(code', c)
  {
    forall x | x in c.labels ensures LabelOk(code', c, x) { assert LabelOk(code, c, x); }
    forall g | g in c.sites ensures SiteOk(code', c, g, c.sites[g]) {
      assert SiteOk(code, c, g, c.sites[g]);
      assert LabelOk(code, c, c.sites[g]);
    }
  }

  lemma SitePlaced(c: Compiled, x: string, pc: int)
    requires Placed(c, pc) && 0 <= pc
    ensures Placed(c.(sites := c.sites[pc := x]), pc + LENGTH)
  {
  }

  /** A goto to a label that has been seen: it goes to the label, or to the first goto to it. */
  lemma GotoKeeps(code: seq<int>, code': seq<int>, c: Compiled, x: string, pc: int)
    requires CodeOk(code, c) && SameGotos(code, code', c) && Placed(c, pc) && GotoAt(code', pc)
    requires x in c.labels && Lands(code', pc) == c.labels[x].loc
    ensures CodeOk(code', c.(sites := c.sites[pc := x])) && Placed(c.(sites := c.sites[pc := x]), pc + LENGTH)
  {
    SameKeepsCode(code, code', c);
    SitePlaced(c, x, pc);
    var c' := c.(sites := c.sites[pc := x]);
    assert LabelOk(code', c, x);
    forall g | g in c'.sites ensures SiteOk(code', c', g, c'.sites[g]) {
      if g != pc { assert SiteOk(code', c, g, c.sites[g]); }
    }
    forall y | y in c'.labels ensures LabelOk(code', c', y) {
      assert LabelOk(code', c, y);
      if c.labels[y].loc in c.sites { assert c.labels[y].loc != pc; }
    }
    forall p | p in c'.pending ensures PendingOk(c', p) { assert PendingOk(c, p) && p != pc; }
  }

  /** The first goto to a label: it waits. */
  lemma FirstGotoKeeps(code: seq<int>, code': seq<int>, c: Compiled, x: string, pc: int)
    requires CodeOk(code, c) && SameGotos(code, code', c) && Placed(c, pc) && GotoAt(code', pc)
    requires x !in c.labels
    ensures var c' := Compiled([pc] + c.pending, c.sites[pc := x], c.labels[x := Label(pc, false)], c.places);
            CodeOk(code', c') && Placed(c', pc + LENGTH)
  {
    SameKeepsCode(code, code', c);
    var c' := Compiled([pc] + c.pending, c.sites[pc := x], c.labels[x := Label(pc, false)], c.places);
    forall g | g in c'.sites ensures SiteOk(code', c', g, c'.sites[g]) {
      if g != pc { assert SiteOk(code', c, g, c.sites[g]); }
    }
    assert pc in c'.pending;
    forall j | 0 <= j < |c.pending| ensures c.pending[j] < pc { assert c.pending[j] in c.pending; }
    forall y | y in c'.labels ensures LabelOk(code', c', y) {
      if y != x {
        assert LabelOk(code', c, y);
        if c.labels[y].loc in c.sites { assert c.labels[y].loc != pc; }
      }
    }
    forall p | p in c'.pending ensures PendingOk(c', p) {
      if p != pc { assert p in c.pending && PendingOk(c, p); }
    }
  }

  /** A label that no goto has named yet. */
  lemma NewLabelKeeps(code: seq<int>, c: Compiled, x: string, pc: int)
    requires CodeOk(code, c) && x !in c.labels
    ensures CodeOk(code, c.(labels := c.labels[x := Label(pc, true)], places := c.places[x := pc]))
  {
    var c' := c.(labels := c.labels[x := Label(pc, true)], places := c.places[x := pc]);
    forall g | g in c'.sites ensures SiteOk(code, c', g, c'.sites[g]) { assert SiteOk(code, c, g, c.sites[g]); }
    forall y | y in c'.labels ensures LabelOk(code, c', y) { if y != x { assert LabelOk(code, c, y); } }
    forall p | p in c'.pending ensures PendingOk(c', p) { assert PendingOk(c, p); }
  }

  /** What defining a label does, once its waiting goto, the k-th, is off the list. */
  ghost function Defined(c: Compiled, x: string, k: nat, pc: int): Compiled
    requires x in c.labels && k < |c.pending|
  {
    c.(pending := Without(c.pending, k), labels := c.labels[x := Label(c.labels[x].loc, true)], places := c.places[x := pc])
  }

  /** The conditions under which it is done: of the arguments of GOTOs at most those of waiting ones have changed, and
      the first goto to the label now goes there. */
  ghost predicate Defines(code: seq<int>, code': seq<int>, c: Compiled, x: string, k: nat, pc: int) {
    && CodeOk(code, c) && Placed(c, pc) && x in c.labels && !c.labels[x].defined && |code'| == |code|
    && k < |c.pending| && c.pending[k] == c.labels[x].loc && 0 <= c.pending[k] && c.pending[k] + ARG < |code|
    && (forall g :: g in c.sites && GotoAt(code, g) ==>
         GotoAt(code', g) && (g !in c.pending ==> code'[g + ARG] == code[g + ARG]))
    && Lands(code', c.labels[x].loc) == pc
  }

  lemma DefinedSite(code: seq<int>, code': seq<int>, c: Compiled, x: string, k: nat, pc: int, g: int)
    requires Defines(code, code', c, x, k, pc) && g in c.sites
    ensures SiteOk(code', Defined(c, x, k, pc), g, c.sites[g])
  {
    var y := c.sites[g];
    assert SiteOk(code, c, g, y);
    assert LabelOk(code, c, y);
    assert c.pending[k] in c.pending && PendingOk(c, c.pending[k]);
    if g in c.pending {
      assert PendingOk(c, g);
    } else if y != x && c.labels[y].defined && c.labels[y].loc in c.pending {
      assert PendingOk(c, c.labels[y].loc);
    }
  }

  lemma DefinedLabel(code: seq<int>, code': seq<int>, c: Compiled, x: string, k: nat, pc: int, y: string)
    requires Defines(code, code', c, x, k, pc) && y in c.labels
    ensures LabelOk(code', Defined(c, x, k, pc), y)
  {
    var c' := Defined(c, x, k, pc);
    assert LabelOk(code, c, y) && LabelOk(code, c, x);
    assert c.pending[k] in c.pending && PendingOk(c, c.pending[k]);
    if y != x {
      if c.labels[y].defined {
        if c.labels[y].loc in c.pending && c.labels[y].loc in c.sites { assert PendingOk(c, c.labels[y].loc); }
      } else {
        var j :| 0 <= j < |c.pending| && c.pending[j] == c.labels[y].loc;
        assert PendingOk(c, c.pending[j]);
        assert j != k;
        assert c'.pending[if j < k then j else j - 1] == c.labels[y].loc;
      }
    }
  }

  lemma StillPending(c: Compiled, k: nat, p: int)
    requires k < |c.pending| && p in Without(c.pending, k)
    ensures p in c.pending
  {
    var j :| 0 <= j < |Without(c.pending, k)| && Without(c.pending, k)[j] == p;
    assert p == c.pending[if j < k then j else j + 1];
  }

  lemma DefinedPlaced(c: Compiled, x: string, k: nat, pc: int)
    requires Placed(c, pc) && x in c.labels && k < |c.pending|
    ensures Placed(Defined(c, x, k, pc), pc)
  {
    var s, t := c.pending, Without(c.pending, k);
    forall i, j | 0 <= i < j < |t| ensures t[i] > t[j] {
      assert s[if i < k then i else i + 1] > s[if j < k then j else j + 1];
    }
    forall p | p in t ensures p in c.sites { StillPending(c, k, p); }
  }

  lemma DefinedPending(code: seq<int>, code': seq<int>, c: Compiled, x: string, k: nat, pc: int, p: int)
    requires Defines(code, code', c, x, k, pc) && p in Defined(c, x, k, pc).pending
    ensures PendingOk(Defined(c, x, k, pc), p)
  {
    StillPending(c, k, p);
    assert PendingOk(c, p) && PendingOk(c, c.pending[k]);
    NotIn(c.pending, k);
  }

  /** A label that gotos wait for. */
  lemma DefinedKeeps(code: seq<int>, code': seq<int>, c: Compiled, x: string, k: nat, pc: int)
    requires Defines(code, code', c, x, k, pc)
    ensures CodeOk(code', Defined(c, x, k, pc)) && Placed(Defined(c, x, k, pc), pc)
  {
    var c' := Defined(c, x, k, pc);
    DefinedPlaced(c, x, k, pc);
    forall p | p in c'.pending ensures PendingOk(c', p) { DefinedPending(code, code', c, x, k, pc, p); }
    forall g | g in c'.sites ensures SiteOk(code', c', g, c'.sites[g]) { DefinedSite(code, code', c, x, k, pc, g); }
    forall y | y in c'.labels ensures LabelOk(code', c', y) { DefinedLabel(code, code', c, x, k, pc, y); }
  }

  // ---------------------------------------------------------------- the compiler

  class LabelCompiler {
    const stack: array<int>
    var pc: int
    var igoto1: int
    var labels: map<string, Label>
    ghost var pending: seq<int>
    ghost var sites: map<int, string>
    ghost var places: map<string, int>
    /** igoto1 when the script began. */
    ghost var tail: int

    ghost predicate ListOk()
      reads this, stack
    {
      Threaded(stack[..], igoto1, pending, tail)
    }

    ghost function State(): Compiled
      reads this
    {
      Compiled(pending, sites, labels, places)
    }

    ghost predicate Valid()
      reads this, stack
    {
      ListOk() && 0 <= pc <= stack.Length && CodeOk(stack[..], State()) && Placed(State(), pc)
    }

    constructor (size: nat)
      ensures Valid() && pc == 0 && stack.Length == size && State() == Compiled([], map[], map[], map[])
    {
      stack := new int[size];
      pc, igoto1, labels := 0, -1, map[];
      pending, sites, places, tail := [], map[], map[], -1;
    }

    /** The start of a script or of a procedure: the labels are cleared, the list of waiting GOTOs is not, whatever an
        earlier script left on it. */
    method BeginScript(base: nat)
      requires base <= stack.Length
      modifies this`pc, this`labels, this`pending, this`sites, this`places, this`tail
      ensures Valid() && pc == base && State() == Compiled([], map[], map[], map[]) && tail == igoto1
    {
      pc, labels := base, map[];
      pending, sites, places, tail := [], map[], map[], igoto1;
    }

    /** SETIGOTO */
    method SetIGoto(loc: int)
      requires ListOk() && 0 <= loc && loc + ARG < stack.Length && loc !in pending
      modifies this`igoto1, this`pending, stack
      ensures ListOk() && pending == [loc] + old(pending)
      ensures stack[..] == old(stack[..])[loc + ARG := EndLink(old(igoto1))]
    {
      ThreadedPush(stack[..], igoto1, pending, tail, loc);
      if igoto1 < 0 { stack[loc + ARG] := -1; } else { stack[loc + ARG] := igoto1; }
      igoto1 := loc;
      pending := [loc] + pending;
    }

    /** UNSETIGOTO, for a location that is in the list. */
    method UnsetIGoto(loc: int, ghost k: nat)
      requires ListOk() && k < |pending| && pending[k] == loc
      modifies this`igoto1, this`pending, stack
      ensures ListOk() && pending == Unset(old(pending), k)
      ensures forall i :: 0 <= i < stack.Length && !(k > 0 && i == old(pending)[k - 1] + ARG) ==>
          stack[i] == old(stack[i])
    {
      var last, curr := 0, igoto1;
      ghost var j := 0;
      while curr != loc
        invariant 0 <= j <= k && curr == pending[j] && last == if j == 0 then 0 else pending[j - 1]
        decreases k - j
      {
        assert CellAt(stack[..], pending, tail, j);
        last := curr;
        curr := stack[curr + ARG];
        j := j + 1;
      }
      ThreadedAfter(stack[..], igoto1, pending, tail, k);
      if k > 0 { ThreadedRemove(stack[..], igoto1, pending, tail, k); }
      if last == 0 {
        igoto1 := stack[curr + ARG];
      } else {
        stack[last + ARG] := stack[curr + ARG];
      }
      assert Unset(pending, k) == if last == 0 then pending[k + 1..] else Without(pending, k);
      pending := Unset(pending, k);
    }

    /** Any other instruction compiled: its cells. */
    method Emit(cells: seq<int>)
      requires Valid() && pc + |cells| <= stack.Length
      modifies this`pc, stack
      ensures Valid() && State() == old(State()) && pc == old(pc) + |cells|
    {
      ghost var code := stack[..];
      for i := 0 to |cells|
        invariant pc == old(pc) && forall j :: 0 <= j < pc ==> stack[j] == code[j]
      {
        stack[pc + i] := cells[i];
      }
      BelowKeeps(code, stack[..], State(), igoto1, tail, pc);
      pc := pc + |cells|;
    }

    /** compile (GOTO, arg) */
    method CompileGoto(arg: int)
      requires 0 <= pc && pc + LENGTH <= stack.Length
      modifies stack
      ensures stack[..] == WithGoto(old(stack[..]), pc, arg)
    {
      stack[pc] := GOTO;
      stack[pc + 1] := LENGTH;
      stack[pc + ARG] := arg;
    }

    /** A goto statement. */
    method Goto(name: string)
      requires Valid() && pc + LENGTH <= stack.Length
      modifies this`pc, this`igoto1, this`labels, this`pending, this`sites, stack
      ensures Valid() && pc == old(pc) + LENGTH && sites == old(sites)[old(pc) := name] && places == old(places)
      ensures name in labels && (name in old(labels) ==> labels == old(labels) && pending == old(pending))
      ensures name !in old(labels) ==>
          labels == old(labels)[name := Label(old(pc), false)] && pending == [old(pc)] + old(pending)
    {
      if name in labels {
        SeenGoto(name);
      } else {
        FirstGoto(name);
      }
    }

    method SeenGoto(name: string)
      requires Valid() && pc + LENGTH <= stack.Length && name in labels
      modifies this`pc, this`sites, stack
      ensures Valid() && pc == old(pc) + LENGTH && sites == old(sites)[old(pc) := name]
    {
      ghost var c := State().(sites := sites[pc := name]);
      SeenCompiled(stack[..], State(), igoto1, tail, name, pc);
      CompileGoto(labels[name].loc - pc - LENGTH);
      sites := sites[pc := name];
      pc := pc + LENGTH;
      assert State() == c;
    }

    method FirstGoto(name: string)
      requires Valid() && pc + LENGTH <= stack.Length && name !in labels
      modifies this`pc, this`igoto1, this`labels, this`pending, this`sites, stack
      ensures Valid() && pc == old(pc) + LENGTH && sites == old(sites)[old(pc) := name]
      ensures labels == old(labels)[name := Label(old(pc), false)] && pending == [old(pc)] + old(pending)
    {
      ghost var code := WithGoto(stack[..], pc, 0)[pc + ARG := EndLink(igoto1)];
      FirstCompiled(stack[..], State(), igoto1, tail, name, pc);
      CompileGoto(0);
      ghost var c := Compiled([pc] + pending, sites[pc := name], labels[name := Label(pc, false)], places);
      SetIGoto(pc);
      labels := labels[name := Label(pc, false)];
      sites := sites[pc := name];
      pc := pc + LENGTH;
      assert State() == c && stack[..] == code && igoto1 == old(pc);
    }

    /** A label statement; false is the error "Identical labels". */
    method DefineLabel(name: string) returns (ok: bool)
      requires Valid()
      modifies this`igoto1, this`labels, this`pending, this`places, stack
      ensures Valid() && ok == !(name in old(labels) && old(labels)[name].defined) && sites == old(sites)
      ensures ok ==> name in labels && labels[name].defined && places == old(places)[name := pc]
      ensures !ok ==> State() == old(State()) && stack[..] == old(stack[..])
    {
      if name !in labels {
        NewLabelKeeps(stack[..], State(), name, pc);
        labels := labels[name := Label(pc, true)];
        places := places[name := pc];
        return true;
      }
      if labels[name].defined { return false; }
      ResolveLabel(name);
      ok := true;
    }

    method ResolveLabel(name: string)
      requires Valid() && name in labels && !labels[name].defined
      modifies this`igoto1, this`labels, this`pending, this`places, stack
      ensures Valid() && labels == old(labels)[name := Label(old(labels)[name].loc, true)]
          && places == old(places)[name := pc]
    {
      ghost var code, c := stack[..], State();
      var gotopc := labels[name].loc;
      assert LabelOk(code, c, name);
      ghost var k: nat :| k < |pending| && pending[k] == gotopc;
      TakeOff(gotopc, k, pc - gotopc - LENGTH);
      ResolveDefines(code, stack[..], c, name, k, pc);
      labels := labels[name := Label(gotopc, true)];
      places := places[name := pc];
      assert State() == Defined(c, name, k, pc);
    }

    /** A waiting GOTO is taken off the list and gets its argument. */
    method TakeOff(gotopc: int, ghost k: nat, arg: int)
      requires Valid() && k < |pending| && pending[k] == gotopc
      modifies this`igoto1, this`pending, stack
      ensures ListOk() && pending == Without(old(pending), k) && 0 <= gotopc && gotopc + ARG < stack.Length
      ensures stack[gotopc + ARG] == arg
      ensures forall i :: 0 <= i < stack.Length && i != gotopc + ARG && !(k > 0 && i == old(pending)[k - 1] + ARG) ==>
                stack[i] == old(stack[i])
    {
      ThreadedEntry(stack[..], igoto1, pending, tail, k);
      PendingAreSites(State(), pc);
      UnsetRight(pending, k);
      NotIn(pending, k);
      UnsetIGoto(gotopc, k);
      Patch(gotopc, arg);
    }

    /** coderef(gotopc)->c_args = arg, for a GOTO that is off the list. */
    method Patch(gotopc: int, arg: int)
      requires ListOk() && 0 <= gotopc && gotopc + ARG < stack.Length && gotopc !in pending
      modifies stack
      ensures ListOk() && stack[..] == old(stack[..])[gotopc + ARG := arg]
    {
      ghost var code := stack[..];
      stack[gotopc + ARG] := arg;
      assert stack[..] == code[gotopc + ARG := arg];
      ThreadedFrame(code, stack[..], igoto1, pending, tail);
    }
  }

  /** What compile (GOTO, arg) writes. */
  function WithGoto(code: seq<int>, pc: nat, arg: int): (code': seq<int>)
    requires pc + LENGTH <= |code|
    ensures |code'| == |code| && code'[pc + ARG] == arg
  {
    code[pc := GOTO][pc + 1 := LENGTH][pc + ARG := arg]
  }

  lemma SeenCompiled(code: seq<int>, c: Compiled, head: int, tail: int, x: string, pc: nat)
    requires CodeOk(code, c) && Placed(c, pc) && Threaded(code, head, c.pending, tail) && pc + LENGTH <= |code|
    requires x in c.labels
    ensures var code' := WithGoto(code, pc, c.labels[x].loc - pc - LENGTH);
            var c' := c.(sites := c.sites[pc := x]);
            CodeOk(code', c') && Placed(c', pc + LENGTH) && Threaded(code', head, c'.pending, tail)
  {
    var code' := WithGoto(code, pc, c.labels[x].loc - pc - LENGTH);
    BelowKeeps(code, code', c, head, tail, pc);
    GotoKeeps(code, code', c, x, pc);
  }

  lemma FirstCompiled(code: seq<int>, c: Compiled, head: int, tail: int, x: string, pc: nat)
    requires CodeOk(code, c) && Placed(c, pc) && Threaded(code, head, c.pending, tail) && pc + LENGTH <= |code|
    requires x !in c.labels
    ensures pc !in c.pending && Threaded(WithGoto(code, pc, 0), head, c.pending, tail)
    ensures var code' := WithGoto(code, pc, 0)[pc + ARG := EndLink(head)];
            var c' := Compiled([pc] + c.pending, c.sites[pc := x], c.labels[x := Label(pc, false)], c.places);
            CodeOk(code', c') && Placed(c', pc + LENGTH) && Threaded(code', pc, c'.pending, tail)
  {
    PendingAreSites(c, pc);
    BelowKeeps(code, WithGoto(code, pc, 0), c, head, tail, pc);
    BelowKeeps(code, WithGoto(code, pc, 0)[pc + ARG := EndLink(head)], c, head, tail, pc);
    FirstGotoKeeps(code, WithGoto(code, pc, 0)[pc + ARG := EndLink(head)], c, x, pc);
    ThreadedPush(WithGoto(code, pc, 0), head, c.pending, tail, pc);
  }

  lemma ResolveDefines(code: seq<int>, code': seq<int>, c: Compiled, x: string, k: nat, pc: int)
    requires CodeOk(code, c) && Placed(c, pc) && 0 <= pc <= |code| == |code'|
    requires x in c.labels && !c.labels[x].defined && k < |c.pending| && c.pending[k] == c.labels[x].loc
    requires 0 <= c.pending[k] && c.pending[k] + ARG < |code| && code'[c.pending[k] + ARG] == pc - c.pending[k] - LENGTH
    requires forall i :: 0 <= i < |code| && i != c.pending[k] + ARG && !(k > 0 && i == c.pending[k - 1] + ARG) ==>
               code'[i] == code[i]
    ensures CodeOk(code', Defined(c, x, k, pc)) && Placed(Defined(c, x, k, pc), pc)
  {
    PendingAreSites(c, pc);
    forall g | g in c.sites && GotoAt(code, g)
      ensures GotoAt(code', g) && (g !in c.pending ==> code'[g + ARG] == code[g + ARG])
    {
      assert g !in c.pending ==> g != c.pending[k] && (k > 0 ==> g != c.pending[k - 1]);
    }
    DefinedKeeps(code, code', c, x, k, pc);
  }

  lemma PendingAreSites(c: Compiled, pc: int)
    requires Placed(c, pc)
    ensures forall j :: 0 <= j < |c.pending| ==>
        c.pending[j] in c.sites && 0 <= c.pending[j] && c.pending[j] + LENGTH <= pc
  {
    forall j | 0 <= j < |c.pending| ensures c.pending[j] in c.sites { assert c.pending[j] in c.pending; }
  }

  /** Code written from pc on changes nothing. */
  lemma BelowKeeps(code: seq<int>, code': seq<int>, c: Compiled, head: int, tail: int, pc: int)
    requires CodeOk(code, c) && Placed(c, pc) && Threaded(code, head, c.pending, tail) && 0 <= pc <= |code| == |code'|
    requires forall j :: 0 <= j < pc ==> code'[j] == code[j]
    ensures SameGotos(code, code', c) && CodeOk(code', c) && Threaded(code', head, c.pending, tail)
  {
    SameKeepsCode(code, code', c);
    PendingAreSites(c, pc);
    ThreadedFrame(code, code', head, c.pending, tail);
  }
}
