/** proc_params: the parameter list of a procedure script is rearranged in place, so that the parameters of the
    procedure statement come first, in its order. Source: pkg/cl/decl.c, pkg/cl/param.c. */
module ProcParams {
  import opened Wrappers
  import opened Chains

  const M_AUTO: bv8 := 1
  const M_HIDDEN: bv8 := 4

  // ---------------------------------------------------------------- the list rearranged

  /** paramfind with an exact name: the place of the first parameter of that name. */
  function Find(s: seq<int>, names: map<int, string>, x: string, k: nat): (r: Option<nat>)
    ensures r.Some? ==> k <= r.value < |s| && s[r.value] in names && names[s[r.value]] == x
    decreases |s| - k
  {
    if k >= |s| then None
    else if s[k] in names && names[s[k]] == x then Some(k)
    else Find(s, names, x, k + 1)
  }

  /** The list left over, and the parameters taken out of it so far; ok is false once a name was not found. */
  datatype Taken = Taken(ok: bool, rest: seq<int>, front: seq<int>)

  function TakeOne(t: Taken, names: map<int, string>, x: Option<string>): Taken {
    if !t.ok || x == None then t.(ok := false)
    else
      match Find(t.rest, names, x.value, 0)
      case None => t.(ok := false)
      case Some(k) => Taken(true, Without(t.rest, k), [t.rest[k]] + t.front)
  }

  /** The statement's parameters taken out, the last one first; None in place of a name is an operand that is not a
      string. */
  function TakeAll(t: Taken, names: map<int, string>, stmt: seq<Option<string>>): Taken
    decreases |stmt|
  {
    if stmt == [] || !t.ok then t
    else TakeAll(TakeOne(t, names, stmt[|stmt| - 1]), names, stmt[..|stmt| - 1])
  }

  /** The mode of a statement parameter. */
  function StatementMode(m: bv8): bv8 {
    if m & M_HIDDEN != 0 then (m & !M_HIDDEN) | M_AUTO else if m == 0 then M_AUTO else m
  }

  function FinalMode(m: bv8): bv8 {
    if m == 0 then M_HIDDEN else m
  }

  // ---------------------------------------------------------------- what that means

  /** What a statement parameter declared with mode m may have for a mode, bit by bit. */
  ghost predicate Overridden(m: bv8, m': bv8) {
    && (m != 0 && m & M_HIDDEN == 0 ==> m' == m)
    && (m & M_HIDDEN != 0 ==>
          m' & M_HIDDEN == 0 && m' & M_AUTO == M_AUTO && m' & !(M_HIDDEN | M_AUTO) == m & !(M_HIDDEN | M_AUTO))
    && (m == 0 ==> m' == M_AUTO)
  }

  /** A declared mode is kept unless it is hidden; then the other bits are. Without one it is auto in the statement and
      hidden elsewhere; in the end no parameter is without a mode. */
  lemma ModesFinal(m: bv8, m': bv8)
    ensures m' == StatementMode(m) <==> Overridden(m, m')
    ensures Overridden(m, m') ==> m' != 0 && m' & M_HIDDEN == 0 && FinalMode(m') == m'
    ensures FinalMode(m) != 0 && (m != 0 ==> FinalMode(m) == m) && FinalMode(0) & M_HIDDEN != 0
  {
  }

  predicate NamedAt(s: seq<int>, names: map<int, string>, x: string, j: nat) {
    j < |s| && s[j] in names && names[s[j]] == x
  }

  /** The first parameter of that name, None exactly if there is none. */
  lemma {:induction false} FindIsFirst(s: seq<int>, names: map<int, string>, x: string, k: nat)
    ensures match Find(s, names, x, k)
            case None => forall j: nat :: k <= j ==> !NamedAt(s, names, x, j)
            case Some(r) => NamedAt(s, names, x, r) && forall j: nat :: k <= j < r ==> !NamedAt(s, names, x, j)
    decreases |s| - k
  {
    if k < |s| { FindIsFirst(s, names, x, k + 1); }
  }

  ghost predicate SameEntries(s: seq<int>, a: seq<int>, b: seq<int>) {
    multiset(s) == multiset(a) + multiset(b)
  }

  /** The entries of s that are not in out, in their order. */
  function Except(s: seq<int>, out: seq<int>): seq<int>
    decreases |s|, 1
  {
    if s == [] then [] else ExceptFirst(s, out)
  }

  function ExceptFirst(s: seq<int>, out: seq<int>): seq<int>
    requires s != []
    decreases |s|, 0
  {
    Kept(s[0], out) + Except(s[1..], out)
  }

  lemma ExceptStep(a: int, s: seq<int>, out: seq<int>)
    ensures Except([a] + s, out) == Kept(a, out) + Except(s, out)
  {
    assert ([a] + s)[1..] == s;
    assert Except([a] + s, out) == ExceptFirst([a] + s, out);
  }

  function Kept(a: int, out: seq<int>): seq<int> {
    if a in out then [] else [a]
  }

  lemma {:induction false} ExceptNone(s: seq<int>, out: seq<int>)
    requires forall k :: 0 <= k < |s| ==> s[k] !in out
    ensures Except(s, out) == s
  {
    if s != [] {
      ExceptNone(s[1..], out);
      ExceptStep(s[0], s[1..], out);
      assert s == [s[0]] + s[1..];
    }
  }

  lemma {:induction false} ExceptConcat(s: seq<int>, t: seq<int>, out: seq<int>)
    ensures Except(s + t, out) == Except(s, out) + Except(t, out)
  {
    if s == [] {
      assert s + t == t;
    } else {
      ExceptConcat(s[1..], t, out);
      ExceptStep(s[0], s[1..], out);
      ExceptStep(s[0], s[1..] + t, out);
      assert s == [s[0]] + s[1..] && s + t == [s[0]] + (s[1..] + t);
    }
  }

  lemma {:induction false} ExceptMore(s: seq<int>, a: int, out: seq<int>)
    ensures Except(s, [a] + out) == Except(Except(s, out), [a])
  {
    if s != [] {
      var x := s[0];
      ExceptMore(s[1..], a, out);
      ExceptStep(x, s[1..], out);
      ExceptStep(x, s[1..], [a] + out);
      assert s == [x] + s[1..];
      if x in out {
        assert Except(s, out) == Except(s[1..], out);
      } else {
        ExceptStep(x, Except(s[1..], out), [a]);
      }
    }
  }

  lemma ExceptOne(a: seq<int>, x: int, b: seq<int>)
    requires x !in a && x !in b
    ensures Except(a + ([x] + b), [x]) == a + b
  {
    ExceptConcat(a, [x] + b, [x]);
    ExceptStep(x, b, [x]);
    ExceptNone(a, [x]);
    ExceptNone(b, [x]);
  }

  lemma Around(s: seq<int>, k: nat)
    requires k < |s|
    ensures s == s[..k] + ([s[k]] + s[k + 1..])
  {
  }

  lemma Elsewhere(s: seq<int>, k: nat)
    requires Distinct(s) && k < |s|
    ensures s[k] !in s[..k] && s[k] !in s[k + 1..]
  {
    var a, b := s[..k], s[k + 1..];
    forall j | 0 <= j < |a| ensures a[j] != s[k] { assert a[j] == s[j]; }
    forall j | 0 <= j < |b| ensures b[j] != s[k] { assert b[j] == s[k + 1 + j]; }
  }

  lemma DropIsExcept(s: seq<int>, k: nat)
    requires Distinct(s) && k < |s|
    ensures Without(s, k) == Except(s, [s[k]])
  {
    Around(s, k);
    Elsewhere(s, k);
    ExceptOne(s[..k], s[k], s[k + 1..]);
  }

  lemma DropKeeps(s: seq<int>, k: nat)
    requires Distinct(s) && k < |s|
    ensures Distinct(Without(s, k)) && s[k] !in Without(s, k) && multiset(s) == multiset(Without(s, k)) + multiset{s[k]}
    ensures forall a :: a in Without(s, k) ==> a in s
  {
    assert s == s[..k] + [s[k]] + s[k + 1..];
  }

  /** How the list s0 has been split: the parameters taken out carry the names last in the statement, in its order,
      and what is left keeps its order. */
  ghost predicate Split(s0: seq<int>, t: Taken, names: map<int, string>, stmt: seq<Option<string>>) {
    && Distinct(s0) && Distinct(t.rest) && Distinct(t.front) && SameEntries(s0, t.rest, t.front)
    && (forall a :: a in t.rest ==> a !in t.front) && t.rest == Except(s0, t.front)
    && Named(t.front, names, stmt)
  }

  ghost predicate Named(s: seq<int>, names: map<int, string>, stmt: seq<Option<string>>) {
    |s| == |stmt| && forall i :: 0 <= i < |stmt| ==> s[i] in names && stmt[i] == Some(names[s[i]])
  }

  lemma NamedMore(a: int, s: seq<int>, names: map<int, string>, stmt: seq<Option<string>>)
    requires Named(s, names, stmt) && a in names
    ensures Named([a] + s, names, [Some(names[a])] + stmt)
  {
  }

  lemma SplitStep(s0: seq<int>, t: Taken, names: map<int, string>, stmt: seq<Option<string>>, k: nat, t': Taken)
    requires Split(s0, t, names, stmt) && k < |t.rest| && t.rest[k] in names
    requires t' == Taken(true, Without(t.rest, k), [t.rest[k]] + t.front)
    ensures Split(s0, t', names, [Some(names[t.rest[k]])] + stmt)
  {
    var a := t.rest[k];
    DropKeeps(t.rest, k);
    DropIsExcept(t.rest, k);
    ExceptMore(s0, a, t.front);
    FrontDistinct(a, t.front);
    NamedMore(a, t.front, names, stmt);
    assert a in t.rest;
    SplitCount(s0, t.rest, t.front, Without(t.rest, k), a);
  }

  lemma FrontDistinct(a: int, s: seq<int>)
    requires Distinct(s) && a !in s
    ensures Distinct([a] + s)
  {
  }

  lemma SplitCount(s0: seq<int>, rest: seq<int>, front: seq<int>, rest': seq<int>, a: int)
    requires SameEntries(s0, rest, front) && multiset(rest) == multiset(rest') + multiset{a}
    ensures SameEntries(s0, rest', [a] + front)
  {
    assert multiset([a] + front) == multiset{a} + multiset(front);
  }

  lemma {:induction false} TakeAllSplits(s0: seq<int>, t: Taken, names: map<int, string>, before: seq<Option<string>>,
                                         stmt: seq<Option<string>>)
    requires Split(s0, t, names, stmt) && t.ok
    ensures TakeAll(t, names, before).ok ==> Split(s0, TakeAll(t, names, before), names, before + stmt)
    decreases |before|
  {
    if before == [] {
      assert before + stmt == stmt;
    } else {
      var n := |before| - 1;
      var x := before[n];
      if TakeOne(t, names, x).ok {
        SplitStep(s0, t, names, stmt, Find(t.rest, names, x.value, 0).value, TakeOne(t, names, x));
        TakeAllSplits(s0, TakeOne(t, names, x), names, before[..n], [x] + stmt);
        assert before[..n] + ([x] + stmt) == before + stmt;
      }
    }
  }

  function Names(s: seq<int>, names: map<int, string>): multiset<Option<string>> {
    if s == [] then multiset{}
    else Names(s[..|s| - 1], names) + if s[|s| - 1] in names then multiset{Some(names[s[|s| - 1]])} else multiset{}
  }

  lemma {:induction false} NamesConcat(s: seq<int>, t: seq<int>, names: map<int, string>)
    ensures Names(s + t, names) == Names(s, names) + Names(t, names)
  {
    if t == [] {
      assert s + t == s;
    } else {
      NamesConcat(s, t[..|t| - 1], names);
      assert (s + t)[..|s + t| - 1] == s + t[..|t| - 1];
    }
  }

  lemma {:induction false} NamesMember(s: seq<int>, names: map<int, string>, x: string)
    ensures Some(x) in Names(s, names) <==> exists j: nat :: NamedAt(s, names, x, j)
    ensures None !in Names(s, names)
  {
    if s != [] {
      var n := |s| - 1;
      NamesMember(s[..n], names, x);
      assert Some(x) in Names(s, names) <==> Some(x) in Names(s[..n], names) || NamedAt(s, names, x, n);
      forall j: nat ensures NamedAt(s, names, x, j) <==> NamedAt(s[..n], names, x, j) || (j == n && NamedAt(s, names, x, n)) {}
    }
  }

  lemma NamesDrop(s: seq<int>, names: map<int, string>, k: nat)
    requires k < |s| && s[k] in names
    ensures Names(s, names) == Names(Without(s, k), names) + multiset{Some(names[s[k]])}
  {
    assert s == (s[..k] + [s[k]]) + s[k + 1..];
    NamesConcat(s[..k] + [s[k]], s[k + 1..], names);
    NamesConcat(s[..k], [s[k]], names);
    NamesConcat(s[..k], s[k + 1..], names);
    assert [s[k]][..0] == [];
    assert Names([s[k]], names) == multiset{Some(names[s[k]])};
  }

  /** The statement is accepted exactly when every operand is a string and every name is that of a parameter, as often
      as the statement names it. */
  lemma {:induction false} AcceptedIff(t: Taken, names: map<int, string>, stmt: seq<Option<string>>)
    requires t.ok && (forall k :: 0 <= k < |t.rest| ==> t.rest[k] in names)
    ensures TakeAll(t, names, stmt).ok <==> multiset(stmt) <= Names(t.rest, names)
    decreases |stmt|
  {
    if stmt != [] {
      var n := |stmt| - 1;
      var x, t' := stmt[n], TakeOne(t, names, stmt[n]);
      assert stmt == stmt[..n] + [x];
      assert multiset(stmt) == multiset(stmt[..n]) + multiset{x};
      if t'.ok {
        var k := Find(t.rest, names, x.value, 0).value;
        NamesDrop(t.rest, names, k);
        AcceptedIff(t', names, stmt[..n]);
        MoreOf(multiset(stmt[..n]), Names(t'.rest, names), x);
      } else {
        NotNamed(t, names, x);
        assert x in multiset(stmt);
      }
    }
  }

  lemma MoreOf(a: multiset<Option<string>>, b: multiset<Option<string>>, x: Option<string>)
    ensures a + multiset{x} <= b + multiset{x} <==> a <= b
  {
    forall y: Option<string> ensures (a + multiset{x})[y] <= (b + multiset{x})[y] <==> a[y] <= b[y] {}
  }

  lemma NotNamed(t: Taken, names: map<int, string>, x: Option<string>)
    requires t.ok && !TakeOne(t, names, x).ok
    ensures x !in Names(t.rest, names)
  {
    NamesMember(t.rest, names, if x == None then "" else x.value);
    if x.Some? { FindIsFirst(t.rest, names, x.value, 0); }
  }

  // ---------------------------------------------------------------- in place

  class ParameterList {
    // Fields of the parameters.
    var pNp: map<int, int>
    var pMode: map<int, bv8>
    const pName: map<int, string>
    // Fields of the pfile.
    var pfPp: int
    var pfLastpp: int
    /** The control stack: the operands of the procedure statement, the last one on top. */
    var stack: seq<Option<string>>

    ghost predicate Listed(s: seq<int>)
      reads this
    {
      Chain(pNp, pfPp, s) && Distinct(s) && forall a :: a in s ==> a in pMode
    }

    /** PARAMFIND, for an exact name. */
    method ParamFind(x: string, ghost s: seq<int>) returns (pp: int)
      requires Listed(s)
      ensures pp == match Find(s, pName, x, 0) case None => NULL case Some(k) => s[k]
    {
      pp := pfPp;
      ghost var k := 0;
      while pp != NULL
        invariant 0 <= k <= |s| && pp == At(s, k) && Find(s, pName, x, 0) == Find(s, pName, x, k)
        decreases |s| - k
      {
        ChainStep(pNp, pfPp, s, k);
        if pp in pName && pName[pp] == x { return; }
        pp := pNp[pp];
        k := k + 1;
      }
      if k < |s| { ChainStep(pNp, pfPp, s, k); }
    }

    /** The inner loop of proc_params: the entry before pp in the list, NULL if pp is the first. */
    method Before(pp: int, ghost s: seq<int>, ghost k: nat) returns (op: int)
      requires Listed(s) && k < |s| && s[k] == pp
      ensures op == if k == 0 then NULL else s[k - 1]
    {
      var tp := pfPp;
      op := NULL;
      ghost var j := 0;
      ChainStep(pNp, pfPp, s, 0);
      while tp != pp
        invariant 0 <= j <= k && tp == s[j] && op == if j == 0 then NULL else s[j - 1]
        decreases k - j
      {
        ChainStep(pNp, pfPp, s, j);
        op := tp;
        tp := pNp[tp];
        j := j + 1;
      }
    }

    /** A parameter is taken out of the list and put in front of fp, the list of those taken so far. */
    method Move(pp: int, fp: int, ghost s: seq<int>, ghost k: nat, ghost front: seq<int>)
      requires Listed(s) && k < |s| && s[k] == pp
      requires Chain(pNp, fp, front) && Distinct(front) && forall a :: a in s ==> a !in front
      modifies this`pNp, this`pfPp
      ensures Listed(Without(s, k)) && Chain(pNp, pp, [pp] + front) && Distinct([pp] + front)
    {
      var op := Before(pp, s, k);
      ChainStep(pNp, pfPp, s, k);
      ChainRemove(pNp, pfPp, s, k);
      DropKeeps(s, k);
      if op == NULL {
        assert k == 0 by { if k > 0 { ChainStep(pNp, pfPp, s, k - 1); } }
        pfPp := pNp[pp];
      } else {
        ChainKept(pNp, fp, front, op, pNp[pp]);
        pNp := pNp[op := pNp[pp]];
      }
      ChainKept(pNp, pfPp, Without(s, k), pp, fp);
      ChainPush(pNp, fp, front, pp);
      FrontDistinct(pp, front);
      pNp := pNp[pp := fp];
    }

    /** One turn of the main loop: the operand on top is popped and its parameter moved; false is an error. */
    method TakeParam(fp: int, ghost t: Taken) returns (ok: bool, pp: int)
      requires stack != [] && t.ok && Listed(t.rest) && Chain(pNp, fp, t.front) && Distinct(t.front)
      requires forall a :: a in t.rest ==> a !in t.front
      modifies this`stack, this`pNp, this`pfPp, this`pMode
      ensures stack == old(stack)[..|old(stack)| - 1]
      ensures var t' := TakeOne(t, pName, old(stack)[|old(stack)| - 1]);
              && ok == t'.ok && Listed(t'.rest)
              && (ok ==> Chain(pNp, pp, t'.front) && Distinct(t'.front) && t'.front != [] && pp == t'.front[0]
                         && (forall a :: a in t'.rest ==> a !in t'.front)
                         && pMode == old(pMode)[pp := StatementMode(old(pMode)[pp])])
              && (!ok ==> pMode == old(pMode))
    {
      var o := stack[|stack| - 1];
      stack := stack[..|stack| - 1];
      if o == None { return false, NULL; }
      pp := ParamFind(o.value, t.rest);
      if pp == NULL {
        assert Find(t.rest, pName, o.value, 0) == None by {
          var r := Find(t.rest, pName, o.value, 0);
          if r.Some? { ChainStep(pNp, pfPp, t.rest, r.value); }
        }
        return false, NULL;
      }
      ghost var k := Find(t.rest, pName, o.value, 0).value;
      assert pp in t.rest;
      DropKeeps(t.rest, k);
      if pMode[pp] & M_HIDDEN != 0 {
        pMode := pMode[pp := (pMode[pp] & !M_HIDDEN) | M_AUTO];
      } else if pMode[pp] == 0 {
        pMode := pMode[pp := M_AUTO];
      } else {
        assert pMode == pMode[pp := pMode[pp]];
      }
      Move(pp, fp, t.rest, k, t.front);
      ok := true;
    }

    /** The last loop: a parameter without a mode becomes hidden. */
    method SetModes(ghost s: seq<int>)
      requires Listed(s)
      modifies this`pMode
      ensures Listed(s) && pMode.Keys == old(pMode).Keys
      ensures forall a :: a in pMode ==> pMode[a] == if a in s then FinalMode(old(pMode)[a]) else old(pMode)[a]
    {
      var tp := pfPp;
      ghost var k := 0;
      while tp != NULL
        invariant 0 <= k <= |s| && tp == At(s, k) && Listed(s) && pMode.Keys == old(pMode).Keys
        invariant forall a :: a in pMode ==>
            pMode[a] == if a in s[..k] then FinalMode(old(pMode)[a]) else old(pMode)[a]
        decreases |s| - k
      {
        ChainStep(pNp, pfPp, s, k);
        Elsewhere(s, k);
        assert s[k] in s && s[..k + 1] == s[..k] + [s[k]];
        if pMode[tp] == 0 { pMode := pMode[tp := M_HIDDEN]; }
        tp := pNp[tp];
        k := k + 1;
      }
      if k < |s| { ChainStep(pNp, pfPp, s, k); }
      assert s[..|s|] == s;
    }

    /** The loop that finds the last parameter. */
    method LastParam(ghost s: seq<int>) returns (last: int)
      requires Listed(s) && s != []
      ensures last == Last(s)
    {
      last := pfPp;
      ghost var k := 0;
      ChainStep(pNp, pfPp, s, 0);
      while pNp[last] != NULL
        invariant 0 <= k < |s| && last == s[k] && last in pNp && pNp[last] == At(s, k + 1)
        decreases |s| - k
      {
        ChainStep(pNp, pfPp, s, k + 1);
        last := pNp[last];
        k := k + 1;
      }
      if k + 1 < |s| { ChainStep(pNp, pfPp, s, k + 1); }
    }

    /** The end of the rearrangement: what is left is linked behind those taken out. */
    method Rejoin(fp: int, lp: int, ghost rest: seq<int>, ghost front: seq<int>)
      requires Listed(rest) && Chain(pNp, fp, front) && Distinct(front) && front != [] && lp == front[|front| - 1]
      requires (forall a :: a in rest ==> a !in front) && forall a :: a in front ==> a in pMode
      modifies this`pNp, this`pfPp, this`pfLastpp
      ensures Listed(front + rest) && pfLastpp == Last(front + rest)
    {
      ConcatDistinct(front, rest);
      ChainAppend(pNp, fp, front, pfPp, rest);
      pNp := pNp[lp := pfPp];
      pfPp := fp;
      assert Listed(front + rest);
      pfLastpp := LastParam(front + rest);
    }

    /** PROC_PARAMS; false is one of the errors. */
    method ReorderParams(npar: int, ghost s: seq<int>) returns (ok: bool, ghost t: Taken)
      requires npar <= |stack| && Listed(s)
      modifies this`stack, this`pNp, this`pfPp, this`pfLastpp, this`pMode
      ensures var stmt := if npar <= 0 then [] else old(stack)[|old(stack)| - npar..];
              t == TakeAll(Taken(true, s, []), pName, stmt) && ok == t.ok
      ensures pMode.Keys == old(pMode).Keys
      ensures !ok ==> Listed(t.rest) && pfLastpp == old(pfLastpp)
      ensures ok ==> Listed(t.front + t.rest) && stack == old(stack)[..|old(stack)| - if npar <= 0 then 0 else npar]
      ensures ok ==> pfLastpp == if npar <= 0 then old(pfLastpp) else Last(t.front + t.rest)
      ensures ok ==> forall a :: a in t.front ==> a in pMode && Overridden(old(pMode)[a], pMode[a])
      ensures ok ==> forall a :: a in t.rest ==>
                       a in pMode && pMode[a] == if old(pMode)[a] != 0 then old(pMode)[a] else M_HIDDEN
      ensures ok ==> forall a :: a in pMode && a !in t.front && a !in t.rest ==> pMode[a] == old(pMode)[a]
    {
      t := Taken(true, s, []);
      if npar <= 0 {
        SetModes(s);
        assert [] + s == s;
        return true, t;
      }
      var fp, lp;
      ok, fp, lp, t := TakeStatement(npar, s);
      if !ok { return; }
      Rejoin(fp, lp, t.rest, t.front);
      ghost var modes := pMode;
      SetModes(t.front + t.rest);
      forall a | a in t.front ensures a in pMode && Overridden(old(pMode)[a], pMode[a]) {
        assert modes[a] == StatementMode(old(pMode)[a]);
        ModesFinal(old(pMode)[a], modes[a]);
      }
    }

    /** The loop that takes the parameters of the statement out of the list, the last one first, and links them up. */
    method TakeStatement(npar: int, ghost s: seq<int>) returns (ok: bool, fp: int, lp: int, ghost t: Taken)
      requires 0 < npar <= |stack| && Listed(s)
      modifies this`stack, this`pNp, this`pfPp, this`pMode
      ensures t == TakeAll(Taken(true, s, []), pName, old(stack)[|old(stack)| - npar..]) && ok == t.ok
      ensures pMode.Keys == old(pMode).Keys && Listed(t.rest)
      ensures ok ==> stack == old(stack)[..|old(stack)| - npar] && TakenOut(fp, lp, t) && t.front != []
      ensures ok ==> ModesSet(old(pMode), t.front)
    {
      t := Taken(true, s, []);
      fp, lp := NULL, NULL;
      var n := npar;
      ghost var stmt := stack[|stack| - npar..];
      assert stmt[..npar] == stmt;
      while n > 0
        invariant 0 <= n <= npar && stack == old(stack)[..|old(stack)| - (npar - n)] && t.ok
        invariant TakeAll(t, pName, stmt[..n]) == TakeAll(Taken(true, s, []), pName, stmt)
        invariant Listed(t.rest) && TakenOut(fp, lp, t) && |t.front| == npar - n
        invariant pMode.Keys == old(pMode).Keys && ModesSet(old(pMode), t.front)
      {
        assert stack[|stack| - 1] == stmt[n - 1] && stmt[..n][..n - 1] == stmt[..n - 1];
        ok, fp, lp, t := TakeNext(fp, lp, t, stmt[n - 1]);
        if !ok {
          assert TakeAll(t, pName, stmt[..n - 1]) == t;
          return;
        }
        n := n - 1;
      }
      ok := true;
    }

    /** One turn of it. */
    method TakeNext(fp0: int, lp0: int, ghost t0: Taken, ghost name: Option<string>)
      returns (ok: bool, fp: int, lp: int, ghost t: Taken)
      requires stack != [] && stack[|stack| - 1] == name && t0.ok && Listed(t0.rest) && TakenOut(fp0, lp0, t0)
      modifies this`stack, this`pNp, this`pfPp, this`pMode
      ensures t == TakeOne(t0, pName, name) && ok == t.ok && stack == old(stack)[..|old(stack)| - 1]
      ensures Listed(t.rest) && pMode.Keys == old(pMode).Keys
      ensures ok ==> TakenOut(fp, lp, t) && |t.front| == |t0.front| + 1
      ensures ok ==> forall m: map<int, bv8> :: old(ModesSet(m, t0.front)) ==> ModesSet(m, t.front)
    {
      fp, lp := fp0, lp0;
      var pp;
      if t0.front != [] { ChainStep(pNp, fp, t0.front, |t0.front| - 1); }
      ok, pp := TakeParam(fp, t0);
      t := TakeOne(t0, pName, name);
      if ok {
        if lp == NULL { lp := pp; }
        fp := pp;
      }
    }

    /** The parameters taken out, linked up from fp to lp. */
    ghost predicate TakenOut(fp: int, lp: int, t: Taken)
      reads this
    {
      && Chain(pNp, fp, t.front) && Distinct(t.front) && lp == Last(t.front)
      && (forall a :: a in t.rest ==> a !in t.front) && forall a :: a in t.front ==> a in pMode
    }

    /** The parameters taken out have the modes of a statement's parameters, the others those they had. */
    ghost predicate ModesSet(modes: map<int, bv8>, front: seq<int>)
      reads this
    {
      forall a :: a in pMode && a in modes ==> pMode[a] == if a in front then StatementMode(modes[a]) else modes[a]
    }
  }

  lemma ConcatDistinct(s: seq<int>, t: seq<int>)
    requires Distinct(s) && Distinct(t) && forall a :: a in t ==> a !in s
    ensures Distinct(s + t) && forall a :: a in s + t <==> a in s || a in t
  {
    var u := s + t;
    forall j, k | 0 <= j < k < |u| ensures u[j] != u[k] {
      if j < |s| <= k { assert u[k] in t; }
    }
  }

  /** What proc_params does to the list s: the statement's parameters come first, in its order, then the others in
      their old order, and none is lost or doubled. */
  lemma Rearranged(s: seq<int>, names: map<int, string>, stmt: seq<Option<string>>)
    requires Distinct(s) && forall k :: 0 <= k < |s| ==> s[k] in names
    ensures var t := TakeAll(Taken(true, s, []), names, stmt);
            && (t.ok <==> multiset(stmt) <= Names(s, names))
            && (t.ok ==> && multiset(t.front + t.rest) == multiset(s) && Distinct(t.front + t.rest)
                         && t.rest == Except(s, t.front) && Named(t.front, names, stmt))
  {
    var t0 := Taken(true, s, []);
    AcceptedIff(t0, names, stmt);
    ExceptNone(s, []);
    assert multiset(s) == multiset(s) + multiset([]);
    TakeAllSplits(s, t0, names, stmt, []);
    assert stmt + [] == stmt;
    var t := TakeAll(t0, names, stmt);
    if t.ok { ConcatDistinct(t.front, t.rest); }
  }
}
