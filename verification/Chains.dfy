/** Singly linked chains: following the links of the records from a head visits a sequence of addresses. The links of
    all records are a map from the address of a record to the address of the next, NULL being -1. */
module Chains {
  import opened Wrappers

  function At(s: seq<int>, k: nat): int {
    if k < |s| then s[k] else NULL
  }

  predicate LinkAt(next: map<int, int>, s: seq<int>, k: nat)
    requires k < |s|
  {
    s[k] >= 0 && s[k] in next && next[s[k]] == At(s, k + 1)
  }

  /** Following the links from head visits the addresses s, in order, and ends. */
  ghost predicate Chain(next: map<int, int>, head: int, s: seq<int>) {
    head == At(s, 0) && forall k {:trigger LinkAt(next, s, k)} :: 0 <= k < |s| ==> LinkAt(next, s, k)
  }

  function Last(s: seq<int>): int {
    if s == [] then NULL else s[|s| - 1]
  }

  /** The entries without the k-th. */
  function Without(s: seq<int>, k: nat): seq<int>
    requires k < |s|
  {
    s[..k] + s[k + 1..]
  }

  ghost predicate Distinct(s: seq<int>) {
    forall j, k :: 0 <= j < k < |s| ==> s[j] != s[k]
  }

  lemma ChainStep(next: map<int, int>, head: int, s: seq<int>, k: nat)
    requires Chain(next, head, s) && k < |s|
    ensures s[k] in next && next[s[k]] == At(s, k + 1) && s[k] >= 0
  {
    assert LinkAt(next, s, k);
  }

  lemma ChainFrom(next: map<int, int>, head: int, s: seq<int>, k: nat)
    requires Chain(next, head, s) && k <= |s|
    ensures Chain(next, At(s, k), s[k..])
  {
    var t := s[k..];
    forall j | 0 <= j < |t| ensures LinkAt(next, t, j) {
      assert LinkAt(next, s, k + j);
    }
  }

  /** Ending a chain after its k-th entry. */
  lemma ChainCut(next: map<int, int>, head: int, s: seq<int>, k: nat)
    requires Chain(next, head, s) && 0 < k <= |s| && Distinct(s)
    ensures Chain(next[s[k - 1] := NULL], head, s[..k])
  {
    var next', t := next[s[k - 1] := NULL], s[..k];
    forall j | 0 <= j < k ensures LinkAt(next', t, j) {
      assert LinkAt(next, s, j);
    }
  }

  lemma ChainKept(next: map<int, int>, head: int, s: seq<int>, a: int, x: int)
    requires Chain(next, head, s) && a !in s
    ensures Chain(next[a := x], head, s)
  {
    var next' := next[a := x];
    forall j | 0 <= j < |s| ensures LinkAt(next', s, j) {
      assert LinkAt(next, s, j);
    }
  }

  /** Taking the k-th entry out of a chain. */
  lemma ChainRemove(next: map<int, int>, head: int, s: seq<int>, k: nat)
    requires Chain(next, head, s) && Distinct(s) && k < |s|
    ensures s[k] in next
    ensures k == 0 ==> Chain(next, next[s[0]], Without(s, k))
    ensures k > 0 ==> Chain(next[s[k - 1] := next[s[k]]], head, Without(s, k))
  {
    assert LinkAt(next, s, k);
    var t := Without(s, k);
    var next' := if k > 0 then next[s[k - 1] := next[s[k]]] else next;
    forall j | 0 <= j < |t| ensures LinkAt(next', t, j) {
      assert LinkAt(next, s, if j < k then j else j + 1);
    }
  }

  /** Putting an entry in front of a chain. */
  lemma ChainPush(next: map<int, int>, head: int, s: seq<int>, a: int)
    requires Chain(next, head, s) && a >= 0 && a !in s
    ensures Chain(next[a := head], a, [a] + s)
  {
    var next', t := next[a := head], [a] + s;
    forall j | 0 <= j < |t| ensures LinkAt(next', t, j) {
      if j > 0 { assert LinkAt(next, s, j - 1); }
    }
  }

  /** Linking the end of one chain to the head of another. */
  lemma ChainAppend(next: map<int, int>, h: int, s: seq<int>, h': int, s': seq<int>)
    requires Chain(next, h, s) && Chain(next, h', s') && Distinct(s) && s != []
    requires forall a :: a in s ==> a !in s'
    ensures Chain(next[s[|s| - 1] := h'], h, s + s')
  {
    var next', t := next[s[|s| - 1] := h'], s + s';
    assert s[|s| - 1] in s;
    forall j | 0 <= j < |t| ensures LinkAt(next', t, j) {
      if j < |s| { assert LinkAt(next, s, j); } else { assert LinkAt(next, s', j - |s|); }
    }
  }

  lemma NotIn(s: seq<int>, k: nat)
    requires Distinct(s) && k < |s|
    ensures s[k] !in Without(s, k)
  {
    var t := Without(s, k);
    forall j | 0 <= j < |t| ensures t[j] != s[k] { assert t[j] == s[if j < k then j else j + 1]; }
  }
}
