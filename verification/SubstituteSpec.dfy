/** Substitution in a command: what an edit directive says, and what replacing occurrences of a pattern means.
    Source: pkg/cl/history.c. */
module SubstituteSpec {
  import opened Wrappers

  const MATCH_ALL := 'g'

  // ---------------------------------------------------------------- substitution

  /** The pattern occurs in s at position i. */
  predicate OccursAt(pat: string, s: string, i: nat) {
    i + |pat| <= |s| && s[i..i + |pat|] == pat
  }

  ghost predicate Occurs(pat: string, s: string) {
    exists i: nat :: OccursAt(pat, s, i)
  }

  /** The position of the first occurrence at or after i. */
  function FirstFrom(pat: string, s: string, i: nat): (r: Option<nat>)
    requires i <= |s|
    ensures r.Some? ==> i <= r.value && r.value + |pat| <= |s|
    decreases |s| - i
  {
    if OccursAt(pat, s, i) then Some(i) else if i == |s| then None else FirstFrom(pat, s, i + 1)
  }

  lemma {:induction false} FirstIsFirst(pat: string, s: string, i: nat)
    requires i <= |s|
    ensures match FirstFrom(pat, s, i)
            case None => forall j: nat :: i <= j ==> !OccursAt(pat, s, j)
            case Some(r) => OccursAt(pat, s, r) && forall j: nat :: i <= j < r ==> !OccursAt(pat, s, j)
    decreases |s| - i
  {
    if !OccursAt(pat, s, i) && i < |s| { FirstIsFirst(pat, s, i + 1); }
  }

  lemma FirstUnique(pat: string, s: string, i: nat)
    requires OccursAt(pat, s, i) && forall j: nat :: j < i ==> !OccursAt(pat, s, j)
    ensures FirstFrom(pat, s, 0) == Some(i)
  {
    FirstIsFirst(pat, s, 0);
  }

  /** The text from position ip on, cut at the occurrences of the pattern, taking each time the first one left. */
  function Pieces(pat: string, s: string, ip: nat): (r: seq<string>)
    requires pat != "" && ip <= |s|
    ensures r != []
    decreases |s| - ip
  {
    match FirstFrom(pat, s, ip)
    case None => [s[ip..]]
    case Some(i) => [s[ip..i]] + Pieces(pat, s, i + |pat|)
  }

  /** The pieces with t between them. */
  function Join(pieces: seq<string>, t: string): string
    requires pieces != []
  {
    if |pieces| == 1 then pieces[0] else pieces[0] + t + Join(pieces[1..], t)
  }

  function ReplaceFirst(pat: string, t: string, s: string): string {
    match FirstFrom(pat, s, 0)
    case None => s
    case Some(i) => s[..i] + t + s[i + |pat|..]
  }

  /** The text from position ip on with every occurrence replaced, from left to right. */
  function ReplaceFrom(pat: string, t: string, s: string, ip: nat): string
    requires pat != "" && ip <= |s|
    decreases |s| - ip
  {
    match FirstFrom(pat, s, ip)
    case None => s[ip..]
    case Some(i) => s[ip..i] + t + ReplaceFrom(pat, t, s, i + |pat|)
  }

  lemma JoinStep(head: string, rest: seq<string>, t: string)
    requires rest != []
    ensures Join([head] + rest, t) == head + t + Join(rest, t)
  {
    assert ([head] + rest)[1..] == rest;
  }

  lemma Around(pat: string, s: string, ip: nat, i: nat)
    requires ip <= i && OccursAt(pat, s, i)
    ensures s[ip..] == s[ip..i] + pat + s[i + |pat|..] && s[ip..i] + pat == s[ip..i + |pat|]
  {
  }

  /** The pieces of a text, put together again with the pattern, are the text. */
  lemma {:induction false} PiecesOf(pat: string, s: string, ip: nat)
    requires pat != "" && ip <= |s|
    ensures Join(Pieces(pat, s, ip), pat) == s[ip..]
    decreases |s| - ip
  {
    var r := FirstFrom(pat, s, ip);
    if r.Some? {
      PiecesOf(pat, s, r.value + |pat|);
      JoinStep(s[ip..r.value], Pieces(pat, s, r.value + |pat|), pat);
      FirstIsFirst(pat, s, ip);
      Around(pat, s, ip, r.value);
    }
  }

  /** With t between them they are the text with every occurrence replaced. */
  lemma {:induction false} AllReplaced(pat: string, t: string, s: string, ip: nat)
    requires pat != "" && ip <= |s|
    ensures Join(Pieces(pat, s, ip), t) == ReplaceFrom(pat, t, s, ip)
    decreases |s| - ip
  {
    var r := FirstFrom(pat, s, ip);
    if r.Some? {
      AllReplaced(pat, t, s, r.value + |pat|);
      JoinStep(s[ip..r.value], Pieces(pat, s, r.value + |pat|), t);
    }
  }

  /** Each piece but the last ends where the pattern first occurs in what follows; in the last one the pattern does
      not occur: all the leftmost occurrences that do not overlap were found, and no other. */
  lemma {:induction false} PiecesLeftmost(pat: string, s: string, ip: nat, k: nat)
    requires pat != "" && ip <= |s| && k < |Pieces(pat, s, ip)|
    ensures PieceRight(pat, Pieces(pat, s, ip)[k], k == |Pieces(pat, s, ip)| - 1)
    decreases |s| - ip
  {
    match FirstFrom(pat, s, ip)
    case None =>
      LastPiece(pat, s, ip);
    case Some(i) =>
      PiecesFrom(pat, s, ip, i, k);
      if k == 0 { FirstOfSlice(pat, s, ip, i); } else { PiecesLeftmost(pat, s, i + |pat|, k - 1); }
  }

  ghost predicate PieceRight(pat: string, piece: string, last: bool) {
    if last then !Occurs(pat, piece) else FirstFrom(pat, piece + pat, 0) == Some(|piece|)
  }

  lemma PiecesFrom(pat: string, s: string, ip: nat, i: nat, k: nat)
    requires pat != "" && ip <= |s| && FirstFrom(pat, s, ip) == Some(i) && k < |Pieces(pat, s, ip)|
    ensures ip <= i && i + |pat| <= |s|
    ensures var r, q := Pieces(pat, s, ip), Pieces(pat, s, i + |pat|);
            |r| == |q| + 1 >= 2 && r[k] == if k == 0 then s[ip..i] else q[k - 1]
  {
    FirstIsFirst(pat, s, ip);
    assert Pieces(pat, s, ip) == [s[ip..i]] + Pieces(pat, s, i + |pat|);
  }

  lemma LastPiece(pat: string, s: string, ip: nat)
    requires pat != "" && ip <= |s| && FirstFrom(pat, s, ip) == None
    ensures !Occurs(pat, s[ip..])
  {
    FirstIsFirst(pat, s, ip);
    assert s[ip..] == s[ip..|s|];
    forall j: nat ensures OccursAt(pat, s[ip..], j) ==> OccursAt(pat, s, ip + j) {
      OccursInSlice(pat, s, ip, |s|, j);
    }
  }

  lemma OccursInSlice(pat: string, s: string, ip: nat, n: nat, j: nat)
    requires ip <= n <= |s|
    ensures OccursAt(pat, s[ip..n], j) <==> ip + j + |pat| <= n && OccursAt(pat, s, ip + j)
  {
    if ip + j + |pat| <= n { SliceOfSlice(s, ip, n, j, |pat|); }
  }

  lemma SliceOfSlice(s: string, ip: nat, n: nat, j: nat, m: nat)
    requires ip + j + m <= n <= |s|
    ensures s[ip..n][j..j + m] == s[ip + j..ip + j + m]
  {
    var a, b := s[ip..n][j..j + m], s[ip + j..ip + j + m];
    forall k | 0 <= k < m ensures a[k] == b[k] {
      assert a[k] == s[ip..n][j + k] == s[ip + j + k];
    }
  }

  /** Up to its end, the first occurrence does not depend on what follows. */
  lemma FirstOfSlice(pat: string, s: string, ip: nat, i: nat)
    requires pat != "" && ip <= |s| && FirstFrom(pat, s, ip) == Some(i)
    ensures FirstFrom(pat, s[ip..i] + pat, 0) == Some(i - ip)
  {
    var p := s[ip..i + |pat|];
    FirstIsFirst(pat, s, ip);
    Around(pat, s, ip, i);
    forall j: nat ensures OccursAt(pat, p, j) ==> OccursAt(pat, s, ip + j) { OccursInSlice(pat, s, ip, i + |pat|, j); }
    OccursInSlice(pat, s, ip, i + |pat|, i - ip);
    FirstUnique(pat, p, i - ip);
  }

  /** What stredit makes of a text: the null pattern and the empty text are never an error. */
  function Edited(pat: string, t: string, all: bool, s: string): Option<string> {
    if s == "" || pat == "" then Some(s)
    else if FirstFrom(pat, s, 0) == None then None
    else Some(if all then ReplaceFrom(pat, t, s, 0) else ReplaceFirst(pat, t, s))
  }

  /** "No match" is reported exactly for a pattern that does not occur in a text that is not empty. */
  lemma NoMatchIff(pat: string, t: string, all: bool, s: string)
    requires pat != ""
    ensures Edited(pat, t, all, s) == None <==> s != "" && !Occurs(pat, s)
  {
    FirstIsFirst(pat, s, 0);
    match FirstFrom(pat, s, 0)
    case None =>
    case Some(i) => assert OccursAt(pat, s, i);
  }

  /** A text in which the pattern occurs: all the pieces between its leftmost occurrences joined with t or, without "all
      occurrences", only what is before and after the first one. */
  lemma EditedIs(pat: string, t: string, all: bool, s: string)
    requires pat != "" && Occurs(pat, s)
    ensures all ==> Edited(pat, t, all, s) == Some(Join(Pieces(pat, s, 0), t))
    ensures !all ==> exists i: nat :: && OccursAt(pat, s, i) && (forall j: nat :: j < i ==> !OccursAt(pat, s, j))
                                      && Edited(pat, t, all, s) == Some(s[..i] + t + s[i + |pat|..])
  {
    FirstIsFirst(pat, s, 0);
    NoMatchIff(pat, t, all, s);
    if all {
      AllReplaced(pat, t, s, 0);
    } else {
      var i := FirstFrom(pat, s, 0).value;
      assert Edited(pat, t, all, s) == Some(ReplaceFirst(pat, t, s)) == Some(s[..i] + t + s[i + |pat|..]);
    }
  }

  // ---------------------------------------------------------------- directives

  /** The pattern of a directive and what follows it: up to a metacharacter that is not escaped. */
  function PatternOf(d: string, meta: char): (string, string) {
    if d == "" then ("", "")
    else if d[0] == '\\' && |d| > 1 && d[1] == meta then
      var (p, rest) := PatternOf(d[2..], meta);
      ([meta] + p, rest)
    else if d[0] == meta then ("", d[1..])
    else
      var (p, rest) := PatternOf(d[1..], meta);
      ([d[0]] + p, rest)
  }

  /** The substitution string: it also ends at a newline, and the metacharacter with "\n" or "\t" stands for newline
      or tab. */
  function TextOf(d: string, meta: char): (string, string) {
    if d == "" then ("", "")
    else if d[0] == meta && |d| > 2 && d[1] == '\\' && d[2] in {'n', 't'} then
      var (t, rest) := TextOf(d[3..], meta);
      ([if d[2] == 'n' then '\n' else '\t'] + t, rest)
    else if d[0] == '\\' && |d| > 1 && d[1] == meta then
      var (t, rest) := TextOf(d[2..], meta);
      ([meta] + t, rest)
    else if d[0] == '\n' || d[0] == meta then ("", d[1..])
    else
      var (t, rest) := TextOf(d[1..], meta);
      ([d[0]] + t, rest)
  }

  datatype Directive = Directive(pattern: string, text: string, all: bool, length: nat)

  /** The whole directive; its first character is the metacharacter. */
  function Parsed(d: string): Directive
    requires d != ""
  {
    var (p, r1) := PatternOf(d[1..], d[0]);
    PatternConsumes(d[1..], d[0]);
    if p == "" then Directive("", "", false, |d| - |r1|)
    else
      var (t, r2) := TextOf(r1, d[0]);
      TextConsumes(r1, d[0]);
      var all := r2 != "" && r2[0] == MATCH_ALL;
      Directive(p, t, all, |d| - |r2| + if all then 1 else 0)
  }

  lemma {:induction false} PatternConsumes(d: string, meta: char)
    ensures |PatternOf(d, meta).1| <= |d| && PatternOf(d, meta).1 == d[|d| - |PatternOf(d, meta).1|..]
  {
    if d != "" && d[0] == '\\' && |d| > 1 && d[1] == meta {
      PatternConsumes(d[2..], meta);
    } else if d != "" && d[0] != meta {
      PatternConsumes(d[1..], meta);
    }
  }

  lemma {:induction false} TextConsumes(d: string, meta: char)
    ensures |TextOf(d, meta).1| <= |d| && TextOf(d, meta).1 == d[|d| - |TextOf(d, meta).1|..]
  {
    if d != "" {
      if d[0] == meta && |d| > 2 && d[1] == '\\' && d[2] in {'n', 't'} {
        TextConsumes(d[3..], meta);
      } else if d[0] == '\\' && |d| > 1 && d[1] == meta {
        TextConsumes(d[2..], meta);
      } else if d[0] != '\n' && d[0] != meta {
        TextConsumes(d[1..], meta);
      }
    }
  }

  /** A string as it is written in a directive. */
  function Escaped(s: string, meta: char): string {
    if s == "" then ""
    else (if s[0] == meta then ['\\', meta] else [s[0]]) + Escaped(s[1..], meta)
  }

  predicate EndsInBackslash(s: string) {
    s != "" && s[|s| - 1] == '\\'
  }

  lemma EscapedTail(s: string, meta: char, r: string)
    requires s != ""
    ensures var d := Escaped(s, meta) + r;
            if s[0] == meta then |d| >= 2 && d[0] == '\\' && d[1] == meta && d[2..] == Escaped(s[1..], meta) + r
            else |d| >= 1 && d[0] == s[0] && d[1..] == Escaped(s[1..], meta) + r
  {
    var e := Escaped(s[1..], meta);
    var head := if s[0] == meta then ['\\', meta] else [s[0]];
    assert Escaped(s, meta) + r == head + (e + r);
    assert (head + (e + r))[|head|..] == e + r;
  }

  /** The first character of a string as written, if the string is not just a metacharacter's escape. */
  lemma EscapedHead(s: string, meta: char)
    requires meta != '\\'
    ensures s == "" ==> Escaped(s, meta) == ""
    ensures s != "" ==> |Escaped(s, meta)| >= 1 && Escaped(s, meta)[0] != meta
  {
  }

  /** What is left of a directive after the metacharacter that ends a string; it may be missing at the end. */
  function Past(tail: string): string {
    if tail == "" then "" else tail[1..]
  }

  /** A pattern is read back as it was exactly when it does not end in a backslash, or nothing follows it. */
  lemma {:induction false} PatternRoundTrip(p: string, meta: char, tail: string)
    requires meta != '\\' && (tail == "" || tail[0] == meta)
    ensures !EndsInBackslash(p) || tail == "" ==> PatternOf(Escaped(p, meta) + tail, meta) == (p, Past(tail))
    ensures EndsInBackslash(p) && tail != "" ==> PatternOf(Escaped(p, meta) + tail, meta).0 != p
  {
    var d := Escaped(p, meta) + tail;
    if p == "" {
      assert d == tail;
    } else {
      var e := Escaped(p[1..], meta);
      EscapedTail(p, meta, tail);
      PatternRoundTrip(p[1..], meta, tail);
      EscapedHead(p[1..], meta);
      assert p == [p[0]] + p[1..];
      if |p| > 1 {
        assert d[if p[0] == meta then 2 else 1] == e[0];
      }
    }
  }

  lemma PatternEnded(p: string, meta: char, r: string)
    requires meta != '\\'
    ensures var q := PatternOf(Escaped(p, meta) + [meta] + r, meta);
            if EndsInBackslash(p) then q.0 != p else q == (p, r)
  {
    assert Escaped(p, meta) + [meta] + r == Escaped(p, meta) + ([meta] + r);
    PatternRoundTrip(p, meta, [meta] + r);
  }

  /** A substitution string is read back as it was exactly when it does not end in a backslash and has no newline. */
  lemma {:induction false} TextRoundTrip(t: string, meta: char, r: string)
    requires meta != '\\' && meta != '\n' && (r == "" || r[0] != '\\')
    ensures !EndsInBackslash(t) && '\n' !in t ==> TextOf(Escaped(t, meta) + [meta] + r, meta) == (t, r)
    ensures EndsInBackslash(t) || '\n' in t ==> TextOf(Escaped(t, meta) + [meta] + r, meta).0 != t
  {
    var d := Escaped(t, meta) + [meta] + r;
    if t == "" {
      assert d == [meta] + r;
    } else {
      var w := Escaped(t[1..], meta) + [meta] + r;
      TextRoundTrip(t[1..], meta, r);
      EscapedFront(t, meta, r);
      ReadOne(t[0], w, meta);
      assert t == [t[0]] + t[1..];
      if |t| > 1 { EscapedHead(t[1..], meta); }
    }
  }

  lemma EscapedFront(t: string, meta: char, r: string)
    requires t != ""
    ensures Escaped(t, meta) + [meta] + r
         == (if t[0] == meta then ['\\', meta] else [t[0]]) + (Escaped(t[1..], meta) + [meta] + r)
  {
  }

  /** Reading one character that was escaped as it should be. */
  lemma ReadOne(c: char, w: string, meta: char)
    requires meta != '\\' && meta != '\n' && w != ""
    ensures var d := (if c == meta then ['\\', meta] else [c]) + w;
            && (c == '\n' ==> TextOf(d, meta).0 == "")
            && (c == '\\' && w[0] == meta ==> TextOf(d, meta).0 == [meta] + TextOf(w[1..], meta).0)
            && (c != '\n' && !(c == '\\' && w[0] == meta) ==>
                  TextOf(d, meta) == ([c] + TextOf(w, meta).0, TextOf(w, meta).1))
  {
    var d := (if c == meta then ['\\', meta] else [c]) + w;
    if c == meta { assert d[2..] == w; } else { assert d[1..] == w && d[0] == c; }
    if c != meta { assert d[2..] == w[1..]; }
  }

  /** A string as it is written in a directive when newlines and tabs are to be part of it. */
  function Written(t: string, meta: char): string {
    if t == "" then "" else WrittenChar(t[0], meta) + Written(t[1..], meta)
  }

  function WrittenChar(c: char, meta: char): string {
    if c == meta then ['\\', meta]
    else if c == '\n' then [meta, '\\', 'n']
    else if c == '\t' then [meta, '\\', 't']
    else [c]
  }

  /** A backslash comes just before a metacharacter: one that ends the string, or begins a newline or tab. */
  ghost predicate Swallowed(t: string, meta: char, tail: string) {
    exists i: nat :: SwallowedAt(t, i, meta, tail)
  }

  predicate SwallowedAt(t: string, i: nat, meta: char, tail: string) {
    i < |t| && t[i] == '\\' &&
    if i == |t| - 1 then tail != "" && tail[0] == meta else t[i + 1] != meta && t[i + 1] in {'\n', '\t'}
  }

  lemma SwallowedStep(t: string, meta: char, tail: string)
    requires t != "" && meta != '\\'
    ensures Swallowed(t, meta, tail) <==> SwallowedAt(t, 0, meta, tail) || Swallowed(t[1..], meta, tail)
    ensures var w := Written(t[1..], meta) + tail;
            SwallowedAt(t, 0, meta, tail) <==> t[0] == '\\' && w != "" && w[0] == meta
  {
    var u := t[1..];
    if u != "" { WrittenFront(u, meta, tail); }
    forall i: nat ensures SwallowedAt(t, i + 1, meta, tail) <==> SwallowedAt(u, i, meta, tail) {}
    if Swallowed(t, meta, tail) {
      var i: nat :| SwallowedAt(t, i, meta, tail);
      assert i > 0 ==> SwallowedAt(u, i - 1, meta, tail);
    }
  }

  lemma WrittenFront(t: string, meta: char, tail: string)
    requires t != ""
    ensures Written(t, meta) + tail == WrittenChar(t[0], meta) + (Written(t[1..], meta) + tail)
  {
  }

  /** Reading one character, written so, with the rest of the directive after it. */
  lemma ReadWritten(c: char, w: string, meta: char)
    requires meta != '\\'
    ensures var d := WrittenChar(c, meta) + w;
            if c == '\\' && w != "" && w[0] == meta then TextOf(d, meta).0 == [meta] + TextOf(w[1..], meta).0
            else TextOf(d, meta) == ([c] + TextOf(w, meta).0, TextOf(w, meta).1)
  {
    var h := WrittenChar(c, meta);
    var d := h + w;
    assert d[|h|..] == w;
    if c == '\\' && w != "" { assert d[2..] == w[1..]; }
  }

  /** Any string, newlines and tabs included, is read back as it was exactly when no backslash in it comes just before
      a metacharacter. */
  lemma {:induction false} WrittenRoundTrip(t: string, meta: char, tail: string)
    requires meta != '\\' && (tail == "" || tail[0] in {meta, '\n'})
    requires |tail| > 1 && tail[0] == meta ==> tail[1] != '\\'
    ensures TextOf(Written(t, meta) + tail, meta).0 == t <==> !Swallowed(t, meta, tail)
    ensures !Swallowed(t, meta, tail) ==> TextOf(Written(t, meta) + tail, meta).1 == Past(tail)
  {
    if t == "" {
      assert Written(t, meta) + tail == tail;
    } else {
      WrittenRoundTrip(t[1..], meta, tail);
      SwallowedStep(t, meta, tail);
      WrittenFront(t, meta, tail);
      ReadWritten(t[0], Written(t[1..], meta) + tail, meta);
      assert t == [t[0]] + t[1..];
    }
  }

  /** A directive built from two strings is read back exactly when neither ends in a backslash and the second has no
      newline. */
  lemma DirectiveRoundTrip(p: string, t: string, meta: char, all: bool, r: string)
    requires meta != '\\' && meta != '\n' && meta != MATCH_ALL && p != ""
    requires r == "" || (r[0] != '\\' && r[0] != MATCH_ALL)
    ensures var flag := if all then [MATCH_ALL] else "";
            var d := [meta] + (Escaped(p, meta) + [meta] + (Escaped(t, meta) + [meta] + (flag + r)));
            Parsed(d) == Directive(p, t, all, |d| - |r|) <==>
            !EndsInBackslash(p) && !EndsInBackslash(t) && '\n' !in t
  {
    var flag := if all then [MATCH_ALL] else "";
    var d2 := Escaped(t, meta) + [meta] + (flag + r);
    var d := [meta] + (Escaped(p, meta) + [meta] + d2);
    assert d[1..] == Escaped(p, meta) + [meta] + d2;
    PatternEnded(p, meta, d2);
    TextRoundTrip(t, meta, flag + r);
  }

  /** The pattern is null exactly when the first character stands alone, or is followed by itself, as in "^^"; the
      text is then copied as it is and no more than these two characters are used, whatever follows. */
  lemma NullPattern(d: string, s: string)
    requires d != ""
    ensures Parsed(d).pattern == "" <==> |d| == 1 || (d[1] == d[0] && (d[0] != '\\' || |d| == 2 || d[2] != '\\'))
    ensures Parsed(d).pattern == "" ==> Parsed(d).length == if |d| == 1 then 1 else 2
    ensures Parsed(d).pattern == "" ==> Edited(Parsed(d).pattern, Parsed(d).text, Parsed(d).all, s) == Some(s)
  {
  }
}
