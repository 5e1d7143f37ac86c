/** stredit: the edit directive is read and a command edited by it, character by character.
    Source: pkg/cl/history.c. */
module Substitute {
  import opened Wrappers
  import opened SubstituteSpec

  lemma Shift(a: string, c: char, b: string)
    ensures a + ([c] + b) == a + [c] + b
  {
  }

  lemma PatternStep(d: string, i: nat, meta: char)
    requires i < |d|
    ensures PatternOf(d[i..], meta) ==
            if d[i] == '\\' && i + 1 < |d| && d[i + 1] == meta then
              ([meta] + PatternOf(d[i + 2..], meta).0, PatternOf(d[i + 2..], meta).1)
            else if d[i] == meta then ("", d[i + 1..])
            else ([d[i]] + PatternOf(d[i + 1..], meta).0, PatternOf(d[i + 1..], meta).1)
  {
    assert d[i..][1..] == d[i + 1..];
    if i + 1 < |d| { assert d[i..][2..] == d[i + 2..]; }
  }

  /** The loop that extracts the pattern. */
  method ReadPattern(d: string, start: nat, meta: char) returns (pattern: string, ip: nat)
    requires start <= |d|
    ensures start <= ip <= |d| && (pattern, d[ip..]) == PatternOf(d[start..], meta)
  {
    pattern, ip := "", start;
    var more := true;
    while ip < |d| && more
      invariant start <= ip <= |d|
      invariant more ==> PatternOf(d[start..], meta).0 == pattern + PatternOf(d[ip..], meta).0
      invariant more ==> PatternOf(d[start..], meta).1 == PatternOf(d[ip..], meta).1
      invariant !more ==> PatternOf(d[start..], meta) == (pattern, d[ip..])
      decreases |d| - ip, more
    {
      PatternStep(d, ip, meta);
      if d[ip] == '\\' && ip + 1 < |d| && d[ip + 1] == meta {
        ip := ip + 1;
        Shift(pattern, d[ip], PatternOf(d[ip + 1..], meta).0);
        pattern := pattern + [d[ip]];
        ip := ip + 1;
      } else if d[ip] == meta {
        assert pattern + "" == pattern;
        ip := ip + 1;
        more := false;
      } else {
        Shift(pattern, d[ip], PatternOf(d[ip + 1..], meta).0);
        pattern := pattern + [d[ip]];
        ip := ip + 1;
      }
    }
    if more { assert d[ip..] == "" && pattern + "" == pattern; }
  }

  lemma TextStep(d: string, i: nat, meta: char)
    requires i < |d|
    ensures TextOf(d[i..], meta) ==
            if d[i] == meta && i + 2 < |d| && d[i + 1] == '\\' && d[i + 2] in {'n', 't'} then
              ([if d[i + 2] == 'n' then '\n' else '\t'] + TextOf(d[i + 3..], meta).0, TextOf(d[i + 3..], meta).1)
            else if d[i] == '\\' && i + 1 < |d| && d[i + 1] == meta then
              ([meta] + TextOf(d[i + 2..], meta).0, TextOf(d[i + 2..], meta).1)
            else if d[i] == '\n' || d[i] == meta then ("", d[i + 1..])
            else ([d[i]] + TextOf(d[i + 1..], meta).0, TextOf(d[i + 1..], meta).1)
  {
    assert d[i..][1..] == d[i + 1..];
    if i + 1 < |d| { assert d[i..][2..] == d[i + 2..]; }
    if i + 2 < |d| { assert d[i..][3..] == d[i + 3..]; }
  }

  /** The loop that extracts the substitution string. */
  method ReadText(d: string, start: nat, meta: char) returns (text: string, ip: nat)
    requires start <= |d|
    ensures start <= ip <= |d| && (text, d[ip..]) == TextOf(d[start..], meta)
  {
    text, ip := "", start;
    var more := true;
    while ip < |d| && more
      invariant start <= ip <= |d|
      invariant more ==> TextOf(d[start..], meta).0 == text + TextOf(d[ip..], meta).0
      invariant more ==> TextOf(d[start..], meta).1 == TextOf(d[ip..], meta).1
      invariant !more ==> TextOf(d[start..], meta) == (text, d[ip..])
      decreases |d| - ip, more
    {
      var c;
      c, ip := ReadTextChar(d, ip, meta);
      if c.Some? {
        Shift(text, c.value, TextOf(d[ip..], meta).0);
        text := text + [c.value];
      } else {
        assert text + "" == text;
        more := false;
      }
    }
    if more { assert d[ip..] == "" && text + "" == text; }
  }

  /** One turn of it: a character of the substitution string, or its end (None). */
  method ReadTextChar(d: string, at: nat, meta: char) returns (c: Option<char>, ip: nat)
    requires at < |d|
    ensures at < ip <= |d|
    ensures TextOf(d[at..], meta) == if c == None then ("", d[ip..])
                                     else ([c.value] + TextOf(d[ip..], meta).0, TextOf(d[ip..], meta).1)
  {
    ip := at;
    TextStep(d, ip, meta);
    if d[ip] == meta && ip + 2 < |d| && d[ip + 1] == '\\' && d[ip + 2] in {'n', 't'} {
      ip := ip + 2;
      c := Some(if d[ip] == 'n' then '\n' else '\t');
      ip := ip + 1;
    } else if d[ip] == '\\' && ip + 1 < |d| && d[ip + 1] == meta {
      ip := ip + 1;
      c := Some(d[ip]);
      ip := ip + 1;
    } else if d[ip] == '\n' || d[ip] == meta {
      ip := ip + 1;
      c := None;
    } else {
      c := Some(d[ip]);
      ip := ip + 1;
    }
  }

  /** The first half of stredit: what the directive says. */
  method ReadDirective(d: string) returns (r: Directive)
    requires d != ""
    ensures r == Parsed(d)
  {
    var pattern, ip := ReadPattern(d, 1, d[0]);
    PatternConsumes(d[1..], d[0]);
    if pattern == "" { return Directive("", "", false, ip); }
    TextConsumes(d[ip..], d[0]);
    var text, ip2 := ReadText(d, ip, d[0]);
    ghost var rest := d[ip2..];
    var all := false;
    if ip2 < |d| && d[ip2] == MATCH_ALL {
      assert rest[0] == d[ip2];
      all := true;
      ip2 := ip2 + 1;
    }
    r := Directive(pattern, text, all, ip2);
  }

  /** How far the next match, or the end of the text, is away. The null pattern never matches. */
  function Gap(pat: string, s: string, ip: nat): (n: nat)
    requires ip <= |s|
    ensures ip + n <= |s|
  {
    if pat == "" then |s| - ip
    else
      match FirstFrom(pat, s, ip)
      case None => |s| - ip
      case Some(i) => i - ip
  }

  /** The inner loop: the text up to the next match is copied. */
  method CopyToMatch(pat: string, s: string, start: nat, out: array<char>, at: nat) returns (ip: nat, op: nat)
    requires start <= |s| && at + Gap(pat, s, start) <= out.Length
    modifies out
    ensures ip == start + Gap(pat, s, start) && op == at + Gap(pat, s, start)
    ensures out[..op] == old(out[..at]) + s[start..ip]
  {
    ip, op := start, at;
    while ip < |s| && (pat == "" || !OccursAt(pat, s, ip))
      invariant start <= ip <= start + Gap(pat, s, start) && op - at == ip - start
      invariant pat != "" ==> FirstFrom(pat, s, start) == FirstFrom(pat, s, ip)
      invariant out[..op] == old(out[..at]) + s[start..ip]
    {
      out[op] := s[ip];
      assert out[..op + 1] == old(out[..at]) + s[start..ip] + [s[ip]];
      assert s[start..ip] + [s[ip]] == s[start..ip + 1];
      op, ip := op + 1, ip + 1;
    }
  }

  /** A string is copied to the output. */
  method CopyString(t: string, out: array<char>, at: nat) returns (op: nat)
    requires at + |t| <= out.Length
    modifies out
    ensures op == at + |t| && out[..op] == old(out[..at]) + t
  {
    op := at;
    for k := 0 to |t|
      invariant op == at + k && out[..op] == old(out[..at]) + t[..k]
    {
      out[op] := t[k];
      assert out[..op + 1] == old(out[..at]) + t[..k] + [t[k]];
      op := op + 1;
    }
    assert t[..|t|] == t;
  }

  /** What one round of copying and substituting adds to the output. */
  function Added(pat: string, t: string, s: string, ip: nat): string
    requires ip <= |s|
  {
    s[ip..ip + Gap(pat, s, ip)] + if ip + Gap(pat, s, ip) < |s| then t else ""
  }

  /** Where the next round starts. */
  function After(pat: string, s: string, ip: nat): (n: nat)
    requires ip <= |s|
    ensures n <= |s|
  {
    if ip + Gap(pat, s, ip) < |s| then ip + Gap(pat, s, ip) + |pat| else |s|
  }

  lemma RoundOfAll(pat: string, t: string, s: string, ip: nat)
    requires pat != "" && ip <= |s|
    ensures ReplaceFrom(pat, t, s, ip) == Added(pat, t, s, ip) + ReplaceFrom(pat, t, s, After(pat, s, ip))
  {
    if FirstFrom(pat, s, ip) == None { NothingLeft(pat, s); }
  }

  lemma NothingLeft(pat: string, s: string)
    requires pat != ""
    ensures FirstFrom(pat, s, |s|) == None
  {
  }

  /** The output so far and what replacing all in the rest gives make up the result, round after round. */
  lemma RoundKeeps(pat: string, t: string, s: string, ip: nat, before: string, result: string)
    requires pat != "" && ip <= |s| && before + ReplaceFrom(pat, t, s, ip) == result
    ensures |before| + |Added(pat, t, s, ip)| <= |result|
    ensures (before + Added(pat, t, s, ip)) + ReplaceFrom(pat, t, s, After(pat, s, ip)) == result
  {
    RoundOfAll(pat, t, s, ip);
    Regroup(before, Added(pat, t, s, ip), ReplaceFrom(pat, t, s, After(pat, s, ip)));
  }

  lemma Regroup(a: string, b: string, c: string)
    ensures a + (b + c) == a + b + c
  {
  }

  lemma RoundOfFirst(pat: string, t: string, s: string)
    requires pat != "" && FirstFrom(pat, s, 0).Some?
    ensures Gap(pat, s, 0) < |s| && ReplaceFirst(pat, t, s) == Added(pat, t, s, 0) + s[After(pat, s, 0)..]
  {
    assert s[0..Gap(pat, s, 0)] == s[..Gap(pat, s, 0)];
  }

  /** One round: the text up to the next match, then the substitution string. */
  method Round(pat: string, t: string, s: string, start: nat, out: array<char>, at: nat) returns (ip: nat, op: nat,
        found: bool)
    requires start <= |s| && at + |Added(pat, t, s, start)| <= out.Length
    modifies out
    ensures found == (start + Gap(pat, s, start) < |s|)
    ensures op == at + |Added(pat, t, s, start)| && out[..op] == old(out[..at]) + Added(pat, t, s, start)
    ensures ip == After(pat, s, start)
  {
    ip, op := CopyToMatch(pat, s, start, out, at);
    found := ip < |s|;
    if found {
      op := CopyString(t, out, op);
      ip := ip + |pat|;
      assert old(out[..at]) + Added(pat, t, s, start) == old(out[..at]) + s[start..start + Gap(pat, s, start)] + t;
    }
  }

  /** The second half of stredit: the command is edited into out, an EOS after it; false is the error "No match". */
  method Edit(pat: string, t: string, all: bool, s: string, out: array<char>) returns (ok: bool)
    requires |s| < out.Length
    requires Edited(pat, t, all, s).Some? ==> |Edited(pat, t, all, s).value| < out.Length
    modifies out
    ensures ok == Edited(pat, t, all, s).Some?
    ensures ok ==> var r := Edited(pat, t, all, s).value; out[..|r|] == r && out[|r|] == EOS
  {
    var op;
    if s == "" {
      op := 0;
    } else if pat == "" {
      var ip;
      ip, op := CopyToMatch(pat, s, 0, out, 0);
      assert s[0..|s|] == s;
    } else {
      ok, op := EditNonEmpty(pat, t, all, s, out);
      if !ok { return; }
    }
    out[op] := EOS;
    ok := true;
  }

  /** The rounds of stredit, for a text and a pattern that are not empty. */
  method EditNonEmpty(pat: string, t: string, all: bool, s: string, out: array<char>) returns (ok: bool, op: nat)
    requires s != "" && pat != "" && |s| < out.Length
    requires Edited(pat, t, all, s).Some? ==> |Edited(pat, t, all, s).value| < out.Length
    modifies out
    ensures ok == Edited(pat, t, all, s).Some?
    ensures ok ==> op == |Edited(pat, t, all, s).value| && out[..op] == Edited(pat, t, all, s).value
  {
    var ip, found;
    FirstRound(pat, t, all, s);
    ip, op, found := Round(pat, t, s, 0, out, 0);
    assert out[..op] == Added(pat, t, s, 0);
    if !found { return false, op; }
    if all {
      op := EditRest(pat, t, s, ip, out, op, ReplaceFrom(pat, t, s, 0));
    } else {
      op := CopyString(s[ip..], out, op);
    }
    ok := true;
  }

  lemma FirstRound(pat: string, t: string, all: bool, s: string)
    requires s != "" && pat != ""
    ensures match Edited(pat, t, all, s)
            case None => Gap(pat, s, 0) == |s| && |Added(pat, t, s, 0)| == |s|
            case Some(r) =>
              && Gap(pat, s, 0) < |s|
              && r == Added(pat, t, s, 0) + if all then ReplaceFrom(pat, t, s, After(pat, s, 0)) else s[After(pat, s, 0)..]
  {
    RoundOfAll(pat, t, s, 0);
    if FirstFrom(pat, s, 0).Some? { RoundOfFirst(pat, t, s); }
  }

  /** The rounds after the first, when all occurrences are replaced. */
  method EditRest(pat: string, t: string, s: string, start: nat, out: array<char>, at: nat, ghost result: string)
    returns (op: nat)
    requires pat != "" && start <= |s| && at <= out.Length && |result| < out.Length
    requires out[..at] + ReplaceFrom(pat, t, s, start) == result
    modifies out
    ensures op == |result| && out[..op] == result
  {
    var ip, found := start, true;
    op := at;
    while ip < |s|
      invariant 0 <= ip <= |s| && op <= out.Length && out[..op] + ReplaceFrom(pat, t, s, ip) == result
      decreases |s| - ip
    {
      RoundKeeps(pat, t, s, ip, out[..op], result);
      ip, op, found := Round(pat, t, s, ip, out, op);
    }
    NothingLeft(pat, s);
  }

  /** STREDIT; None is the error "No match", else the number of characters of the directive used. */
  method Stredit(directive: string, inText: string, out: array<char>) returns (r: Option<nat>)
    requires directive != "" && |inText| < out.Length
    requires var d := Parsed(directive);
             var e := Edited(d.pattern, d.text, d.all, inText);
             e.Some? ==> |e.value| < out.Length
    modifies out
    ensures var d := Parsed(directive);
            match Edited(d.pattern, d.text, d.all, inText)
            case None => r == None
            case Some(s) => r == Some(d.length) && out[..|s|] == s && out[|s|] == EOS
    ensures |directive| >= 2 && directive[0] == directive[1] != '\\' ==>
              r == Some(2) && out[..|inText|] == inText && out[|inText|] == EOS
  {
    NullPattern(directive, inText);
    var d := ReadDirective(directive);
    var ok := Edit(d.pattern, d.text, d.all, inText, out);
    r := if ok then Some(d.length) else None;
  }
}
