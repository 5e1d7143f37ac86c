/** The history buffer: put_history, find_history, fetch_history, get_history and show_history over the circular
    character buffer, proved against the list of commands entered. Source: pkg/cl/history.c. */
module History {
  import opened Wrappers
  import opened HistorySpec
  import opened HistoryRuns
  import opened SubstituteSpec

  const MAX_SHOWHIST := 800

  /** The characters of a buffer hold the C string s. */
  ghost predicate CString(a: seq<char>, s: string) {
    |s| < |a| && a[..|s|] == s && a[|s|] == EOS && EOS !in s
  }

  lemma SameCString(a: seq<char>, s: string, t: string)
    requires CString(a, s) && CString(a, t)
    ensures s == t
  {
    assert |s| == |t|;
  }

  /** What is read for an answer of find_history. */
  ghost function Answer(buf: seq<char>, found: Option<nat>, n: int): string
    requires |buf| >= SZ_HISTBUF && (found.Some? ==> found.value < SZ_HISTBUF)
  {
    match found case None => "" case Some(ip) => Fetched(buf, ip, n)
  }

  lemma {:induction false} FetchedPlain(buf: seq<char>, ip: nat, n: int)
    requires |buf| >= SZ_HISTBUF && ip < SZ_HISTBUF
    ensures EOS !in Fetched(buf, ip, n) && |Fetched(buf, ip, n)| <= if n > 0 then n else 0
    decreases n
  {
    if n > 0 && buf[ip] != EOS { FetchedPlain(buf, if ip + 1 >= SZ_HISTBUF then 0 else ip + 1, n - 1); }
  }

  method StrLen(a: array<char>, ghost s: string) returns (n: nat)
    requires CString(a[..], s)
    ensures n == |s|
  {
    forall i | 0 <= i < |s| ensures a[i] == s[i] != EOS {
      assert a[..][..|s|][i] == s[i];
    }
    n := 0;
    while a[n] != EOS
      invariant 0 <= n <= |s|
      decreases |s| - n
    {
      n := n + 1;
    }
  }

  class HistoryBuffer {
    const histbuf: array<char>
    var opHist: nat
    var histbufFull: nat
    var histnum: nat
    var historyNumber: int
    // The static variables of find_history; -1 stands for a null old_ophist.
    var currentRecord: int
    var recptr: int
    var oldOphist: int

    /** What the buffer held at first, and all that happened since. */
    ghost const start: seq<char>
    ghost var log: seq<Event>
    /** Every command entered, oldest first, as stored. */
    ghost var cmds: seq<string>

    ghost predicate Valid()
      reads this, histbuf
    {
      && histbuf.Length == SZ_HISTBUF + 1 == |start| && CStrings(log)
      && Now() == After(start, log) && cmds == Commands(log) && histnum == |cmds|
    }

    ghost function Now(): Hist
      reads this, histbuf
    {
      Hist(histbuf[..], histbufFull > 0, opHist, histnum, Position())
    }

    ghost function Position(): Search
      reads this
    {
      Search(currentRecord, recptr, oldOphist)
    }

    /** The remembered search position is right, or will not be used. */
    ghost predicate RemembersRight()
      reads this
    {
      Remembered(cmds, opHist, Position())
    }

    constructor ()
      ensures Valid() && log == [] && RemembersRight()
    {
      var buffer := new char[SZ_HISTBUF + 1];
      histbuf, start := buffer, buffer[..];
      opHist, histbufFull, histnum, historyNumber := 0, 0, 0, 0;
      currentRecord, recptr, oldOphist := 0, 0, -1;
      log, cmds := [], [];
    }

    /** Something happened to the history. */
    ghost method Log(e: Event)
      requires histbuf.Length == SZ_HISTBUF + 1 == |start| && CStrings(log) && cmds == Commands(log)
      requires Now() == Happens(After(start, log), e) && (e.Entered? ==> EOS !in e.text)
      modifies this`log, this`cmds
      ensures Valid() && log == old(log) + [e]
      ensures cmds == old(cmds) + if e.Entered? then [Normalized(e.text)] else []
    {
      AfterSnoc(start, log, e);
      SessionHolds(start, log + [e]);
      CommandsSnoc(log, e);
      log := log + [e];
      cmds := Commands(log);
    }

    /** The first loop of put_history: trailing white space becomes one newline. */
    static method Normalize(command: array<char>, ghost text: string, n: nat)
      requires CString(command[..], text) && n == |text| && n + 2 <= command.Length
      modifies command
      ensures CString(command[..], Normalized(text))
    {
      var ip: int := n - 1;
      assert text[..n] == text;
      while ip >= 0 && IsSpace(command[ip])
        invariant -1 <= ip < n
        invariant TrimEnd(text) == TrimEnd(text[..ip + 1])
      {
        assert command[..][ip] == text[..n][ip];
        assert text[..ip + 1][..ip] == text[..ip];
        ip := ip - 1;
      }
      if ip >= 0 { assert command[..][ip] == text[..n][ip]; }
      assert TrimEnd(text) == text[..ip + 1];
      command[ip + 1] := '\n';
      command[ip + 2] := EOS;
      assert command[..ip + 2] == Normalized(text);
    }

    /** PUT_HISTORY: the command is normalised in place, then appended to the history. The position remembered is
        right afterwards exactly when it is not stale. */
    method PutHistory(command: array<char>, ghost text: string)
      requires Valid() && command != histbuf
      requires CString(command[..], text) && |text| + 2 <= command.Length
      modifies this`opHist, this`histbufFull, this`histnum, this`log, this`cmds, histbuf, command
      ensures Valid() && log == old(log) + [Entered(text)] && cmds == old(cmds) + [Normalized(text)]
      ensures Now() == Enter(old(Now()), text) && CString(command[..], Normalized(text))
      ensures exists k: nat :: EndsAt(text, k) && CString(command[..], text[..k] + "\n")
      ensures LastMark(log) == LastMark(old(log)) && NeverStale(log) == NeverStale(old(log))
      ensures NeverStale(log) ==> (RemembersRight() <==> NotStale(cmds, LastMark(log)))
    {
      var n := StrLen(command, text);
      NormalizedIff(text, Normalized(text));
      Normalize(command, text, n);
      CopyRecord(command, Normalized(text));
      histnum := histnum + 1;
      EnterSession(start, log, text);
      Log(Entered(text));
    }

    /** The copy loop of put_history: the characters of the record and its EOS, wrapping at the end of the buffer. */
    method CopyRecord(command: array<char>, ghost rec: string)
      requires histbuf.Length == SZ_HISTBUF + 1 && Sane(Now())
      requires command != histbuf && CString(command[..], rec)
      modifies this`opHist, this`histbufFull, histbuf
      ensures Now() == StoreAll(old(Now()), rec + [EOS])
    {
      ghost var h, r := Now(), rec + [EOS];
      forall i | 0 <= i < |rec| ensures command[i] == rec[i] != EOS {
        assert command[..][..|rec|][i] == rec[i];
      }
      var ip, op: nat := 0, opHist;
      while true
        invariant 0 <= ip <= |rec| && op < SZ_HISTBUF
        invariant Now().(op := op) == StoreAll(h, r[..ip])
        decreases |rec| - ip
      {
        op := CopyChar(op, command[ip]);
        assert r[..ip + 1][..ip] == r[..ip];
        if command[ip] == EOS { break; }
        ip := ip + 1;
      }
      assert r[..|r|] == r;
      opHist := op;
    }

    /** One turn of that loop. */
    method CopyChar(op: nat, c: char) returns (next: nat)
      requires histbuf.Length == SZ_HISTBUF + 1 && Sane(Now().(op := op))
      modifies this`histbufFull, histbuf
      ensures Now().(op := next) == Store(old(Now()).(op := op), c)
    {
      histbuf[op] := c;
      next := op + 1;
      if next >= SZ_HISTBUF {
        next := 0;
        histbufFull := histbufFull + 1;
      }
    }

    /** The inner loop of find_history. */
    method BackUp(ip0: nat) returns (r: Option<int>)
      requires histbuf.Length == SZ_HISTBUF + 1 && opHist < SZ_HISTBUF && ip0 < SZ_HISTBUF
      ensures r == BackToEos(histbuf[..], histbufFull > 0, opHist, ip0)
    {
      var ip := ip0;
      while true
        invariant 0 <= ip < SZ_HISTBUF
        invariant BackToEos(histbuf[..], histbufFull > 0, opHist, ip) == BackToEos(histbuf[..], histbufFull > 0, opHist, ip0)
        decreases if histbufFull > 0 then Cell(ip - opHist - 1) else ip
      {
        if ip == 0 {
          if histbufFull == 0 { return Some(-1); }
          ip := SZ_HISTBUF - 1;
        } else {
          ip := ip - 1;
        }
        if ip == opHist { return None; }
        if histbuf[ip] == EOS { return Some(ip); }
      }
    }

    /** The outer loop of find_history. */
    method SearchBack(record: int) returns (r: Option<nat>)
      requires histbuf.Length == SZ_HISTBUF + 1 && opHist < SZ_HISTBUF && 0 <= recptr < SZ_HISTBUF
      modifies this`currentRecord, this`recptr
      ensures (r, Position()) == Advance(histbuf[..], histbufFull > 0, opHist, old(Position()), record)
    {
      ghost var s := Position();
      while currentRecord < record
        invariant 0 <= recptr < SZ_HISTBUF
        invariant Advance(histbuf[..], histbufFull > 0, opHist, Position(), record)
                    == Advance(histbuf[..], histbufFull > 0, opHist, s, record)
        decreases record - currentRecord
      {
        var ip := OlderRecord(recptr);
        if ip == None { return None; }
        recptr, currentRecord := ip.value, currentRecord + 1;
      }
      r := Some(recptr);
    }

    /** One turn of that loop: to the first cell of the record before the one at ip0. */
    method OlderRecord(ip0: nat) returns (r: Option<nat>)
      requires histbuf.Length == SZ_HISTBUF + 1 && opHist < SZ_HISTBUF && ip0 < SZ_HISTBUF
      ensures r == StepBack(histbuf[..], histbufFull > 0, opHist, ip0)
    {
      var ip := ip0;
      if ip == 0 && histbufFull == 0 { return None; }
      var e := BackUp(if ip == 0 then SZ_HISTBUF - 1 else ip - 1);
      if e == None { return None; }
      ip := e.value + 1;
      if ip >= SZ_HISTBUF { ip := 0; }
      r := Some(ip);
    }

    /** FIND_HISTORY: the cell where the record starts, None (NULL) if it is not there. */
    method FindHistory(record: int) returns (r: Option<nat>)
      requires Valid()
      modifies this`currentRecord, this`recptr, this`oldOphist, this`historyNumber, this`log, this`cmds
      ensures Valid() && log == old(log) + [Asked(record)] && cmds == old(cmds)
      ensures (r, Now()) == Ask(old(Now()), record)
      ensures old(RemembersRight()) ==> RemembersRight() && r == Promised(cmds, record)
      ensures NeverStale(log) ==> r == Promised(cmds, record)
      ensures NeverStale(log) <==> NeverStale(old(log)) && (Searches(cmds, Asked(record)) ==> old(RemembersRight()))
      ensures historyNumber == if r == None then old(historyNumber) else record
    {
      AskSession(start, log, record);
      if Ask(Now(), record).0.Some? { AskNearer(Now(), record); }
      r := Locate(record);
      Log(Asked(record));
    }

    /** The body of find_history. */
    method Locate(record: int) returns (r: Option<nat>)
      requires histbuf.Length == SZ_HISTBUF + 1 && Sane(Now())
      modifies this`currentRecord, this`recptr, this`oldOphist, this`historyNumber
      ensures (r, Now()) == Ask(old(Now()), record)
      ensures historyNumber == if r == None then old(historyNumber) else currentRecord
    {
      if histnum == 0 || record <= 0 { return None; }
      if oldOphist != opHist || record < currentRecord {
        currentRecord, recptr, oldOphist := 0, opHist, opHist;
      }
      r := SearchBack(record);
      if r.Some? { historyNumber := currentRecord; }
    }

    /** FETCH_HISTORY: at most min(maxch, SZ_HISTBUF) - 1 characters of the record at recptr, and an EOS. */
    method FetchHistory(ptr: nat, command: array<char>, maxch: int)
      requires histbuf.Length == SZ_HISTBUF + 1 && ptr < SZ_HISTBUF && command != histbuf
      requires 1 <= command.Length && maxch <= command.Length
      modifies command
      ensures CString(command[..], Fetched(histbuf[..], ptr, Min(maxch, SZ_HISTBUF) - 1))
    {
      var n := (if maxch < SZ_HISTBUF then maxch else SZ_HISTBUF) - 1;
      ghost var total, done := n, "";
      var ip, op := ptr, 0;
      while n > 0 && histbuf[ip] != EOS
        invariant 0 <= ip < SZ_HISTBUF && n <= total && (n < total ==> op == total - n) && (n == total ==> op == 0)
        invariant 0 <= op < command.Length && command[..op] == done
        invariant done + Fetched(histbuf[..], ip, n) == Fetched(histbuf[..], ptr, total)
        decreases n
      {
        FetchedMore(done, histbuf[..], ip, n);
        n := n - 1;
        command[op] := histbuf[ip];
        done := done + [histbuf[ip]];
        ip := ip + 1;
        op := op + 1;
        if ip >= SZ_HISTBUF { ip := 0; }
      }
      command[op] := EOS;
      FetchedPlain(histbuf[..], ptr, total);
      assert done + "" == done;
    }

    lemma FetchedMore(done: string, buf: seq<char>, ip: nat, n: int)
      requires |buf| >= SZ_HISTBUF && ip < SZ_HISTBUF && n > 0 && buf[ip] != EOS
      ensures done + Fetched(buf, ip, n)
           == done + [buf[ip]] + Fetched(buf, if ip + 1 >= SZ_HISTBUF then 0 else ip + 1, n - 1)
    {
    }

    /** GET_HISTORY: when the remembered position is right, the k-th newest command, cut to maxch - 1 characters,
        exactly when it is retrievable. */
    method GetHistory(record: int, command: array<char>, maxch: int) returns (ok: bool)
      requires Valid() && command != histbuf && 1 <= command.Length && maxch <= command.Length
      modifies this`currentRecord, this`recptr, this`oldOphist, this`historyNumber, this`log, this`cmds, command
      ensures Valid() && log == old(log) + [Asked(record)] && cmds == old(cmds)
      ensures Now() == Ask(old(Now()), record).1 && ok == Ask(old(Now()), record).0.Some?
      ensures old(RemembersRight()) ==> RemembersRight()
      ensures NeverStale(log) <==> NeverStale(old(log)) && (Searches(cmds, Asked(record)) ==> old(RemembersRight()))
      ensures old(RemembersRight()) || NeverStale(log) ==>
                && ok == Retrievable(cmds, record)
                && CString(command[..], if ok then Take(cmds[|cmds| - record], Min(maxch, SZ_HISTBUF) - 1) else "")
      ensures CString(command[..], Answer(histbuf[..], Ask(old(Now()), record).0, Min(maxch, SZ_HISTBUF) - 1))
      ensures historyNumber == if ok then record else old(historyNumber)
    {
      ghost var right := RemembersRight();
      var r := FindHistory(record);
      if r == None {
        command[0] := EOS;
        ok := false;
      } else {
        if right || NeverStale(log) {
          SessionHolds(start, log);
          FetchedIsCommand(histbuf[..], histbufFull > 0, opHist, cmds, record, Min(maxch, SZ_HISTBUF) - 1);
        }
        FetchHistory(r.value, command, maxch);
        ok := true;
      }
    }

    /** The directives "^n" and "^-n": a command by its number, or by how long ago it was entered. */
    method GetNumbered(relative: bool, n: nat, command: array<char>) returns (ok: bool)
      requires Valid() && command != histbuf && SZ_CMDBLK <= command.Length
      modifies this`currentRecord, this`recptr, this`oldOphist, this`historyNumber, this`log, this`cmds, command
      ensures Valid() && log == old(log) + [Asked(if relative then n else |cmds| - n + 1)] && cmds == old(cmds)
      ensures old(RemembersRight()) ==> RemembersRight()
      ensures old(RemembersRight()) || NeverStale(log) ==>
                && ok == Retrievable(cmds, if relative then n else |cmds| - n + 1)
                && (ok ==> CString(command[..],
                                   Take(if relative then cmds[|cmds| - n] else cmds[n - 1], SZ_CMDBLK - 1)))
    {
      var record := if relative then n else histnum - n + 1;
      assert 1 <= record <= |cmds| ==> cmds[|cmds| - record] == if relative then cmds[|cmds| - n] else cmds[n - 1];
      ok := GetHistory(record, command, SZ_CMDBLK);
    }

    /** The loop of search_history over the text of a command: does the pattern occur in it? */
    static method FoundIn(pattern: string, text: string) returns (found: bool)
      requires pattern != ""
      ensures found == Occurs(pattern, text)
    {
      var p := 0;
      while p < |text|
        invariant 0 <= p <= |text| && forall j: nat :: j < p ==> !OccursAt(pattern, text, j)
      {
        if OccursAt(pattern, text, p) { return true; }
        p := p + 1;
      }
      found := false;
    }

    /** The test in that loop. */
    static method TextMatches(pattern: string, anywhere: bool, text: string) returns (found: bool)
      ensures found == Matches(pattern, anywhere, text)
    {
      if pattern == "" { return true; }
      if anywhere { found := FoundIn(pattern, text); } else { found := pattern <= text; }
    }

    /** The loop of search_history: the newest command that matches, by its record number; None is the error "Event
        not found". */
    method SearchHistory(pattern: string, anywhere: bool, command: array<char>) returns (r: Option<nat>)
      requires Valid() && command != histbuf && SZ_CMDBLK <= command.Length
      modifies this`currentRecord, this`recptr, this`oldOphist, this`historyNumber, this`log, this`cmds, command
      ensures Valid() && cmds == old(cmds) && Asking(old(log), log)
      ensures old(RemembersRight()) ==> RemembersRight() && (NeverStale(old(log)) ==> NeverStale(log))
      ensures old(RemembersRight()) ==>
                match r
                case Some(k) =>
                  && Retrievable(cmds, k) && CString(command[..], Block(cmds, k))
                      && Matches(pattern, anywhere, Block(cmds, k))
                  && forall j :: 1 <= j < k ==> !Matches(pattern, anywhere, Block(cmds, j))
                case None => forall j :: Retrievable(cmds, j) ==> !Matches(pattern, anywhere, Block(cmds, j))
    {
      ghost var right := RemembersRight();
      var record := 1;
      while true
        invariant 1 <= record && Valid() && cmds == old(cmds) && Asking(old(log), log)
        invariant record > 1 ==> AtRecord(record - 1)
        invariant right ==> RemembersRight() && (NeverStale(old(log)) ==> NeverStale(log))
        invariant right && record > 1 ==> Retrievable(cmds, record - 1)
        invariant right ==> forall j :: 1 <= j < record ==> !Matches(pattern, anywhere, Block(cmds, j))
        decreases if record == 1 then SZ_HISTBUF + 2 else Left(histbufFull > 0, opHist, recptr)
      {
        var ok, text := ReadRecord(record, command);
        if !ok {
          if right { BeyondRecord(cmds, record); }
          return None;
        }
        var found := TextMatches(pattern, anywhere, text);
        if found { return if text == "" then None else Some(record); }
        record := record + 1;
      }
    }

    /** The search position is at a record. */
    ghost predicate AtRecord(record: int)
      reads this
    {
      currentRecord == record && oldOphist == opHist && 0 <= recptr < SZ_HISTBUF
    }

    /** The command block that search_history looks at. */
    method ReadRecord(record: int, command: array<char>) returns (ok: bool, text: string)
      requires Valid() && 1 <= record && command != histbuf && SZ_CMDBLK <= command.Length
      modifies this`currentRecord, this`recptr, this`oldOphist, this`historyNumber, this`log, this`cmds, command
      ensures Valid() && cmds == old(cmds) && log == old(log) + [Asked(record)]
      ensures ok ==> AtRecord(record) && CString(command[..], text)
      ensures ok && old(AtRecord(record - 1)) ==>
                Left(histbufFull > 0, opHist, recptr) < old(Left(histbufFull > 0, opHist, recptr))
      ensures old(RemembersRight()) ==>
                && RemembersRight() && (NeverStale(old(log)) ==> NeverStale(log)) && ok == Retrievable(cmds, record)
                && (ok ==> text == Block(cmds, record) != "")
    {
      ghost var right := RemembersRight();
      if Ask(Now(), record).0.Some? { AskNearer(Now(), record); }
      ok, text := GetText(record, command);
      if right && ok { BlockText(command[..], text, record); }
    }

    lemma BlockText(a: seq<char>, text: string, record: int)
      requires Valid() && 1 <= record <= |cmds| && CString(a, text) && CString(a, Block(cmds, record))
      ensures text == Block(cmds, record) != ""
    {
      SameCString(a, text, Block(cmds, record));
      NoneEmpty(log);
    }

    method GetText(record: int, command: array<char>) returns (ok: bool, text: string)
      requires Valid() && command != histbuf && SZ_CMDBLK <= command.Length
      modifies this`currentRecord, this`recptr, this`oldOphist, this`historyNumber, this`log, this`cmds, command
      ensures Valid() && log == old(log) + [Asked(record)] && cmds == old(cmds) && CString(command[..], text)
      ensures Now() == Ask(old(Now()), record).1 && ok == Ask(old(Now()), record).0.Some?
      ensures old(RemembersRight()) ==>
                && RemembersRight() && (NeverStale(old(log)) ==> NeverStale(log)) && ok == Retrievable(cmds, record)
                && (ok ==> CString(command[..], Block(cmds, record)))
    {
      ghost var s := Answer(histbuf[..], Ask(Now(), record).0, SZ_CMDBLK - 1);
      ok := GetHistory(record, command, SZ_CMDBLK);
      text := ToString(command, s);
    }

    /** The records show_history lists: how many of the newest ones, at most MAX_SHOWHIST and at most max_commands
        if that is positive. */
    ghost predicate ListedCount(n: nat, maxCommands: int)
      reads this
    {
      var limit := if 0 < maxCommands < MAX_SHOWHIST then maxCommands else MAX_SHOWHIST;
      n <= limit && (n > 0 ==> Retrievable(cmds, n)) && (n < limit ==> !Retrievable(cmds, n + 1))
    }

    /** The first loop of show_history: the cells at which the newest records start. */
    method FindRecords(recptrs: array<nat>) returns (record: nat)
      requires Valid() && recptrs.Length == MAX_SHOWHIST
      modifies this`currentRecord, this`recptr, this`oldOphist, this`historyNumber, this`log, this`cmds, recptrs
      ensures Valid() && cmds == old(cmds) && Asking(old(log), log)
      ensures record <= MAX_SHOWHIST && forall k :: 0 <= k < record ==> recptrs[k] < SZ_HISTBUF
      ensures old(RemembersRight()) ==> RemembersRight() && (NeverStale(old(log)) ==> NeverStale(log))
      ensures old(RemembersRight()) ==> ListedCount(record, 0) && AllFound(cmds, recptrs[..record])
    {
      ghost var right := RemembersRight();
      record := 0;
      while record < MAX_SHOWHIST
        invariant record <= MAX_SHOWHIST && Valid() && cmds == old(cmds) && Asking(old(log), log)
        invariant forall k :: 0 <= k < record ==> recptrs[k] < SZ_HISTBUF
        invariant right ==> RemembersRight() && (NeverStale(old(log)) ==> NeverStale(log))
        invariant right && record > 0 ==> Retrievable(cmds, record)
        invariant right ==> AllFound(cmds, recptrs[..record])
      {
        var r := FindHistory(record + 1);
        if r == None { return; }
        ghost var before := recptrs[..record];
        recptrs[record] := r.value;
        record := record + 1;
        assert recptrs[..record] == before + [r.value];
      }
    }

    /** SHOW_HISTORY: the lines printed, oldest command first, each with its number. */
    method ShowHistory(maxCommands: int) returns (lines: seq<(int, string)>)
      requires Valid()
      modifies this`currentRecord, this`recptr, this`oldOphist, this`historyNumber, this`log, this`cmds
      ensures Valid() && cmds == old(cmds) && Asking(old(log), log)
      ensures old(RemembersRight()) ==> RemembersRight() && (NeverStale(old(log)) ==> NeverStale(log))
      ensures old(RemembersRight()) ==> ListedCount(|lines|, maxCommands) && AllListed(cmds, lines)
    {
      ghost var right := RemembersRight();
      var recptrs := new nat[MAX_SHOWHIST];
      var record := FindRecords(recptrs);
      var count := record;
      if maxCommands > 0 { count := if record < maxCommands then record else maxCommands; }
      lines := PrintRecords(recptrs, count);
      if right { FirstListed(lines, recptrs[..record], count); }
    }

    lemma FirstListed(lines: seq<(int, string)>, ptrs: seq<nat>, n: nat)
      requires Valid() && n <= |ptrs| && AllFound(cmds, ptrs) && AllPrinted(lines, 0, ptrs[..n])
      ensures AllListed(cmds, lines) && |lines| == n && (n > 0 ==> Retrievable(cmds, n))
    {
      assert n > 0 ==> Found(cmds, n, ptrs[n - 1]);
      forall i | 0 <= i < n ensures Listed(cmds, |cmds| - n + i, lines[i]) {
        var k := n - 1 - i;
        assert Found(cmds, k + 1, ptrs[k]) && Printed(lines[i], k, ptrs[..n][k]);
        FoundIsListed(k + 1, ptrs[k], lines[i]);
      }
    }

    /** The second loop of show_history. */
    method PrintRecords(recptrs: array<nat>, n: nat) returns (lines: seq<(int, string)>)
      requires histbuf.Length == SZ_HISTBUF + 1 && n <= recptrs.Length
      requires forall k :: 0 <= k < n ==> recptrs[k] < SZ_HISTBUF
      ensures AllPrinted(lines, 0, recptrs[..n])
    {
      var record := n;
      lines := [];
      while record > 0
        invariant 0 <= record <= n && AllPrinted(lines, record, recptrs[record..n])
      {
        record := record - 1;
        var text := FetchText(recptrs[record]);
        var line := ((histnum - record) % 1000, text);
        PrintedMore(lines, record, recptrs[record + 1..n], line, recptrs[record]);
        assert [recptrs[record]] + recptrs[record + 1..n] == recptrs[record..n];
        lines := lines + [line];
      }
    }

    lemma PrintedMore(lines: seq<(int, string)>, from: nat, ptrs: seq<nat>, line: (int, string), ptr: nat)
      requires histbuf.Length == SZ_HISTBUF + 1
      requires AllPrinted(lines, from + 1, ptrs) && Printed(line, from, ptr)
      ensures AllPrinted(lines + [line], from, [ptr] + ptrs)
    {
    }

    /** The lines as they are printed for the records from number from on, read from the cells ptrs, last one first. */
    ghost predicate AllPrinted(lines: seq<(int, string)>, from: nat, ptrs: seq<nat>)
      requires histbuf.Length == SZ_HISTBUF + 1
      reads this, histbuf
    {
      |lines| == |ptrs|
      && forall i :: 0 <= i < |lines| ==> Printed(lines[i], from + |lines| - 1 - i, ptrs[|lines| - 1 - i])
    }

    /** A line as it is printed for the record read from a cell. */
    ghost predicate Printed(line: (int, string), record: int, ptr: nat)
      requires histbuf.Length == SZ_HISTBUF + 1
      reads this, histbuf
    {
      ptr < SZ_HISTBUF && line == ((histnum - record) % 1000, Fetched(histbuf[..], ptr, SZ_CMDBLK))
    }

    lemma FoundIsListed(k: nat, ptr: nat, line: (int, string))
      requires Valid() && Found(cmds, k, ptr) && Printed(line, k - 1, ptr)
      ensures Listed(cmds, |cmds| - k, line)
    {
      SessionHolds(start, log);
      FetchedIsCommand(histbuf[..], histbufFull > 0, opHist, cmds, k, SZ_CMDBLK);
    }

    /** The command block that show_history fetches and prints. */
    method FetchText(ptr: nat) returns (text: string)
      requires histbuf.Length == SZ_HISTBUF + 1 && ptr < SZ_HISTBUF
      ensures text == Fetched(histbuf[..], ptr, SZ_CMDBLK)
    {
      var cmdblk := new char[SZ_CMDBLK + 1];
      FetchHistory(ptr, cmdblk, SZ_CMDBLK + 1);
      text := ToString(cmdblk, Fetched(histbuf[..], ptr, SZ_CMDBLK));
    }
  }

  ghost predicate AllFound(cmds: seq<string>, ptrs: seq<nat>) {
    forall k :: 0 <= k < |ptrs| ==> Found(cmds, k + 1, ptrs[k])
  }

  /** The lines are those of the newest commands. */
  ghost predicate AllListed(cmds: seq<string>, lines: seq<(int, string)>) {
    forall i :: 0 <= i < |lines| ==> Listed(cmds, |cmds| - |lines| + i, lines[i])
  }

  ghost predicate Found(cmds: seq<string>, k: int, ptr: nat) {
    Retrievable(cmds, k) && ptr == RecordCell(cmds, k)
  }

  /** The line show_history prints for record m: the number of the command modulo 1000, and the command. */
  ghost predicate Listed(cmds: seq<string>, m: int, line: (int, string)) {
    0 <= m < |cmds| && line == ((m + 1) % 1000, Take(cmds[m], SZ_CMDBLK))
  }

  /** The k-th newest command as it is copied into a command block. */
  ghost function Block(cmds: seq<string>, k: int): string {
    if 1 <= k <= |cmds| then Take(cmds[|cmds| - k], SZ_CMDBLK - 1) else ""
  }

  /** The null pattern matches every command; others the beginning of one or, anywhere, any part. */
  ghost predicate Matches(pattern: string, anywhere: bool, text: string) {
    pattern == "" || (if anywhere then Occurs(pattern, text) else pattern <= text)
  }

  /** A command matches exactly when it is the pattern with something after it and, anywhere, something before. */
  lemma MatchesIff(pattern: string, anywhere: bool, text: string)
    ensures Matches(pattern, anywhere, text) <==>
            exists a: string, b: string :: text == a + pattern + b && (anywhere || a == "")
  {
    forall a: string, b: string | text == a + pattern + b && (anywhere || a == "")
      ensures Matches(pattern, anywhere, text)
    {
      assert OccursAt(pattern, text, |a|);
      assert a == "" ==> text == pattern + b;
    }
    if Matches(pattern, anywhere, text) {
      var i: nat := if anywhere && pattern != "" then var i: nat :| OccursAt(pattern, text, i); i else 0;
      assert text == text[..i] + pattern + text[i + |pattern|..];
    }
  }

  lemma BeyondRecord(cmds: seq<string>, k: int)
    requires 1 <= k && !Retrievable(cmds, k)
    ensures forall j :: Retrievable(cmds, j) ==> 1 <= j < k
  {
    forall j | Retrievable(cmds, j) ensures 1 <= j < k {
      if j >= k { RetrievableDown(cmds, j, k); }
    }
  }

  function Min(a: int, b: int): (r: int)
    ensures r <= a && r <= b && r in {a, b}
  {
    if a < b then a else b
  }

  /** The string a buffer holds, as it is printed. */
  method ToString(a: array<char>, ghost s: string) returns (r: string)
    requires CString(a[..], s)
    ensures r == s
  {
    var n := StrLen(a, s);
    r := a[..n];
  }
}
