/** Whole sessions of commands entered and records looked up, replayed on the history buffer: when the remembered
    search position never misleads. Source: pkg/cl/history.c. */
module HistoryRuns {
  import opened Wrappers
  import opened HistorySpec

  /** The variables of the history: the buffer, whether it wrapped, where it is written next, how many commands were
      entered, and the search position. */
  datatype Hist = Hist(buf: seq<char>, full: bool, op: nat, num: nat, pos: Search)

  predicate Sane(h: Hist) {
    |h.buf| >= SZ_HISTBUF && h.op < SZ_HISTBUF && SearchOk(h.pos)
  }

  function Fresh(buf: seq<char>): Hist {
    Hist(buf, false, 0, 0, Search(0, 0, -1))
  }

  // ---------------------------------------------------------------- the two operations

  /** One character copied to the buffer. */
  function Store(h: Hist, c: char): (h': Hist)
    requires Sane(h)
    ensures Sane(h')
  {
    var next := h.op + 1;
    h.(buf := h.buf[h.op := c], op := if next >= SZ_HISTBUF then 0 else next, full := h.full || next >= SZ_HISTBUF)
  }

  function StoreAll(h: Hist, r: string): (h': Hist)
    requires Sane(h)
    ensures Sane(h')
  {
    if r == "" then h else Store(StoreAll(h, r[..|r| - 1]), r[|r| - 1])
  }

  /** put_history. */
  function Enter(h: Hist, text: string): (h': Hist)
    requires Sane(h)
    ensures Sane(h')
  {
    StoreAll(h, Normalized(text) + [EOS]).(num := h.num + 1)
  }

  /** find_history. */
  function Ask(h: Hist, record: int): (r: (Option<nat>, Hist))
    requires Sane(h)
    ensures Sane(r.1) && (r.0.Some? ==> r.0.value < SZ_HISTBUF)
    ensures h.num > 0 && record > 0 ==> r.1.pos.oldop == h.op
  {
    var (r, s) := Find(h.buf, h.full, h.op, h.num, h.pos, record);
    (r, h.(pos := s))
  }

  // ---------------------------------------------------------------- sessions

  datatype Event = Entered(text: string) | Asked(record: int)

  function Happens(h: Hist, e: Event): (h': Hist)
    requires Sane(h)
    ensures Sane(h')
  {
    match e
    case Entered(text) => Enter(h, text)
    case Asked(record) => Ask(h, record).1
  }

  function After(start: seq<char>, es: seq<Event>): (h: Hist)
    requires |start| >= SZ_HISTBUF
    ensures Sane(h)
  {
    if es == [] then Fresh(start) else Happens(After(start, es[..|es| - 1]), es[|es| - 1])
  }

  /** The commands entered, as stored. */
  function Commands(es: seq<Event>): seq<string> {
    if es == [] then []
    else
      var before := Commands(es[..|es| - 1]);
      match es[|es| - 1]
      case Entered(text) => before + [Normalized(text)]
      case Asked(_) => before
  }

  ghost predicate CStrings(es: seq<Event>) {
    forall i :: 0 <= i < |es| && es[i].Entered? ==> EOS !in es[i].text
  }

  /** A session continued by lookups only. */
  ghost predicate Asking(es: seq<Event>, es': seq<Event>) {
    es <= es' && forall i :: |es| <= i < |es'| ==> es'[i].Asked?
  }

  /** A stored command ends in a newline, so it is not empty. */
  lemma {:induction false} NoneEmpty(es: seq<Event>)
    ensures forall m :: 0 <= m < |Commands(es)| ==> Commands(es)[m] != ""
  {
    if es != [] { NoneEmpty(es[..|es| - 1]); }
  }

  /** A lookup that find_history does not refuse at once. */
  predicate Searches(cmds: seq<string>, e: Event) {
    e.Asked? && e.record > 0 && cmds != []
  }

  /** How many records back a search for this one comes. */
  function Reach(cmds: seq<string>, record: nat): (c: nat)
    ensures c <= record && (c > 0 ==> Retrievable(cmds, c))
  {
    if record == 0 || Retrievable(cmds, record) then record else Reach(cmds, record - 1)
  }

  /** What the last search left behind: after how many commands it took place, and how many records back it came. */
  datatype Mark = Mark(count: nat, reach: nat)

  function LastMark(es: seq<Event>): (m: Option<Mark>)
    ensures m.Some? ==> 1 <= m.value.count <= |Commands(es)|
    ensures m.Some? && m.value.reach > 0 ==> Retrievable(Commands(es)[..m.value.count], m.value.reach)
  {
    if es == [] then None
    else
      var before := es[..|es| - 1];
      var cmds := Commands(before);
      if Searches(cmds, es[|es| - 1]) then
        assert Commands(es)[..|cmds|] == cmds;
        Some(Mark(|cmds|, Reach(cmds, es[|es| - 1].record)))
      else
        var m := LastMark(before);
        assert m.Some? ==> Commands(es)[..m.value.count] == cmds[..m.value.count];
        m
  }

  /** The write position is not the one of the last search, unless nothing was entered since. */
  predicate Moved(cmds: seq<string>, m: Option<Mark>)
    requires m.Some? ==> m.value.count <= |cmds|
  {
    m == None || m.value.count == |cmds| || Cell(|Stream(cmds)|) != Cell(Start(cmds, m.value.count))
  }

  /** What is remembered is still right: the write position moved, or nothing is remembered, or the records skipped
      take the same room as those skipped then. */
  predicate NotStale(cmds: seq<string>, m: Option<Mark>)
    requires m.Some? ==> 1 <= m.value.count <= |cmds|
    requires m.Some? && m.value.reach > 0 ==> Retrievable(cmds[..m.value.count], m.value.reach)
  {
    || Moved(cmds, m) || m.value.reach == 0
    || (Retrievable(cmds, m.value.reach)
        && Fill(cmds, m.value.reach) == Fill(cmds[..m.value.count], m.value.reach))
  }

  predicate NeverStale(es: seq<Event>)
    decreases |es|, 1
  {
    es == [] || NotStaleLast(es)
  }

  predicate NotStaleLast(es: seq<Event>)
    requires es != []
    decreases |es|, 0
  {
    var before := es[..|es| - 1];
    && NeverStale(before)
    && (Searches(Commands(before), es[|es| - 1]) ==> NotStale(Commands(before), LastMark(before)))
  }

  lemma AfterSnoc(start: seq<char>, es: seq<Event>, e: Event)
    requires |start| >= SZ_HISTBUF
    ensures After(start, es + [e]) == Happens(After(start, es), e)
  {
    assert (es + [e])[..|es|] == es;
  }

  lemma CommandsSnoc(es: seq<Event>, e: Event)
    ensures Commands(es + [e]) == Commands(es) + if e.Entered? then [Normalized(e.text)] else []
    ensures LastMark(es + [e]) == if Searches(Commands(es), e) then Some(Mark(|Commands(es)|, Reach(Commands(es), e.record)))
                                  else LastMark(es)
    ensures NeverStale(es + [e]) <==>
            NeverStale(es) && (Searches(Commands(es), e) ==> NotStale(Commands(es), LastMark(es)))
  {
    assert (es + [e])[..|es|] == es;
    assert NeverStale(es + [e]) == NotStaleLast(es + [e]);
  }

  /** Before the first command is entered nothing is remembered. */
  lemma {:induction false} NothingYet(es: seq<Event>)
    requires Commands(es) == []
    ensures LastMark(es) == None && NeverStale(es)
  {
    if es != [] {
      NothingYet(es[..|es| - 1]);
      assert NeverStale(es) == NotStaleLast(es);
    }
  }

  // ---------------------------------------------------------------- the buffer holds the commands

  ghost predicate Represents(h: Hist, cmds: seq<string>) {
    Sane(h) && Holds(h.buf, h.full, h.op, cmds) && h.num == |cmds|
  }

  ghost predicate Streamed(h: Hist, t: seq<char>) {
    Window(h.buf, t) && h.op == Cell(|t|) && h.full == (|t| >= SZ_HISTBUF)
  }

  lemma StoreStreams(h: Hist, t: seq<char>, c: char)
    requires Sane(h) && Streamed(h, t)
    ensures Streamed(Store(h, c), t + [c])
  {
    WindowStep(h.buf, t, c);
    CellNext(|t| + 1);
  }

  lemma {:induction false} StoreAllStreams(h: Hist, t: seq<char>, r: string)
    requires Sane(h) && Streamed(h, t)
    ensures Streamed(StoreAll(h, r), t + r) && StoreAll(h, r).num == h.num && StoreAll(h, r).pos == h.pos
  {
    if r == "" {
      assert t + r == t;
    } else {
      var rest, c := r[..|r| - 1], r[|r| - 1];
      StoreAllStreams(h, t, rest);
      StoreStreams(StoreAll(h, rest), t + rest, c);
      assert t + rest + [c] == t + r;
    }
  }

  lemma {:induction false} TrimEndPlain(s: string)
    requires EOS !in s
    ensures EOS !in TrimEnd(s)
  {
    if s != [] && IsSpace(s[|s| - 1]) { TrimEndPlain(s[..|s| - 1]); }
  }

  lemma NormalizedPlain(s: string)
    requires EOS !in s
    ensures EOS !in Normalized(s)
  {
    TrimEndPlain(s);
  }

  /** Entering a command appends it to the commands the buffer holds. */
  lemma EnterAppends(h: Hist, cmds: seq<string>, text: string)
    requires Represents(h, cmds) && EOS !in text
    ensures Represents(Enter(h, text), cmds + [Normalized(text)]) && Enter(h, text).pos == h.pos
  {
    var norm := Normalized(text);
    NormalizedPlain(text);
    StoreAllStreams(h, Stream(cmds), norm + [EOS]);
    StreamSnoc(cmds, norm);
    assert Stream(cmds) + (norm + [EOS]) == Stream(cmds) + norm + [EOS];
  }

  lemma {:induction false} SessionHolds(start: seq<char>, es: seq<Event>)
    requires |start| >= SZ_HISTBUF && CStrings(es)
    ensures Represents(After(start, es), Commands(es))
  {
    if es != [] {
      var before, e := es[..|es| - 1], es[|es| - 1];
      SessionHolds(start, before);
      if e.Entered? { EnterAppends(After(start, before), Commands(before), e.text); }
    }
  }

  // ---------------------------------------------------------------- the position left behind

  /** The position after a search that came c records back. */
  function PositionAt(cmds: seq<string>, c: nat): Search
    requires c <= |cmds|
  {
    Search(c, RecordCell(cmds, c), Cell(|Stream(cmds)|))
  }

  lemma {:induction false} ReachIs(cmds: seq<string>, record: nat, c: nat)
    requires c <= record && (c > 0 ==> Retrievable(cmds, c)) && (c < record ==> !Retrievable(cmds, c + 1))
    ensures Reach(cmds, record) == c
  {
    if c < record {
      if Retrievable(cmds, record) { RetrievableDown(cmds, record, c + 1); }
      ReachIs(cmds, record - 1, c);
    }
  }

  lemma {:induction false} AdvanceLeaves(h: Hist, cmds: seq<string>, c: nat, record: nat)
    requires Represents(h, cmds) && (c > 0 ==> Retrievable(cmds, c)) && c <= record && 1 <= record
    ensures c <= |cmds|
    ensures Advance(h.buf, h.full, h.op, PositionAt(cmds, c), record).1 == PositionAt(cmds, Reach(cmds, record))
    decreases record - c
  {
    if c < record {
      StepFinds(h.buf, h.full, h.op, cmds, c);
      if Retrievable(cmds, c + 1) {
        AdvanceLeaves(h, cmds, c + 1, record);
      } else {
        ReachIs(cmds, record, c);
      }
    } else {
      ReachIs(cmds, record, c);
    }
  }

  /** From a position that is right, a search finds what is promised and leaves the position that Reach names. */
  lemma AskLeaves(h: Hist, cmds: seq<string>, record: int)
    requires Represents(h, cmds) && Remembered(cmds, h.op, h.pos) && Searches(cmds, Asked(record))
    requires h.pos.oldop == h.op ==> h.pos.cur >= 0
    ensures Ask(h, record) == (Promised(cmds, record), h.(pos := PositionAt(cmds, Reach(cmds, record))))
  {
    FindFinds(h.buf, h.full, h.op, cmds, h.pos, record);
    StartAll(cmds);
    AdvanceLeaves(h, cmds, Restart(h.op, h.pos, record).cur, record);
  }

  /** The position after a session. */
  ghost predicate PositionKnown(h: Hist, cmds: seq<string>, m: Option<Mark>) {
    match m
    case None => h.pos == Search(0, 0, -1)
    case Some(m) => m.count <= |cmds| && m.reach <= m.count && h.pos == PositionAt(cmds[..m.count], m.reach)
  }

  /** A position left after the first count commands is right for all of them exactly when it is not stale. */
  lemma RightIffNotStale(h: Hist, cmds: seq<string>, m: Option<Mark>)
    requires Represents(h, cmds) && PositionKnown(h, cmds, m)
    requires m.Some? ==> 1 <= m.value.count
    requires m.Some? && m.value.reach > 0 ==> Retrievable(cmds[..m.value.count], m.value.reach)
    ensures Remembered(cmds, h.op, h.pos) <==> NotStale(cmds, m)
  {
    if m.Some? {
      var (n, c) := (m.value.count, m.value.reach);
      var past, more := cmds[..n], cmds[n..];
      StartAll(past);
      if n == |cmds| {
        assert past == cmds;
      } else if c > 0 {
        assert past + more == cmds;
        StaleIff(past, more, c);
        CellsApart(|Stream(past)|, |Stream(cmds)|);
      }
    }
  }

  lemma CellsApart(a: nat, b: nat)
    ensures Cell(a) != Cell(b) <==> (b - a) % SZ_HISTBUF != 0
  {
  }

  lemma {:induction false} SessionPosition(start: seq<char>, es: seq<Event>)
    requires |start| >= SZ_HISTBUF && CStrings(es) && NeverStale(es)
    ensures PositionKnown(After(start, es), Commands(es), LastMark(es))
  {
    if es != [] {
      assert NotStaleLast(es);
      var before, e := es[..|es| - 1], es[|es| - 1];
      var cmds := Commands(before);
      SessionHolds(start, before);
      SessionPosition(start, before);
      if Searches(cmds, e) {
        RightIffNotStale(After(start, before), cmds, LastMark(before));
        AskLeaves(After(start, before), cmds, e.record);
        assert cmds[..|cmds|] == cmds;
      } else if e.Entered? {
        EnterAppends(After(start, before), cmds, e.text);
        assert LastMark(before).Some? ==> Commands(es)[..LastMark(before).value.count] == cmds[..LastMark(before).value.count];
      }
    }
  }

  // ---------------------------------------------------------------- sessions in which every lookup is right

  /** After the session, every record asked for would be the one promised. */
  ghost predicate RightFor(start: seq<char>, es: seq<Event>)
    requires |start| >= SZ_HISTBUF
  {
    forall r: int :: Ask(After(start, es), r).0 == Promised(Commands(es), r)
  }

  /** At every search of the session the remembered position was right for every record. */
  ghost predicate AllRight(start: seq<char>, es: seq<Event>)
    requires |start| >= SZ_HISTBUF
  {
    forall i :: 0 <= i < |es| && Searches(Commands(es[..i]), es[i]) ==> RightFor(start, es[..i])
  }

  /** After a session without stale searches the next one is right for every record exactly when it is not stale. */
  lemma RightNext(start: seq<char>, es: seq<Event>)
    requires |start| >= SZ_HISTBUF && CStrings(es) && NeverStale(es)
    ensures var h := After(start, es);
            Remembered(Commands(es), h.op, h.pos) <==> NotStale(Commands(es), LastMark(es))
    ensures RightFor(start, es) <==> NotStale(Commands(es), LastMark(es))
    ensures !NotStale(Commands(es), LastMark(es)) ==>
              var r := LastMark(es).value.reach; Ask(After(start, es), r).0 != Promised(Commands(es), r)
  {
    var h, cmds, m := After(start, es), Commands(es), LastMark(es);
    SessionHolds(start, es);
    SessionPosition(start, es);
    RightIffNotStale(h, cmds, m);
    if NotStale(cmds, m) {
      forall r: int ensures Ask(h, r).0 == Promised(cmds, r) {
        FindFinds(h.buf, h.full, h.op, cmds, h.pos, r);
      }
    } else {
      var r := m.value.reach;
      assert Ask(h, r).0 == Some(h.pos.ptr);
      assert Ask(h, r).0 != Promised(cmds, r);
    }
  }

  /** What a lookup after a session does, and whether it is stale. */
  lemma AskSession(start: seq<char>, es: seq<Event>, record: int)
    requires |start| >= SZ_HISTBUF && CStrings(es)
    ensures var (h, cmds, es') := (After(start, es), Commands(es), es + [Asked(record)]);
            var (r, h') := Ask(h, record);
            && (Remembered(cmds, h.op, h.pos) ==> Remembered(cmds, h'.op, h'.pos) && r == Promised(cmds, record))
            && (NeverStale(es') ==> r == Promised(cmds, record))
            && (NeverStale(es') <==>
                NeverStale(es) && (Searches(cmds, Asked(record)) ==> Remembered(cmds, h.op, h.pos)))
  {
    var h, cmds := After(start, es), Commands(es);
    SessionHolds(start, es);
    if Remembered(cmds, h.op, h.pos) { FindFinds(h.buf, h.full, h.op, cmds, h.pos, record); }
    CommandsSnoc(es, Asked(record));
    if NeverStale(es) { RightNext(start, es); }
  }

  /** A command entered after a session: when the remembered position is then right. */
  lemma EnterSession(start: seq<char>, es: seq<Event>, text: string)
    requires |start| >= SZ_HISTBUF && CStrings(es) && EOS !in text
    ensures var (h, cmds, es') := (Enter(After(start, es), text), Commands(es) + [Normalized(text)], es + [Entered(text)]);
            && LastMark(es') == LastMark(es) && NeverStale(es') == NeverStale(es)
            && (NeverStale(es) ==> (Remembered(cmds, h.op, h.pos) <==> NotStale(cmds, LastMark(es'))))
  {
    AfterSnoc(start, es, Entered(text));
    CommandsSnoc(es, Entered(text));
    if NeverStale(es) { RightNext(start, es + [Entered(text)]); }
  }

  /** The remembered search over whole sessions: no search ever starts from a wrong position exactly when each one
      finds the write position moved, or the records it would skip unchanged in length. */
  lemma {:induction false} TransparentRuns(start: seq<char>, es: seq<Event>)
    requires |start| >= SZ_HISTBUF && CStrings(es)
    ensures AllRight(start, es) <==> NeverStale(es)
  {
    if es != [] {
      var before := es[..|es| - 1];
      TransparentRuns(start, before);
      AllRightLast(start, es);
      if NeverStale(before) { RightNext(start, before); }
      assert NeverStale(es) == NotStaleLast(es);
    }
  }

  lemma AllRightLast(start: seq<char>, es: seq<Event>)
    requires |start| >= SZ_HISTBUF && es != []
    ensures var before := es[..|es| - 1];
            AllRight(start, es) <==>
            AllRight(start, before) && (Searches(Commands(before), es[|es| - 1]) ==> RightFor(start, before))
  {
    var n := |es| - 1;
    assert forall i :: 0 <= i < n ==> es[..n][..i] == es[..i] && es[..n][i] == es[i];
  }

  /** In such a session every lookup is answered as promised. */
  lemma {:induction false} EveryLookupPromised(start: seq<char>, es: seq<Event>, i: nat)
    requires |start| >= SZ_HISTBUF && CStrings(es) && NeverStale(es) && i < |es| && es[i].Asked?
    ensures Ask(After(start, es[..i]), es[i].record).0 == Promised(Commands(es[..i]), es[i].record)
    decreases |es|
  {
    assert NotStaleLast(es);
    var before := es[..|es| - 1];
    if i < |es| - 1 {
      EveryLookupPromised(start, before, i);
      assert before[..i] == es[..i];
    } else if Searches(Commands(before), es[i]) {
      RightNext(start, before);
    } else {
      SessionHolds(start, before);
    }
  }

  /** Lookups and commands may be interleaved in any way in which the commands between two searches move the write
      position. */
  lemma {:induction false} MovedNeverStale(es: seq<Event>)
    requires forall i :: 0 <= i < |es| && Searches(Commands(es[..i]), es[i]) ==>
               Moved(Commands(es[..i]), LastMark(es[..i]))
    ensures NeverStale(es)
  {
    if es != [] {
      var n := |es| - 1;
      assert forall i :: 0 <= i < n ==> es[..n][..i] == es[..i] && es[..n][i] == es[i];
      MovedNeverStale(es[..n]);
      assert NotStaleLast(es);
    }
  }

  // ---------------------------------------------------------------- searches end, right or wrong

  /** How far a search can still back up from a cell; the cell after the write position is skipped, once. */
  function Left(full: bool, op: nat, ptr: int): (n: int)
    ensures ptr >= 0 ==> n >= 0
    ensures ptr < SZ_HISTBUF ==> n <= SZ_HISTBUF + 1
  {
    if !full then ptr
    else if Cell(op - ptr) == SZ_HISTBUF - 1 then SZ_HISTBUF + 1
    else SZ_HISTBUF - Cell(op - ptr)
  }

  lemma {:induction false} BackFarther(buf: seq<char>, full: bool, op: nat, ip: nat)
    requires |buf| >= SZ_HISTBUF && op < SZ_HISTBUF && ip < SZ_HISTBUF
    ensures var r := BackToEos(buf, full, op, ip);
            r.Some? ==> if full then Cell(op - r.value) > Cell(op - ip) else r.value < ip
    decreases if full then Cell(ip - op - 1) else ip
  {
    if ip > 0 || full {
      var ip' := if ip == 0 then SZ_HISTBUF - 1 else ip - 1;
      OneFarther(op, ip, ip');
      if ip' != op && buf[ip'] != EOS { BackFarther(buf, full, op, ip'); }
    }
  }

  lemma OneFarther(op: nat, ip: nat, ip': nat)
    requires op < SZ_HISTBUF && ip < SZ_HISTBUF && ip' == if ip == 0 then SZ_HISTBUF - 1 else ip - 1
    ensures Cell(op - ip') == if Cell(op - ip) == SZ_HISTBUF - 1 then 0 else Cell(op - ip) + 1
    ensures Cell(op - ip') == 0 <==> ip' == op
  {
  }

  lemma StepNearer(buf: seq<char>, full: bool, op: nat, ip: nat)
    requires |buf| >= SZ_HISTBUF && op < SZ_HISTBUF && ip < SZ_HISTBUF
    ensures var r := StepBack(buf, full, op, ip);
            r.Some? ==> Left(full, op, r.value) < Left(full, op, ip)
  {
    if ip > 0 || full {
      var ip' := if ip == 0 then SZ_HISTBUF - 1 else ip - 1;
      BackFarther(buf, full, op, ip');
      if full {
        OneFarther(op, ip, ip');
        var e := BackToEos(buf, full, op, ip');
        if e.Some? { OneFarther(op, if e.value + 1 >= SZ_HISTBUF then 0 else e.value + 1, e.value); }
      }
    }
  }

  /** A search that succeeds stands at the record asked for; asking for one record after the other backs up. */
  lemma AskNearer(h: Hist, record: int)
    requires Sane(h) && record >= 1 && Ask(h, record).0.Some?
    ensures var pos := Ask(h, record).1.pos;
            && pos.cur == record && pos.oldop == h.op && 0 <= pos.ptr < SZ_HISTBUF
            && (h.pos.oldop == h.op && h.pos.cur == record - 1 ==>
                  Left(h.full, h.op, pos.ptr) < Left(h.full, h.op, h.pos.ptr))
  {
    AdvanceTo(h.buf, h.full, h.op, Restart(h.op, h.pos, record), record);
    if h.pos.oldop == h.op && h.pos.cur == record - 1 { StepNearer(h.buf, h.full, h.op, h.pos.ptr); }
  }

  lemma {:induction false} AdvanceTo(buf: seq<char>, full: bool, op: nat, s: Search, record: int)
    requires |buf| >= SZ_HISTBUF && op < SZ_HISTBUF && 0 <= s.ptr < SZ_HISTBUF && s.cur <= record
    ensures var (r, s') := Advance(buf, full, op, s, record);
            r.Some? ==> s'.cur == record
    decreases record - s.cur
  {
    if s.cur < record {
      var ip := StepBack(buf, full, op, s.ptr);
      if ip.Some? { AdvanceTo(buf, full, op, s.(cur := s.cur + 1, ptr := ip.value), record); }
    }
  }

  // ---------------------------------------------------------------- a session that goes wrong

  /** A command line of the greatest length put_history accepts, without the newline. */
  function LongCommand(): string {
    seq(SZ_CMDBLK - 2, i => 'a')
  }

  /** Enter a command, look it up, enter four commands of the greatest length. */
  function FourLong(): seq<Event> {
    [Entered("ls"), Asked(1)] + seq(4, i => Entered(LongCommand()))
  }

  lemma LongNormalized()
    ensures Normalized(LongCommand()) == LongCommand() + "\n" && Normalized("ls") == "ls\n"
  {
    assert TrimEnd("ls") == "ls" && TrimEnd(LongCommand()) == LongCommand();
  }

  /** A search that goes wrong: the newest command is then looked up at the first cell of the buffer, where the last
      characters of the newest command are, though it starts at cell 6148. */
  lemma WrongRecord(start: seq<char>)
    requires |start| >= SZ_HISTBUF
    ensures var h := After(start, FourLong());
            Ask(h, 1).0 == Some(0) && Promised(Commands(FourLong()), 1) == Some(6148)
  {
    FourLongSession();
    OldestCell(start, FourLong());
  }

  lemma OldestCell(start: seq<char>, es: seq<Event>)
    requires |start| >= SZ_HISTBUF && CStrings(es) && NeverStale(es)
    requires LastMark(es) == Some(Mark(1, 1)) && |Stream(Commands(es))| == 8196 && |Stream(Commands(es)[..1])| == 4
    ensures Ask(After(start, es), 1).0 == Some(0)
  {
    SessionHolds(start, es);
    SessionPosition(start, es);
    StartAll(Commands(es)[..1]);
    RememberedAnswer(After(start, es));
  }

  lemma RememberedAnswer(h: Hist)
    requires Sane(h) && h.pos.oldop == h.op && h.num > 0 && h.pos.cur > 0
    ensures Ask(h, h.pos.cur).0 == Some(h.pos.ptr)
  {
  }

  lemma FourLongSession()
    ensures var all := Commands(FourLong());
            && CStrings(FourLong()) && NeverStale(FourLong()) && LastMark(FourLong()) == Some(Mark(1, 1))
            && |all| == 5 && all[..1] == ["ls\n"] && |Stream(all)| == 8196 && |Stream(all[..1])| == 4
            && Promised(all, 1) == Some(6148)
  {
    var long := Normalized(LongCommand());
    LsSession();
    LongNormalized();
    FourEntered([Entered("ls"), Asked(1)], Entered(LongCommand()));
    assert FourLong() == [Entered("ls"), Asked(1)] + [Entered(LongCommand()), Entered(LongCommand()),
                                                      Entered(LongCommand()), Entered(LongCommand())];
    FourStored(["ls\n"], long);
    assert Commands(FourLong())[..1] == ["ls\n"];
  }

  lemma LsSession()
    ensures var es := [Entered("ls"), Asked(1)];
            Commands(es) == ["ls\n"] && NeverStale(es) && LastMark(es) == Some(Mark(1, 1)) && |Stream(["ls\n"])| == 4
  {
    LsEntered();
    CommandsSnoc([Entered("ls")], Asked(1));
    assert [Entered("ls")] + [Asked(1)] == [Entered("ls"), Asked(1)];
    ReachIs(["ls\n"], 1, 1);
  }

  lemma LsEntered()
    ensures var es := [Entered("ls")];
            Commands(es) == ["ls\n"] && NeverStale(es) && LastMark(es) == None && |Stream(["ls\n"])| == 4
  {
    LongNormalized();
    CommandsSnoc([], Entered("ls"));
    assert [] + [Entered("ls")] == [Entered("ls")];
    StreamSnoc([], "ls\n");
    assert [] + ["ls\n"] == ["ls\n"];
  }

  lemma FourEntered(es: seq<Event>, a: Event)
    requires a.Entered?
    ensures var all := es + [a, a, a, a];
            var c := Normalized(a.text);
            && Commands(all) == Commands(es) + [c, c, c, c] && LastMark(all) == LastMark(es)
            && (NeverStale(all) <==> NeverStale(es))
  {
    CommandsSnoc(es, a);
    CommandsSnoc(es + [a], a);
    assert es + [a] + [a] == es + [a, a];
    CommandsSnoc(es + [a, a], a);
    assert es + [a, a] + [a] == es + [a, a, a];
    CommandsSnoc(es + [a, a, a], a);
    assert es + [a, a, a] + [a] == es + [a, a, a, a];
  }

  lemma FourStored(cmds: seq<string>, c: string)
    ensures var all := cmds + [c, c, c, c];
            && |Stream(all)| == |Stream(cmds)| + 4 * (|c| + 1)
            && Fill(all, 1) == |c| + 1
  {
    var c1, c2, c3, c4 := cmds + [c], cmds + [c, c], cmds + [c, c, c], cmds + [c, c, c, c];
    StreamSnoc(cmds, c);
    StreamSnoc(c1, c);
    assert c1 + [c] == c2;
    StreamSnoc(c2, c);
    assert c2 + [c] == c3;
    StreamSnoc(c3, c);
    assert c3 + [c] == c4;
    assert c4[..|c4| - 1] == c3;
  }
}
