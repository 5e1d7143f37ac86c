/** The command history as a list of commands, and the search through the circular character buffer as functions
    of the buffer's contents. Source: pkg/cl/history.c. */
module HistorySpec {
  import opened Wrappers

  const SZ_CMDBLK := 2048
  const SZ_HISTBUF := 8192

  // ---------------------------------------------------------------- commands

  predicate IsSpace(c: char) {
    c in {' ', '\t', '\n', '\r', 11 as char, 12 as char}
  }

  function TrimEnd(s: string): string {
    if s != [] && IsSpace(s[|s| - 1]) then TrimEnd(s[..|s| - 1]) else s
  }

  /** A command as put_history stores it: exactly one newline at the end. */
  function Normalized(s: string): string {
    TrimEnd(s) + "\n"
  }

  /** The text of a command ends at k: white space from there on, and none just before. */
  ghost predicate EndsAt(s: string, k: nat) {
    && k <= |s| && (forall i :: k <= i < |s| ==> s[i] == ' ' || 9 <= s[i] as int <= 13)
    && (k > 0 ==> s[k - 1] != ' ' && !(9 <= s[k - 1] as int <= 13))
  }

  lemma {:induction false} TrimEndEnds(s: string)
    ensures TrimEnd(s) <= s && EndsAt(s, |TrimEnd(s)|)
  {
    if s != [] && IsSpace(s[|s| - 1]) {
      var r := s[..|s| - 1];
      TrimEndEnds(r);
      forall i | |TrimEnd(s)| <= i < |s| ensures s[i] == ' ' || 9 <= s[i] as int <= 13 {
        if i < |r| { assert s[i] == r[i]; }
      }
    }
  }

  /** What is stored is the command up to its last character that is no white space, and one newline. */
  lemma NormalizedIff(s: string, r: string)
    ensures r == Normalized(s) <==> exists k: nat :: EndsAt(s, k) && r == s[..k] + "\n"
  {
    TrimEndEnds(s);
    var n := |TrimEnd(s)|;
    forall k: nat ensures EndsAt(s, k) ==> k == n {}
    assert s[..n] == TrimEnd(s);
  }

  /** Everything ever written to the buffer, in order; EOS ends every record. */
  function Stream(cmds: seq<string>): seq<char>
    decreases cmds, 1
  {
    if cmds == [] then [] else StreamWithLast(cmds)
  }

  function StreamWithLast(cmds: seq<string>): seq<char>
    requires cmds != []
    decreases cmds, 0
  {
    Stream(cmds[..|cmds| - 1]) + cmds[|cmds| - 1] + [EOS]
  }

  ghost predicate Records(cmds: seq<string>) {
    forall i :: 0 <= i < |cmds| ==> EOS !in cmds[i]
  }

  /** Stream position at which record m (counting from 0, oldest first) starts. */
  function Start(cmds: seq<string>, m: nat): nat
    requires m <= |cmds|
  {
    |Stream(cmds[..m])|
  }

  /** Cells taken by the k newest records and their EOS marks. */
  function Fill(cmds: seq<string>, k: nat): int
    requires k <= |cmds|
  {
    |Stream(cmds)| - Start(cmds, |cmds| - k)
  }

  /** The k-th newest command can be found: it exists and, once the buffer has wrapped, the k newest records
      leave at least two cells free. */
  predicate Retrievable(cmds: seq<string>, k: int) {
    1 <= k <= |cmds| && (|Stream(cmds)| < SZ_HISTBUF || Fill(cmds, k) <= SZ_HISTBUF - 2)
  }

  /** Cell of the buffer that holds stream position p. */
  function Cell(p: int): (c: nat)
    ensures c < SZ_HISTBUF
  {
    p % SZ_HISTBUF
  }

  function RecordCell(cmds: seq<string>, k: nat): nat
    requires k <= |cmds|
  {
    Cell(Start(cmds, |cmds| - k))
  }

  // ---------------------------------------------------------------- the stream

  lemma StreamSnoc(cmds: seq<string>, c: string)
    ensures Stream(cmds + [c]) == Stream(cmds) + c + [EOS]
  {
    assert (cmds + [c])[..|cmds|] == cmds;
    assert Stream(cmds + [c]) == StreamWithLast(cmds + [c]);
  }

  lemma {:induction false} StreamPrefix(cmds: seq<string>, m: nat)
    requires m <= |cmds|
    ensures Stream(cmds[..m]) <= Stream(cmds)
    decreases |cmds|
  {
    if m == |cmds| {
      assert cmds[..m] == cmds;
    } else {
      var rest := cmds[..|cmds| - 1];
      assert rest[..m] == cmds[..m];
      assert Stream(cmds) == StreamWithLast(cmds);
      StreamPrefix(rest, m);
    }
  }

  /** Record m occupies [Start(m), Start(m + 1)), EOS last. */
  lemma RecordAt(cmds: seq<string>, m: nat)
    requires m < |cmds|
    ensures Start(cmds, m + 1) == Start(cmds, m) + |cmds[m]| + 1 <= |Stream(cmds)|
    ensures Stream(cmds)[Start(cmds, m)..Start(cmds, m + 1)] == cmds[m] + [EOS]
  {
    assert cmds[..m + 1] == cmds[..m] + [cmds[m]];
    StreamSnoc(cmds[..m], cmds[m]);
    StreamPrefix(cmds, m + 1);
    assert Stream(cmds)[Start(cmds, m)..Start(cmds, m + 1)] == Stream(cmds[..m + 1])[Start(cmds, m)..];
  }

  lemma RecordChar(cmds: seq<string>, m: nat, i: nat)
    requires m < |cmds| && i <= |cmds[m]|
    ensures Start(cmds, m) + i < Start(cmds, m + 1) == Start(cmds, m) + |cmds[m]| + 1 <= |Stream(cmds)|
    ensures Stream(cmds)[Start(cmds, m) + i] == if i < |cmds[m]| then cmds[m][i] else EOS
  {
    RecordAt(cmds, m);
    assert Stream(cmds)[Start(cmds, m)..Start(cmds, m + 1)][i] == (cmds[m] + [EOS])[i];
  }

  lemma {:induction false} StartMonotone(cmds: seq<string>, i: nat, j: nat)
    requires i <= j <= |cmds|
    ensures Start(cmds, i) <= Start(cmds, j)
    decreases j - i
  {
    if i < j {
      RecordAt(cmds, i);
      StartMonotone(cmds, i + 1, j);
    }
  }

  lemma StartAll(cmds: seq<string>)
    ensures Start(cmds, |cmds|) == |Stream(cmds)| && Start(cmds, 0) == 0
  {
    assert cmds[..|cmds|] == cmds;
  }

  lemma RetrievableDown(cmds: seq<string>, k: int, j: int)
    requires Retrievable(cmds, k) && 1 <= j <= k
    ensures Retrievable(cmds, j)
  {
    StartMonotone(cmds, |cmds| - k, |cmds| - j);
  }

  // ---------------------------------------------------------------- the buffer

  /** The buffer holds the newest SZ_HISTBUF characters of the stream t. */
  ghost predicate Window(buf: seq<char>, t: seq<char>) {
    |buf| >= SZ_HISTBUF &&
    forall p :: 0 <= p < |t| && |t| - SZ_HISTBUF <= p ==> buf[Cell(p)] == t[p]
  }

  lemma WindowStep(buf: seq<char>, t: seq<char>, c: char)
    requires Window(buf, t)
    ensures Window(buf[Cell(|t|) := c], t + [c])
  {
  }

  // ---------------------------------------------------------------- searching backwards

  /** The inner loop of find_history: back up until an EOS (its cell), or off the front of a buffer that never
      wrapped (-1); None when the search comes to op. */
  function BackToEos(buf: seq<char>, full: bool, op: nat, ip: nat): (r: Option<int>)
    requires |buf| >= SZ_HISTBUF && op < SZ_HISTBUF && ip < SZ_HISTBUF
    ensures r.Some? ==> -1 <= r.value < SZ_HISTBUF && (r.value == -1 ==> !full)
    decreases if full then Cell(ip - op - 1) else ip
  {
    if ip == 0 && !full then Some(-1)
    else
      var ip' := if ip == 0 then SZ_HISTBUF - 1 else ip - 1;
      if ip' == op then None
      else if buf[ip'] == EOS then Some(ip')
      else BackToEos(buf, full, op, ip')
  }

  /** One turn of the outer loop: from the first cell of a record to the first cell of the record before it. */
  function StepBack(buf: seq<char>, full: bool, op: nat, ip: nat): (r: Option<nat>)
    requires |buf| >= SZ_HISTBUF && op < SZ_HISTBUF && ip < SZ_HISTBUF
    ensures r.Some? ==> r.value < SZ_HISTBUF
  {
    if ip == 0 && !full then None
    else
      match BackToEos(buf, full, op, if ip == 0 then SZ_HISTBUF - 1 else ip - 1)
      case None => None
      case Some(e) => Some(if e + 1 >= SZ_HISTBUF then 0 else e + 1)
  }

  /** The search position find_history keeps between calls: ptr is the first cell of record number cur, found when
      op_hist was oldop (-1: never). */
  datatype Search = Search(cur: int, ptr: int, oldop: int)

  /** The outer loop. The search position moves with it, also when the search fails. */
  function Advance(buf: seq<char>, full: bool, op: nat, s: Search, record: int): (r: (Option<nat>, Search))
    requires |buf| >= SZ_HISTBUF && op < SZ_HISTBUF && 0 <= s.ptr < SZ_HISTBUF
    ensures 0 <= r.1.ptr < SZ_HISTBUF && r.1.oldop == s.oldop && (r.0.Some? ==> r.0.value < SZ_HISTBUF)
    decreases record - s.cur
  {
    if s.cur >= record then (Some(s.ptr), s)
    else
      match StepBack(buf, full, op, s.ptr)
      case None => (None, s)
      case Some(ip) => Advance(buf, full, op, s.(cur := s.cur + 1, ptr := ip), record)
  }

  /** Where the search starts: at the remembered record, unless the buffer was written to or the record wanted is
      a newer one. */
  function Restart(op: nat, s: Search, record: int): Search {
    if s.oldop != op || record < s.cur then Search(0, op, op) else s
  }

  predicate SearchOk(s: Search) {
    s.oldop == -1 || 0 <= s.ptr < SZ_HISTBUF
  }

  /** find_history. */
  function Find(buf: seq<char>, full: bool, op: nat, histnum: nat, s: Search, record: int)
    : (r: (Option<nat>, Search))
    requires |buf| >= SZ_HISTBUF && op < SZ_HISTBUF && SearchOk(s)
    ensures SearchOk(r.1) && (r.0.Some? ==> r.0.value < SZ_HISTBUF)
    ensures histnum > 0 && record > 0 ==> r.1.oldop == op
  {
    if histnum == 0 || record <= 0 then (None, s)
    else Advance(buf, full, op, Restart(op, s, record), record)
  }

  /** A search without memory. */
  function FindAfresh(buf: seq<char>, full: bool, op: nat, histnum: nat, record: int): Option<nat>
    requires |buf| >= SZ_HISTBUF && op < SZ_HISTBUF
  {
    Find(buf, full, op, histnum, Search(0, op, -1), record).0
  }

  // ---------------------------------------------------------------- what the search finds

  /** The buffer, its write position and its wrap flag after the commands cmds. */
  ghost predicate Holds(buf: seq<char>, full: bool, op: nat, cmds: seq<string>) {
    && Records(cmds) && Window(buf, Stream(cmds))
    && op == Cell(|Stream(cmds)|) && full == (|Stream(cmds)| >= SZ_HISTBUF)
  }

  /** From inside record m the inner loop backs up to the EOS before it, if that EOS is not too old. */
  lemma {:induction false} BackFinds(buf: seq<char>, full: bool, op: nat, cmds: seq<string>, m: nat, i: nat)
    requires Holds(buf, full, op, cmds) && m < |cmds| && i <= |cmds[m]|
    requires |Stream(cmds)| - SZ_HISTBUF < Start(cmds, m) + i
    ensures BackToEos(buf, full, op, Cell(Start(cmds, m) + i))
              == if m == 0 && !full then Some(-1)
                 else if full && Start(cmds, m) - 1 <= |Stream(cmds)| - SZ_HISTBUF then None
                 else Some(Cell(Start(cmds, m) - 1) as int)
    decreases i
  {
    var t := Stream(cmds);
    var p := Start(cmds, m) + i;
    RecordChar(cmds, m, i);
    if i > 0 {
      RecordChar(cmds, m, i - 1);
      assert t[p - 1] == cmds[m][i - 1] != EOS;
      BackStep(buf, full, op, t, p);
      if |t| - SZ_HISTBUF < p - 1 { BackFinds(buf, full, op, cmds, m, i - 1); }
    } else if m > 0 {
      RecordChar(cmds, m - 1, |cmds[m - 1]|);
      BackStep(buf, full, op, t, p);
    } else {
      StartAll(cmds);
    }
  }

  /** One step back in the buffer is one step back in the stream. */
  lemma BackStep(buf: seq<char>, full: bool, op: nat, t: seq<char>, p: nat)
    requires Window(buf, t) && op == Cell(|t|) && full == (|t| >= SZ_HISTBUF)
    requires 0 < p < |t| && |t| - SZ_HISTBUF < p
    ensures BackToEos(buf, full, op, Cell(p))
              == if p - 1 == |t| - SZ_HISTBUF then None
                 else if t[p - 1] == EOS then Some(Cell(p - 1) as int)
                 else BackToEos(buf, full, op, Cell(p - 1))
  {
    assert buf[Cell(p - 1)] == t[p - 1];
  }

  lemma CellNext(p: int)
    ensures Cell(p) == if Cell(p - 1) + 1 >= SZ_HISTBUF then 0 else Cell(p - 1) + 1
    ensures Cell(p - 1) == if Cell(p) == 0 then SZ_HISTBUF - 1 else Cell(p) - 1
  {
  }

  /** One turn of the outer loop, started at the k-th newest record, finds the next older one exactly when that
      one is retrievable. */
  lemma StepFinds(buf: seq<char>, full: bool, op: nat, cmds: seq<string>, k: nat)
    requires Holds(buf, full, op, cmds) && (k == 0 || Retrievable(cmds, k))
    ensures k <= |cmds|
    ensures StepBack(buf, full, op, RecordCell(cmds, k))
              == if Retrievable(cmds, k + 1) then Some(RecordCell(cmds, k + 1)) else None
  {
    StartAll(cmds);
    if k < |cmds| { OlderFound(buf, full, op, cmds, |cmds| - k - 1); }
  }

  /** One turn, from the record after record m. */
  lemma OlderFound(buf: seq<char>, full: bool, op: nat, cmds: seq<string>, m: nat)
    requires Holds(buf, full, op, cmds) && m < |cmds|
    requires full ==> |Stream(cmds)| - SZ_HISTBUF < Start(cmds, m + 1) - 1
    ensures StepBack(buf, full, op, Cell(Start(cmds, m + 1)))
              == if !full || |Stream(cmds)| - Start(cmds, m) <= SZ_HISTBUF - 2 then Some(Cell(Start(cmds, m))) else None
  {
    RecordAt(cmds, m);
    BackFinds(buf, full, op, cmds, m, |cmds[m]|);
    StartAll(cmds);
    StepFrom(buf, full, op, m == 0, Start(cmds, m), Start(cmds, m + 1), |Stream(cmds)|);
  }

  lemma StepFrom(buf: seq<char>, full: bool, op: nat, oldest: bool, before: nat, start: nat, total: nat)
    requires |buf| >= SZ_HISTBUF && op < SZ_HISTBUF && before < start <= total && full == (total >= SZ_HISTBUF)
    requires oldest ==> before == 0
    requires BackToEos(buf, full, op, Cell(start - 1))
             == if oldest && !full then Some(-1)
                else if full && before - 1 <= total - SZ_HISTBUF then None
                else Some(Cell(before - 1) as int)
    ensures StepBack(buf, full, op, Cell(start))
            == if !full || total - before <= SZ_HISTBUF - 2 then Some(Cell(before)) else None
  {
    CellNext(start);
    CellNext(before);
  }

  /** The remembered position, if it is going to be used, is right for the commands cmds. */
  ghost predicate Remembered(cmds: seq<string>, op: nat, s: Search) {
    s.oldop == op ==> Exact(cmds, op, s)
  }

  ghost predicate Exact(cmds: seq<string>, op: nat, s: Search) {
    || (s.cur == 0 && s.ptr == op)
    || (Retrievable(cmds, s.cur) && s.ptr == RecordCell(cmds, s.cur))
  }

  /** What find_history promises. */
  function Promised(cmds: seq<string>, record: int): Option<nat> {
    if Retrievable(cmds, record) then Some(RecordCell(cmds, record)) else None
  }

  lemma {:induction false} AdvanceFinds(buf: seq<char>, full: bool, op: nat, cmds: seq<string>, s: Search, record: int)
    requires Holds(buf, full, op, cmds) && s.oldop == op && Exact(cmds, op, s) && s.cur <= record && 1 <= record
    ensures 0 <= s.ptr < SZ_HISTBUF
    ensures var (r, s') := Advance(buf, full, op, s, record);
            r == Promised(cmds, record) && s'.oldop == op && Exact(cmds, op, s') && 0 <= s'.ptr < SZ_HISTBUF
    decreases record - s.cur
  {
    StartAll(cmds);
    if s.cur < record {
      StepFinds(buf, full, op, cmds, s.cur);
      if Retrievable(cmds, s.cur + 1) {
        AdvanceFinds(buf, full, op, cmds, s.(cur := s.cur + 1, ptr := RecordCell(cmds, s.cur + 1)), record);
      } else if Retrievable(cmds, record) {
        RetrievableDown(cmds, record, s.cur + 1);
      }
    }
  }

  /** find_history is right whenever the remembered position is, and leaves a right one behind. */
  lemma FindFinds(buf: seq<char>, full: bool, op: nat, cmds: seq<string>, s: Search, record: int)
    requires Holds(buf, full, op, cmds) && SearchOk(s) && Remembered(cmds, op, s)
    ensures var (r, s') := Find(buf, full, op, |cmds|, s, record);
            r == Promised(cmds, record) && SearchOk(s') && Remembered(cmds, op, s')
  {
    if |cmds| > 0 && record > 0 {
      AdvanceFinds(buf, full, op, cmds, Restart(op, s, record), record);
    }
  }

  /** A position as find_history leaves it: record number 0 is the cell next to be written. */
  ghost predicate WasLookedUp(s: Search) {
    s.oldop >= 0 && 0 <= s.ptr < SZ_HISTBUF && s.cur >= 0 && (s.cur == 0 ==> s.ptr == s.oldop)
  }

  /** Remembering the position is transparent, for every later lookup, exactly when the position is still right. */
  lemma TransparentIffRight(buf: seq<char>, full: bool, op: nat, cmds: seq<string>, s: Search)
    requires Holds(buf, full, op, cmds) && cmds != [] && WasLookedUp(s)
    ensures (forall r: int :: Find(buf, full, op, |cmds|, s, r).0 == FindAfresh(buf, full, op, |cmds|, r))
            <==> Remembered(cmds, op, s)
  {
    forall r: int ensures FindAfresh(buf, full, op, |cmds|, r) == Promised(cmds, r) {
      FindFinds(buf, full, op, cmds, Search(0, op, -1), r);
    }
    if Remembered(cmds, op, s) {
      forall r: int ensures Find(buf, full, op, |cmds|, s, r).0 == FindAfresh(buf, full, op, |cmds|, r) {
        FindFinds(buf, full, op, cmds, s, r);
      }
    } else {
      var r := s.cur;
      assert Find(buf, full, op, |cmds|, s, r).0 == Some(s.ptr);
      assert Find(buf, full, op, |cmds|, s, r).0 != FindAfresh(buf, full, op, |cmds|, r);
    }
  }

  /** A position remembered for cmds, after further commands: it goes wrong exactly when these filled the buffer a
      whole number of times over and the records it skips do not take the same room as before. */
  lemma StaleIff(cmds: seq<string>, more: seq<string>, c: nat)
    requires Retrievable(cmds, c) && more != []
    ensures var all := cmds + more;
            var s := Search(c, RecordCell(cmds, c), Cell(|Stream(cmds)|));
            Remembered(all, Cell(|Stream(all)|), s) <==>
            || (|Stream(all)| - |Stream(cmds)|) % SZ_HISTBUF != 0
            || (Retrievable(all, c) && Fill(all, c) == Fill(cmds, c))
  {
    var all := cmds + more;
    FillBounds(cmds, c);
    if (|Stream(all)| - |Stream(cmds)|) % SZ_HISTBUF == 0 {
      GrewByWhole(cmds, more);
      if Retrievable(all, c) {
        FillBounds(all, c);
        SameCellIff(|Stream(cmds)|, |Stream(all)|, Fill(cmds, c), Fill(all, c));
      }
    } else {
      DifferentCells(cmds, more);
    }
  }

  lemma FillBounds(cmds: seq<string>, k: nat)
    requires 1 <= k <= |cmds|
    ensures 0 < Fill(cmds, k) <= |Stream(cmds)| && RecordCell(cmds, k) == Cell(|Stream(cmds)| - Fill(cmds, k))
  {
    RecordAt(cmds, |cmds| - k);
    StartMonotone(cmds, |cmds| - k + 1, |cmds|);
    StartAll(cmds);
  }

  lemma SameCellIff(a: nat, b: nat, f: nat, g: nat)
    requires a <= b && (b - a) % SZ_HISTBUF == 0 && 0 < f <= a && 0 < g <= b && f < SZ_HISTBUF && g < SZ_HISTBUF
    ensures Cell(a - f) == Cell(b - g) <==> f == g
  {
  }

  lemma DifferentCells(cmds: seq<string>, more: seq<string>)
    requires (|Stream(cmds + more)| - |Stream(cmds)|) % SZ_HISTBUF != 0
    ensures Cell(|Stream(cmds + more)|) != Cell(|Stream(cmds)|)
  {
  }

  lemma GrewByWhole(cmds: seq<string>, more: seq<string>)
    requires more != []
    requires (|Stream(cmds + more)| - |Stream(cmds)|) % SZ_HISTBUF == 0
    ensures |Stream(cmds + more)| >= |Stream(cmds)| + SZ_HISTBUF
    ensures Cell(|Stream(cmds + more)|) == Cell(|Stream(cmds)|)
  {
    var all := cmds + more;
    assert all[..|cmds|] == cmds;
    RecordAt(all, |cmds|);
    WholeTurns(|Stream(cmds)|, |Stream(all)|);
  }

  lemma WholeTurns(a: nat, b: nat)
    requires a < b && (b - a) % SZ_HISTBUF == 0
    ensures b >= a + SZ_HISTBUF && Cell(b) == Cell(a)
  {
  }

  // ---------------------------------------------------------------- fetching

  /** The loop of fetch_history: at most n characters, up to EOS. */
  function Fetched(buf: seq<char>, ip: nat, n: int): string
    requires |buf| >= SZ_HISTBUF && ip < SZ_HISTBUF
    decreases n
  {
    if n <= 0 || buf[ip] == EOS then ""
    else [buf[ip]] + Fetched(buf, if ip + 1 >= SZ_HISTBUF then 0 else ip + 1, n - 1)
  }

  function Take(s: string, n: int): string {
    if n <= 0 then "" else if n < |s| then s[..n] else s
  }

  /** It is the longest beginning of s that has at most n characters. */
  lemma TakeIff(s: string, n: int, r: string)
    ensures r == Take(s, n) <==> r <= s && (|r| == |s| <= n || |r| == n || n < 0 == |r|)
  {
  }

  /** The cells from start on hold the string s and an EOS. */
  ghost predicate HoldsString(buf: seq<char>, start: nat, s: string) {
    |buf| >= SZ_HISTBUF && EOS !in s && buf[Cell(start + |s|)] == EOS
    && forall j :: 0 <= j < |s| ==> buf[Cell(start + j)] == s[j]
  }

  lemma {:induction false} FetchedTail(buf: seq<char>, start: nat, s: string, i: nat, n: int)
    requires i <= |s| && HoldsString(buf, start, s)
    ensures Fetched(buf, Cell(start + i), n) == Take(s[i..], n)
    decreases n
  {
    if n > 0 && i < |s| {
      FetchedTail(buf, start, s, i + 1, n - 1);
      FetchedStep(buf, start + i, s, i, n);
    } else {
      FetchedEnd(buf, start + i, s, i, n);
    }
  }

  lemma BufferChar(buf: seq<char>, full: bool, op: nat, cmds: seq<string>, m: nat, i: nat)
    requires Holds(buf, full, op, cmds) && m < |cmds| && i <= |cmds[m]|
    requires |Stream(cmds)| - SZ_HISTBUF <= Start(cmds, m) + i
    ensures buf[Cell(Start(cmds, m) + i)] == if i < |cmds[m]| then cmds[m][i] else EOS
  {
    RecordChar(cmds, m, i);
    assert buf[Cell(Start(cmds, m) + i)] == Stream(cmds)[Start(cmds, m) + i];
  }

  lemma FetchedEnd(buf: seq<char>, p: nat, s: string, i: nat, n: int)
    requires |buf| >= SZ_HISTBUF && i <= |s| && (n <= 0 || (i == |s| && buf[Cell(p)] == EOS))
    ensures Fetched(buf, Cell(p), n) == Take(s[i..], n)
  {
  }

  lemma FetchedStep(buf: seq<char>, p: nat, s: string, i: nat, n: int)
    requires |buf| >= SZ_HISTBUF && n > 0 && i < |s| && buf[Cell(p)] == s[i] != EOS
    requires Fetched(buf, Cell(p + 1), n - 1) == Take(s[i + 1..], n - 1)
    ensures Fetched(buf, Cell(p), n) == Take(s[i..], n)
  {
    CellNext(p + 1);
    TakeStep(s, i, n);
  }

  lemma TakeStep(s: string, i: nat, n: int)
    requires n > 0 && i < |s|
    ensures Take(s[i..], n) == [s[i]] + Take(s[i + 1..], n - 1)
  {
  }

  /** From the cell find_history names, the k-th newest command is read back, never a partly overwritten one. */
  lemma FetchedIsCommand(buf: seq<char>, full: bool, op: nat, cmds: seq<string>, k: int, n: int)
    requires Holds(buf, full, op, cmds) && Retrievable(cmds, k)
    ensures Fetched(buf, RecordCell(cmds, k), n) == Take(cmds[|cmds| - k], n)
  {
    var m := |cmds| - k;
    var start, s := Start(cmds, m), cmds[m];
    RecordAt(cmds, m);
    BufferChar(buf, full, op, cmds, m, |s|);
    forall j | 0 <= j < |s| ensures buf[Cell(start + j)] == s[j] { BufferChar(buf, full, op, cmds, m, j); }
    FetchedTail(buf, start, s, 0, n);
    assert s[0..] == s;
  }

  // ---------------------------------------------------------------- numbers

  /** The record number that the directives "^n" and "^-n" stand for. */
  function RecordOf(histnum: int, relative: bool, n: nat): int {
    if relative then n else histnum - n + 1
  }

  /** "^n" names the n-th command ever stored, however many were stored since; it fails once that one is gone. */
  lemma StableNumbers(cmds: seq<string>, more: seq<string>, n: nat)
    requires Retrievable(cmds + more, RecordOf(|cmds + more|, false, n)) && n <= |cmds|
    ensures 1 <= n && (cmds + more)[|cmds + more| - RecordOf(|cmds + more|, false, n)] == cmds[n - 1]
  {
  }

  /** The number show_history prints beside the k-th newest command. */
  function ShownNumber(histnum: int, k: nat): int {
    (histnum - (k - 1)) % 1000
  }

  /** Typing the number shown beside a command names that command exactly as long as fewer than 1000 commands
      had been stored before and with it. */
  lemma ShownNumberNames(cmds: seq<string>, k: nat)
    requires 1 <= k <= |cmds|
    ensures RecordOf(|cmds|, false, ShownNumber(|cmds|, k)) == k <==> |cmds| - k + 1 < 1000
  {
  }
}
