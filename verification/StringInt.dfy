/** "string + integer": the number at the right end of a string is increased in place, keeping its width.
    Source: pkg/cl/binop.c. */
module StringInt {
  import opened Arith
  import opened Wrappers

  // ---------------------------------------------------------------- decimal numbers

  predicate IsDigit(c: char) {
    '0' <= c <= '9'
  }

  predicate Digits(s: string)
    decreases |s|, 1
  {
    s == "" || EndsInDigit(s)
  }

  predicate EndsInDigit(s: string)
    requires s != ""
    decreases |s|, 0
  {
    IsDigit(s[|s| - 1]) && Digits(s[..|s| - 1])
  }

  /** The digit of a number below ten, and its number. */
  function Digit(n: nat): (c: char)
    ensures n < 10 ==> IsDigit(c) && Number(c) == n
  {
    if n < 10 then (n + '0' as int) as char else '0'
  }

  function Number(c: char): nat {
    if IsDigit(c) then c as int - '0' as int else 0
  }

  /** atoi of a string of digits. */
  function Value(s: string): nat
    decreases |s|, 1
  {
    if s == "" then 0 else ValueTo(s)
  }

  function ValueTo(s: string): nat
    requires s != ""
    decreases |s|, 0
  {
    10 * Value(s[..|s| - 1]) + Number(s[|s| - 1])
  }

  /** "%d" of a number that is not negative. */
  function Decimal(n: nat): (s: string)
    ensures |s| >= 1
    decreases n, 1
  {
    if n < 10 then [Digit(n)] else Longer(n)
  }

  function Longer(n: nat): (s: string)
    requires n >= 10
    ensures |s| >= 1
    decreases n, 0
  {
    Decimal(n / 10) + [Digit(n % 10)]
  }

  /** How many characters that takes. */
  function Width(n: nat): nat {
    |Decimal(n)|
  }

  /** "%d". */
  function Signed(n: int): string {
    if n < 0 then ['-'] + Decimal(-n) else Decimal(n)
  }

  function Zeros(k: int): (s: string)
    ensures |s| == if k > 0 then k else 0
  {
    seq(if k > 0 then k else 0, i => '0')
  }

  /** "%0wd" of a number that is not negative. */
  function Padded(n: nat, w: nat): (s: string)
    ensures |s| == Max(w, Width(n)) >= 1
  {
    Zeros(w - Width(n)) + Decimal(n)
  }

  lemma Snoc(s: string, c: char)
    ensures Value(s + [c]) == 10 * Value(s) + Number(c)
    ensures Digits(s + [c]) <==> IsDigit(c) && Digits(s)
  {
    var t := s + [c];
    assert t[..|t| - 1] == s && t[|t| - 1] == c;
    assert Value(t) == ValueTo(t) && Digits(t) == EndsInDigit(t);
  }

  lemma {:induction false} DecimalValue(n: nat)
    ensures Value(Decimal(n)) == n && Digits(Decimal(n))
  {
    if n < 10 {
      Snoc("", Digit(n));
      assert Decimal(n) == "" + [Digit(n)];
    } else {
      DecimalValue(n / 10);
      Snoc(Decimal(n / 10), Digit(n % 10));
      assert Decimal(n) == Longer(n);
    }
  }

  lemma {:induction false} ZerosValue(k: nat)
    ensures Value(Zeros(k)) == 0 && Digits(Zeros(k))
  {
    if k > 0 {
      ZerosValue(k - 1);
      Snoc(Zeros(k - 1), '0');
      assert Zeros(k) == Zeros(k - 1) + ['0'];
    }
  }

  lemma {:induction false} AfterZeros(k: nat, s: string)
    requires Digits(s)
    ensures Value(Zeros(k) + s) == Value(s) && Digits(Zeros(k) + s)
    decreases |s|
  {
    if s == "" {
      ZerosValue(k);
      assert Zeros(k) + s == Zeros(k);
    } else {
      var r, c := s[..|s| - 1], s[|s| - 1];
      assert s == r + [c];
      Snoc(r, c);
      AfterZeros(k, r);
      Snoc(Zeros(k) + r, c);
      assert Zeros(k) + s == (Zeros(k) + r) + [c];
    }
  }

  lemma PaddedValue(n: nat, w: nat)
    ensures Value(Padded(n, w)) == n && Digits(Padded(n, w))
  {
    DecimalValue(n);
    if w > Width(n) {
      AfterZeros(w - Width(n), Decimal(n));
    } else {
      assert Padded(n, w) == Decimal(n);
    }
  }

  lemma {:induction false} LongerIsLarger(n: nat, m: nat)
    requires n <= m
    ensures Width(n) <= Width(m)
  {
    if n >= 10 {
      LongerIsLarger(n / 10, m / 10);
      assert Decimal(n) == Longer(n) && Decimal(m) == Longer(m);
    }
  }

  // ---------------------------------------------------------------- string + integer

  /** How many digits a string ends in. */
  function Trailing(s: string): (k: nat)
    ensures k <= |s|
  {
    if s != "" && IsDigit(s[|s| - 1]) then Trailing(s[..|s| - 1]) + 1 else 0
  }

  /** The string without the digits at its end, and these. */
  function Prefix(s: string): string {
    s[..|s| - Trailing(s)]
  }

  function Suffix(s: string): string {
    s[|s| - Trailing(s)..]
  }

  predicate NoNumber(p: string) {
    p == "" || !IsDigit(p[|p| - 1])
  }

  /** What binop computes; None is the error for a negative number. */
  function Plus(s: string, n: int): Option<string> {
    if Trailing(s) == 0 then Some(s + Signed(n))
    else PlusTo(Prefix(s), Value(Suffix(s)) + n, Trailing(s))
  }

  function PlusTo(p: string, v: int, w: nat): Option<string> {
    if v < 0 then None else Some(p + Padded(v, w))
  }

  lemma CutLast(s: string, k: nat)
    requires k < |s|
    ensures s[..k] == s[..|s| - 1][..k] && s[k..] == s[..|s| - 1][k..] + [s[|s| - 1]]
  {
  }

  lemma {:induction false} Split(s: string)
    ensures s == Prefix(s) + Suffix(s) && |Suffix(s)| == Trailing(s) && Digits(Suffix(s)) && NoNumber(Prefix(s))
  {
    if s != "" && IsDigit(s[|s| - 1]) {
      var r, c := s[..|s| - 1], s[|s| - 1];
      Split(r);
      Snoc(Suffix(r), c);
      CutLast(s, |r| - Trailing(r));
    }
  }

  lemma {:induction false} TrailingOf(p: string, d: string)
    requires Digits(d) && NoNumber(p)
    ensures Trailing(p + d) == |d| && Prefix(p + d) == p && Suffix(p + d) == d
  {
    if d == "" {
      assert p + d == p;
    } else {
      assert EndsInDigit(d);
      TrailingOf(p, d[..|d| - 1]);
      assert (p + d)[..|p + d| - 1] == p + d[..|d| - 1];
    }
  }

  /** Adding to a prefix with a number at its end. */
  lemma PlusNumber(p: string, d: string, v: nat, m: int)
    requires Digits(d) && d != "" && NoNumber(p) && Value(d) == v
    ensures Plus(p + d, m) == PlusTo(p, v + m, |d|)
  {
    TrailingOf(p, d);
    PlusWhen(p + d, p, v, |d|, m);
  }

  lemma PlusWhen(s: string, p: string, v: nat, w: nat, m: int)
    requires Trailing(s) == w > 0 && Prefix(s) == p && Value(Suffix(s)) == v
    ensures Plus(s, m) == PlusTo(p, v + m, w)
  {
  }

  /** The number printed after a sum. */
  lemma SumPrinted(p: string, v: nat, w: nat) returns (d: string)
    ensures PlusTo(p, v, w) == Some(p + d) && Digits(d) && Value(d) == v && |d| == Max(w, Width(v)) >= 1
  {
    d := Padded(v, w);
    PaddedValue(v, w);
  }

  /** The prefix is unchanged, and the number at the end is the old one plus n and not narrower. */
  lemma PlusKeeps(s: string, n: int)
    requires Trailing(s) > 0 && Plus(s, n).Some?
    ensures var r := Plus(s, n).value;
            Prefix(r) == Prefix(s) && Trailing(r) >= Trailing(s) && Value(Suffix(r)) == Value(Suffix(s)) + n
  {
    assert NoNumber(Prefix(s)) by { Split(s); }
    var r := NumberKept(Prefix(s), Value(Suffix(s)) + n, Trailing(s));
  }

  lemma NumberKept(p: string, v: nat, w: nat) returns (r: string)
    requires NoNumber(p)
    ensures PlusTo(p, v, w) == Some(r) && Prefix(r) == p && Trailing(r) >= w && Value(Suffix(r)) == v
  {
    var d := SumPrinted(p, v, w);
    TrailingOf(p, d);
    r := p + d;
  }

  function Then(x: Option<string>, m: int): Option<string> {
    match x case None => None case Some(s) => Plus(s, m)
  }

  lemma PaddedSame(v: nat, w: nat, w': nat)
    ensures Padded(v, w) == Padded(v, w') <==> Max(w, Width(v)) == Max(w', Width(v))
  {
    if Max(w, Width(v)) == Max(w', Width(v)) {
      assert Zeros(w - Width(v)) == Zeros(w' - Width(v));
    }
  }

  lemma AppendSame(p: string, a: string, b: string)
    ensures p + a == p + b <==> a == b
  {
    if p + a == p + b { assert (p + a)[|p|..] == a && (p + b)[|p|..] == b; }
  }

  /** Increasing the number once more: the same as in one step exactly when the width comes out the same. */
  lemma TwiceOnNumber(p: string, v: int, w: nat, m: int)
    requires NoNumber(p) && w > 0
    ensures Then(PlusTo(p, v, w), m) == PlusTo(p, v + m, w) <==>
            v + m < 0 || (v >= 0 && Width(v) <= Max(w, Width(v + m)))
  {
    if v >= 0 {
      var d := SumPrinted(p, v, w);
      PlusNumber(p, d, v, m);
      if v + m >= 0 {
        PaddedSame(v + m, |d|, w);
        AppendSame(p, Padded(v + m, |d|), Padded(v + m, w));
      }
    }
  }

  /** Adding n and then m to a string that ends in a number: when that is adding n + m. */
  lemma ActionOnNumber(s: string, n: int, m: int)
    requires Trailing(s) > 0
    ensures var v := Value(Suffix(s));
            Then(Plus(s, n), m) == Plus(s, n + m) <==>
            v + n + m < 0 || (v + n >= 0 && Width(v + n) <= Max(Trailing(s), Width(v + n + m)))
  {
    Split(s);
    TwiceOnNumber(Prefix(s), Value(Suffix(s)) + n, Trailing(s), m);
  }

  /** The same for a string that does not end in a number. */
  lemma ActionOnName(s: string, n: int, m: int)
    requires Trailing(s) == 0
    ensures Then(Plus(s, n), m) == Plus(s, n + m) <==>
            if n < 0 then m == 0 else n + m >= 0 && Width(n) <= Width(n + m)
  {
    if n >= 0 { NameThenNumber(s, n, m); } else { NameThenNegative(s, n, m); }
  }

  lemma NameThenNumber(s: string, n: nat, m: int)
    requires Trailing(s) == 0
    ensures Then(Plus(s, n), m) == Plus(s, n + m) <==> n + m >= 0 && Width(n) <= Width(n + m)
  {
    var d := NumberAdded(s, n);
    PlusNumber(s, d, n, m);
    PaddedOrNot(s, n + m, Width(n));
  }

  lemma NumberAdded(s: string, n: nat) returns (d: string)
    requires Trailing(s) == 0
    ensures Plus(s, n) == Some(s + d) && Digits(d) && Value(d) == n && |d| == Width(n) >= 1
  {
    d := Decimal(n);
    DecimalValue(n);
  }

  /** Printed with a width and without. */
  lemma PaddedOrNot(s: string, x: int, w: nat)
    ensures PlusTo(s, x, w) == Some(s + Signed(x)) <==> x >= 0 && w <= Width(x)
  {
    if x >= 0 {
      PaddedSame(x, w, 0);
      assert Padded(x, 0) == Decimal(x);
      AppendSame(s, Padded(x, w), Decimal(x));
    }
  }

  lemma NameThenNegative(s: string, n: int, m: int)
    requires Trailing(s) == 0 && n < 0
    ensures Then(Plus(s, n), m) == Plus(s, n + m) <==> m == 0
  {
    var d := NegativeAdded(s, n);
    PlusNumber(s + ['-'], d, -n, m);
    NegativeOrNot(s, n, m);
  }

  lemma NegativeAdded(s: string, n: int) returns (d: string)
    requires Trailing(s) == 0 && n < 0
    ensures Plus(s, n) == Some((s + ['-']) + d) && Digits(d) && Value(d) == -n && |d| == Width(-n) >= 1
    ensures NoNumber(s + ['-'])
  {
    d := Decimal(-n);
    DecimalValue(-n);
    assert s + (['-'] + d) == (s + ['-']) + d;
  }

  lemma NegativeOrNot(s: string, n: int, m: int)
    requires n < 0
    ensures PlusTo(s + ['-'], m - n, Width(-n)) == Some(s + Signed(n + m)) <==> m == 0
  {
    if m - n >= 0 { NegativeCase(s, n, m); }
  }

  lemma NegativeCase(s: string, n: int, m: int)
    requires n < 0 && m - n >= 0
    ensures (s + ['-']) + Padded(m - n, Width(-n)) == s + Signed(n + m) <==> m == 0
  {
    var d := Padded(m - n, Width(-n));
    assert (s + ['-']) + d == s + (['-'] + d);
    AppendSame(s, ['-'] + d, Signed(n + m));
    if n + m < 0 {
      AppendSame(['-'], d, Decimal(-(n + m)));
      SameNumber(m - n, -(n + m), Width(-n));
    } else {
      FirstDigit(n + m);
    }
  }

  lemma SameNumber(a: nat, b: nat, w: nat)
    ensures Padded(a, w) == Decimal(b) ==> a == b
    ensures a == b && w <= Width(b) ==> Padded(a, w) == Decimal(b)
  {
    PaddedValue(a, w);
    DecimalValue(b);
    if a == b && w <= Width(b) { assert Padded(a, w) == Decimal(b); }
  }

  lemma {:induction false} FirstDigit(n: nat)
    ensures IsDigit(Decimal(n)[0])
  {
    if n >= 10 {
      FirstDigit(n / 10);
      assert Decimal(n) == Longer(n);
    }
  }

  /** For numbers that are not negative, adding them one after the other is adding their sum, always. */
  lemma PlusIsAction(s: string, n: nat, m: nat)
    ensures Then(Plus(s, n), m) == Plus(s, n + m)
  {
    if Trailing(s) > 0 {
      var v := Value(Suffix(s));
      LongerIsLarger(v + n, v + n + m);
      ActionOnNumber(s, n, m);
    } else {
      LongerIsLarger(n, n + m);
      ActionOnName(s, n, m);
    }
  }

  // ---------------------------------------------------------------- binop

  datatype Operand = IntOp(i: int) | RealOp(r: real) | StringOp(s: string)

  class Operands {
    var stack: seq<Operand>

    method Pop() returns (o: Operand)
      requires stack != []
      modifies this
      ensures o == old(stack)[|old(stack)| - 1] && stack == old(stack)[..|old(stack)| - 1]
    {
      o := stack[|stack| - 1];
      stack := stack[..|stack| - 1];
    }

    /** STRINT, right side: where the digits at the end start; None (NULL) if there are none. */
    method StrInt(str: string) returns (cp: Option<nat>)
      ensures cp == if Trailing(str) == 0 then None else Some(|str| - Trailing(str))
    {
      var s := |str|;
      assert str[..s] == str;
      while s > 0 && IsDigit(str[s - 1])
        invariant 0 <= s <= |str| && Trailing(str) == Trailing(str[..s]) + (|str| - s)
      {
        assert str[..s][..s - 1] == str[..s - 1];
        s := s - 1;
      }
      cp := if s == |str| then None else Some(s);
    }

    /** BINOP for OP_ADD with a string operand: the operands are popped and the result pushed; false stands for the
        errors. */
    method AddString() returns (ok: bool)
      requires |stack| >= 2 && (stack[|stack| - 2].StringOp? || stack[|stack| - 1].StringOp?)
      modifies this
      ensures var o1, o2 := old(stack)[|old(stack)| - 2], old(stack)[|old(stack)| - 1];
              var rest := old(stack)[..|old(stack)| - 2];
              match (o1, o2)
              case (StringOp(s), StringOp(t)) => ok && stack == rest + [StringOp(s + t)]
              case (StringOp(s), IntOp(n)) =>
                ok == Plus(s, n).Some? && (ok ==> stack == rest + [StringOp(Plus(s, n).value)])
              case _ => !ok
    {
      var o2 := Pop();
      var o1 := Pop();
      if !o1.StringOp? || o2.RealOp? { return false; }
      var res;
      if o2.StringOp? {
        res := o1.s + o2.s;
      } else {
        var cp := StrInt(o1.s);
        if cp.Some? {
          var newnum := Value(o1.s[cp.value..]) + o2.i;
          if newnum < 0 { return false; }
          res := o1.s[..cp.value] + Padded(newnum, |o1.s| - cp.value);
        } else {
          res := o1.s + Signed(o2.i);
        }
      }
      stack := stack + [StringOp(res)];
      ok := true;
    }
  }
}
