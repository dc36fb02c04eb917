/**
  Rule terms of the hotplug daemon: the expression tree, the printer that
  parenthesises everything, and the parser as a function of the input text.
*/
module Terms {
  datatype Symbol =
    | Loadavg | Runnable | Onumcpus | User | Nice | System | Idle | Iowait | Irq | Softirq | Steal
    | Guest | GuestNice | Apcr | Swaprate | Freemem

  datatype Proc = Meminfo | Vmstat | Cpustat

  datatype Op = And | Or | Greater | Lesser | Plus | Minus | Mult | Div

  datatype Term =
    | Sym(sym: Symbol)
    | ProcVal(proc: Proc, name: string, index: nat)
    | Time(index: nat)
    | Const(value: real)
    | Neg(arg: Term)
    | Not(arg: Term)
    | Bin(op: Op, left: Term, right: Term)

  const PRIO_NONE := 0
  const PRIO_OR := 1
  const PRIO_AND := 2
  const PRIO_CMP := 3
  const PRIO_ADD := 4
  const PRIO_MULT := 5

  function Prio(op: Op): int {
    match op
    case Or => PRIO_OR
    case And => PRIO_AND
    case Greater => PRIO_CMP
    case Lesser => PRIO_CMP
    case Plus => PRIO_ADD
    case Minus => PRIO_ADD
    case Mult => PRIO_MULT
    case Div => PRIO_MULT
  }

  function OpChar(op: Op): char {
    match op
    case And => '&'
    case Or => '|'
    case Greater => '>'
    case Lesser => '<'
    case Plus => '+'
    case Minus => '-'
    case Mult => '*'
    case Div => '/'
  }

  predicate IsOp(c: char) {
    c in "><+-*/|&"
  }

  function CharOp(c: char): (op: Op)
    requires IsOp(c)
    ensures OpChar(op) == c
  {
    if c == '>' then Greater else if c == '<' then Lesser else if c == '+' then Plus else if c == '-' then Minus
    else if c == '*' then Mult else if c == '/' then Div else if c == '|' then Or else And
  }

  // ------------------------------------------------------------------
  // Characters and numbers
  // ------------------------------------------------------------------

  predicate IsDigit(c: char) {
    '0' <= c <= '9'
  }

  predicate IsAlpha(c: char) {
    'a' <= c <= 'z' || 'A' <= c <= 'Z'
  }

  /** A character of a variable name. */
  predicate IsVarChar(c: char) {
    IsAlpha(c) || IsDigit(c) || c == '_'
  }

  /** A character of the name of a counter in a /proc file. */
  predicate IsProcChar(c: char) {
    IsAlpha(c) || c == '_'
  }

  predicate IsSpace(c: char) {
    c in " \t\n\r"
  }

  /** Length of the longest beginning of s whose characters all satisfy P. */
  function Run(P: char -> bool, s: string): (n: nat)
    ensures n <= |s| && (n < |s| ==> !P(s[n])) && forall i :: 0 <= i < n ==> P(s[i])
  {
    if s == [] || !P(s[0]) then 0 else 1 + Run(P, s[1..])
  }

  lemma RunUnique(P: char -> bool, s: string, n: nat)
    requires n <= |s| && (n < |s| ==> !P(s[n])) && forall i :: 0 <= i < n ==> P(s[i])
    ensures Run(P, s) == n
  {
    var m := Run(P, s);
  }

  function DigitVal(c: char): (d: nat)
    requires IsDigit(c)
    ensures d < 10
  {
    c as int - '0' as int
  }

  function DigitChar(d: nat): (c: char)
    requires d < 10
    ensures IsDigit(c) && DigitVal(c) == d
  {
    "0123456789"[d]
  }

  ghost predicate AllDigits(s: string) {
    forall i :: 0 <= i < |s| ==> IsDigit(s[i])
  }

  function DecValue(s: string): nat
    requires forall i :: 0 <= i < |s| ==> IsDigit(s[i])
  {
    if s == [] then 0 else 10 * DecValue(s[..|s| - 1]) + DigitVal(s[|s| - 1])
  }

  function Dec(n: nat): (s: string)
    ensures s != [] && AllDigits(s)
  {
    if n < 10 then [DigitChar(n)] else Dec(n / 10) + [DigitChar(n % 10)]
  }

  /** The last k decimal digits of n. */
  function Pad(n: nat, k: nat): (s: string)
    ensures |s| == k && AllDigits(s)
  {
    if k == 0 then [] else Pad(n / 10, k - 1) + [DigitChar(n % 10)]
  }

  function Pow10(k: nat): (p: nat)
    ensures p > 0
  {
    if k == 0 then 1 else 10 * Pow10(k - 1)
  }

  lemma {:induction false} DecRead(n: nat)
    ensures DecValue(Dec(n)) == n
  {
    if n >= 10 {
      DecRead(n / 10);
      assert Dec(n)[..|Dec(n)| - 1] == Dec(n / 10);
    }
  }

  lemma {:induction false} PadRead(s: string, n: nat, k: nat)
    requires AllDigits(s) && n < Pow10(k)
    ensures DecValue(s + Pad(n, k)) == DecValue(s) * Pow10(k) + n
  {
    if k == 0 {
      assert s + Pad(n, k) == s;
    } else {
      PadRead(s, n / 10, k - 1);
      var t := s + Pad(n, k);
      assert t[..|t| - 1] == s + Pad(n / 10, k - 1);
      calc {
        DecValue(t);
        10 * (DecValue(s) * Pow10(k - 1) + n / 10) + n % 10;
        10 * (DecValue(s) * Pow10(k - 1)) + n;
        { Shift(DecValue(s), Pow10(k - 1)); }
        DecValue(s) * Pow10(k) + n;
      }
    }
  }

  lemma Shift(a: int, b: int)
    ensures 10 * (a * b) == a * (10 * b)
  {
  }

  /** A number at the beginning of s: digits, and digits behind a decimal point. */
  function NumberLength(s: string): (n: nat)
    ensures n <= |s|
  {
    var whole := Run(IsDigit, s);
    if whole < |s| && s[whole] == '.' then whole + 1 + Run(IsDigit, s[whole + 1..]) else whole
  }

  function NumberValue(s: string): real {
    var whole := Run(IsDigit, s);
    if whole < |s| && s[whole] == '.' then
      var frac := Run(IsDigit, s[whole + 1..]);
      DecValue(s[..whole] + s[whole + 1..][..frac]) as real / Pow10(frac) as real
    else DecValue(s[..whole]) as real
  }

  // ------------------------------------------------------------------
  // Printing
  // ------------------------------------------------------------------

  function SymName(sym: Symbol): string {
    match sym
    case Loadavg => "loadavg"
    case Runnable => "runnable_proc"
    case Onumcpus => "onumcpus"
    case User => "user"
    case Nice => "nice"
    case System => "system"
    case Idle => "idle"
    case Iowait => "iowait"
    case Irq => "irq"
    case Softirq => "softirq"
    case Steal => "steal"
    case Guest => "guest"
    case GuestNice => "guest_nice"
    case Apcr => "apcr"
    case Swaprate => "swaprate"
    case Freemem => "freemem"
  }

  function ProcWord(p: Proc): string {
    match p
    case Meminfo => "meminfo"
    case Vmstat => "vmstat"
    case Cpustat => "cpustat"
  }

  /** The integer nearest to x; halfway cases go to the even one. */
  function Nearest(x: real): nat
    requires x >= 0.0
  {
    var n := x.Floor;
    if x - n as real < 0.5 || (x - n as real == 0.5 && n % 2 == 0) then n else n + 1
  }

  /** A number with six digits behind the point. */
  function ShowConst(v: real): string {
    if v < 0.0 then "-" + ShowMicro(Nearest(-v * 1000000.0)) else ShowMicro(Nearest(v * 1000000.0))
  }

  function ShowMicro(n: nat): string {
    Dec(n / 1000000) + "." + Pad(n % 1000000, 6)
  }

  /** The printed term, sep around every binary operator. */
  function Show(t: Term, sep: string): string {
    match t
    case Sym(sym) => SymName(sym)
    case ProcVal(p, name, index) => ProcWord(p) + "." + name + "[" + Dec(index) + "]"
    case Time(index) => "time[" + Dec(index) + "]"
    case Const(v) => ShowConst(v)
    case Neg(x) => "-(" + Show(x, sep) + ")"
    case Not(x) => "!(" + Show(x, sep) + ")"
    case Bin(op, l, r) => "(" + Show(l, sep) + ")" + sep + [OpChar(op)] + sep + "(" + Show(r, sep) + ")"
  }

  /** What the daemon prints. */
  function Print(t: Term): string {
    Show(t, " ")
  }

  /** The text without white space, as a configuration line reaches the parser. */
  function Strip(s: string): string {
    if s == [] then [] else (if IsSpace(s[0]) then [] else [s[0]]) + Strip(s[1..])
  }

  // ------------------------------------------------------------------
  // Parsing
  // ------------------------------------------------------------------

  const MAX_VARNAME := 128
  const LONG_MAX: nat := 0x7fff_ffff_ffff_ffff
  const UINT_SIZE: nat := 0x1_0000_0000

  /** Failed: no term here.  Exited: the daemon gives up.  Done: a term, and the text behind it. */
  datatype Result = Failed | Exited | Done(term: Term, rest: string)

  /** A result, and the highest history index met on the way. */
  datatype Out = Out(res: Result, hist: nat)

  datatype Kind = IsSym(sym: Symbol) | IsProc(proc: Proc) | IsTime

  /** The symbol names in the order in which they are tried. */
  const SYM_NAMES: seq<(string, Kind)> := [
    ("loadavg", IsSym(Loadavg)), ("runnable_proc", IsSym(Runnable)), ("onumcpus", IsSym(Onumcpus)),
    ("user", IsSym(User)), ("nice", IsSym(Nice)), ("system", IsSym(System)), ("idle", IsSym(Idle)),
    ("iowait", IsSym(Iowait)), ("irq", IsSym(Irq)), ("softirq", IsSym(Softirq)), ("steal", IsSym(Steal)),
    ("guest_nice", IsSym(GuestNice)), ("guest", IsSym(Guest)), ("swaprate", IsSym(Swaprate)), ("apcr", IsSym(Apcr)),
    ("freemem", IsSym(Freemem)), ("meminfo.", IsProc(Meminfo)), ("vmstat.", IsProc(Vmstat)),
    ("cpustat.", IsProc(Cpustat)), ("time", IsTime)]

  function Max(a: nat, b: nat): nat {
    if a < b then b else a
  }

  /** The first symbol name that s begins with; |SYM_NAMES| when there is none. */
  function FindSym(s: string, i: nat): (k: nat)
    requires i <= |SYM_NAMES|
    ensures i <= k <= |SYM_NAMES| && (k < |SYM_NAMES| ==> SYM_NAMES[k].0 <= s)
    decreases |SYM_NAMES| - i
  {
    if i == |SYM_NAMES| || SYM_NAMES[i].0 <= s then i else FindSym(s, i + 1)
  }

  /** An optional history index for t; without one the index stays as it is. */
  function ParseIndex(s: string, t: Term): (o: Out)
    requires t.ProcVal? || t.Time?
    ensures o.res.Done? ==> |o.res.rest| <= |s|
  {
    if s == [] || s[0] != '[' then Out(Done(t, s), 0)
    else if |s| == 1 || !IsDigit(s[1]) then Out(Failed, 0)
    else
      var n := Run(IsDigit, s[1..]);
      var v := DecValue(s[1..][..n]);
      var index := (if v > LONG_MAX then LONG_MAX else v) % UINT_SIZE;
      if 1 + n == |s| || s[1 + n] != ']' then Out(Failed, 0)
      else Out(Done(t.(index := index), s[n + 2..]), index)
  }

  function ParseSymbol(s: string): (o: Out)
    ensures o.res.Done? ==> |o.res.rest| <= |s|
  {
    var k := FindSym(s, 0);
    if k == |SYM_NAMES| then Out(Failed, 0) else
      var rest := s[|SYM_NAMES[k].0|..];
      match SYM_NAMES[k].1
      case IsSym(sym) => Out(Done(Sym(sym), rest), 0)
      case IsTime => ParseIndex(rest, Time(0))
      case IsProc(p) =>
        var n := Run(IsProcChar, rest);
        ParseIndex(rest[n..], ProcVal(p, rest[..n], 0))
  }

  /** A variable stands for the term that its value parses to; everything else must be a symbol. */
  function ParseLeaf(vars: map<string, string>, depth: nat, s: string): (o: Out)
    ensures o.res.Done? ==> |o.res.rest| <= |s|
    decreases depth, |s|, 0
  {
    var n := Run(IsVarChar, s);
    var name := s[..n];
    if n > MAX_VARNAME then Out(Exited, 0)
    else if name !in vars then ParseSymbol(s)
    else if depth == 0 then Out(Exited, 0)
    else
      var o := Parse(vars, depth - 1, vars[name], PRIO_NONE);
      if o.res.Done? then (if o.res.rest == [] then Out(Done(o.res.term, s[n..]), o.hist) else Out(Exited, o.hist))
      else if o.res.Failed? && vars[name] == [] then var q := ParseSymbol(s[n..]); Out(q.res, Max(o.hist, q.hist))
      else Out(Exited, o.hist)
  }

  /** What stands before the first binary operator. */
  function ParseHead(vars: map<string, string>, depth: nat, s: string, prio: int): (o: Out)
    ensures o.res.Done? ==> |o.res.rest| <= |s|
    decreases depth, |s|, 1
  {
    if s != [] && s[0] == '-' && |s| > 1 && IsDigit(s[1]) then
      Out(Done(Const(-NumberValue(s[1..])), s[1..][NumberLength(s[1..])..]), 0)
    else if s != [] && (s[0] == '-' || s[0] == '!') then
      var o := Parse(vars, depth, s[1..], prio);
      if o.res.Done? then Out(Done(if s[0] == '-' then Neg(o.res.term) else Not(o.res.term), o.res.rest), o.hist) else o
    else if s != [] && IsDigit(s[0]) then
      Out(Done(Const(NumberValue(s)), s[NumberLength(s)..]), 0)
    else if s != [] && s[0] == '(' then
      var o := Parse(vars, depth, s[1..], PRIO_NONE);
      if !o.res.Done? then o
      else if o.res.rest == [] || o.res.rest[0] != ')' then Out(Failed, o.hist)
      else Out(Done(o.res.term, o.res.rest[1..]), o.hist)
    else ParseLeaf(vars, depth, s)
  }

  /** Takes binary operators as long as they bind tighter than prio. */
  function ParseTail(vars: map<string, string>, depth: nat, left: Term, s: string, prio: int): (o: Out)
    ensures o.res.Done? ==> |o.res.rest| <= |s|
    decreases depth, |s|, 1
  {
    if s == [] || !IsOp(s[0]) || prio >= Prio(CharOp(s[0])) then Out(Done(left, s), 0)
    else
      var o := Parse(vars, depth, s[1..], Prio(CharOp(s[0])));
      if !o.res.Done? then o else
        var q := ParseTail(vars, depth, Bin(CharOp(s[0]), left, o.res.term), o.res.rest, prio);
        Out(q.res, Max(o.hist, q.hist))
  }

  /** A term at the beginning of s, up to the first binary operator that does not bind tighter than prio. */
  function Parse(vars: map<string, string>, depth: nat, s: string, prio: int): (o: Out)
    ensures o.res.Done? ==> |o.res.rest| <= |s|
    decreases depth, |s|, 2
  {
    var o := ParseHead(vars, depth, s, prio);
    if !o.res.Done? then o else
      var q := ParseTail(vars, depth, o.res.term, o.res.rest, prio);
      Out(q.res, Max(o.hist, q.hist))
  }
}
