/**
  Printing and parsing: what the daemon prints parses back to the same term
  with its constants rounded to six digits, unless a variable of the
  configuration hides the name of a counter file.
*/
module TermRoundTrip {
  import opened Terms

  /** Terms with names and indices that the parser reads. */
  ghost predicate Printable(t: Term) {
    match t
    case Sym(_) => true
    case ProcVal(_, name, index) => (forall i :: 0 <= i < |name| ==> IsProcChar(name[i])) && index < UINT_SIZE
    case Time(index) => index < UINT_SIZE
    case Const(_) => true
    case Neg(x) => Printable(x)
    case Not(x) => Printable(x)
    case Bin(_, l, r) => Printable(l) && Printable(r)
  }

  /** The number with six decimals nearest to v. */
  ghost function Round6(v: real): real {
    if v < 0.0 then -(Nearest(-v * 1000000.0) as real / 1000000.0) else Nearest(v * 1000000.0) as real / 1000000.0
  }

  /** The term with its constants rounded to six decimals. */
  ghost function Rounded(t: Term): Term {
    match t
    case Sym(_) => t
    case ProcVal(_, _, _) => t
    case Time(_) => t
    case Const(v) => Const(Round6(v))
    case Neg(x) => Neg(Rounded(x))
    case Not(x) => Not(Rounded(x))
    case Bin(op, l, r) => Bin(op, Rounded(l), Rounded(r))
  }

  /** No constant has more than six decimals. */
  ghost predicate SixDecimals(t: Term) {
    match t
    case Const(v) => (v * 1000000.0).Floor as real == v * 1000000.0
    case Neg(x) => SixDecimals(x)
    case Not(x) => SixDecimals(x)
    case Bin(_, l, r) => SixDecimals(l) && SixDecimals(r)
    case _ => true
  }

  lemma WholeNumber(n: nat)
    ensures (n as real).Floor == n && (-(n as real)).Floor == 0 - n && Nearest(n as real) == n
  {
  }

  lemma Scaled(v: real, w: real)
    ensures v * 1000000.0 == w <==> v == w / 1000000.0
    ensures -v * 1000000.0 == w <==> v == -(w / 1000000.0)
    ensures -v * 1000000.0 == -(v * 1000000.0)
  {
  }

  /** Rounding changes exactly the numbers with more than six decimals. */
  lemma Round6Exactly(v: real)
    ensures Round6(v) == v <==> (v * 1000000.0).Floor as real == v * 1000000.0
  {
    hide Nearest;
    var w := v * 1000000.0;
    var k: nat := if v < 0.0 then Nearest(-v * 1000000.0) else Nearest(w);
    WholeNumber(k);
    Scaled(v, k as real);
    Scaled(v, w);
    if w.Floor as real == w {
      WholeNumber(if v < 0.0 then -w.Floor else w.Floor);
      assert k as real == if v < 0.0 then -w else w;
    }
  }

  /** Rounding changes exactly the terms that have such a constant. */
  lemma {:induction false} RoundedExactly(t: Term)
    ensures Rounded(t) == t <==> SixDecimals(t)
  {
    match t
    case Sym(_) =>
    case ProcVal(_, _, _) =>
    case Time(_) =>
    case Const(v) => Round6Exactly(v);
    case Neg(x) => RoundedExactly(x);
    case Not(x) => RoundedExactly(x);
    case Bin(_, l, r) => RoundedExactly(l); RoundedExactly(r);
  }

  ghost function MaxIndex(t: Term): nat {
    match t
    case Sym(_) => 0
    case ProcVal(_, _, index) => index
    case Time(index) => index
    case Const(_) => 0
    case Neg(x) => MaxIndex(x)
    case Not(x) => MaxIndex(x)
    case Bin(_, l, r) => Max(MaxIndex(l), MaxIndex(r))
  }

  /** No variable has the name of a symbol. */
  ghost predicate NoShadow(vars: map<string, string>) {
    && (forall sym :: SymName(sym) !in vars)
    && (forall p :: ProcWord(p) !in vars)
    && "time" !in vars
  }

  /** The text behind a complete operand. */
  predicate Ends(r: string) {
    r == [] || IsOp(r[0]) || r[0] == ')'
  }

  lemma EndsApart(r: string)
    requires Ends(r)
    ensures r != [] ==> !IsDigit(r[0]) && !IsVarChar(r[0]) && r[0] != '.' && r[0] != '['
  {
  }

  // ------------------------------------------------------------------
  // Symbols
  // ------------------------------------------------------------------

  lemma {:induction false} FirstMatch(s: string, i: nat, k: nat)
    requires i <= k < |SYM_NAMES| && SYM_NAMES[k].0 <= s
    requires forall j :: i <= j < k ==> !(SYM_NAMES[j].0 <= s)
    ensures FindSym(s, i) == k
    decreases k - i
  {
    if i < k {
      FirstMatch(s, i + 1, k);
    }
  }

  /** No symbol name but guest_nice begins like a later one. */
  lemma Heads(j: nat, k: nat)
    requires j < k < |SYM_NAMES| && !(j == 11 && k == 12)
    ensures |SYM_NAMES[j].0| >= 2 && |SYM_NAMES[k].0| >= 2
    ensures SYM_NAMES[j].0[0] != SYM_NAMES[k].0[0] || SYM_NAMES[j].0[1] != SYM_NAMES[k].0[1]
  {
  }

  lemma Differ(a: string, b: string, r: string)
    requires |a| >= 2 && |b| >= 2 && (a[0] != b[0] || a[1] != b[1])
    ensures !(a <= b + r)
  {
    assert (b + r)[0] == b[0] && (b + r)[1] == b[1];
  }

  lemma GuestNice(r: string)
    requires r == [] || r[0] != '_'
    ensures !("guest_nice" <= "guest" + r)
  {
    assert r != [] ==> ("guest" + r)[5] == r[0];
  }

  lemma NotPrefix(j: nat, k: nat, r: string)
    requires j < k < |SYM_NAMES| && (k == 12 ==> r == [] || r[0] != '_')
    ensures !(SYM_NAMES[j].0 <= SYM_NAMES[k].0 + r)
  {
    if j == 11 && k == 12 {
      GuestNice(r);
    } else {
      Heads(j, k);
      Differ(SYM_NAMES[j].0, SYM_NAMES[k].0, r);
    }
  }

  /** A symbol name is found at its own place in the table. */
  lemma TableEntry(k: nat, r: string)
    requires k < |SYM_NAMES| && (k == 12 ==> r == [] || r[0] != '_')
    ensures FindSym(SYM_NAMES[k].0 + r, 0) == k
  {
    hide SYM_NAMES;
    var s := SYM_NAMES[k].0 + r;
    forall j | 0 <= j < k ensures !(SYM_NAMES[j].0 <= s) {
      NotPrefix(j, k, r);
    }
    FirstMatch(s, 0, k);
  }

  function SymIndex(sym: Symbol): (k: nat)
    ensures k < |SYM_NAMES| && SYM_NAMES[k] == (SymName(sym), IsSym(sym)) && (k == 12 ==> sym == Guest)
  {
    match sym
    case Loadavg => 0
    case Runnable => 1
    case Onumcpus => 2
    case User => 3
    case Nice => 4
    case System => 5
    case Idle => 6
    case Iowait => 7
    case Irq => 8
    case Softirq => 9
    case Steal => 10
    case GuestNice => 11
    case Guest => 12
    case Swaprate => 13
    case Apcr => 14
    case Freemem => 15
  }

  function ProcIndex(p: Proc): (k: nat)
    ensures 12 < k < |SYM_NAMES| && SYM_NAMES[k] == (ProcWord(p) + ".", IsProc(p))
  {
    assert "meminfo" + "." == "meminfo." && "vmstat" + "." == "vmstat." && "cpustat" + "." == "cpustat.";
    match p
    case Meminfo => 16
    case Vmstat => 17
    case Cpustat => 18
  }

  /** A word of variable characters at the beginning of the text is what the variable lookup sees. */
  lemma Word(w: string, r: string)
    requires (forall i :: 0 <= i < |w| ==> IsVarChar(w[i])) && (r == [] || !IsVarChar(r[0]))
    ensures Run(IsVarChar, w + r) == |w| && (w + r)[..|w|] == w && (w + r)[|w|..] == r
  {
    RunUnique(IsVarChar, w + r, |w|);
  }

  lemma SymWord(sym: Symbol)
    ensures |SymName(sym)| <= MAX_VARNAME && forall i :: 0 <= i < |SymName(sym)| ==> IsVarChar(SymName(sym)[i])
  {
  }

  lemma ProcWords(p: Proc)
    ensures |ProcWord(p)| <= MAX_VARNAME && forall i :: 0 <= i < |ProcWord(p)| ==> IsVarChar(ProcWord(p)[i])
  {
  }

  lemma ReadSym(vars: map<string, string>, depth: nat, sym: Symbol, r: string)
    requires NoShadow(vars) && Ends(r)
    ensures ParseLeaf(vars, depth, SymName(sym) + r) == Out(Done(Sym(sym), r), 0)
  {
    hide SYM_NAMES, SymName;
    EndsApart(r);
    SymWord(sym);
    Word(SymName(sym), r);
    TableEntry(SymIndex(sym), r);
  }

  lemma Brackets(d: string, r: string)
    ensures
      var s := "[" + d + "]" + r;
      |s| == |d| + 2 + |r| && s[0] == '[' && s[1..] == d + ("]" + r) && s[1..][..|d|] == d && s[1 + |d|] == ']' && s[|d| + 2..] == r
  {
    var s := "[" + d + "]" + r;
    assert s[1..] == d + ("]" + r);
    assert s[1..][..|d|] == d;
    assert s[|d| + 2..] == r;
  }

  /** An index in brackets. */
  lemma ReadIndex(t: Term, n: nat, r: string)
    requires (t.ProcVal? || t.Time?) && n < UINT_SIZE
    ensures ParseIndex("[" + Dec(n) + "]" + r, t) == Out(Done(t.(index := n), r), n)
  {
    hide Dec, DecValue, Run;
    DecRead(n);
    DecRun(n, r);
    Brackets(Dec(n), r);
  }

  lemma DecRun(n: nat, r: string)
    ensures Run(IsDigit, Dec(n) + ("]" + r)) == |Dec(n)| && IsDigit((Dec(n) + ("]" + r))[0])
  {
    RunUnique(IsDigit, Dec(n) + ("]" + r), |Dec(n)|);
  }

  lemma TimeText(d: string, r: string)
    ensures "time[" + d + "]" + r == "time" + ("[" + d + "]" + r)
  {
    assert "time[" == "time" + "[";
  }

  lemma ReadTime(vars: map<string, string>, depth: nat, n: nat, r: string)
    requires NoShadow(vars) && n < UINT_SIZE
    ensures ParseLeaf(vars, depth, "time[" + Dec(n) + "]" + r) == Out(Done(Time(n), r), n)
  {
    hide FindSym, Dec, ParseIndex;
    var tail := "[" + Dec(n) + "]" + r;
    TimeText(Dec(n), r);
    Word("time", tail);
    TableEntry(19, tail);
    ReadIndex(Time(0), n, r);
  }

  lemma ProcText(w: string, name: string, d: string, r: string)
    ensures
      var index := "[" + d + "]" + r;
      var s, tail := w + "." + name + "[" + d + "]" + r, name + index;
      && s == w + ("." + tail) && s == (w + ".") + tail && s[|w + "."|..] == tail
      && tail[..|name|] == name && tail[|name|..] == index
  {
    var index := "[" + d + "]" + r;
    var s, tail := w + "." + name + "[" + d + "]" + r, name + index;
    assert s == w + ("." + tail);
    assert s == (w + ".") + tail;
    assert s[|w + "."|..] == tail;
  }

  lemma ReadProc(vars: map<string, string>, depth: nat, p: Proc, name: string, n: nat, r: string)
    requires NoShadow(vars) && n < UINT_SIZE && forall i :: 0 <= i < |name| ==> IsProcChar(name[i])
    ensures ParseLeaf(vars, depth, ProcWord(p) + "." + name + "[" + Dec(n) + "]" + r) == Out(Done(ProcVal(p, name, n), r), n)
  {
    hide SYM_NAMES, ProcWord, FindSym, Dec, ParseIndex;
    var index, w := "[" + Dec(n) + "]" + r, ProcWord(p);
    var tail := name + index;
    var s := w + "." + name + "[" + Dec(n) + "]" + r;
    ProcText(w, name, Dec(n), r);
    ProcWords(p);
    Word(w, "." + tail);
    TableEntry(ProcIndex(p), tail);
    RunUnique(IsProcChar, tail, |name|);
    ReadIndex(ProcVal(p, name, 0), n, r);
  }

  /** A printed number reads back. */
  lemma ReadMicro(n: nat, r: string)
    requires Ends(r)
    ensures NumberLength(ShowMicro(n) + r) == |ShowMicro(n)| && NumberValue(ShowMicro(n) + r) == n as real / 1000000.0
    ensures ShowMicro(n) != [] && IsDigit(ShowMicro(n)[0])
  {
    EndsApart(r);
    var whole, frac := Dec(n / 1000000), Pad(n % 1000000, 6);
    var s := ShowMicro(n) + r;
    RunUnique(IsDigit, s, |whole|);
    assert s[|whole| + 1..] == frac + r;
    RunUnique(IsDigit, frac + r, 6);
    assert s[..|whole|] == whole && (frac + r)[..6] == frac;
    assert Pow10(6) == 1000000;
    PadRead(whole, n % 1000000, 6);
    DecRead(n / 1000000);
  }

  // ------------------------------------------------------------------
  // Terms
  // ------------------------------------------------------------------

  lemma ReadDigits(vars: map<string, string>, depth: nat, n: nat, r: string, prio: int)
    requires Ends(r)
    ensures ParseHead(vars, depth, ShowMicro(n) + r, prio) == Out(Done(Const(n as real / 1000000.0), r), 0)
    ensures ParseHead(vars, depth, "-" + (ShowMicro(n) + r), prio) == Out(Done(Const(-(n as real / 1000000.0)), r), 0)
  {
    hide ShowMicro, NumberLength, NumberValue;
    var m := ShowMicro(n);
    ReadMicro(n, r);
    assert (m + r)[|m|..] == r && (m + r)[0] == m[0];
    assert ("-" + (m + r))[1..] == m + r;
  }

  lemma ReadConst(vars: map<string, string>, depth: nat, v: real, r: string, prio: int)
    requires Ends(r)
    ensures ParseHead(vars, depth, ShowConst(v) + r, prio) == Out(Done(Const(Round6(v)), r), 0)
  {
    hide ParseHead, ShowMicro, Nearest;
    var n: nat := if v < 0.0 then Nearest(-v * 1000000.0) else Nearest(v * 1000000.0);
    ReadDigits(vars, depth, n, r, prio);
    assert "-" + ShowMicro(n) + r == "-" + (ShowMicro(n) + r);
  }

  predicate Leaf(t: Term) {
    !t.Neg? && !t.Not? && !t.Bin?
  }

  /** A letter at the front leads to the leaf parser. */
  lemma LetterFirst(vars: map<string, string>, depth: nat, s: string, prio: int)
    requires s != [] && IsAlpha(s[0])
    ensures ParseHead(vars, depth, s, prio) == ParseLeaf(vars, depth, s)
  {
  }

  /** A leaf reads back in front of anything that can follow an operand. */
  lemma ReadLeaf(vars: map<string, string>, depth: nat, t: Term, r: string, prio: int)
    requires NoShadow(vars) && Leaf(t) && Printable(t) && Ends(r)
    ensures ParseHead(vars, depth, Show(t, "") + r, prio) == Out(Done(Rounded(t), r), MaxIndex(t))
  {
    hide ParseHead, ParseLeaf, Dec, ShowConst, Round6;
    var s := Show(t, "") + r;
    match t
    case Sym(sym) =>
      ReadSym(vars, depth, sym, r);
      SymLetter(sym);
      LetterFirst(vars, depth, s, prio);
    case ProcVal(p, name, n) =>
      ReadProc(vars, depth, p, name, n, r);
      LetterFirst(vars, depth, s, prio);
    case Time(n) =>
      ReadTime(vars, depth, n, r);
      LetterFirst(vars, depth, s, prio);
    case Const(v) =>
      ReadConst(vars, depth, v, r, prio);
  }

  lemma SymLetter(sym: Symbol)
    ensures SymName(sym) != [] && IsAlpha(SymName(sym)[0])
  {
  }

  /** The end of a complete text or of a parenthesis. */
  predicate Closes(r: string) {
    r == [] || r[0] == ')'
  }

  /** No operator that binds tighter than prio follows. */
  predicate Stops(r: string, prio: int) {
    r == [] || !IsOp(r[0]) || prio >= Prio(CharOp(r[0]))
  }

  lemma Stop(vars: map<string, string>, depth: nat, t: Term, r: string, prio: int, h: nat)
    requires Stops(r, prio)
    ensures ParseTail(vars, depth, t, r, prio) == Out(Done(t, r), 0) && Max(h, 0) == h
  {
  }

  lemma ParenText(x: string, r: string)
    ensures ("(" + x + ")" + r)[0] == '(' && ("(" + x + ")" + r)[1..] == x + (")" + r)
  {
    assert ("(" + x + ")" + r)[1..] == x + (")" + r);
  }

  /** A parenthesised term is read as one operand. */
  lemma ReadParen(vars: map<string, string>, depth: nat, t: Term, r: string, prio: int)
    requires Parse(vars, depth, Show(t, "") + (")" + r), PRIO_NONE) == Out(Done(Rounded(t), ")" + r), MaxIndex(t))
    ensures ParseHead(vars, depth, "(" + Show(t, "") + ")" + r, prio) == Out(Done(Rounded(t), r), MaxIndex(t))
    ensures Stops(r, prio) ==>
      Parse(vars, depth, "(" + Show(t, "") + ")" + r, prio) == Out(Done(Rounded(t), r), MaxIndex(t))
  {
    hide Show;
    ParenText(Show(t, ""), r);
    assert (")" + r)[1..] == r;
    if Stops(r, prio) { Stop(vars, depth, Rounded(t), r, prio, MaxIndex(t)); }
  }

  /** Whatever stands in parentheses or alone reads back. */
  lemma {:induction false} ReadTerm(vars: map<string, string>, depth: nat, t: Term, r: string)
    requires NoShadow(vars) && Printable(t) && Closes(r)
    ensures Parse(vars, depth, Show(t, "") + r, PRIO_NONE) == Out(Done(Rounded(t), r), MaxIndex(t))
  {
    hide ParseHead, ParseTail;
    Stop(vars, depth, Rounded(t), r, PRIO_NONE, MaxIndex(t));
    match t
    case Neg(x) =>
      ReadTerm(vars, depth, x, ")" + r);
      ReadUnary(vars, depth, t, x, '-', r);
    case Not(x) =>
      ReadTerm(vars, depth, x, ")" + r);
      ReadUnary(vars, depth, t, x, '!', r);
    case Bin(op, a, b) =>
      ReadTerm(vars, depth, a, ")" + ([OpChar(op)] + "(" + Show(b, "") + ")" + r));
      ReadTerm(vars, depth, b, ")" + r);
      ReadBin(vars, depth, op, a, b, r);
    case Sym(_) => ReadLeaf(vars, depth, t, r, PRIO_NONE);
    case ProcVal(_, _, _) => ReadLeaf(vars, depth, t, r, PRIO_NONE);
    case Time(_) => ReadLeaf(vars, depth, t, r, PRIO_NONE);
    case Const(_) => ReadLeaf(vars, depth, t, r, PRIO_NONE);
  }

  lemma ReadUnary(vars: map<string, string>, depth: nat, t: Term, x: Term, c: char, r: string)
    requires (c == '-' && t == Neg(x)) || (c == '!' && t == Not(x))
    requires Closes(r) && Parse(vars, depth, Show(x, "") + (")" + r), PRIO_NONE) == Out(Done(Rounded(x), ")" + r), MaxIndex(x))
    ensures ParseHead(vars, depth, Show(t, "") + r, PRIO_NONE) == Out(Done(Rounded(t), r), MaxIndex(t))
  {
    ReadParen(vars, depth, x, r, PRIO_NONE);
    var s := Show(t, "") + r;
    UnaryText(c, Show(x, ""), r);
    hide Show, Parse;
  }

  lemma UnaryText(c: char, x: string, r: string)
    ensures
      var s := [c] + "(" + x + ")" + r;
      s[0] == c && s[1] == '(' && s[1..] == "(" + x + ")" + r && "-(" + x + ")" + r == ['-'] + "(" + x + ")" + r
    ensures "!(" + x + ")" + r == ['!'] + "(" + x + ")" + r
  {
    var s := [c] + "(" + x + ")" + r;
    assert s[1..] == "(" + x + ")" + r;
    assert "-(" == ['-'] + "(" && "!(" == ['!'] + "(";
  }

  lemma ReadBin(vars: map<string, string>, depth: nat, op: Op, a: Term, b: Term, r: string)
    requires
      var tail := [OpChar(op)] + "(" + Show(b, "") + ")" + r;
      Parse(vars, depth, Show(a, "") + (")" + tail), PRIO_NONE) == Out(Done(Rounded(a), ")" + tail), MaxIndex(a))
    requires Closes(r) && Parse(vars, depth, Show(b, "") + (")" + r), PRIO_NONE) == Out(Done(Rounded(b), ")" + r), MaxIndex(b))
    ensures Parse(vars, depth, Show(Bin(op, a, b), "") + r, PRIO_NONE) == Out(Done(Rounded(Bin(op, a, b)), r), MaxIndex(Bin(op, a, b)))
  {
    var tail := [OpChar(op)] + "(" + Show(b, "") + ")" + r;
    assert Show(Bin(op, a, b), "") == "(" + Show(a, "") + ")" + "" + [OpChar(op)] + "" + "(" + Show(b, "") + ")";
    hide Show, Parse, ParseHead, ParseTail, MaxIndex;
    BinText(OpChar(op), Show(a, ""), Show(b, ""), r);
    ReadParen(vars, depth, a, tail, PRIO_NONE);
    ReadParen(vars, depth, b, r, Prio(op));
    Stop(vars, depth, Rounded(Bin(op, a, b)), r, PRIO_NONE, MaxIndex(b));
    OpRead(op);
    ReadOp(vars, depth, op, a, b, Show(Bin(op, a, b), "") + r, tail, r);
  }

  lemma ReadOp(vars: map<string, string>, depth: nat, op: Op, a: Term, b: Term, s: string, tail: string, r: string)
    requires ParseHead(vars, depth, s, PRIO_NONE) == Out(Done(Rounded(a), tail), MaxIndex(a))
    requires tail != [] && IsOp(tail[0]) && CharOp(tail[0]) == op && Prio(op) > PRIO_NONE
    requires Parse(vars, depth, tail[1..], Prio(op)) == Out(Done(Rounded(b), r), MaxIndex(b))
    requires ParseTail(vars, depth, Rounded(Bin(op, a, b)), r, PRIO_NONE) == Out(Done(Rounded(Bin(op, a, b)), r), 0)
    ensures Parse(vars, depth, s, PRIO_NONE) == Out(Done(Rounded(Bin(op, a, b)), r), MaxIndex(Bin(op, a, b)))
  {
    hide ParseHead;
  }

  lemma OpRead(op: Op)
    ensures IsOp(OpChar(op)) && CharOp(OpChar(op)) == op && Prio(op) > PRIO_NONE
  {
  }

  lemma BinText(c: char, x: string, y: string, r: string)
    ensures
      var tail := [c] + "(" + y + ")" + r;
      && tail[0] == c && tail[1..] == "(" + y + ")" + r
      && "(" + x + ")" + "" + [c] + "" + "(" + y + ")" + r == "(" + x + ")" + tail
  {
    var tail := [c] + "(" + y + ")" + r;
    assert tail[1..] == "(" + y + ")" + r;
    assert "(" + x + ")" + "" + [c] + "" + "(" + y + ")" + r == "(" + x + ")" + tail;
  }

  // ------------------------------------------------------------------
  // White space
  // ------------------------------------------------------------------

  lemma {:induction false} StripConcat(a: string, b: string)
    ensures Strip(a + b) == Strip(a) + Strip(b)
  {
    if a == [] {
      assert a + b == b;
    } else {
      assert (a + b)[1..] == a[1..] + b;
      StripConcat(a[1..], b);
    }
  }

  lemma {:induction false} StripNone(a: string)
    requires forall i :: 0 <= i < |a| ==> !IsSpace(a[i])
    ensures Strip(a) == a
  {
    if a != [] {
      StripNone(a[1..]);
    }
  }

  ghost predicate NoSpace(a: string) {
    forall i :: 0 <= i < |a| ==> !IsSpace(a[i])
  }

  lemma LeafNoSpace(t: Term, sep: string)
    requires Leaf(t) && Printable(t)
    ensures Show(t, sep) == Show(t, "") && NoSpace(Show(t, sep))
  {
    hide Dec, Pad, SymName, ProcWord;
    match t
    case Sym(sym) => SymWord(sym);
    case ProcVal(p, name, n) => ProcWords(p);
    case Time(n) =>
    case Const(v) =>
  }

  /** Without white space, the printed text is the compact one. */
  lemma {:induction false} StripShow(t: Term)
    requires Printable(t)
    ensures Strip(Print(t)) == Show(t, "")
  {
    match t
    case Neg(x) =>
      StripShow(x);
      StripWrap("-(", Show(x, " "), ")");
    case Not(x) =>
      StripShow(x);
      StripWrap("!(", Show(x, " "), ")");
    case Bin(op, l, r) =>
      StripShow(l);
      StripShow(r);
      StripBin(OpChar(op), Show(l, " "), Show(r, " "));
    case Sym(_) => LeafNoSpace(t, " "); StripNone(Print(t));
    case ProcVal(_, _, _) => LeafNoSpace(t, " "); StripNone(Print(t));
    case Time(_) => LeafNoSpace(t, " "); StripNone(Print(t));
    case Const(_) => LeafNoSpace(t, " "); StripNone(Print(t));
  }

  lemma StripWrap(a: string, x: string, b: string)
    requires NoSpace(a) && NoSpace(b)
    ensures Strip(a + x + b) == a + Strip(x) + b
  {
    StripConcat(a + x, b);
    StripConcat(a, x);
    StripNone(a);
    StripNone(b);
  }

  lemma StripFive(a: string, b: string, c: string, d: string, e: string)
    ensures Strip(a + b + c + d + e) == Strip(a) + Strip(b) + Strip(c) + Strip(d) + Strip(e)
  {
    hide Strip;
    StripConcat(a + b + c + d, e);
    StripConcat(a + b + c, d);
    StripConcat(a + b, c);
    StripConcat(a, b);
  }

  lemma StripBin(c: char, x: string, y: string)
    requires !IsSpace(c)
    ensures Strip("(" + x + ")" + " " + [c] + " " + "(" + y + ")") == "(" + Strip(x) + ")" + "" + [c] + "" + "(" + Strip(y) + ")"
  {
    StripWrap("(", x, ")");
    StripWrap("(", y, ")");
    StripNone([c]);
    assert Strip(" ") == "";
    hide Strip;
    var front, back := "(" + x + ")", "(" + y + ")";
    StripFive(front, " ", [c], " ", back);
    Regroup(front + " " + [c] + " ", "(", y, ")");
    Regroup(Strip(front) + "" + [c] + "", "(", Strip(y), ")");
  }

  lemma Regroup(a: string, b: string, c: string, d: string)
    ensures a + b + c + d == a + (b + c + d)
  {
  }

  // ------------------------------------------------------------------
  // Round trip
  // ------------------------------------------------------------------

  /** Variables a configuration can define: the parser of the configuration refuses names of symbols. */
  ghost predicate Definable(vars: map<string, string>) {
    forall k :: 0 <= k < |SYM_NAMES| ==> SYM_NAMES[k].0 !in vars
  }

  /**
    The printed term parses back to itself with its constants rounded, all
    input is used, and the history index met is the highest one in it.
  */
  lemma RoundTrip(vars: map<string, string>, depth: nat, t: Term)
    requires NoShadow(vars) && Printable(t)
    ensures Parse(vars, depth, Strip(Print(t)), PRIO_NONE) == Out(Done(Rounded(t), []), MaxIndex(t))
    ensures Parse(vars, depth, Strip(Print(t)), PRIO_NONE).res == Done(t, []) <==> SixDecimals(t)
  {
    hide Parse;
    StripShow(t);
    ReadTerm(vars, depth, t, []);
    RoundedExactly(t);
    assert Show(t, "") + [] == Show(t, "");
  }

  lemma DefinableNoShadow(vars: map<string, string>)
    requires Definable(vars) && forall p :: ProcWord(p) !in vars
    ensures NoShadow(vars)
  {
    assert SYM_NAMES[19].0 !in vars;
    forall sym ensures SymName(sym) !in vars {
      assert SYM_NAMES[SymIndex(sym)].0 !in vars;
    }
  }

  /** No symbol begins with a dot. */
  lemma DotNoSymbol(s: string, i: nat)
    requires s != [] && s[0] == '.' && i <= |SYM_NAMES|
    ensures FindSym(s, i) == |SYM_NAMES|
  {
    var k := FindSym(s, i);
    if k < |SYM_NAMES| {
      NameLetter(k);
    }
  }

  lemma NameLetter(k: nat)
    requires k < |SYM_NAMES|
    ensures SYM_NAMES[k].0 != [] && SYM_NAMES[k].0[0] != '.'
  {
  }

  /** A variable called like a counter file hides it: its value is taken, and the rest is left over. */
  lemma Shadowed(vars: map<string, string>, depth: nat, p: Proc)
    requires ProcWord(p) in vars
    ensures Parse(vars, depth, Show(ProcVal(p, "", 0), ""), PRIO_NONE).res != Done(ProcVal(p, "", 0), [])
  {
    hide SYM_NAMES, Parse, ParseTail;
    var w, dot := ProcWord(p), "." + "" + "[" + Dec(0) + "]";
    var s := Show(ProcVal(p, "", 0), "");
    assert s == w + dot;
    ProcWords(p);
    Word(w, dot);
    DotNoSymbol(dot, 0);
    LetterFirst(vars, depth, s, PRIO_NONE);
    assert ParseSymbol(dot) == Out(Failed, 0);
    var o := ParseLeaf(vars, depth, s);
    assert o.res.Done? ==> o.res.rest == dot;
    LeftOver(vars, depth, s, dot);
  }

  lemma LeftOver(vars: map<string, string>, depth: nat, s: string, dot: string)
    requires dot != [] && dot[0] == '.'
    requires
      var o := ParseHead(vars, depth, s, PRIO_NONE);
      o.res.Done? ==> o.res.rest == dot
    ensures
      var o := Parse(vars, depth, s, PRIO_NONE);
      o.res.Done? ==> o.res.rest == dot
  {
    hide ParseHead;
    var o := ParseHead(vars, depth, s, PRIO_NONE);
    if o.res.Done? { Stop(vars, depth, o.res.term, dot, PRIO_NONE, 0); }
  }

  /**
    The configuration refuses variables that are called like a symbol, but it
    compares with the full symbol names, dot included.  So all terms survive
    printing and parsing exactly when no variable is called meminfo, vmstat or
    cpustat; their constants are rounded to six digits.
  */
  lemma RoundTripExactly(vars: map<string, string>, depth: nat)
    requires Definable(vars)
    ensures (forall t :: Printable(t) ==> Parse(vars, depth, Strip(Print(t)), PRIO_NONE).res == Done(Rounded(t), []))
       <==> forall p :: ProcWord(p) !in vars
  {
    if forall p :: ProcWord(p) !in vars {
      DefinableNoShadow(vars);
      forall t | Printable(t) ensures Parse(vars, depth, Strip(Print(t)), PRIO_NONE).res == Done(Rounded(t), []) {
        RoundTrip(vars, depth, t);
      }
    } else {
      var p :| ProcWord(p) in vars;
      var t := ProcVal(p, "", 0);
      Shadowed(vars, depth, p);
      StripShow(t);
      assert Printable(t);
    }
  }

  /** Such a variable: with meminfo set to 1, a counter of meminfo reads as 1 and leaves the rest behind. */
  lemma HiddenCounter(t: Term)
    requires t == ProcVal(Meminfo, "", 0)
    ensures Definable(map["meminfo" := "1"]) && Printable(t)
    ensures Parse(map["meminfo" := "1"], 1, Strip(Print(t)), PRIO_NONE).res != Done(t, [])
  {
    hide Parse, Show, Strip, SYM_NAMES;
    Shadowed(map["meminfo" := "1"], 1, Meminfo);
    StripShow(t);
    forall k | 0 <= k < |SYM_NAMES| ensures SYM_NAMES[k].0 != "meminfo" {
      NotMeminfo(k);
    }
  }

  lemma NotMeminfo(k: nat)
    requires k < |SYM_NAMES|
    ensures SYM_NAMES[k].0 != "meminfo"
  {
  }
}
