/**
  The parser as the daemon runs it: it walks over the text, keeps the highest
  history index it has met, and computes what the parsing function says.
*/
module TermParser {
  import opened Terms

  class Parser {
    const vars: map<string, string>
    var historyMax: nat

    constructor (vars: map<string, string>, historyMax: nat)
      ensures this.vars == vars && this.historyMax == historyMax
    {
      this.vars, this.historyMax := vars, historyMax;
    }

    /** The first symbol name that the text begins with. */
    method LookUpSymbol(s: string) returns (i: nat)
      ensures i == FindSym(s, 0)
    {
      i := 0;
      while i < |SYM_NAMES| && !(SYM_NAMES[i].0 <= s)
        invariant 0 <= i <= |SYM_NAMES| && FindSym(s, i) == FindSym(s, 0)
      {
        i := i + 1;
      }
    }

    /** An optional history index. */
    method ParseHistory(s: string, t: Term) returns (res: Result)
      requires t.ProcVal? || t.Time?
      modifies this`historyMax
      ensures res == ParseIndex(s, t).res && historyMax == Max(old(historyMax), ParseIndex(s, t).hist)
    {
      if s == [] || s[0] != '[' {
        return Done(t, s);
      }
      if |s| == 1 || !IsDigit(s[1]) {
        return Failed;
      }
      var length, value := 1, 0;
      while length < |s| && IsDigit(s[length])
        invariant 1 <= length <= |s| && forall i :: 1 <= i < length ==> IsDigit(s[i])
        invariant value == DecValue(s[1..length])
      {
        assert s[1..length + 1][..length - 1] == s[1..length];
        value := 10 * value + DigitVal(s[length]);
        length := length + 1;
      }
      RunUnique(IsDigit, s[1..], length - 1);
      assert s[1..][..length - 1] == s[1..length];
      var index := (if value > LONG_MAX then LONG_MAX else value) % UINT_SIZE;
      if length == |s| || s[length] != ']' {
        return Failed;
      }
      if historyMax < index {
        historyMax := index;
      }
      return Done(t.(index := index), s[length + 1..]);
    }

    method ParseSym(s: string) returns (res: Result)
      modifies this`historyMax
      ensures res == ParseSymbol(s).res && historyMax == Max(old(historyMax), ParseSymbol(s).hist)
    {
      hide FindSym, ParseIndex;
      var i := LookUpSymbol(s);
      FoundSym(s);
      if i >= |SYM_NAMES| {
        return Failed;
      }
      hide SYM_NAMES;
      var rest := s[|SYM_NAMES[i].0|..];
      match SYM_NAMES[i].1 {
        case IsSym(sym) => res := Done(Sym(sym), rest);
        case IsTime => res := ParseHistory(rest, Time(0));
        case IsProc(p) =>
          var length := 0;
          while length < |rest| && IsProcChar(rest[length])
            invariant length <= |rest| && forall k :: 0 <= k < length ==> IsProcChar(rest[k])
          {
            length := length + 1;
          }
          RunUnique(IsProcChar, rest, length);
          res := ParseHistory(rest[length..], ProcVal(p, rest[..length], 0));
      }
    }

    lemma FoundSym(s: string)
      ensures FindSym(s, 0) <= |SYM_NAMES| && (FindSym(s, 0) < |SYM_NAMES| ==> SYM_NAMES[FindSym(s, 0)].0 <= s)
    {
    }

    /** A variable if the text begins with one, otherwise a symbol. */
    method ParseVarOrSym(depth: nat, s: string) returns (res: Result)
      modifies this`historyMax
      ensures res == ParseLeaf(vars, depth, s).res && historyMax == Max(old(historyMax), ParseLeaf(vars, depth, s).hist)
      decreases depth, |s|, 0
    {
      var length := 0;
      ghost var n := Run(IsVarChar, s);
      hide Parse, ParseSymbol;
      while length < |s| && IsVarChar(s[length])
        invariant length <= n && length <= MAX_VARNAME
      {
        length := length + 1;
        if length > MAX_VARNAME {
          return Exited;
        }
      }
      var name := s[..length];
      if name in vars {
        if depth == 0 {
          return Exited;
        }
        var r := ParseTerm(depth - 1, vars[name], PRIO_NONE);
        match r {
          case Done(t, rest) =>
            if rest != [] {
              return Exited;
            }
            return Done(t, s[length..]);
          case Failed =>
            if vars[name] != [] {
              return Exited;
            }
            res := ParseSym(s[length..]);
          case Exited =>
            return Exited;
        }
      } else {
        res := ParseSym(s);
      }
    }

    /** What stands before the first binary operator. */
    method ParseFirst(depth: nat, s: string, prio: int) returns (res: Result)
      modifies this`historyMax
      ensures res == ParseHead(vars, depth, s, prio).res && historyMax == Max(old(historyMax), ParseHead(vars, depth, s, prio).hist)
      decreases depth, |s|, 1
    {
      hide Parse, ParseLeaf, NumberValue, NumberLength;
      if s != [] && s[0] == '-' && |s| > 1 && IsDigit(s[1]) {
        var t := s[1..];
        return Done(Const(-NumberValue(t)), t[NumberLength(t)..]);
      }
      if s != [] && (s[0] == '-' || s[0] == '!') {
        res := ParseTerm(depth, s[1..], prio);
        if res.Done? {
          res := Done(if s[0] == '-' then Neg(res.term) else Not(res.term), res.rest);
        }
      } else if s != [] && IsDigit(s[0]) {
        return Done(Const(NumberValue(s)), s[NumberLength(s)..]);
      } else if s != [] && s[0] == '(' {
        res := ParseTerm(depth, s[1..], PRIO_NONE);
        if res.Done? {
          if res.rest == [] || res.rest[0] != ')' {
            return Failed;
          }
          res := Done(res.term, res.rest[1..]);
        }
      } else {
        res := ParseVarOrSym(depth, s);
      }
    }

    /** The parser: a first operand, then operators as long as they bind tighter than prio. */
    method ParseTerm(depth: nat, p: string, prio: int) returns (res: Result)
      modifies this`historyMax
      ensures res == Parse(vars, depth, p, prio).res && historyMax == Max(old(historyMax), Parse(vars, depth, p, prio).hist)
      decreases depth, |p|, 2
    {
      hide ParseHead;
      ghost var all := Parse(vars, depth, p, prio);
      res := ParseFirst(depth, p, prio);
      if !res.Done? {
        return;
      }
      var fn, s := res.term, res.rest;
      while s != [] && IsOp(s[0])
        invariant |s| <= |p| && ParseTail(vars, depth, fn, s, prio).res == all.res
        invariant Max(historyMax, ParseTail(vars, depth, fn, s, prio).hist) == Max(old(historyMax), all.hist)
        decreases |s|
      {
        var op := CharOp(s[0]);
        if prio >= Prio(op) {
          break;
        }
        var right := ParseTerm(depth, s[1..], Prio(op));
        if !right.Done? {
          return right;
        }
        fn, s := Bin(op, fn, right.term), right.rest;
      }
      res := Done(fn, s);
    }
  }
}
