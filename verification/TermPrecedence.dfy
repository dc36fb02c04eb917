/**
  Operator precedence: an unparenthesised chain of operands, with or without
  signs in front of them, parses to the one tree in which every operator binds
  as the priority table says, equal priorities from left to right, and every
  sign reaches as far as the operator in front of it allows.
*/
module TermPrecedence {
  import opened Terms
  import opened TermRoundTrip

  datatype Sign = MinusSign | NotSign

  /** An operand with the signs in front of it. */
  datatype Item = Item(signs: seq<Sign>, leaf: Term)

  function SignChar(c: Sign): char {
    if c == MinusSign then '-' else '!'
  }

  function Signed(c: Sign, t: Term): Term {
    if c == MinusSign then Neg(t) else Not(t)
  }

  predicate Unary(t: Term) {
    t.Neg? || t.Not?
  }

  function SignOf(t: Term): Sign
    requires Unary(t)
  {
    if t.Neg? then MinusSign else NotSign
  }

  /** The tree without the signs at its root. */
  ghost function Core(t: Term): Term {
    if Unary(t) then Core(t.arg) else t
  }

  /** Operands and operators of a tree from left to right. */
  ghost function Items(t: Term): (items: seq<Item>)
    ensures |items| > 0
  {
    if t.Bin? then Items(t.left) + Items(t.right)
    else if Unary(t) then
      var x := Items(t.arg);
      [Item([SignOf(t)] + x[0].signs, x[0].leaf)] + x[1..]
    else [Item([], t)]
  }

  ghost function Ops(t: Term): seq<Op> {
    if t.Bin? then Ops(t.left) + [t.op] + Ops(t.right) else if Unary(t) then Ops(t.arg) else []
  }

  /** Under its signs the tree is an operator that binds tighter than prio, or an operand. */
  ghost predicate Tighter(t: Term, prio: int) {
    Core(t).Bin? ==> Prio(Core(t).op) > prio
  }

  /**
    Right operands bind strictly tighter than their operator, signs aside; left
    ones at least as tight, and they have no sign: a sign in front of a chain
    is one for all of it that binds tighter than what stands before.
  */
  ghost predicate Shaped(t: Term) {
    && (Unary(t) ==> Shaped(t.arg))
    && (t.Bin? ==>
         && Shaped(t.left) && Shaped(t.right) && !Unary(t.left)
         && (t.left.Bin? ==> Prio(t.left.op) >= Prio(t.op))
         && Tighter(t.right, Prio(t.op)))
  }

  lemma {:induction false} Counts(t: Term)
    ensures |Items(t)| == |Ops(t)| + 1
  {
    if t.Bin? {
      Counts(t.left);
      Counts(t.right);
    } else if Unary(t) {
      Counts(t.arg);
    }
  }

  /** The root of a shaped tree binds loosest. */
  lemma {:induction false} RootLoosest(t: Term, i: nat)
    requires Shaped(t) && i < |Ops(t)|
    ensures Core(t).Bin? && Prio(Ops(t)[i]) >= Prio(Core(t).op)
  {
    if Unary(t) {
      RootLoosest(t.arg, i);
    } else if i < |Ops(t.left)| {
      RootLoosest(t.left, i);
    } else if i > |Ops(t.left)| {
      RootLoosest(t.right, i - |Ops(t.left)| - 1);
    }
  }

  /** Every operator to the right of the root binds strictly tighter. */
  lemma RightTighter(t: Term, i: nat)
    requires Shaped(t) && t.Bin? && |Ops(t.left)| < i < |Ops(t)|
    ensures Prio(Ops(t)[i]) > Prio(t.op)
  {
    RootLoosest(t.right, i - |Ops(t.left)| - 1);
  }

  /** A tree without a sign at its root begins with an operand without sign. */
  lemma {:induction false} FirstPlain(t: Term)
    requires Shaped(t)
    ensures Unary(t) <==> Items(t)[0].signs != []
    ensures Unary(t) ==> Items(t)[0].signs[0] == SignOf(t)
  {
    if t.Bin? { FirstPlain(t.left); }
  }

  /** A shaped tree is determined by its operands and operators. */
  lemma {:induction false} ShapedUnique(t: Term, u: Term)
    requires Shaped(t) && Shaped(u) && Items(t) == Items(u) && Ops(t) == Ops(u)
    ensures t == u
  {
    Counts(t);
    Counts(u);
    FirstPlain(t);
    FirstPlain(u);
    if Unary(t) {
      SignTaken(t);
      SignTaken(u);
      ShapedUnique(t.arg, u.arg);
    } else if t.Bin? {
      SameRoot(t, u);
      SplitAtRoot(t);
      SplitAtRoot(u);
      ShapedUnique(t.left, u.left);
      ShapedUnique(t.right, u.right);
    }
  }

  lemma SignTaken(t: Term)
    requires Unary(t)
    ensures Items(t.arg) == [Item(Items(t)[0].signs[1..], Items(t)[0].leaf)] + Items(t)[1..]
  {
    var x := Items(t.arg);
    assert Items(t)[0].signs[1..] == x[0].signs;
    assert x == [x[0]] + x[1..];
  }

  lemma SplitAtRoot(t: Term)
    requires t.Bin?
    ensures
      var n := |Ops(t.left)|;
      && |Items(t)| == |Ops(t)| + 1 > n + 1 && Ops(t)[n] == t.op
      && Ops(t)[..n] == Ops(t.left) && Ops(t)[n + 1..] == Ops(t.right)
      && Items(t)[..n + 1] == Items(t.left) && Items(t)[n + 1..] == Items(t.right)
  {
    Counts(t);
    Counts(t.left);
  }

  /** The root is the last of the loosest operators. */
  lemma SameRoot(t: Term, u: Term)
    requires Shaped(t) && Shaped(u) && t.Bin? && u.Bin? && Ops(t) == Ops(u)
    ensures |Ops(t.left)| == |Ops(u.left)|
  {
    var n, m := |Ops(t.left)|, |Ops(u.left)|;
    assert Ops(t)[n] == t.op && Ops(u)[m] == u.op;
    if n < m {
      RightTighter(t, m);
      RootLoosest(u, n);
    } else if m < n {
      RightTighter(u, n);
      RootLoosest(t, m);
    }
  }

  // ------------------------------------------------------------------
  // The parser on a chain
  // ------------------------------------------------------------------

  /** A minus right in front of a number without sign is part of the number. */
  ghost predicate ItemOk(x: Item) {
    && Leaf(x.leaf) && Printable(x.leaf)
    && (x.signs != [] && x.signs[|x.signs| - 1] == MinusSign && x.leaf.Const? ==> x.leaf.value < 0.0)
  }

  ghost predicate IsChain(items: seq<Item>, ops: seq<Op>) {
    |items| == |ops| + 1 && forall i :: 0 <= i < |items| ==> ItemOk(items[i])
  }

  ghost function Near(x: Item): Item {
    Item(x.signs, Rounded(x.leaf))
  }

  /** The operands as they are read, with rounded constants. */
  ghost function Read(items: seq<Item>): (r: seq<Item>)
    ensures |r| == |items| && forall i :: 0 <= i < |items| ==> r[i] == Near(items[i])
  {
    seq(|items|, i requires 0 <= i < |items| => Near(items[i]))
  }

  ghost function SignText(signs: seq<Sign>): string {
    if signs == [] then [] else [SignChar(signs[0])] + SignText(signs[1..])
  }

  ghost function ItemText(x: Item): string {
    SignText(x.signs) + Show(x.leaf, "")
  }

  /** The text from the operator behind operand k on; r follows the chain. */
  ghost function TextBehind(items: seq<Item>, ops: seq<Op>, k: nat, r: string): string
    requires |items| == |ops| + 1 && k <= |ops|
    decreases |ops| - k
  {
    if k == |ops| then r else [OpChar(ops[k])] + (ItemText(items[k + 1]) + TextBehind(items, ops, k + 1, r))
  }

  /** The text of a whole chain. */
  ghost function Text(items: seq<Item>, ops: seq<Op>): string
    requires |items| == |ops| + 1
  {
    ItemText(items[0]) + TextBehind(items, ops, 0, [])
  }

  /** A tree for the operand first, which stands at place k, and the operands behind it up to j. */
  ghost predicate Covers(t: Term, first: Item, items: seq<Item>, ops: seq<Op>, k: nat, j: nat) {
    && k <= j <= |ops| < |items| && Shaped(t)
    && Items(t) == [Near(first)] + Read(items)[k + 1..j + 1] && Ops(t) == ops[k..j]
  }

  /** The operator behind operand j is the first that does not bind tighter than prio. */
  ghost predicate Ended(ops: seq<Op>, j: nat, prio: int) {
    j == |ops| || (j < |ops| && prio >= Prio(ops[j]))
  }

  lemma BehindEnds(items: seq<Item>, ops: seq<Op>, k: nat, r: string)
    requires |items| == |ops| + 1 && k <= |ops| && Closes(r)
    ensures Ends(TextBehind(items, ops, k, r))
    ensures k < |ops| ==>
      var s := TextBehind(items, ops, k, r);
      s != [] && s[1..] == ItemText(items[k + 1]) + TextBehind(items, ops, k + 1, r) && IsOp(s[0]) && CharOp(s[0]) == ops[k]
    ensures k == |ops| ==> TextBehind(items, ops, k, r) == r && (r != [] ==> !IsOp(r[0]))
  {
    hide ItemText;
    if k < |ops| { OpRead(ops[k]); }
  }

  lemma Joined(t: Term, u: Term, first: Item, items: seq<Item>, ops: seq<Op>, k: nat, i: nat, j: nat)
    requires i < |ops| < |items| && Covers(t, first, items, ops, k, i) && Covers(u, items[i + 1], items, ops, i + 1, j)
    requires !Unary(t) && (t.Bin? ==> Prio(t.op) >= Prio(ops[i])) && Tighter(u, Prio(ops[i]))
    ensures Covers(Bin(ops[i], t, u), first, items, ops, k, j)
  {
    var all := Read(items);
    assert [Near(items[i + 1])] + all[i + 2..j + 1] == all[i + 1..j + 1];
    assert [Near(first)] + all[k + 1..i + 1] + all[i + 1..j + 1] == [Near(first)] + all[k + 1..j + 1];
    assert ops[k..i] + [ops[i]] + ops[i + 1..j] == ops[k..j];
  }

  /** The first character of an operand without sign is a digit only if it is a number that is not negative. */
  lemma LeafStart(t: Term, r: string)
    requires Leaf(t) && Printable(t) && Ends(r)
    ensures var s := Show(t, "") + r; s != [] && (IsDigit(s[0]) ==> t.Const? && t.value >= 0.0)
  {
    hide Dec, ShowMicro, Nearest;
    match t
    case Sym(sym) => SymLetter(sym);
    case ProcVal(p, name, n) =>
    case Time(n) =>
    case Const(v) => if v >= 0.0 { ReadMicro(Nearest(v * 1000000.0), r); }
  }

  /** Behind a sign that is not part of a number the rest is read with the same priority. */
  lemma ReadSign(vars: map<string, string>, depth: nat, c: Sign, s: string, prio: int, t: Term, rest: string)
    requires c == MinusSign ==> s == [] || !IsDigit(s[0])
    requires Parse(vars, depth, s, prio).res == Done(t, rest) && Stops(rest, prio)
    ensures Parse(vars, depth, [SignChar(c)] + s, prio).res == Done(Signed(c, t), rest)
  {
    hide Parse, ParseTail;
    var text := [SignChar(c)] + s;
    assert text[1..] == s && text[0] == SignChar(c);
    assert ParseHead(vars, depth, text, prio).res == Done(Signed(c, t), rest);
    Stop(vars, depth, Signed(c, t), rest, prio, 0);
    ParseIs(vars, depth, text, prio);
  }

  lemma ParseIs(vars: map<string, string>, depth: nat, s: string, prio: int)
    ensures
      var o := ParseHead(vars, depth, s, prio);
      Parse(vars, depth, s, prio).res == if o.res.Done? then ParseTail(vars, depth, o.res.term, o.res.rest, prio).res else o.res
  {
    hide ParseHead, ParseTail;
  }

  lemma CoversSigned(c: Sign, t: Term, first: Item, items: seq<Item>, ops: seq<Op>, k: nat, j: nat)
    requires first.signs != [] && first.signs[0] == c && Covers(t, Item(first.signs[1..], first.leaf), items, ops, k, j)
    ensures Covers(Signed(c, t), first, items, ops, k, j)
  {
    assert [c] + first.signs[1..] == first.signs;
    var x := Items(t);
    assert x[0] == Near(Item(first.signs[1..], first.leaf)) && x[1..] == Read(items)[k + 1..j + 1];
  }

  lemma StopsAt(items: seq<Item>, ops: seq<Op>, j: nat, r: string, prio: int)
    requires |items| == |ops| + 1 && j <= |ops| && Closes(r) && Ended(ops, j, prio)
    ensures Stops(TextBehind(items, ops, j, r), prio)
  {
    hide TextBehind;
    BehindEnds(items, ops, j, r);
  }

  /** The chain from place k on, its first operand perhaps without some of its signs. */
  lemma {:induction false} ChainParse(vars: map<string, string>, depth: nat, first: Item, items: seq<Item>, ops: seq<Op>, k: nat, r: string, prio: int)
    returns (j: nat, t: Term)
    requires NoShadow(vars) && IsChain(items, ops) && k <= |ops| && Closes(r) && ItemOk(first)
    ensures k <= j <= |ops| && Covers(t, first, items, ops, k, j) && Ended(ops, j, prio) && Tighter(t, prio)
    ensures Parse(vars, depth, ItemText(first) + TextBehind(items, ops, k, r), prio).res == Done(t, TextBehind(items, ops, j, r))
    decreases |ops| - k, 2, |first.signs|
  {
    hide Parse, NoShadow, Printable, Show, TextBehind, Rounded;
    var rest := TextBehind(items, ops, k, r);
    BehindEnds(items, ops, k, r);
    if first.signs == [] {
      j, t := LeafParse(vars, depth, first, items, ops, k, r, prio);
    } else {
      var c, inner := first.signs[0], Item(first.signs[1..], first.leaf);
      j, t := ChainParse(vars, depth, inner, items, ops, k, r, prio);
      var s := ItemText(inner) + rest;
      SignStart(first, rest);
      StopsAt(items, ops, j, r, prio);
      ReadSign(vars, depth, c, s, prio, t, TextBehind(items, ops, j, r));
      CoversSigned(c, t, first, items, ops, k, j);
      t := Signed(c, t);
    }
  }

  lemma SignStart(first: Item, rest: string)
    requires ItemOk(first) && first.signs != [] && Ends(rest)
    ensures
      var s := ItemText(Item(first.signs[1..], first.leaf)) + rest;
      && ItemText(first) + rest == [SignChar(first.signs[0])] + s
      && (first.signs[0] == MinusSign ==> s != [] && !IsDigit(s[0]))
      && ItemOk(Item(first.signs[1..], first.leaf))
  {
    hide Show, Printable;
    var signs, text := first.signs, Show(first.leaf, "");
    LeafStart(first.leaf, rest);
    assert SignText(signs) + text + rest == [SignChar(signs[0])] + (SignText(signs[1..]) + text + rest);
    if signs[1..] == [] {
      assert SignText(signs[1..]) + text + rest == text + rest;
    }
  }

  lemma {:induction false} LeafParse(vars: map<string, string>, depth: nat, first: Item, items: seq<Item>, ops: seq<Op>, k: nat, r: string, prio: int)
    returns (j: nat, t: Term)
    requires NoShadow(vars) && IsChain(items, ops) && k <= |ops| && Closes(r) && ItemOk(first) && first.signs == []
    ensures k <= j <= |ops| && Covers(t, first, items, ops, k, j) && Ended(ops, j, prio) && Tighter(t, prio)
    ensures Parse(vars, depth, ItemText(first) + TextBehind(items, ops, k, r), prio).res == Done(t, TextBehind(items, ops, j, r))
    decreases |ops| - k, 1
  {
    hide ParseHead, ParseTail, NoShadow, Printable, Show, TextBehind, Parse;
    var rest, leaf := TextBehind(items, ops, k, r), Rounded(first.leaf);
    BehindEnds(items, ops, k, r);
    assert ItemText(first) == Show(first.leaf, "");
    ReadLeaf(vars, depth, first.leaf, rest, prio);
    LeafRounded(first.leaf);
    assert Covers(leaf, first, items, ops, k, k);
    j, t := ChainTail(vars, depth, first, items, ops, k, k, leaf, r, prio);
    ParseIs(vars, depth, Show(first.leaf, "") + rest, prio);
  }

  lemma LeafRounded(t: Term)
    requires Leaf(t)
    ensures Leaf(Rounded(t))
  {
  }

  lemma {:induction false} ChainTail(vars: map<string, string>, depth: nat, first: Item, items: seq<Item>, ops: seq<Op>, k: nat, i: nat, left: Term, r: string, prio: int)
    returns (j: nat, t: Term)
    requires NoShadow(vars) && IsChain(items, ops) && k <= i <= |ops| && Closes(r) && Covers(left, first, items, ops, k, i)
    requires !Unary(left) && (left.Bin? ==> Prio(left.op) > prio && (i < |ops| ==> Prio(left.op) >= Prio(ops[i])))
    ensures i <= j <= |ops| && Covers(t, first, items, ops, k, j) && Ended(ops, j, prio) && Tighter(t, prio)
    ensures ParseTail(vars, depth, left, TextBehind(items, ops, i, r), prio).res == Done(t, TextBehind(items, ops, j, r))
    decreases |ops| - i, 0
  {
    hide Parse, NoShadow, Printable, Show, Covers, TextBehind, ItemText;
    BehindEnds(items, ops, i, r);
    if i == |ops| || prio >= Prio(ops[i]) {
      j, t := i, left;
    } else {
      var m, u := ChainParse(vars, depth, items[i + 1], items, ops, i + 1, r, Prio(ops[i]));
      Joined(left, u, first, items, ops, k, i, m);
      j, t := ChainTail(vars, depth, first, items, ops, k, m, Bin(ops[i], left, u), r, prio);
    }
  }

  /**
    Every chain parses completely, to a tree that has the operands, signs and
    operators of the chain in their order and is shaped by the priorities;
    there is no other such tree.
  */
  lemma Precedence(vars: map<string, string>, depth: nat, items: seq<Item>, ops: seq<Op>) returns (t: Term)
    requires NoShadow(vars) && IsChain(items, ops)
    ensures Parse(vars, depth, Text(items, ops), PRIO_NONE).res == Done(t, [])
    ensures Items(t) == Read(items) && Ops(t) == ops && Shaped(t)
    ensures forall u :: Items(u) == Read(items) && Ops(u) == ops && Shaped(u) ==> u == t
  {
    hide Parse, NoShadow;
    var j;
    j, t := ChainParse(vars, depth, items[0], items, ops, 0, [], PRIO_NONE);
    assert j == |ops| by { if j < |ops| { OpRead(ops[j]); } }
    assert [Near(items[0])] + Read(items)[1..|ops| + 1] == Read(items) && ops[0..|ops|] == ops;
    forall u | Items(u) == Read(items) && Ops(u) == ops && Shaped(u) ensures u == t {
      ShapedUnique(u, t);
    }
  }

  /** A sign in front of a chain is one for the whole chain: -user+nice is minus the sum. */
  lemma SignReachesFar(vars: map<string, string>, depth: nat)
    requires NoShadow(vars)
    ensures
      var items := [Item([MinusSign], Sym(User)), Item([], Sym(Nice))];
      && IsChain(items, [Plus])
      && Parse(vars, depth, Text(items, [Plus]), PRIO_NONE).res == Done(Neg(Bin(Plus, Sym(User), Sym(Nice))), [])
  {
    hide Parse, NoShadow, Text;
    var items, sum := [Item([MinusSign], Sym(User)), Item([], Sym(Nice))], Bin(Plus, Sym(User), Sym(Nice));
    var t := Precedence(vars, depth, items, [Plus]);
    assert Items(sum) == [Item([], Sym(User)), Item([], Sym(Nice))];
    assert Items(Neg(sum)) == items && Read(items) == items && Ops(Neg(sum)) == [Plus];
  }
}
