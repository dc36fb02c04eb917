/**
  File names: what a path is looked up by, how a name is stored in a directory
  entry (eight characters of name and eight of type, filled up with blanks),
  and when two names mean the same entry.
*/
module DirNames {
  const MAX_FNAME: nat := 18
  const FIELD: nat := 8

  datatype Option<T> = None | Some(value: T)

  /** Name and type as a directory entry stores them. */
  datatype Id = Id(fname: string, ftype: string)

  function UpperChar(c: char): char {
    if 'a' <= c <= 'z' then (c as int - 'a' as int + 'A' as int) as char else c
  }

  function Upper(s: string): (u: string)
    ensures |u| == |s| && forall i :: 0 <= i < |s| ==> u[i] == UpperChar(s[i])
  {
    if s == [] then [] else [UpperChar(s[0])] + Upper(s[1..])
  }

  /** A path name is cut to the length of a file name and taken in upper case. */
  function Key(name: string): string {
    Upper(if |name| < MAX_FNAME then name else name[..MAX_FNAME - 1])
  }

  /** Place of the first dot; |s| when there is none. */
  function Dot(s: string): (d: nat)
    ensures d <= |s| && (d < |s| ==> s[d] == '.') && forall i :: 0 <= i < d ==> s[i] != '.'
  {
    if s == [] || s[0] == '.' then 0 else 1 + Dot(s[1..])
  }

  function Blanks(n: nat): (b: string)
    ensures |b| == n && forall i :: 0 <= i < n ==> b[i] == ' '
  {
    seq(n, _ => ' ')
  }

  function Fill(s: string): (f: string)
    requires |s| <= FIELD
    ensures |f| == FIELD
  {
    s + Blanks(FIELD - |s|)
  }

  /** Without the blanks at the end. */
  function StripRight(s: string): (r: string)
    ensures r <= s && (r != [] ==> r[|r| - 1] != ' ')
  {
    if s != [] && s[|s| - 1] == ' ' then StripRight(s[..|s| - 1]) else s
  }

  function Encode(key: string): Option<Id> {
    var d := Dot(key);
    if d == |key| || d == 0 || d > FIELD then None
    else if |key| - (d + 1) == 0 || |key| - (d + 1) > FIELD then None
    else Some(Id(Fill(key[..d]), Fill(key[d + 1..])))
  }

  function Decode(id: Id): string {
    StripRight(id.fname) + "." + StripRight(id.ftype)
  }

  predicate IsEdfChar(c: char) {
    'A' <= c <= 'Z' || 'a' <= c <= 'z' || '0' <= c <= '9' || c in "#@+$-:_"
  }

  /** The names the file system accepts for new files. */
  predicate NameValid(name: string) {
    var d := Dot(name);
    d < |name| && forall i :: 0 <= i < |name| && i != d ==> IsEdfChar(name[i])
  }

  /** Neither the name nor the type ends with a blank. */
  predicate Canonical(key: string) {
    var d := Dot(key);
    0 < d < |key| - 1 && key[d - 1] != ' ' && key[|key| - 1] != ' '
  }

  // ------------------------------------------------------------------
  // Laws
  // ------------------------------------------------------------------

  /** Filling up and stripping gives back exactly the strings that do not end with a blank. */
  lemma {:induction false} StripFill(s: string, n: nat)
    ensures StripRight(s + Blanks(n)) == s <==> s == [] || s[|s| - 1] != ' '
    decreases n
  {
    if n > 0 {
      var t := s + Blanks(n);
      assert t[..|t| - 1] == s + Blanks(n - 1);
      StripFill(s, n - 1);
    } else {
      assert s + Blanks(n) == s;
    }
  }

  /** A name survives storing exactly when it is canonical. */
  lemma DecodeEncode(key: string)
    requires Encode(key).Some?
    ensures Decode(Encode(key).value) == key <==> Canonical(key)
  {
    var d := Dot(key);
    var f, t := key[..d], key[d + 1..];
    StripFill(f, FIELD - |f|);
    StripFill(t, FIELD - |t|);
    var sf, st := StripRight(Fill(f)), StripRight(Fill(t));
    assert key == f + "." + t;
    if sf + "." + st == key && sf != f {
      DotApart(sf, st, f, t);
    }
  }

  lemma DotUnique(s: string, d: nat)
    requires d < |s| && s[d] == '.' && forall i :: 0 <= i < d ==> s[i] != '.'
    ensures Dot(s) == d
  {
  }

  /** The part before the first dot is determined by the whole. */
  lemma DotApart(a: string, b: string, c: string, d: string)
    requires a + "." + b == c + "." + d && '.' !in c && '.' !in a
    ensures a == c && b == d
  {
    var s := a + "." + b;
    DotUnique(s, |a|);
    assert s == c + "." + d;
    DotUnique(s, |c|);
    assert a == s[..|a|] && c == s[..|c|] && b == s[|a| + 1..] && d == s[|c| + 1..];
  }

  /** Canonical names mean the same entry only when they are the same. */
  lemma SameEntry(k: string, l: string)
    requires Canonical(k) && Canonical(l) && Encode(k).Some? && Encode(k) == Encode(l)
    ensures k == l
  {
    DecodeEncode(k);
    DecodeEncode(l);
  }

  /** Names the file system accepts are canonical. */
  lemma ValidCanonical(name: string)
    requires NameValid(name) && Encode(Key(name)).Some?
    ensures Canonical(Key(name))
  {
    hide Upper, Dot, UpperChar, Fill, IsEdfChar;
    var cut := if |name| < MAX_FNAME then name else name[..MAX_FNAME - 1];
    var key := Key(name);
    var d := Dot(key);
    UpperKeeps(cut[d]);
    forall i | 0 <= i < d ensures name[i] != '.' {
      assert key[i] != '.' && key[i] == UpperChar(cut[i]);
      UpperKeeps(cut[i]);
    }
    DotUnique(name, d);
    NoBlank(name[d - 1]);
    NoBlank(name[|key| - 1]);
  }

  lemma UpperKeeps(c: char)
    ensures UpperChar(c) == '.' <==> c == '.'
    ensures UpperChar(c) == ' ' <==> c == ' '
  {
  }

  lemma NoBlank(c: char)
    requires IsEdfChar(c)
    ensures UpperChar(c) != ' '
  {
  }
}
