/**
  Conflicts between two matrix devices: the queues (APQNs) of a device are all
  pairs of one of its adapters and one of its domains.
*/
module ApConflicts {
  type Apqn = (nat, nat)

  ghost predicate Ascending(s: seq<nat>) {
    forall i, j :: 0 <= i < j < |s| ==> s[i] < s[j]
  }

  ghost function Elems(s: seq<nat>): set<nat> {
    set x | x in s
  }

  /** The queues of a device. */
  ghost function Queues(adapters: seq<nat>, domains: seq<nat>): set<Apqn> {
    set a, d | a in Elems(adapters) && d in Elems(domains) :: (a, d)
  }

  /** Lexicographic order of queues. */
  ghost predicate Before(x: Apqn, y: Apqn) {
    x.0 < y.0 || (x.0 == y.0 && x.1 < y.1)
  }

  /** Reports in strictly ascending order, so none is given twice. */
  ghost predicate InOrder(r: seq<Apqn>) {
    forall i, j :: 0 <= i < j < |r| ==> Before(r[i], r[j])
  }

  /** The merge has passed a[..i] and b[..j]: no number in there can still meet its equal in the other list. */
  ghost predicate Merged(a: seq<nat>, b: seq<nat>, i: nat, j: nat) {
    && i <= |a| && j <= |b|
    && (forall x, y :: 0 <= x < i && j <= y < |b| ==> a[x] < b[y])
    && (forall x, y :: i <= x < |a| && 0 <= y < j ==> b[y] < a[x])
  }

  /** What was found so far: the numbers that the passed parts have in common, in ascending order. */
  ghost predicate Found(a: seq<nat>, b: seq<nat>, i: nat, j: nat, found: seq<nat>) {
    && Merged(a, b, i, j) && Ascending(found)
    && (forall x :: x in found <==> x in a[..i] && x in b[..j])
  }

  lemma FoundEqual(a: seq<nat>, b: seq<nat>, i: nat, j: nat, found: seq<nat>)
    requires Ascending(a) && Ascending(b) && Found(a, b, i, j, found) && i < |a| && j < |b| && a[i] == b[j]
    ensures Found(a, b, i + 1, j + 1, found + [a[i]])
  {
    assert a[..i + 1] == a[..i] + [a[i]] && b[..j + 1] == b[..j] + [b[j]];
    forall k | 0 <= k < |found| ensures found[k] < a[i] {
      assert found[k] in a[..i];
    }
  }

  lemma FoundSkip(a: seq<nat>, b: seq<nat>, i: nat, j: nat, found: seq<nat>)
    requires Ascending(a) && Ascending(b) && Found(a, b, i, j, found) && i < |a| && j < |b| && a[i] < b[j]
    ensures Found(a, b, i + 1, j, found)
  {
    assert a[..i + 1] == a[..i] + [a[i]];
    forall y | 0 <= y < j ensures b[..j][y] != a[i] {
      assert b[y] < a[i];
    }
  }

  lemma FoundSwap(a: seq<nat>, b: seq<nat>, i: nat, j: nat, found: seq<nat>)
    ensures Found(a, b, i, j, found) <==> Found(b, a, j, i, found)
  {
  }

  lemma Passed(a: seq<nat>, b: seq<nat>, i: nat, j: nat, k: nat, l: nat)
    requires Merged(a, b, i, j) && (i == |a| || j == |b|) && k < |a| && l < |b| && a[k] == b[l]
    ensures k < i && l < j
  {
  }

  /** At the end of either list everything in common has been found. */
  lemma FoundAll(a: seq<nat>, b: seq<nat>, i: nat, j: nat, found: seq<nat>)
    requires Found(a, b, i, j, found) && (i == |a| || j == |b|)
    ensures forall x :: x in found <==> x in a && x in b
  {
    forall x | x in a && x in b ensures x in found {
      var k :| 0 <= k < |a| && a[k] == x;
      var l :| 0 <= l < |b| && b[l] == x;
      Passed(a, b, i, j, k, l);
      assert a[..i][k] == x && b[..j][l] == x;
    }
  }

  /** The domains two devices have in common, reported for an adapter that both have. */
  method CommonDomains(domains: seq<nat>, domains2: seq<nat>) returns (found: seq<nat>)
    requires Ascending(domains) && Ascending(domains2)
    ensures Ascending(found) && forall d :: d in found <==> d in domains && d in domains2
  {
    found := [];
    var i, j := 0, 0;
    while i < |domains| && j < |domains2|
      invariant i <= |domains| && j <= |domains2| && Found(domains, domains2, i, j, found)
      decreases |domains| - i + |domains2| - j
    {
      FoundSwap(domains, domains2, i, j, found);
      if domains[i] == domains2[j] {
        FoundEqual(domains, domains2, i, j, found);
        found := found + [domains[i]];
        i, j := i + 1, j + 1;
      } else if domains[i] > domains2[j] {
        FoundSkip(domains2, domains, j, i, found);
        FoundSwap(domains, domains2, i, j + 1, found);
        j := j + 1;
      } else {
        FoundSkip(domains, domains2, i, j, found);
        i := i + 1;
      }
    }
    FoundAll(domains, domains2, i, j, found);
  }

  /** The reports for the common adapters met so far. */
  ghost predicate Reported(met: seq<nat>, domains: seq<nat>, domains2: seq<nat>, reports: seq<Apqn>) {
    && InOrder(reports)
    && forall x :: x in reports <==> x.0 in met && x.1 in domains && x.1 in domains2
  }

  /** The reports for one more adapter. */
  function Row(a: nat, d: seq<nat>): (r: seq<Apqn>)
    ensures |r| == |d| && forall k :: 0 <= k < |d| ==> r[k] == (a, d[k])
  {
    seq(|d|, k requires 0 <= k < |d| => (a, d[k]))
  }

  lemma ReportRow(met: seq<nat>, domains: seq<nat>, domains2: seq<nat>, reports: seq<Apqn>, a: nat, d: seq<nat>)
    requires Reported(met, domains, domains2, reports) && Ascending(met + [a])
    requires Ascending(d) && forall x :: x in d <==> x in domains && x in domains2
    ensures Reported(met + [a], domains, domains2, reports + Row(a, d))
  {
    var row := Row(a, d);
    forall x ensures x in row <==> x.0 == a && x.1 in d {
      if x.0 == a && x.1 in d {
        var k :| 0 <= k < |d| && d[k] == x.1;
        assert row[k] == x;
      }
    }
    forall i, j | 0 <= i < j < |reports + row| ensures Before((reports + row)[i], (reports + row)[j]) {
      if i < |reports| <= j {
        assert reports[i] in reports;
        var k :| 0 <= k < |met| && met[k] == reports[i].0;
        assert (met + [a])[k] < (met + [a])[|met|];
      }
    }
  }

  /** When all common adapters have been met, the reports are the common queues. */
  lemma ReportAll(met: seq<nat>, a: seq<nat>, d: seq<nat>, a2: seq<nat>, d2: seq<nat>, reports: seq<Apqn>)
    requires Reported(met, d, d2, reports) && forall x :: x in met <==> x in a && x in a2
    ensures forall x :: x in reports <==> x in Queues(a, d) && x in Queues(a2, d2)
    ensures reports == [] <==> Queues(a, d) !! Queues(a2, d2)
  {
    if reports != [] {
      assert reports[0] in reports;
      assert reports[0] in Queues(a, d) && reports[0] in Queues(a2, d2);
    }
  }

  /**
    The merge over both lists: every queue that both devices have is reported
    exactly once, nothing else is, and the return code tells whether there is one.
  */
  method FindApqnConflicts(adapters: seq<nat>, domains: seq<nat>, adapters2: seq<nat>, domains2: seq<nat>)
    returns (rc: int, reports: seq<Apqn>)
    requires Ascending(adapters) && Ascending(domains) && Ascending(adapters2) && Ascending(domains2)
    ensures InOrder(reports)
    ensures forall x :: x in reports <==> x in Queues(adapters, domains) && x in Queues(adapters2, domains2)
    ensures rc == if Queues(adapters, domains) !! Queues(adapters2, domains2) then 0 else -1
  {
    rc, reports := 0, [];
    ghost var met: seq<nat> := [];
    var i, j := 0, 0;
    while i < |adapters| && j < |adapters2|
      invariant i <= |adapters| && j <= |adapters2| && Found(adapters, adapters2, i, j, met)
      invariant Reported(met, domains, domains2, reports) && rc == if reports == [] then 0 else -1
      decreases |adapters| - i + |adapters2| - j
    {
      FoundSwap(adapters, adapters2, i, j, met);
      if adapters[i] == adapters2[j] {
        var d := CommonDomains(domains, domains2);
        FoundEqual(adapters, adapters2, i, j, met);
        ReportRow(met, domains, domains2, reports, adapters[i], d);
        reports := reports + Row(adapters[i], d);
        if d != [] { rc := -1; }
        met := met + [adapters[i]];
        i, j := i + 1, j + 1;
      } else if adapters[i] > adapters2[j] {
        FoundSkip(adapters2, adapters, j, i, met);
        FoundSwap(adapters, adapters2, i, j + 1, met);
        j := j + 1;
      } else {
        FoundSkip(adapters, adapters2, i, j, met);
        i := i + 1;
      }
    }
    FoundAll(adapters, adapters2, i, j, met);
    ReportAll(met, adapters, domains, adapters2, domains2, reports);
  }
}
