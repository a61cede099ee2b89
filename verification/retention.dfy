/**
 * The eviction policy of `clean_old_backups` (main.py:47-56) as values:
 * the listing sorted oldest first by a stable sort on the creation time,
 * and how many of its front entries the loop pops before free space
 * reaches the requirement.
 */
module Retention {

  /**
   * One item directly under the destination folder, as the engine sees it:
   * its name, `os.path.getctime` and the bytes it occupies. The state file
   * `backup_state.json` is an item like any other.
   */
  datatype Entry = Entry(name: string, ctime: int, size: nat)

  predicate SortedByCtime(s: seq<Entry>) {
    forall i, j :: 0 <= i < j < |s| ==> s[i].ctime <= s[j].ctime
  }

  /** Puts `e` in front of the first element that is not older than it. */
  function InsertByCtime(e: Entry, s: seq<Entry>): (r: seq<Entry>)
    ensures |r| == |s| + 1
    ensures multiset(r) == multiset{e} + multiset(s)
  {
    if s == [] || e.ctime <= s[0].ctime then
      [e] + s
    else
      assert s == [s[0]] + s[1..];
      [s[0]] + InsertByCtime(e, s[1..])
  }

  lemma {:induction false} InsertByCtimeKeepsOrder(e: Entry, s: seq<Entry>)
    requires SortedByCtime(s)
    ensures SortedByCtime(InsertByCtime(e, s))
  {
    if s != [] && e.ctime > s[0].ctime {
      var rest := InsertByCtime(e, s[1..]);
      InsertByCtimeKeepsOrder(e, s[1..]);
      forall i | 0 <= i < |rest| ensures s[0].ctime <= rest[i].ctime {
        assert rest[i] in multiset(rest);
        if rest[i] != e {
          assert rest[i] in multiset(s[1..]);
          var j :| 0 <= j < |s[1..]| && s[1..][j] == rest[i];
          assert s[j + 1] == rest[i];
        }
      }
    }
  }

  /**
   * `sorted(files, key=os.path.getctime)` (main.py:49): an insertion sort
   * that, like Python's, keeps items of equal key in their listing order.
   */
  function SortByCtime(s: seq<Entry>): (r: seq<Entry>)
    ensures multiset(r) == multiset(s)
    ensures |r| == |s|
  {
    if s == [] then []
    else
      assert s == [s[0]] + s[1..];
      InsertByCtime(s[0], SortByCtime(s[1..]))
  }

  /** The sort puts every entry at or after the entries created before it. */
  lemma {:induction false} SortByCtimeSorts(s: seq<Entry>)
    ensures SortedByCtime(SortByCtime(s))
  {
    if s != [] {
      SortByCtimeSorts(s[1..]);
      InsertByCtimeKeepsOrder(s[0], SortByCtime(s[1..]));
    }
  }

  /** The entries of `s` created at time `c`, in their order in `s`. */
  function WithCtime(s: seq<Entry>, c: int): seq<Entry> {
    if s == [] then []
    else (if s[0].ctime == c then [s[0]] else []) + WithCtime(s[1..], c)
  }

  lemma {:induction false} InsertByCtimeIsStable(e: Entry, s: seq<Entry>, c: int)
    ensures WithCtime(InsertByCtime(e, s), c) == WithCtime([e] + s, c)
  {
    assert ([e] + s)[1..] == s;
    if s != [] && e.ctime > s[0].ctime {
      var rest := InsertByCtime(e, s[1..]);
      assert ([s[0]] + rest)[1..] == rest;
      assert ([e] + s[1..])[1..] == s[1..];
      InsertByCtimeIsStable(e, s[1..], c);
    }
  }

  /**
   * The sort is stable: entries with the same creation time come out in
   * the order `os.listdir` gave them. Ties are not broken by name.
   */
  lemma {:induction false} SortByCtimeIsStable(s: seq<Entry>, c: int)
    ensures WithCtime(SortByCtime(s), c) == WithCtime(s, c)
  {
    if s != [] {
      SortByCtimeIsStable(s[1..], c);
      InsertByCtimeIsStable(s[0], SortByCtime(s[1..]), c);
      assert ([s[0]] + SortByCtime(s[1..]))[1..] == SortByCtime(s[1..]);
    }
  }

  /** Bytes occupied by a sequence of entries, accumulated left to right. */
  function SumSizes(s: seq<Entry>): nat {
    if s == [] then 0 else SumSizes(s[..|s| - 1]) + s[|s| - 1].size
  }

  lemma {:induction false} SumSizesAppend(a: seq<Entry>, b: seq<Entry>)
    ensures SumSizes(a + b) == SumSizes(a) + SumSizes(b)
    decreases |b|
  {
    if b == [] {
      assert a + b == a;
    } else {
      assert (a + b)[..|a + b| - 1] == a + b[..|b| - 1];
      SumSizesAppend(a, b[..|b| - 1]);
    }
  }

  /**
   * How many candidates the loop at main.py:50-51 pops from the front of
   * `candidates` when free space starts at `free`: it stops when free space
   * reaches `required` or no candidate is left.
   */
  function EvictionCount(candidates: seq<Entry>, free: int, required: int): (k: nat)
    ensures k <= |candidates|
    ensures free >= required ==> k == 0
    ensures free < required && candidates != [] ==> k >= 1
  {
    if candidates == [] || free >= required then 0
    else 1 + EvictionCount(candidates[1..], free + candidates[0].size, required)
  }

  /**
   * The count is the shortest prefix that reaches the requirement: every
   * shorter prefix leaves free space below it, and the count either meets
   * it or takes every candidate.
   */
  lemma {:induction false} EvictionCountIsLeast(candidates: seq<Entry>, free: int, required: int)
    ensures var k := EvictionCount(candidates, free, required);
      (free + SumSizes(candidates[..k]) >= required || k == |candidates|)
      && forall j :: 0 <= j < k ==> free + SumSizes(candidates[..j]) < required
  {
    var k := EvictionCount(candidates, free, required);
    if k > 0 {
      var c0, tail := candidates[0], candidates[1..];
      var k' := EvictionCount(tail, free + c0.size, required);
      EvictionCountIsLeast(tail, free + c0.size, required);
      assert candidates[..k] == [c0] + tail[..k'];
      SumSizesAppend([c0], tail[..k']);
      assert [c0][..0] == [];
      forall j | 0 <= j < k ensures free + SumSizes(candidates[..j]) < required {
        if j > 0 {
          assert candidates[..j] == [c0] + tail[..j - 1];
          SumSizesAppend([c0], tail[..j - 1]);
        } else {
          assert candidates[..0] == [];
        }
      }
    }
  }

  /** The entries `clean_old_backups(required)` deletes, in deletion order. */
  function Evicted(entries: seq<Entry>, free: int, required: int): seq<Entry> {
    var sorted := SortByCtime(entries);
    sorted[..EvictionCount(sorted, free, required)]
  }

  /** The entries it leaves, oldest first. */
  function Kept(entries: seq<Entry>, free: int, required: int): seq<Entry> {
    var sorted := SortByCtime(entries);
    sorted[EvictionCount(sorted, free, required)..]
  }

  /**
   * What clean-up promises, stated on the destination listing: it deletes
   * some of the entries and keeps the others; nothing when free space
   * already meets the requirement; none of the kept entries is older than
   * a deleted one; after the deletions free space meets the requirement
   * unless nothing is left; and stopping one deletion earlier would not
   * have met it.
   */
  lemma EvictionOutcome(entries: seq<Entry>, free: int, required: int)
    ensures multiset(Evicted(entries, free, required)) + multiset(Kept(entries, free, required)) == multiset(entries)
    ensures free >= required ==> Evicted(entries, free, required) == []
    ensures free + SumSizes(Evicted(entries, free, required)) >= required || Kept(entries, free, required) == []
    ensures forall x, y :: x in Evicted(entries, free, required) && y in Kept(entries, free, required) ==> x.ctime <= y.ctime
    ensures var gone := Evicted(entries, free, required);
      forall j :: 0 <= j < |gone| ==> free + SumSizes(gone[..j]) < required
  {
    var sorted := SortByCtime(entries);
    var k := EvictionCount(sorted, free, required);
    SortByCtimeSorts(entries);
    EvictionCountIsLeast(sorted, free, required);
    assert sorted == sorted[..k] + sorted[k..];
    forall j | 0 <= j <= k ensures sorted[..k][..j] == sorted[..j] { }
    forall x, y | x in sorted[..k] && y in sorted[k..] ensures x.ctime <= y.ctime {
      var i :| 0 <= i < k && sorted[i] == x;
      var j :| k <= j < |sorted| && sorted[j] == y;
    }
  }

  // Names and name filters: deleting a path removes the entry of that name.

  function Names(s: seq<Entry>): set<string> {
    if s == [] then {} else {s[0].name} + Names(s[1..])
  }

  /** A directory never lists two items under one name. */
  predicate DistinctNames(s: seq<Entry>) {
    s == [] || (s[0].name !in Names(s[1..]) && DistinctNames(s[1..]))
  }

  /** The entries of `s` whose names are not in `gone`, in order. */
  function Survivors(s: seq<Entry>, gone: set<string>): (r: seq<Entry>)
    ensures Names(r) == Names(s) - gone
    ensures forall e {:trigger e in r} :: e in r <==> e in s && e.name !in gone
    ensures DistinctNames(s) ==> DistinctNames(r)
  {
    if s == [] then []
    else if s[0].name in gone then Survivors(s[1..], gone)
    else [s[0]] + Survivors(s[1..], gone)
  }

  /** The entries of `s` whose names are in `gone`, in order. */
  function Removed(s: seq<Entry>, gone: set<string>): (r: seq<Entry>)
    ensures Names(r) == Names(s) * gone
    ensures forall e {:trigger e in r} :: e in r <==> e in s && e.name in gone
  {
    if s == [] then []
    else if s[0].name in gone then [s[0]] + Removed(s[1..], gone)
    else Removed(s[1..], gone)
  }

  lemma {:induction false} NamesAppend(a: seq<Entry>, b: seq<Entry>)
    ensures Names(a + b) == Names(a) + Names(b)
  {
    if a != [] {
      assert (a + b)[1..] == a[1..] + b;
      NamesAppend(a[1..], b);
    } else {
      assert a + b == b;
    }
  }

  lemma {:induction false} DistinctNamesAppend(s: seq<Entry>, e: Entry)
    requires DistinctNames(s) && e.name !in Names(s)
    ensures DistinctNames(s + [e])
  {
    if s != [] {
      assert (s + [e])[1..] == s[1..] + [e];
      NamesAppend(s[1..], [e]);
      DistinctNamesAppend(s[1..], e);
    }
  }

  lemma {:induction false} SurvivorsOfSurvivors(s: seq<Entry>, a: set<string>, b: set<string>)
    ensures Survivors(Survivors(s, a), b) == Survivors(s, a + b)
  {
    if s != [] {
      SurvivorsOfSurvivors(s[1..], a, b);
    }
  }

  lemma {:induction false} SurvivorsOfNothing(s: seq<Entry>)
    ensures Survivors(s, {}) == s
  {
    if s != [] {
      SurvivorsOfNothing(s[1..]);
    }
  }

  lemma {:induction false} MemberNameListed(s: seq<Entry>, e: Entry)
    requires e in s
    ensures e.name in Names(s)
  {
    if s[0] != e {
      MemberNameListed(s[1..], e);
    }
  }

  /**
   * Removing the name of a listed entry, when names are distinct, removes
   * exactly that entry.
   */
  lemma {:induction false} RemoveListedEntry(s: seq<Entry>, e: Entry)
    requires DistinctNames(s) && e in s
    ensures Removed(s, {e.name}) == [e]
    ensures multiset(Survivors(s, {e.name})) == multiset(s) - multiset{e}
  {
    assert s == [s[0]] + s[1..];
    if s[0] == e {
      NotListedRemovesNothing(s[1..], e.name);
    } else {
      MemberNameListed(s[1..], e);
      RemoveListedEntry(s[1..], e);
    }
  }

  lemma {:induction false} NotListedRemovesNothing(s: seq<Entry>, name: string)
    requires name !in Names(s)
    ensures Removed(s, {name}) == []
    ensures Survivors(s, {name}) == s
  {
    if s != [] {
      NotListedRemovesNothing(s[1..], name);
    }
  }
}
