/**
 * The directory inventory of index.js (getTargetFiles): every child of the
 * target directory with its name, path, modification time and size, ordered
 * oldest first by a stable sort on the modification time.
 */
module Inventory {

  /** One directory child as stat'ed: `mtime` in milliseconds, `size` in bytes. */
  datatype Entry = Entry(name: string, path: string, mtime: int, size: nat)

  /** Oldest first: modification times never decrease along `s`. */
  predicate Sorted(s: seq<Entry>) {
    forall i, j :: 0 <= i < j < |s| ==> s[i].mtime <= s[j].mtime
  }

  /** The entries of `s` modified at time `t`, in their order in `s`. */
  function SameMtime(s: seq<Entry>, t: int): seq<Entry> {
    if s == [] then []
    else (if s[0].mtime == t then [s[0]] else []) + SameMtime(s[1..], t)
  }

  /** Places `e` in front of the first entry of `s` that is not older than `e`. */
  function Insert(e: Entry, s: seq<Entry>): (r: seq<Entry>)
    ensures |r| == |s| + 1
  {
    if s == [] || e.mtime <= s[0].mtime then [e] + s
    else
      assert s == [s[0]] + s[1..];
      [s[0]] + Insert(e, s[1..])
  }

  /** Inserting adds `e` and loses nothing. */
  lemma {:induction false} InsertMultiset(e: Entry, s: seq<Entry>)
    ensures multiset(Insert(e, s)) == multiset(s) + multiset{e}
  {
    if s != [] && e.mtime > s[0].mtime {
      InsertMultiset(e, s[1..]);
      assert s == [s[0]] + s[1..];
    }
  }

  lemma {:induction false} InsertSorted(e: Entry, s: seq<Entry>)
    requires Sorted(s)
    ensures Sorted(Insert(e, s))
  {
    if s != [] && e.mtime > s[0].mtime {
      var rest := Insert(e, s[1..]);
      InsertSorted(e, s[1..]);
      InsertMultiset(e, s[1..]);
      forall j | 0 <= j < |rest|
        ensures s[0].mtime <= rest[j].mtime
      {
        assert rest[j] in multiset(rest);
        if rest[j] != e {
          assert rest[j] in multiset(s[1..]);
          var k :| 0 <= k < |s[1..]| && s[1..][k] == rest[j];
          assert s[k + 1] == rest[j];
        }
      }
    }
  }

  /** Inserting `e` adds it in front of the entries of its own time and moves nothing else among them. */
  lemma {:induction false} InsertSameMtime(e: Entry, s: seq<Entry>)
    ensures forall t :: SameMtime(Insert(e, s), t) == (if e.mtime == t then [e] else []) + SameMtime(s, t)
  {
    if s == [] || e.mtime <= s[0].mtime {
      assert ([e] + s)[1..] == s;
    } else {
      var rest := Insert(e, s[1..]);
      InsertSameMtime(e, s[1..]);
      assert ([s[0]] + rest)[1..] == rest;
    }
  }

  /**
   * getTargetFiles' `sort((a, b) => a.mtime - b.mtime)` on the listing, as
   * an insertion sort: a permutation of the listing (OldestFirstSorted and
   * OldestFirstStable say how it is ordered).
   */
  function OldestFirst(listing: seq<Entry>): (r: seq<Entry>)
    ensures |r| == |listing|
  {
    if listing == [] then []
    else Insert(listing[0], OldestFirst(listing[1..]))
  }

  /** The inventory holds exactly the entries of the listing. */
  lemma {:induction false} OldestFirstPermutes(listing: seq<Entry>)
    ensures multiset(OldestFirst(listing)) == multiset(listing)
  {
    if listing != [] {
      OldestFirstPermutes(listing[1..]);
      InsertMultiset(listing[0], OldestFirst(listing[1..]));
      assert listing == [listing[0]] + listing[1..];
    }
  }

  /** The inventory is oldest first. */
  lemma {:induction false} OldestFirstSorted(listing: seq<Entry>)
    ensures Sorted(OldestFirst(listing))
  {
    if listing != [] {
      OldestFirstSorted(listing[1..]);
      InsertSorted(listing[0], OldestFirst(listing[1..]));
    }
  }

  /** The sort is stable: entries of equal time keep their listing order. */
  lemma {:induction false} OldestFirstStable(listing: seq<Entry>)
    ensures forall t :: SameMtime(OldestFirst(listing), t) == SameMtime(listing, t)
  {
    if listing != [] {
      OldestFirstStable(listing[1..]);
      InsertSameMtime(listing[0], OldestFirst(listing[1..]));
    }
  }

  /** An entry modified at `t` that `s` holds shows up in SameMtime(s, t). */
  lemma {:induction false} SameMtimeHas(s: seq<Entry>, k: nat)
    requires k < |s|
    ensures SameMtime(s, s[k].mtime) != []
  {
    if k > 0 {
      SameMtimeHas(s[1..], k - 1);
    }
  }

  /** Everything SameMtime(s, t) holds is an entry of `s` of time `t`. */
  lemma {:induction false} SameMtimeFrom(s: seq<Entry>, t: int, j: nat)
    requires j < |SameMtime(s, t)|
    ensures SameMtime(s, t)[j].mtime == t
    ensures exists k :: 0 <= k < |s| && s[k] == SameMtime(s, t)[j]
  {
    var head := if s[0].mtime == t then [s[0]] else [];
    if j < |head| {
      assert s[0] == SameMtime(s, t)[j];
    } else {
      SameMtimeFrom(s[1..], t, j - |head|);
      var k :| 0 <= k < |s[1..]| && s[1..][k] == SameMtime(s[1..], t)[j - |head|];
      assert s[k + 1] == SameMtime(s, t)[j];
    }
  }

  /**
   * The oldest-first order is fully determined by the listing: two sorted
   * sequences with the same entries of each time, in the same order, are
   * equal.
   */
  lemma {:induction false} SortedStableUnique(a: seq<Entry>, b: seq<Entry>)
    requires Sorted(a) && Sorted(b)
    requires forall t :: SameMtime(a, t) == SameMtime(b, t)
    ensures a == b
  {
    // SameMtime of a non-empty one at its first entry's time is not empty
    if a != [] { SameMtimeHas(a, 0); }
    if b != [] { SameMtimeHas(b, 0); }
    if a == [] || b == [] {
    } else {
      var t := a[0].mtime;
      SameMtimeFrom(a, b[0].mtime, 0);
      SameMtimeFrom(b, t, 0);
      assert b[0].mtime == t;
      assert a[0] == SameMtime(a, t)[0] == SameMtime(b, t)[0] == b[0];
      forall u
        ensures SameMtime(a[1..], u) == SameMtime(b[1..], u)
      {
        var head := if a[0].mtime == u then [a[0]] else [];
        assert SameMtime(a, u) == head + SameMtime(a[1..], u);
        assert SameMtime(b, u) == head + SameMtime(b[1..], u);
        assert SameMtime(a[1..], u) == SameMtime(a, u)[|head|..];
        assert SameMtime(b[1..], u) == SameMtime(b, u)[|head|..];
      }
      SortedStableUnique(a[1..], b[1..]);
    }
  }

  /** OldestFirst is the only sorted, stable ordering of the listing. */
  lemma OldestFirstIsTheStableOrder(listing: seq<Entry>, r: seq<Entry>)
    requires Sorted(r)
    requires forall t :: SameMtime(r, t) == SameMtime(listing, t)
    ensures r == OldestFirst(listing)
  {
    OldestFirstSorted(listing);
    OldestFirstStable(listing);
    SortedStableUnique(r, OldestFirst(listing));
  }
}
