/**
 * Worked cases of the policies on a small directory: five files a..e,
 * oldest to newest, that the listing returns out of order.
 */
module Scenarios {
  import opened Inventory
  import opened Eviction
  import opened Cli

  predicate Ascending(a: Entry, b: Entry, c: Entry, d: Entry, e: Entry) {
    a.mtime < b.mtime < c.mtime < d.mtime < e.mtime
  }

  lemma InsertFront(x: Entry, s: seq<Entry>)
    requires s == [] || x.mtime <= s[0].mtime
    ensures Insert(x, s) == [x] + s
  {
  }

  lemma InsertPast(x: Entry, s: seq<Entry>)
    requires s != [] && x.mtime > s[0].mtime
    ensures Insert(x, s) == [s[0]] + Insert(x, s[1..])
  {
  }

  lemma OldestFirstCons(s: seq<Entry>)
    requires s != []
    ensures OldestFirst(s) == Insert(s[0], OldestFirst(s[1..]))
  {
  }

  /** Sorting [c, a, e, b, d] gives a..e. */
  lemma SortScenario(a: Entry, b: Entry, c: Entry, d: Entry, e: Entry)
    requires Ascending(a, b, c, d, e)
    ensures OldestFirst([c, a, e, b, d]) == [a, b, c, d, e]
  {
    assert OldestFirst([d]) == [d] by {
      OldestFirstCons([d]);
      assert [d][1..] == [];
      InsertFront(d, []);
    }
    assert OldestFirst([b, d]) == [b, d] by {
      OldestFirstCons([b, d]);
      assert [b, d][1..] == [d];
      InsertFront(b, [d]);
    }
    assert OldestFirst([e, b, d]) == [b, d, e] by {
      OldestFirstCons([e, b, d]);
      assert [e, b, d][1..] == [b, d];
      InsertPast(e, [b, d]);
      assert [b, d][1..] == [d];
      InsertPast(e, [d]);
      assert [d][1..] == [];
      InsertFront(e, []);
    }
    assert OldestFirst([a, e, b, d]) == [a, b, d, e] by {
      OldestFirstCons([a, e, b, d]);
      assert [a, e, b, d][1..] == [e, b, d];
      InsertFront(a, [b, d, e]);
    }
    OldestFirstCons([c, a, e, b, d]);
    assert [c, a, e, b, d][1..] == [a, e, b, d];
    InsertPast(c, [a, b, d, e]);
    assert [a, b, d, e][1..] == [b, d, e];
    InsertPast(c, [b, d, e]);
    assert [b, d, e][1..] == [d, e];
    InsertFront(c, [d, e]);
  }

  /**
   * -L=3 on five files deletes N - (maxFiles - 1) = 3 of them, the three
   * oldest, so that the copied file makes three.
   */
  lemma CountScenario(a: Entry, b: Entry, c: Entry, d: Entry, e: Entry)
    requires Ascending(a, b, c, d, e)
    ensures CountEvictions([c, a, e, b, d], 3) == [a, b, c]
  {
    SortScenario(a, b, c, d, e);
    assert [a, b, c, d, e][..3] == [a, b, c];
  }

  /**
   * -P=10 on a 1000-byte disk with 50 bytes free asks for 100 free bytes;
   * deleting a file of at least 50 bytes reaches it and ends the loop.
   */
  lemma FreePercentScenario(a: Entry, b: Entry, c: Entry, d: Entry, e: Entry)
    requires Ascending(a, b, c, d, e) && a.size >= 50
    ensures EnforcementFor(Setting(FreePercent, 10), 1000, 10) == KeepFree(100)
    ensures FreeSpaceEvictions([c, a, e, b, d], 50, 100) == [a]
  {
    SortScenario(a, b, c, d, e);
    assert [a, b, c, d, e][1..] == [b, c, d, e];
    assert FreeSpaceRun([b, c, d, e], 50 + a.size, 100) == [];
  }

  /** -S=5 for a 10-byte file asks for 50 free bytes; with 50 already free nothing is deleted. */
  lemma FreeMultipleScenario(a: Entry, b: Entry, c: Entry, d: Entry, e: Entry)
    ensures EnforcementFor(Setting(FreeMultiple, 5), 1000, 10) == KeepFree(50)
    ensures FreeSpaceEvictions([c, a, e, b, d], 50, 50) == []
  {
  }

  /** Entries with the same modification time stay in listing order. */
  lemma StableScenario(a: Entry, b: Entry, c: Entry)
    requires a.mtime == b.mtime < c.mtime
    ensures OldestFirst([c, a, b]) == [a, b, c]
  {
    assert OldestFirst([b]) == [b] by {
      OldestFirstCons([b]);
      assert [b][1..] == [];
      InsertFront(b, []);
    }
    assert OldestFirst([a, b]) == [a, b] by {
      OldestFirstCons([a, b]);
      assert [a, b][1..] == [b];
      InsertFront(a, [b]);
    }
    OldestFirstCons([c, a, b]);
    assert [c, a, b][1..] == [a, b];
    InsertPast(c, [a, b]);
    assert [a, b][1..] == [b];
    InsertPast(c, [b]);
    assert [b][1..] == [];
    InsertFront(c, []);
  }
}
