/**
 * The target directory as the script changes it: fs.unlink removes an entry,
 * fs.copyFile adds one. applyLimitByCount and applyLimitByFreeSpace
 * (index.js:57-82) are methods on it, proved to delete exactly the entries
 * the specifications in Eviction name, oldest first.
 */
module Archive {
  import opened Inventory
  import opened Eviction

  /** How an enforcement pass ends: every planned deletion done, or the first unlink that failed. */
  datatype Outcome = Done | UnlinkFailed(path: string)

  /** `s` without its first occurrence of `e` (unchanged when `e` is absent). */
  function RemoveOne(s: seq<Entry>, e: Entry): seq<Entry> {
    if s == [] then []
    else if s[0] == e then s[1..]
    else [s[0]] + RemoveOne(s[1..], e)
  }

  lemma {:induction false} RemoveOneMultiset(s: seq<Entry>, e: Entry)
    ensures multiset(RemoveOne(s, e)) == multiset(s) - multiset{e}
  {
    if s != [] {
      assert s == [s[0]] + s[1..];
      if s[0] != e {
        RemoveOneMultiset(s[1..], e);
      }
    }
  }

  /** `s` after removing the entries of `gone` one by one, in order. */
  function RemoveAll(s: seq<Entry>, gone: seq<Entry>): seq<Entry> {
    if gone == [] then s
    else RemoveOne(RemoveAll(s, gone[..|gone| - 1]), gone[|gone| - 1])
  }

  lemma {:induction false} RemoveAllMultiset(s: seq<Entry>, gone: seq<Entry>)
    ensures multiset(RemoveAll(s, gone)) == multiset(s) - multiset(gone)
  {
    if gone != [] {
      var last := gone[|gone| - 1];
      assert gone == gone[..|gone| - 1] + [last];
      RemoveAllMultiset(s, gone[..|gone| - 1]);
      RemoveOneMultiset(RemoveAll(s, gone[..|gone| - 1]), last);
    }
  }

  lemma RemoveAllSnoc(s: seq<Entry>, gone: seq<Entry>, i: nat)
    requires i < |gone|
    ensures RemoveAll(s, gone[..i + 1]) == RemoveOne(RemoveAll(s, gone[..i]), gone[i])
  {
    assert gone[..i + 1][..i] == gone[..i];
  }

  lemma RemoveAllAppend(s: seq<Entry>, done: seq<Entry>, e: Entry)
    ensures RemoveAll(s, done + [e]) == RemoveOne(RemoveAll(s, done), e)
  {
    assert (done + [e])[..|done|] == done;
  }

  /** `s` without the entries called `name`. */
  function WithoutName(s: seq<Entry>, name: string): (r: seq<Entry>)
    ensures forall e :: e in r <==> e in s && e.name != name
  {
    if s == [] then []
    else (if s[0].name == name then [] else [s[0]]) + WithoutName(s[1..], name)
  }

  /** Some entry of `s` is called `name`. */
  predicate HasName(s: seq<Entry>, name: string) {
    exists i :: 0 <= i < |s| && s[i].name == name
  }

  /** Removing a multiset-included `gone` one at a time finds each of its entries still present. */
  lemma StillListed(s: seq<Entry>, gone: seq<Entry>, i: nat)
    requires multiset(gone) <= multiset(s)
    requires i < |gone|
    ensures gone[i] in RemoveAll(s, gone[..i])
  {
    PrefixSplit(gone, i + 1);
    assert gone[..i + 1] == gone[..i] + [gone[i]];
    assert multiset(gone[..i]) + multiset{gone[i]} <= multiset(s);
    assert (multiset(s) - multiset(gone[..i]))[gone[i]] >= 1;
    RemoveAllMultiset(s, gone[..i]);
    assert gone[i] in multiset(RemoveAll(s, gone[..i]));
  }

  /**
   * A count pass that deletes its whole plan leaves the newest part of the
   * inventory: maxFiles - 1 entries when there were at least maxFiles.
   */
  lemma CountPassLeavesNewest(listing: seq<Entry>, maxFiles: int)
    ensures var plan := CountEvictions(listing, maxFiles);
            && multiset(RemoveAll(listing, plan)) == multiset(OldestFirst(listing)[|plan|..])
            && (1 <= maxFiles <= |listing| ==> |RemoveAll(listing, plan)| == maxFiles - 1)
  {
    var plan := CountEvictions(listing, maxFiles);
    CountEvictionsKeepNewest(listing, maxFiles);
    CountEvictionsSize(listing, maxFiles);
    RemoveAllMultiset(listing, plan);
    var left := RemoveAll(listing, plan);
    assert |multiset(left)| == |OldestFirst(listing)[|plan|..]|;
  }

  /**
   * What a pass that planned to delete `plan` did: the first `n` planned
   * entries were unlinked, none of them locked, and it stopped early only at
   * a planned entry whose unlink failed.
   */
  predicate PassEnded(plan: seq<Entry>, n: nat, r: Outcome, locked: set<string>) {
    && n <= |plan|
    && (forall e :: e in plan[..n] ==> e.path !in locked)
    && (r == Done <==> n == |plan|)
    && (r.UnlinkFailed? ==> n < |plan| && r.path == plan[n].path && r.path in locked)
  }

  /**
   * The free-space pass over the oldest-first inventory ends as PassEnded
   * says: an unlink can only fail on a locked entry, because every planned
   * entry is still listed when its turn comes; a pass that completes has met
   * the requirement or emptied the directory.
   */
  lemma FreeSpacePassEnded(listing: seq<Entry>, free: int, required: int, n: nat, r: Outcome,
                           locked: set<string>, left: seq<Entry>)
    requires free < required
    requires var plan := FreeSpaceRun(OldestFirst(listing), free, required);
             && n <= |plan|
             && (forall e :: e in plan[..n] ==> e.path !in locked)
             && (r == Done <==> n == |plan|)
             && (r.UnlinkFailed? ==> n < |plan| && r.path == plan[n].path
                                     && (r.path in locked || plan[n] !in RemoveAll(listing, plan[..n])))
             && left == RemoveAll(listing, plan[..n])
    ensures var plan := FreeSpaceEvictions(listing, free, required);
            && PassEnded(plan, n, r, locked)
            && (r == Done ==> free + SumSizes(plan) >= required || left == [])
  {
    var files := OldestFirst(listing);
    var plan := FreeSpaceRun(files, free, required);
    if r.UnlinkFailed? {
      FreeSpacePlanListed(listing, free, required);
      StillListed(listing, plan, n);
    } else if free + SumSizes(plan) < required {
      FreeSpaceRunStops(files, free, required);
      OldestFirstPermutes(listing);
      assert plan[..n] == plan == files;
      RemoveAllMultiset(listing, files);
      assert multiset(left) == multiset{};
    }
  }

  class ArchiveDir {
    /** The directory's children, in the order a listing returns them. */
    var entries: seq<Entry>
    /** Every entry unlinked so far, in the order of the "Deleted ..." log lines. */
    ghost var removed: seq<Entry>
    /** Paths whose unlink fails (permission denied and the like). */
    const locked: set<string>

    constructor (listing: seq<Entry>, locked: set<string>)
      ensures entries == listing && removed == [] && this.locked == locked
    {
      entries := listing;
      removed := [];
      this.locked := locked;
    }

    /** fs.unlink: fails on an entry that is gone or locked, else removes it. */
    method Unlink(e: Entry) returns (ok: bool)
      modifies this
      ensures ok == (e in old(entries) && e.path !in locked)
      ensures entries == (if ok then RemoveOne(old(entries), e) else old(entries))
      ensures removed == (if ok then old(removed) + [e] else old(removed))
    {
      ok := e in entries && e.path !in locked;
      if ok {
        entries := RemoveOne(entries, e);
        removed := removed + [e];
      }
    }

    /**
     * The `for (const file of toDelete)` loop of applyLimitByCount: unlinks
     * the entries in order and stops at the first unlink that fails.
     */
    method UnlinkInOrder(toDelete: seq<Entry>) returns (r: Outcome, ghost n: nat)
      requires multiset(toDelete) <= multiset(entries)
      modifies this
      ensures PassEnded(toDelete, n, r, locked)
      ensures removed == old(removed) + toDelete[..n]
      ensures entries == RemoveAll(old(entries), toDelete[..n])
    {
      ghost var listing := entries;
      for i := 0 to |toDelete|
        invariant entries == RemoveAll(listing, toDelete[..i])
        invariant removed == old(removed) + toDelete[..i]
        invariant forall e :: e in toDelete[..i] ==> e.path !in locked
      {
        StillListed(listing, toDelete, i);
        var ok := Unlink(toDelete[i]);
        if !ok {
          return UnlinkFailed(toDelete[i].path), i;
        }
        assert toDelete[..i + 1] == toDelete[..i] + [toDelete[i]];
        RemoveAllSnoc(listing, toDelete, i);
      }
      r, n := Done, |toDelete|;
      assert toDelete[..n] == toDelete;
    }

    /**
     * applyLimitByCount: deletes the CountEvictions of the listing, oldest
     * first, stopping at the first unlink that fails; deletions already made
     * stay made. When all went, exactly the newest part of the inventory is
     * left: maxFiles - 1 entries when there were at least maxFiles.
     */
    method ApplyLimitByCount(maxFiles: int) returns (r: Outcome, ghost n: nat)
      modifies this
      ensures PassEnded(CountEvictions(old(entries), maxFiles), n, r, locked)
      ensures removed == old(removed) + CountEvictions(old(entries), maxFiles)[..n]
      ensures entries == RemoveAll(old(entries), CountEvictions(old(entries), maxFiles)[..n])
      ensures r == Done ==>
                multiset(entries) == multiset(OldestFirst(old(entries))[|CountEvictions(old(entries), maxFiles)|..])
      ensures r == Done && 1 <= maxFiles <= |old(entries)| ==> |entries| == maxFiles - 1
    {
      ghost var listing := entries;
      ghost var plan := CountEvictions(listing, maxFiles);
      var files := OldestFirst(entries);
      if |files| >= maxFiles {
        var end := |files| - (maxFiles - 1);
        if end > |files| {
          end := |files|;
        }
        var toDelete := files[..end];
        assert toDelete == plan;
        OldestFirstPermutes(listing);
        PrefixSplit(files, end);
        r, n := UnlinkInOrder(toDelete);
      } else {
        r, n := Done, 0;
      }
      if r == Done {
        assert plan[..n] == plan;
        CountPassLeavesNewest(listing, maxFiles);
      }
    }

    /**
     * applyLimitByFreeSpace, with `free` the free bytes the disk reports when
     * it starts: deletes the FreeSpaceEvictions of the listing, oldest first,
     * stopping at the first unlink that fails. A pass that completes leaves
     * the requirement met by the running count or the directory empty.
     */
    method ApplyLimitByFreeSpace(required: int, free: nat) returns (r: Outcome, ghost n: nat)
      modifies this
      ensures free >= required ==> r == Done && entries == old(entries) && removed == old(removed)
      ensures PassEnded(FreeSpaceEvictions(old(entries), free, required), n, r, locked)
      ensures removed == old(removed) + FreeSpaceEvictions(old(entries), free, required)[..n]
      ensures entries == RemoveAll(old(entries), FreeSpaceEvictions(old(entries), free, required)[..n])
      ensures r == Done ==> free + SumSizes(FreeSpaceEvictions(old(entries), free, required)) >= required || entries == []
    {
      var currentFree := free;
      if currentFree >= required {
        return Done, 0;
      }
      ghost var listing := entries;
      var files := OldestFirst(entries);
      r, n := DeleteWhileShort(files, currentFree, required);
      FreeSpacePassEnded(listing, free, required, n, r, locked, entries);
    }

    /**
     * The `while (currentFree < requiredFreeBytes && files.length > 0)` loop
     * of applyLimitByFreeSpace over the oldest-first `files`: the oldest
     * remaining entry is unlinked and its size added to the running count;
     * an unlink that fails (the entry is locked or no longer listed) ends
     * the pass.
     */
    method DeleteWhileShort(files: seq<Entry>, free: int, required: int) returns (r: Outcome, ghost n: nat)
      modifies this
      ensures n <= |FreeSpaceRun(files, free, required)|
      ensures forall e :: e in FreeSpaceRun(files, free, required)[..n] ==> e.path !in locked
      ensures r == Done <==> n == |FreeSpaceRun(files, free, required)|
      ensures r.UnlinkFailed? ==>
                && n < |FreeSpaceRun(files, free, required)|
                && r.path == FreeSpaceRun(files, free, required)[n].path
                && (r.path in locked
                    || FreeSpaceRun(files, free, required)[n] !in RemoveAll(old(entries), FreeSpaceRun(files, free, required)[..n]))
      ensures removed == old(removed) + FreeSpaceRun(files, free, required)[..n]
      ensures entries == RemoveAll(old(entries), FreeSpaceRun(files, free, required)[..n])
    {
      ghost var listing := entries;
      var rest := files;
      var currentFree := free;
      ghost var done: seq<Entry> := [];
      while currentFree < required && |rest| > 0
        invariant files == done + rest
        invariant currentFree == free + SumSizes(done) && AllShort(done, free, required)
        invariant entries == RemoveAll(listing, done)
        invariant removed == old(removed) + done
        invariant forall e :: e in done ==> e.path !in locked
        decreases |rest|
      {
        var oldest := rest[0];
        FreeSpaceRunAdvance(files, done, rest, free, required);
        RemoveAllAppend(listing, done, oldest);
        var ok := Unlink(oldest);
        if !ok {
          FreeSpaceRunAt(files, done, rest, free, required);
          r, n := UnlinkFailed(oldest.path), |done|;
          return;
        }
        rest := rest[1..];
        currentFree := currentFree + oldest.size;
        done := done + [oldest];
      }
      FreeSpaceRunAt(files, done, rest, free, required);
      r, n := Done, |done|;
    }

    /** fs.copyFile to `e.path`: the new file replaces any entry of the same name. */
    method CopyIn(e: Entry)
      modifies this
      ensures entries == WithoutName(old(entries), e.name) + [e]
      ensures removed == old(removed)
    {
      entries := WithoutName(entries, e.name) + [e];
    }
  }
}
