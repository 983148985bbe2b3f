/**
 * Which entries each retention policy deletes, as functions of the directory
 * listing: applyLimitByCount (index.js:57-66) and the loop of
 * applyLimitByFreeSpace (index.js:68-82). Both delete a prefix of the
 * oldest-first inventory.
 */
module Eviction {
  import opened Inventory

  /**
   * How many entries `files.slice(0, n - (maxFiles - 1))` takes when
   * `n >= maxFiles`; a slice end past the length stops at the length.
   */
  function CountToDelete(n: nat, maxFiles: int): nat {
    if n < maxFiles then 0
    else if maxFiles < 1 then n
    else n - (maxFiles - 1)
  }

  /** The entries applyLimitByCount deletes, in the order it deletes them. */
  function CountEvictions(listing: seq<Entry>, maxFiles: int): seq<Entry> {
    var files := OldestFirst(listing);
    files[..CountToDelete(|files|, maxFiles)]
  }

  /** Total size in bytes of the entries of `s`. */
  function SumSizes(s: seq<Entry>): nat {
    if s == [] then 0 else s[0].size + SumSizes(s[1..])
  }

  lemma {:induction false} SumSizesSnoc(s: seq<Entry>, e: Entry)
    ensures SumSizes(s + [e]) == SumSizes(s) + e.size
  {
    if s != [] {
      assert (s + [e])[1..] == s[1..] + [e];
      SumSizesSnoc(s[1..], e);
    }
  }

  /**
   * The free-space loop on an oldest-first list: while the running free
   * count is short of `required` and entries remain, the oldest goes and
   * its size is added to the count.
   */
  function FreeSpaceRun(files: seq<Entry>, free: int, required: int): seq<Entry>
    decreases |files|
  {
    if free >= required || files == [] then []
    else [files[0]] + FreeSpaceRun(files[1..], free + files[0].size, required)
  }

  /**
   * The entries applyLimitByFreeSpace deletes: none when the disk already
   * has `required` free bytes (the directory is not even listed), otherwise
   * the run of the loop over the oldest-first inventory.
   */
  function FreeSpaceEvictions(listing: seq<Entry>, free: int, required: int): seq<Entry> {
    if free >= required then [] else FreeSpaceRun(OldestFirst(listing), free, required)
  }

  /**
   * How many entries the count policy deletes: N - (maxFiles - 1) of them
   * when N >= maxFiles, so that the incoming file makes maxFiles; all of
   * them when maxFiles is 1; none when N < maxFiles. A second pass on the
   * maxFiles - 1 entries left deletes nothing.
   */
  lemma CountEvictionsSize(listing: seq<Entry>, maxFiles: int)
    ensures var gone := CountEvictions(listing, maxFiles);
            && |gone| <= |listing|
            && (|listing| < maxFiles ==> gone == [])
            && (1 <= maxFiles <= |listing| ==> |gone| == |listing| - (maxFiles - 1))
            && (maxFiles <= 1 ==> |gone| == |listing|)
            && (maxFiles >= 1 ==> CountToDelete(|listing| - |gone|, maxFiles) == 0)
  {
  }

  /**
   * What the count policy leaves is exactly the newest part of the
   * inventory: the deleted entries are the oldest-first prefix, and none of
   * them is newer than anything kept.
   */
  lemma CountEvictionsKeepNewest(listing: seq<Entry>, maxFiles: int)
    ensures var files := OldestFirst(listing);
            var gone := CountEvictions(listing, maxFiles);
            && gone == files[..|gone|]
            && multiset(listing) - multiset(gone) == multiset(files[|gone|..])
            && (forall i, j :: 0 <= i < |gone| <= j < |files| ==> gone[i].mtime <= files[j].mtime)
  {
    var files := OldestFirst(listing);
    var gone := CountEvictions(listing, maxFiles);
    OldestFirstSorted(listing);
    OldestFirstPermutes(listing);
    PrefixSplit(files, |gone|);
  }

  /** Cutting a sequence at `k` splits its multiset. */
  lemma PrefixSplit(s: seq<Entry>, k: nat)
    requires k <= |s|
    ensures multiset(s) == multiset(s[..k]) + multiset(s[k..])
    ensures multiset(s) - multiset(s[..k]) == multiset(s[k..])
  {
    assert s == s[..k] + s[k..];
  }

  /**
   * The free-space loop stops as soon as it may: it deletes nothing when
   * the disk already has `required` free bytes; on exit the requirement is
   * met or every entry is gone; and running the loop again on what is left,
   * from the count it reached, deletes nothing.
   */
  lemma {:induction false} FreeSpaceRunStops(files: seq<Entry>, free: int, required: int)
    ensures var gone := FreeSpaceRun(files, free, required);
            && |gone| <= |files|
            && (free >= required ==> gone == [])
            && (free + SumSizes(gone) >= required || gone == files)
            && FreeSpaceRun(files[|gone|..], free + SumSizes(gone), required) == []
    decreases |files|
  {
    if free < required && files != [] {
      var f := files[0];
      var rest := FreeSpaceRun(files[1..], free + f.size, required);
      FreeSpaceRunStops(files[1..], free + f.size, required);
      FreeSpaceRunPrefix(files[1..], free + f.size, required);
      assert files[1..][|rest|..] == files[|rest| + 1..];
      assert rest == files[1..] ==> [f] + rest == files;
    }
  }

  /** Every deletion of the free-space loop happened while the running count was still short. */
  lemma {:induction false} FreeSpaceRunShort(files: seq<Entry>, free: int, required: int)
    ensures forall i :: 0 <= i < |FreeSpaceRun(files, free, required)| ==>
              free + SumSizes(FreeSpaceRun(files, free, required)[..i]) < required
    decreases |files|
  {
    if free < required && files != [] {
      var f := files[0];
      var rest := FreeSpaceRun(files[1..], free + f.size, required);
      FreeSpaceRunShort(files[1..], free + f.size, required);
      var gone := [f] + rest;
      forall i | 0 <= i < |gone|
        ensures free + SumSizes(gone[..i]) < required
      {
        if i > 0 {
          assert gone[..i] == [f] + rest[..i - 1];
          assert (gone[..i])[1..] == rest[..i - 1];
        }
      }
    }
  }

  /** The free-space loop deletes an oldest-first prefix. */
  lemma {:induction false} FreeSpaceRunPrefix(files: seq<Entry>, free: int, required: int)
    ensures var gone := FreeSpaceRun(files, free, required);
            |gone| <= |files| && gone == files[..|gone|]
    decreases |files|
  {
    if free < required && files != [] {
      FreeSpaceRunPrefix(files[1..], free + files[0].size, required);
    }
  }

  /** What the free-space loop deletes is taken from the listing. */
  lemma FreeSpacePlanListed(listing: seq<Entry>, free: int, required: int)
    ensures multiset(FreeSpaceEvictions(listing, free, required)) <= multiset(listing)
  {
    var files := OldestFirst(listing);
    var gone := FreeSpaceEvictions(listing, free, required);
    FreeSpaceRunPrefix(files, free, required);
    OldestFirstPermutes(listing);
    PrefixSplit(files, |gone|);
  }

  /**
   * The loop never overshoots by as much as the last deleted entry: just
   * before that entry went, the count was still short of `required`.
   */
  lemma FreeSpaceOvershoot(files: seq<Entry>, free: int, required: int)
    requires FreeSpaceRun(files, free, required) != []
    ensures var gone := FreeSpaceRun(files, free, required);
            free + SumSizes(gone) - required < gone[|gone| - 1].size
  {
    var gone := FreeSpaceRun(files, free, required);
    FreeSpaceRunShort(files, free, required);
    assert gone == gone[..|gone| - 1] + [gone[|gone| - 1]];
    SumSizesSnoc(gone[..|gone| - 1], gone[|gone| - 1]);
  }

  /**
   * Every entry of `done` was deleted while the running count, started at
   * `free`, was still short of `required`.
   */
  predicate AllShort(done: seq<Entry>, free: int, required: int)
    decreases |done|
  {
    done == [] || (free < required && AllShort(done[1..], free + done[0].size, required))
  }

  lemma {:induction false} AllShortSnoc(done: seq<Entry>, e: Entry, free: int, required: int)
    requires AllShort(done, free, required) && free + SumSizes(done) < required
    ensures AllShort(done + [e], free, required)
  {
    if done != [] {
      assert (done + [e])[1..] == done[1..] + [e];
      AllShortSnoc(done[1..], e, free + done[0].size, required);
    }
  }

  /**
   * One turn of the loop: `done` deleted from the front of `files` so far,
   * a short count and an entry left mean that the head of `rest` goes next
   * and its size joins the count.
   */
  lemma FreeSpaceRunAdvance(files: seq<Entry>, done: seq<Entry>, rest: seq<Entry>, free: int, required: int)
    requires files == done + rest && rest != []
    requires AllShort(done, free, required) && free + SumSizes(done) < required
    ensures files == (done + [rest[0]]) + rest[1..]
    ensures AllShort(done + [rest[0]], free, required)
    ensures SumSizes(done + [rest[0]]) == SumSizes(done) + rest[0].size
  {
    assert files == (done + [rest[0]]) + rest[1..];
    AllShortSnoc(done, rest[0], free, required);
    SumSizesSnoc(done, rest[0]);
  }

  /** What the loop has deleted is the front of the run, and the run goes on from `rest`. */
  lemma {:induction false} FreeSpaceRunSplit(files: seq<Entry>, done: seq<Entry>, rest: seq<Entry>, free: int, required: int)
    requires files == done + rest && AllShort(done, free, required)
    ensures FreeSpaceRun(files, free, required) == done + FreeSpaceRun(rest, free + SumSizes(done), required)
  {
    if done == [] {
      assert files == rest;
    } else {
      var next := free + done[0].size;
      assert files[1..] == done[1..] + rest;
      FreeSpaceRunSplit(files[1..], done[1..], rest, next, required);
      assert next + SumSizes(done[1..]) == free + SumSizes(done);
      calc {
        FreeSpaceRun(files, free, required);
        [done[0]] + FreeSpaceRun(files[1..], next, required);
        [done[0]] + (done[1..] + FreeSpaceRun(rest, free + SumSizes(done), required));
        { assert done == [done[0]] + done[1..]; }
        done + FreeSpaceRun(rest, free + SumSizes(done), required);
      }
    }
  }

  /**
   * Where the loop stands: what it has deleted is the front of the run,
   * the run goes on exactly when the count is short and an entry is left,
   * and then with the head of `rest`.
   */
  lemma FreeSpaceRunAt(files: seq<Entry>, done: seq<Entry>, rest: seq<Entry>, free: int, required: int)
    requires files == done + rest && AllShort(done, free, required)
    ensures var run := FreeSpaceRun(files, free, required);
            && |done| <= |run| && run[..|done|] == done
            && (|done| == |run| <==> free + SumSizes(done) >= required || rest == [])
            && (|done| < |run| ==> run[|done|] == rest[0])
  {
    FreeSpaceRunSplit(files, done, rest, free, required);
    var run := FreeSpaceRun(files, free, required);
    assert run[..|done|] == done;
  }
}
