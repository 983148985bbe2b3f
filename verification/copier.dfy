/**
 * main (index.js:86-192) from the parsed command line to the copy: the
 * help screen on an empty command line, the argument errors, the missing
 * source, the skip on a name collision without -O, the policy pass, and
 * fs.copyFile into the target directory.
 */
module Copier {
  import opened Wrappers
  import opened Inventory
  import opened Eviction
  import opened Archive
  import opened Cli

  /** How a run of the script ends. */
  datatype RunResult =
    | ShowedHelp            // no arguments: help, exit 0
    | Rejected(error: ArgError)  // a bad flag or a missing operand: exit 1
    | SourceMissing         // fs.access(source) failed: exit 1
    | Skipped               // the destination name exists and -O is off: exit 0
    | Copied                // the policy pass completed and the file was copied
    | Failed(path: string)  // an unlink of the policy pass failed: exit 1, nothing copied

  /** What the enforced policy deletes from `listing`, oldest first. */
  function Evictions(e: Enforcement, listing: seq<Entry>, free: int): seq<Entry> {
    match e
    case KeepCount(maxFiles) => CountEvictions(listing, maxFiles)
    case KeepFree(required) => FreeSpaceEvictions(listing, free, required)
  }

  /**
   * One run of the script against the target directory `dir`. The inputs
   * stand for what the script reads from the outside: `sourceSize` is the
   * size of the source file (None when fs.access fails), `newName` and
   * `newPath` the timestamped destination, `now` its modification time,
   * `free` and `total` what diskusage reports for the target's disk.
   */
  method Run(args: seq<string>, intOf: string -> Option<int>, dir: ArchiveDir, sourceSize: Option<nat>,
             newName: string, newPath: string, now: int, free: nat, total: nat) returns (r: RunResult)
    modifies dir
    ensures r == ShowedHelp <==> args == []
    ensures r.Rejected? <==> args != [] && Parse(args, intOf).Failure?
    ensures r.Rejected? ==> r.error == Parse(args, intOf).error
    ensures r == SourceMissing <==> args != [] && Parse(args, intOf).Success? && sourceSize.None?
    ensures r == Skipped <==>
              && args != [] && Parse(args, intOf).Success? && sourceSize.Some?
              && HasName(old(dir.entries), newName) && !Parse(args, intOf).value.overwrite
    ensures r.ShowedHelp? || r.Rejected? || r.SourceMissing? || r.Skipped? ==>
              dir.entries == old(dir.entries) && dir.removed == old(dir.removed)
    ensures r.Copied? || r.Failed? ==> args != [] && Parse(args, intOf).Success? && sourceSize.Some?
    ensures r.Copied? ==>
              var plan := Evictions(EnforcementFor(Parse(args, intOf).value.setting, total, sourceSize.value),
                                    old(dir.entries), free);
              && (forall e :: e in plan ==> e.path !in dir.locked)
              && dir.removed == old(dir.removed) + plan
              && dir.entries == WithoutName(RemoveAll(old(dir.entries), plan), newName)
                                + [Entry(newName, newPath, now, sourceSize.value)]
    ensures r.Failed? ==>
              var plan := Evictions(EnforcementFor(Parse(args, intOf).value.setting, total, sourceSize.value),
                                    old(dir.entries), free);
              && r.path in dir.locked
              && exists k :: 0 <= k < |plan| && plan[k].path == r.path
                             && (forall e :: e in plan[..k] ==> e.path !in dir.locked)
                             && dir.removed == old(dir.removed) + plan[..k]
                             && dir.entries == RemoveAll(old(dir.entries), plan[..k])
  {
    if |args| == 0 {
      return ShowedHelp;
    }
    var parsed := ParseArgs(args, intOf);
    if parsed.Failure? {
      return Rejected(parsed.error);
    }
    var options := parsed.value;
    if sourceSize.None? {
      return SourceMissing;
    }
    var destExists := HasName(dir.entries, newName);
    if destExists && !options.overwrite {
      return Skipped;
    }
    var fileSize := sourceSize.value;
    var enforcement := EnforcementFor(options.setting, total, fileSize);
    ghost var listing := dir.entries;
    ghost var plan := Evictions(enforcement, listing, free);
    var outcome: Outcome;
    ghost var n: nat;
    match enforcement {
      case KeepCount(maxFiles) =>
        outcome, n := dir.ApplyLimitByCount(maxFiles);
      case KeepFree(required) =>
        outcome, n := dir.ApplyLimitByFreeSpace(required, free);
    }
    assert PassEnded(plan, n, outcome, dir.locked);
    if outcome.UnlinkFailed? {
      return Failed(outcome.path);
    }
    assert plan[..n] == plan;
    dir.CopyIn(Entry(newName, newPath, now, fileSize));
    return Copied;
  }
}
