# arch-copier: the retention core in Dafny

arch-copier copies a file into an archive directory under a timestamped
name. Before the copy it makes room by one of three policies:

- `-L=N` keeps the number of files at N. It deletes the oldest files so that the copy makes N.
- `-P=N` keeps N% of the disk free. This is the default, with N = 10.
- `-S=N` keeps N times the size of the copied file free.

The free-space policies delete the oldest files one at a time until the running count of free bytes is large enough.

This project models that core:

- the inventory of the target directory, ordered oldest first by a stable sort (`getTargetFiles`);
- the two deletion passes (`applyLimitByCount`, `applyLimitByFreeSpace`);
- the command-line loop of `main`;
- the policy arithmetic;
- the run from the parsed command line to the copy.

It proves properties of each of these.

Modules:

- `Wrappers`: `Option` and `Result`.
- `Inventory`: a directory entry and the oldest-first order, as an insertion sort. The proofs show that it is:
  - sorted;
  - a permutation of the listing;
  - stable;
  - the only order that is all three.
- `Eviction`: which entries each policy deletes, as functions of the listing:
  - `CountEvictions`;
  - `FreeSpaceRun`, the loop of `applyLimitByFreeSpace` on an oldest-first list;
  - `FreeSpaceEvictions`.
  
  It also holds their properties.
- `Archive`: the target directory as a class `ArchiveDir`:
  - `entries` is the listing, in readdir order;
  - a ghost log `removed` records the deletions in order;
  - a set of `locked` paths stands for the files whose unlink fails.

  Its methods unlink, run the two passes with their loops, and copy a file in. Each pass is proved to delete exactly the planned entries, oldest first. A failing unlink ends the pass, and the deletions already made stay made.
- `Cli`: the `for (const arg of args)` loop as a method, proved equal to a specification function. That function is in turn characterised by lemmas:
  - the first bad flag is the error;
  - the last policy flag wins;
  - the default is `-P=10`;
  - `-O` sets overwrite;
  - the other arguments are the operands, in order.

  It also holds the required-free computation of each policy.
- `Copier`: `main` as one method over an `ArchiveDir`. It covers:
  - help on no arguments;
  - argument errors;
  - a missing source;
  - the skip on a name collision without `-O`;
  - the policy pass;
  - the copy.
- `Scenarios`: worked cases on five files listed out of order.

The help text promises that `-L=N` keeps N files (index.js:17). That count includes the file about to be copied. So when `N >= maxFiles`, the count policy deletes `N - (maxFiles - 1)` files (index.js:59-60), and the copy makes `maxFiles`. With five files and `-L=3`, it deletes the three oldest (`Scenarios.CountScenario`).

## Model

| member | source | states |
|---|---|---|
| `Inventory.Insert` | index.js:54 | inserting into a list makes it one longer |
| `Inventory.InsertMultiset` | index.js:54 | inserting adds the entry and loses none |
| `Inventory.InsertSorted` | index.js:54 | inserting into an oldest-first list keeps it oldest first |
| `Inventory.InsertSameMtime` | index.js:54 | the inserted entry goes in front of the entries of its own time; nothing else moves among equal times |
| `Inventory.OldestFirst` | index.js:45-55 | the inventory has one entry per directory child |
| `Inventory.OldestFirstPermutes` | index.js:45-55 | the inventory holds exactly the listed entries (a permutation) |
| `Inventory.OldestFirstSorted` | index.js:54 | the inventory is ordered by non-decreasing mtime |
| `Inventory.OldestFirstStable` | index.js:54 | entries of equal mtime keep their listing order (a stable sort) |
| `Inventory.SortedStableUnique` | index.js:54 | two sorted lists with the same entries of each time in the same order are equal |
| `Inventory.OldestFirstIsTheStableOrder` | index.js:54 | any sorted list with the listing's entries of each time in listing order is the inventory |
| `Eviction.CountToDelete` | index.js:59-60 | definition: how many entries the count pass deletes, `N-(maxFiles-1)` when `N >= maxFiles`, with the slice end clamped to `0..N`; its properties are in `CountEvictionsSize` |
| `Eviction.CountEvictions` | index.js:57-60 | definition: the `slice` of the oldest-first inventory the count pass deletes; its properties are in `CountEvictionsSize` and `CountEvictionsKeepNewest` |
| `Eviction.SumSizes` | index.js:79 | definition: the bytes a sequence of deletions adds to the running free count |
| `Eviction.FreeSpaceRun` | index.js:76-81 | definition: the entries the `while` loop shifts and deletes from an oldest-first list, given the free count and the requirement; its properties are in the `FreeSpaceRun*` lemmas |
| `Eviction.FreeSpaceEvictions` | index.js:68-81 | definition: nothing when the disk already has the required bytes free, else the loop's run over the oldest-first inventory |
| `Eviction.CountEvictionsSize` | index.js:59-60 | deletes `N-(maxFiles-1)` when `1 <= maxFiles <= N`, none when `N < maxFiles`, all when `maxFiles <= 1`; a second count pass deletes nothing |
| `Eviction.CountEvictionsKeepNewest` | index.js:57-66 | deletes an oldest-first prefix; no deleted entry is newer than a kept one; the multiset left is the inventory's suffix |
| `Eviction.FreeSpaceRunStops` | index.js:72-81 | nothing is deleted when free >= required; on exit the requirement is met or all entries are gone; running the loop again deletes nothing |
| `Eviction.FreeSpaceRunShort` | index.js:76-79 | each deletion happened while the running free count was below the requirement |
| `Eviction.FreeSpaceRunPrefix` | index.js:74-77 | the loop deletes a prefix of the oldest-first inventory |
| `Eviction.FreeSpacePlanListed` | index.js:74-78 | every entry the free-space policy deletes is in the listing, with multiplicity |
| `Eviction.FreeSpaceOvershoot` | index.js:76-79 | the final free count exceeds the requirement by less than the size of the last deleted entry |
| `Eviction.FreeSpaceRunAdvance` | index.js:76-79 | one turn of the loop: a short count with entries left deletes the head and adds its size |
| `Eviction.FreeSpaceRunSplit` | index.js:76-81 | the loop's deletions so far are the front of its run, which continues from the rest with the count reached |
| `Eviction.FreeSpaceRunAt` | index.js:76-81 | the loop continues exactly when the count is short and entries remain, with the head of the rest |
| `Archive.RemoveOne` | index.js:62 | definition: the directory after one successful unlink of an entry |
| `Archive.RemoveAll` | index.js:61-64 | definition: the directory after successive unlinks, in order |
| `Archive.RemoveOneMultiset` | index.js:62 | unlinking a listed entry removes exactly one occurrence of it |
| `Archive.RemoveAllMultiset` | index.js:61-64 | unlinking a sequence removes its multiset from the directory |
| `Archive.WithoutName` | index.js:190 | the directory without the entries of a given name, and nothing else removed |
| `Archive.HasName` | index.js:155-159 | definition: the destination name is already taken in the directory |
| `Archive.StillListed` | index.js:61-64 | each planned entry is still listed when its turn comes |
| `Archive.CountPassLeavesNewest` | index.js:57-66 | a completed count pass leaves the newest `maxFiles-1` entries |
| `Archive.FreeSpacePassEnded` | index.js:68-82 | a free-space pass fails only on a locked entry; a completed pass met the requirement or emptied the directory |
| `Archive.ArchiveDir.constructor` | index.js:46 | a directory snapshot with no deletions logged |
| `Archive.ArchiveDir.Unlink` | index.js:62 | succeeds exactly on a listed, unlocked entry; removes it and logs it; otherwise nothing changes |
| `Archive.ArchiveDir.UnlinkInOrder` | index.js:61-64 | unlinks in order, stops at the first failure, which is on a locked path |
| `Archive.ArchiveDir.ApplyLimitByCount` | index.js:57-66 | deletes a prefix of `CountEvictions` in order; stops only at a locked entry; when complete the newest `maxFiles-1` are left |
| `Archive.ArchiveDir.ApplyLimitByFreeSpace` | index.js:68-82 | no change when free >= required; else deletes a prefix of `FreeSpaceEvictions` in order; stops only at a locked entry; when complete the requirement is met or the directory is empty |
| `Archive.ArchiveDir.DeleteWhileShort` | index.js:76-81 | the while loop deletes the `FreeSpaceRun` of its list in order; it stops at the first failing unlink |
| `Archive.ArchiveDir.CopyIn` | index.js:190 | the copy replaces any entry of the same name and is appended |
| `Cli.FlagPolicy` | index.js:104-124 | definition: the policy that a `-L=`, `-P=` or `-S=` prefix selects |
| `Cli.InRange` | index.js:107-121 | definition: the range checks, `L >= 1`, `0 <= P <= 100`, `S >= 1` |
| `Cli.BadFlag` | index.js:104-124 | definition: a policy flag whose value is NaN or out of range, on which the script exits |
| `Cli.Step` | index.js:101-127 | definition: one turn of the argument loop |
| `Cli.ScanArgs` | index.js:96-128 | definition: the argument loop from the defaults; the first bad flag ends it; its properties are in the `ScanArgs*` lemmas |
| `Cli.Parse` | index.js:96-134 | definition: the argument loop followed by the two-operand check |
| `Cli.Operands` | index.js:100-127 | the positional arguments are the non-option arguments, and only those |
| `Cli.ScanArgsFailureSticks` | index.js:107-123 | once a flag is rejected, later arguments change nothing (the script exits) |
| `Cli.ScanArgsRejects` | index.js:101-128 | the flag loop fails exactly when some policy flag is bad, with the error of the first bad one |
| `Cli.ScanArgsOperands` | index.js:98-128 | an accepted loop has overwrite iff `-O` was given; its operands are the non-option arguments, in order |
| `Cli.ScanArgsInRange` | index.js:104-124 | an accepted setting is in range (L >= 1, 0 <= P <= 100, S >= 1) |
| `Cli.ScanArgsDefault` | index.js:96-97 | with no policy flag the setting is `-P=10` |
| `Cli.ScanArgsLastWins` | index.js:104-124 | the last policy flag given is the one in force |
| `Cli.ParseAccepts` | index.js:101-134 | the command line is accepted iff no flag is bad and there are at least two operands; `MissingOperands` iff no flag is bad and fewer |
| `Cli.FirstBad` | index.js:101-128 | the first bad flag of the command line |
| `Cli.ParseArgs` | index.js:94-134 | the argument loop returns the options or the error `Parse` specifies |
| `Cli.EnforcementFor` | index.js:174-184 | L passes its limit to the count pass; P requires the floor of limit% of the disk (at most the disk size); S requires limit times the file size |
| `Cli.PercentOf` | index.js:181 | `limit*total/100` is the floor of limit% of total, within `0..total` for a percentage |
| `Copier.Evictions` | index.js:174-187 | definition: the entries the enforced policy plans to delete, which `Run`'s contract refers to |
| `Copier.Run` | index.js:86-192 | help iff no arguments; rejection iff the parse fails; a missing source, or a skip iff the name exists without `-O`, change nothing; a copy happens only when no planned entry is locked, after the complete policy pass; a failed unlink is on the first locked planned entry, leaves the entries before it deleted and nothing copied |
| `Scenarios.SortScenario` | index.js:54 | five files listed out of order are sorted oldest first |
| `Scenarios.CountScenario` | index.js:57-66 | `-L=3` on five files deletes the three oldest |
| `Scenarios.FreePercentScenario` | index.js:68-82 | `-P=10` on a 1000-byte disk with 50 free requires 100; deleting the oldest (>= 50 bytes) suffices |
| `Scenarios.FreeMultipleScenario` | index.js:182-186 | `-S=5` for a 10-byte file requires 50; with 50 free nothing is deleted |
| `Scenarios.StableScenario` | index.js:54 | two files of equal mtime keep their listing order |

## Left out

- File-system calls are not made. `fs.readdir` and `fs.stat` are the `entries` of an `ArchiveDir`, each `Entry` carrying the name, path, mtime and size a stat returns.
- `fs.unlink` is `ArchiveDir.Unlink`. Its failure is modelled by a set of locked paths and by an entry no longer listed. No error code is modelled.
- The concurrent stats of `Promise.all` are not modelled. The inventory keeps the readdir order, which the stats do not change.
- `diskusage.check` becomes two inputs: `free` and `total`. `free` is read once, when `applyLimitByFreeSpace` starts.
- `EnforcementFor`: the `-P` requirement is the exact floor of `limit * total / 100`. The source computes `Math.floor((limit / 100) * totalSpace)` in binary floating point, which can come out one byte lower: 29% of 100 bytes evaluates to 28.999999999999996 and floors to 28. Floating point is not modelled.
- Sizes, mtimes and products are unbounded integers. The source's JavaScript numbers lose precision above 2^53.
- `parseInt(arg.split('=')[1], 10)` is the parameter `intOf`, with `None` for NaN.
- The clock and the naming are inputs of `Copier.Run`: `newName`, `newPath` and `now`. This covers `getCurrentDatePrefix`, `path.extname`, `path.basename` and `path.join`.
- `fs.access(source)` and `fs.stat(source)` are the input `sourceSize`, with `None` when the source is missing.
- `fs.access(newFilePath)` is a lookup of the destination name among the entries.
- `fs.mkdir(target, { recursive: true })` is not modelled. The target directory is given, and a new one is an empty `ArchiveDir`.
- `fs.copyFile` always succeeds in the model. A copy that fails after the policy pass is not modelled.
- Console output, the help text and the exit codes are not modelled. The `RunResult` of `Copier.Run` names each way a run ends, and the ghost `removed` log stands for the "Deleted ..." lines.
- Subdirectories of the target and the source lying inside the target are not modelled. Every entry is a plain file.
- Failures of `fs.readdir` and `fs.stat` (index.js:46, 50) and of `diskusage.check` (index.js:69, 179) throw and end the run before any deletion. The model does not represent them: listing, stats and disk usage are always available.
- `ArchiveDir` does not require distinct paths. If a listing repeats an entry, both unlinks of it succeed in the model, whereas a second real `fs.unlink` of the path would fail with ENOENT. A real `fs.readdir` never repeats a name.
