/**
 * The command line of arch-copier (index.js:94-134) and the amount of free
 * space a policy asks for (index.js:174-184).
 *
 * `arg.split('=')[1]` read by parseInt is abstracted as a parameter
 * `intOf: string -> Option<int>`: None stands for NaN, Some(v) for the
 * integer parseInt returns.
 */
module Cli {
  import opened Wrappers

  /** -L (keep a number of files), -P (percent of the disk free), -S (multiple of the file size free). */
  datatype Policy = CountLimit | FreePercent | FreeMultiple

  datatype Setting = Setting(policy: Policy, limit: int)

  /** What the flag loop collects: the policy in force, -O, and the positional arguments in order. */
  datatype Options = Options(setting: Setting, overwrite: bool, operands: seq<string>)

  /** The reasons the script exits with status 1 before touching the disk. */
  datatype ArgError = BadCountLimit | BadFreePercent | BadFreeMultiple | MissingOperands

  /** With no policy flag, 10% of the disk is kept free. */
  const DefaultSetting := Setting(FreePercent, 10)

  predicate StartsWith(s: string, prefix: string) {
    |prefix| <= |s| && s[..|prefix|] == prefix
  }

  /** The policy a `-L=`, `-P=` or `-S=` argument selects. */
  function FlagPolicy(arg: string): Option<Policy> {
    if StartsWith(arg, "-L=") then Some(CountLimit)
    else if StartsWith(arg, "-P=") then Some(FreePercent)
    else if StartsWith(arg, "-S=") then Some(FreeMultiple)
    else None
  }

  /** -L and -S take a positive integer, -P an integer from 0 to 100. */
  predicate InRange(p: Policy, v: int) {
    match p
    case CountLimit => v >= 1
    case FreePercent => 0 <= v <= 100
    case FreeMultiple => v >= 1
  }

  function ErrorFor(p: Policy): ArgError {
    match p
    case CountLimit => BadCountLimit
    case FreePercent => BadFreePercent
    case FreeMultiple => BadFreeMultiple
  }

  predicate IsOption(arg: string) {
    arg == "-O" || FlagPolicy(arg).Some?
  }

  /** A policy flag whose value is not a number or out of its range. */
  predicate BadFlag(arg: string, intOf: string -> Option<int>) {
    FlagPolicy(arg).Some? && (intOf(arg).None? || !InRange(FlagPolicy(arg).value, intOf(arg).value))
  }

  /** One turn of the flag loop. */
  function Step(o: Options, arg: string, intOf: string -> Option<int>): Result<Options, ArgError> {
    if arg == "-O" then Success(o.(overwrite := true))
    else match FlagPolicy(arg)
      case None => Success(o.(operands := o.operands + [arg]))
      case Some(p) =>
        match intOf(arg)
        case None => Failure(ErrorFor(p))
        case Some(v) => if InRange(p, v) then Success(o.(setting := Setting(p, v))) else Failure(ErrorFor(p))
  }

  /** The flag loop over `args`, from the defaults; the first bad flag ends it. */
  function ScanArgs(args: seq<string>, intOf: string -> Option<int>): Result<Options, ArgError>
    decreases |args|
  {
    if args == [] then Success(Options(DefaultSetting, false, []))
    else match ScanArgs(args[..|args| - 1], intOf)
      case Failure(e) => Failure(e)
      case Success(o) => Step(o, args[|args| - 1], intOf)
  }

  /** The flag loop followed by the check that a source and a target were given. */
  function Parse(args: seq<string>, intOf: string -> Option<int>): Result<Options, ArgError> {
    match ScanArgs(args, intOf)
    case Failure(e) => Failure(e)
    case Success(o) => if |o.operands| < 2 then Failure(MissingOperands) else Success(o)
  }

  /** The positional arguments of `args`, in order. */
  function Operands(args: seq<string>): (r: seq<string>)
    ensures |r| <= |args|
    ensures forall a :: a in r <==> a in args && !IsOption(a)
  {
    if args == [] then []
    else (if IsOption(args[0]) then [] else [args[0]]) + Operands(args[1..])
  }

  lemma {:induction false} OperandsSnoc(args: seq<string>, arg: string)
    ensures Operands(args + [arg]) == Operands(args) + (if IsOption(arg) then [] else [arg])
  {
    if args != [] {
      assert (args + [arg])[1..] == args[1..] + [arg];
      OperandsSnoc(args[1..], arg);
    }
  }

  /** Once a prefix of the arguments has been rejected, the whole loop is. */
  lemma {:induction false} ScanArgsFailureSticks(args: seq<string>, i: nat, intOf: string -> Option<int>)
    requires i <= |args| && ScanArgs(args[..i], intOf).Failure?
    ensures ScanArgs(args, intOf) == ScanArgs(args[..i], intOf)
    decreases |args| - i
  {
    if i < |args| {
      assert args[..i + 1][..i] == args[..i];
      ScanArgsFailureSticks(args, i + 1, intOf);
    } else {
      assert args[..i] == args;
    }
  }

  /**
   * The flag loop is rejected exactly when some policy flag is bad, and then
   * with the error of the first bad one.
   */
  lemma {:induction false} ScanArgsRejects(args: seq<string>, intOf: string -> Option<int>)
    ensures ScanArgs(args, intOf).Failure? <==> exists i :: 0 <= i < |args| && BadFlag(args[i], intOf)
    ensures forall k :: 0 <= k < |args| && BadFlag(args[k], intOf) && (forall j :: 0 <= j < k ==> !BadFlag(args[j], intOf)) ==>
              ScanArgs(args, intOf) == Failure(ErrorFor(FlagPolicy(args[k]).value))
    decreases |args|
  {
    if args != [] {
      var init := args[..|args| - 1];
      var last := args[|args| - 1];
      ScanArgsRejects(init, intOf);
      assert forall i :: 0 <= i < |init| ==> init[i] == args[i];
      forall k | 0 <= k < |args| && BadFlag(args[k], intOf) && (forall j :: 0 <= j < k ==> !BadFlag(args[j], intOf))
        ensures ScanArgs(args, intOf) == Failure(ErrorFor(FlagPolicy(args[k]).value))
      {
        if k < |init| {
          assert BadFlag(init[k], intOf);
        } else {
          assert !exists i :: 0 <= i < |init| && BadFlag(init[i], intOf);
        }
      }
      if ScanArgs(init, intOf).Failure? {
        var i :| 0 <= i < |init| && BadFlag(init[i], intOf);
        assert BadFlag(args[i], intOf);
      } else if BadFlag(last, intOf) {
        assert BadFlag(args[|args| - 1], intOf);
      } else {
        assert forall i :: 0 <= i < |args| ==> !BadFlag(args[i], intOf) by {
          forall i | 0 <= i < |args|
            ensures !BadFlag(args[i], intOf)
          {
            if i < |init| {
              assert args[i] == init[i];
            }
          }
        }
      }
    }
  }

  /**
   * An accepted flag loop sets `overwrite` exactly when -O was given, and
   * its operands are the non-option arguments in order.
   */
  lemma {:induction false} ScanArgsOperands(args: seq<string>, intOf: string -> Option<int>)
    requires ScanArgs(args, intOf).Success?
    ensures var o := ScanArgs(args, intOf).value;
            && (o.overwrite <==> "-O" in args)
            && o.operands == Operands(args)
    decreases |args|
  {
    if args != [] {
      var init := args[..|args| - 1];
      var last := args[|args| - 1];
      assert args == init + [last];
      ScanArgsOperands(init, intOf);
      OperandsSnoc(init, last);
    }
  }

  /** `args[i]` is the last policy flag of `args`. */
  predicate LastFlagAt(args: seq<string>, i: int) {
    0 <= i < |args| && FlagPolicy(args[i]).Some? && forall j :: i < j < |args| ==> FlagPolicy(args[j]).None?
  }

  /** An accepted flag loop ends with a setting in range. */
  lemma {:induction false} ScanArgsInRange(args: seq<string>, intOf: string -> Option<int>)
    requires ScanArgs(args, intOf).Success?
    ensures var s := ScanArgs(args, intOf).value.setting;
            InRange(s.policy, s.limit)
    decreases |args|
  {
    if args != [] {
      ScanArgsInRange(args[..|args| - 1], intOf);
    }
  }

  /** With no policy flag on the command line, the default setting (-P=10) is in force. */
  lemma {:induction false} ScanArgsDefault(args: seq<string>, intOf: string -> Option<int>)
    requires forall i :: 0 <= i < |args| ==> FlagPolicy(args[i]).None?
    ensures ScanArgs(args, intOf).Success? && ScanArgs(args, intOf).value.setting == DefaultSetting
    decreases |args|
  {
    if args != [] {
      var init := args[..|args| - 1];
      assert FlagPolicy(args[|args| - 1]).None?;
      forall i | 0 <= i < |init|
        ensures FlagPolicy(init[i]).None?
      {
        assert init[i] == args[i];
      }
      ScanArgsDefault(init, intOf);
    }
  }

  /** When several policy flags are given, the last one is in force. */
  lemma {:induction false} ScanArgsLastWins(args: seq<string>, i: int, intOf: string -> Option<int>)
    requires ScanArgs(args, intOf).Success? && LastFlagAt(args, i)
    ensures var s := ScanArgs(args, intOf).value.setting;
            s.policy == FlagPolicy(args[i]).value && intOf(args[i]) == Some(s.limit)
    decreases |args|
  {
    var init := args[..|args| - 1];
    var last := args[|args| - 1];
    if i < |args| - 1 {
      assert FlagPolicy(last).None?;
      assert init[i] == args[i];
      forall j | i < j < |init|
        ensures FlagPolicy(init[j]).None?
      {
        assert init[j] == args[j];
      }
      ScanArgsLastWins(init, i, intOf);
    }
  }

  /**
   * The command line is accepted exactly when no policy flag is bad and at
   * least two positional arguments (source and target) are given; with no
   * bad flag and fewer positionals it is MissingOperands.
   */
  lemma ParseAccepts(args: seq<string>, intOf: string -> Option<int>)
    ensures Parse(args, intOf).Success? <==>
              (forall i :: 0 <= i < |args| ==> !BadFlag(args[i], intOf)) && |Operands(args)| >= 2
    ensures Parse(args, intOf) == Failure(MissingOperands) <==>
              (forall i :: 0 <= i < |args| ==> !BadFlag(args[i], intOf)) && |Operands(args)| < 2
  {
    ScanArgsRejects(args, intOf);
    if ScanArgs(args, intOf).Success? {
      ScanArgsOperands(args, intOf);
    } else {
      var i :| 0 <= i < |args| && BadFlag(args[i], intOf);
      var k := FirstBad(args, intOf, i);
      assert ScanArgs(args, intOf) == Failure(ErrorFor(FlagPolicy(args[k]).value));
    }
  }

  /** The index of the first bad flag, given one at `i`. */
  function FirstBad(args: seq<string>, intOf: string -> Option<int>, i: nat): (k: nat)
    requires i < |args| && BadFlag(args[i], intOf)
    ensures k <= i && BadFlag(args[k], intOf)
    ensures forall j :: 0 <= j < k ==> !BadFlag(args[j], intOf)
  {
    if exists j :: 0 <= j < i && BadFlag(args[j], intOf) then
      var j :| 0 <= j < i && BadFlag(args[j], intOf);
      FirstBad(args, intOf, j)
    else i
  }

  /**
   * The `for (const arg of args)` loop of main and the positional check
   * after it: returns the options the command line selects or the error
   * the script reports before exiting.
   */
  method ParseArgs(args: seq<string>, intOf: string -> Option<int>) returns (r: Result<Options, ArgError>)
    ensures r == Parse(args, intOf)
  {
    var setting := DefaultSetting;
    var overwrite := false;
    var operands: seq<string> := [];
    for i := 0 to |args|
      invariant ScanArgs(args[..i], intOf) == Success(Options(setting, overwrite, operands))
    {
      var arg := args[i];
      assert args[..i + 1][..i] == args[..i];
      if arg == "-O" {
        overwrite := true;
      } else {
        var p := FlagPolicy(arg);
        if p.Some? {
          var v := intOf(arg);
          if v.None? || !InRange(p.value, v.value) {
            ScanArgsFailureSticks(args, i + 1, intOf);
            return Failure(ErrorFor(p.value));
          }
          setting := Setting(p.value, v.value);
        } else {
          operands := operands + [arg];
        }
      }
    }
    assert args[..|args|] == args;
    if |operands| < 2 {
      return Failure(MissingOperands);
    }
    return Success(Options(setting, overwrite, operands));
  }

  /** How the chosen policy is enforced: keep a number of files, or free a number of bytes. */
  datatype Enforcement = KeepCount(maxFiles: int) | KeepFree(required: int)

  /**
   * The policy branch of main: -L hands its limit to applyLimitByCount; -P
   * asks for limit% of the disk's total size, rounded down; -S for limit
   * times the size of the file being copied.
   */
  function EnforcementFor(s: Setting, total: nat, fileSize: nat): (e: Enforcement)
    ensures e.KeepCount? <==> s.policy == CountLimit
    ensures e.KeepCount? ==> e.maxFiles == s.limit
    ensures s.policy == FreePercent ==>
              e.required * 100 <= s.limit * total < e.required * 100 + 100
    ensures s.policy == FreePercent && 0 <= s.limit <= 100 ==> 0 <= e.required <= total
    ensures s.policy == FreeMultiple ==> e.required == fileSize * s.limit
  {
    match s.policy
    case CountLimit => KeepCount(s.limit)
    case FreePercent =>
      PercentOf(s.limit, total);
      KeepFree(s.limit * total / 100)
    case FreeMultiple => KeepFree(fileSize * s.limit)
  }

  /** `limit * total / 100` is the floor of limit% of `total`, and at most `total` for a percentage. */
  lemma PercentOf(limit: int, total: nat)
    ensures var r := limit * total / 100;
            && r * 100 <= limit * total < r * 100 + 100
            && (0 <= limit <= 100 ==> 0 <= r <= total)
  {
    var p := limit * total;
    var r := p / 100;
    assert p == r * 100 + p % 100 && 0 <= p % 100 < 100;
    if 0 <= limit <= 100 {
      assert 0 <= p <= 100 * total by {
        assert limit * total <= 100 * total;
      }
    }
  }
}
