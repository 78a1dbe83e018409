/** Mounting the disk of the virtual machine and copying the applications onto it. What the
    outside world answers (whether a path exists, whether the machine runs, the files found,
    exit codes, failing copies) is an input. */
module VmManager {
  import opened Options
  import opened Snapshots

  /** What a call of `mount` meets: the disk letter is taken, the machine runs, the files that
      match the pattern, and the exit code of the mount command. */
  datatype MountEnv = MountEnv(diskExists: bool, vmRunning: bool, files: seq<string>, returnCode: int)

  /** How a call ends. A failing mount command raises, because the message about it uses the
      output of a command whose output was not captured. */
  datatype Outcome = Returned(success: bool) | Raised

  datatype Effect = MountCommand(disk: string, vmdk: string) | UnmountCommand(disk: string) | CopyFile(name: string)

  /** The vmdk that a mount of an unmounted manager hands to the mount command, if it gets
      that far. */
  function MountTarget(env: MountEnv): Option<string> {
    if env.diskExists || env.vmRunning then None else LatestVmdk(env.files)
  }

  predicate MountSucceeds(mounted: bool, env: MountEnv) {
    !mounted && MountTarget(env).Some? && env.returnCode == 0
  }

  class Manager {
    var mounted: bool
    var effects: seq<Effect>

    constructor ()
      ensures !mounted && effects == []
    {
      mounted := false;
      effects := [];
    }

    method Mount(disk: string, env: MountEnv) returns (o: Outcome)
      modifies this
      ensures o == Returned(true) <==> MountSucceeds(old(mounted), env)
      ensures o == Raised <==> !old(mounted) && MountTarget(env).Some? && env.returnCode != 0
      ensures mounted == (old(mounted) || o == Returned(true))
      ensures effects == old(effects) +
                         if old(mounted) || MountTarget(env).None? then [] else [MountCommand(disk, MountTarget(env).value)]
      ensures env.diskExists || env.vmRunning || old(mounted) || env.files == [] <==> o == Returned(false)
      ensures o == Returned(true) <==> o != Returned(false) && env.returnCode == 0
      ensures effects == old(effects) + if o == Returned(false) then [] else [MountCommand(disk, LatestVmdk(env.files).value)]
    {
      ghost var _, _ := GreatestButOne(env.files);
      if env.diskExists { return Returned(false); }
      if env.vmRunning { return Returned(false); }
      if mounted { return Returned(false); }
      var vmdk := LatestVmdk(env.files);
      if vmdk.None? { return Returned(false); }
      effects := effects + [MountCommand(disk, vmdk.value)];
      if env.returnCode != 0 { return Raised; }
      mounted := true;
      return Returned(true);
    }

    method Unmount(disk: string) returns (o: Outcome)
      modifies this
      ensures o == Returned(old(mounted)) && !mounted
      ensures effects == old(effects) + if old(mounted) then [UnmountCommand(disk)] else []
    {
      if !mounted { return Returned(false); }
      mounted := false;
      effects := effects + [UnmountCommand(disk)];
      return Returned(true);
    }
  }

  // ---- Runs of calls ----

  datatype Call = CallMount(env: MountEnv) | CallUnmount

  datatype Success = Mounted | Unmounted

  /** Whether a disk is mounted after a call. */
  function After(mounted: bool, call: Call): bool {
    match call
    case CallMount(env) => mounted || MountSucceeds(mounted, env)
    case CallUnmount => false
  }

  /** The success that one call reports, if it does. */
  function Reported(mounted: bool, call: Call): seq<Success> {
    match call
    case CallMount(env) => if MountSucceeds(mounted, env) then [Mounted] else []
    case CallUnmount => if mounted then [Unmounted] else []
  }

  function Successes(mounted: bool, calls: seq<Call>): seq<Success>
    decreases |calls|
  {
    if calls == [] then []
    else Reported(mounted, calls[0]) + Successes(After(mounted, calls[0]), calls[1..])
  }

  function FinallyMounted(mounted: bool, calls: seq<Call>): bool
    decreases |calls|
  {
    if calls == [] then mounted else FinallyMounted(After(mounted, calls[0]), calls[1..])
  }

  lemma {:induction false} AlternateFrom(mounted: bool, calls: seq<Call>)
    ensures forall k :: 0 <= k < |Successes(mounted, calls)| ==>
              (Successes(mounted, calls)[k] == Mounted <==> (k % 2 == 0) != mounted)
    ensures FinallyMounted(mounted, calls) == (mounted != (|Successes(mounted, calls)| % 2 == 1))
    decreases |calls|
  {
    if calls != [] {
      AlternateFrom(After(mounted, calls[0]), calls[1..]);
    }
  }

  /** Over any sequence of calls and any answers, successful mounts and unmounts strictly
      alternate, starting with a mount, and the manager ends up mounted iff their number is
      odd. */
  lemma SuccessesAlternate(calls: seq<Call>)
    ensures forall k :: 0 <= k < |Successes(false, calls)| ==>
              Successes(false, calls)[k] == if k % 2 == 0 then Mounted else Unmounted
    ensures FinallyMounted(false, calls) <==> |Successes(false, calls)| % 2 == 1
  {
    AlternateFrom(false, calls);
  }

  method PerformOne(m: Manager, disk: string, call: Call) returns (reported: seq<Success>)
    modifies m
    ensures reported == Reported(old(m.mounted), call)
    ensures m.mounted == After(old(m.mounted), call)
  {
    reported := [];
    match call {
      case CallMount(env) =>
        var o := m.Mount(disk, env);
        if o == Returned(true) { reported := [Mounted]; }
      case CallUnmount =>
        var o := m.Unmount(disk);
        if o == Returned(true) { reported := [Unmounted]; }
    }
  }

  lemma UnfoldAt(mounted: bool, calls: seq<Call>, i: nat, before: seq<Success>)
    requires i < |calls|
    ensures before + Successes(mounted, calls[i..])
         == before + Reported(mounted, calls[i]) + Successes(After(mounted, calls[i]), calls[i + 1..])
    ensures FinallyMounted(mounted, calls[i..]) == FinallyMounted(After(mounted, calls[i]), calls[i + 1..])
  {
  }

  /** The class performs exactly these runs. */
  method Perform(m: Manager, disk: string, calls: seq<Call>) returns (reported: seq<Success>)
    modifies m
    ensures reported == Successes(old(m.mounted), calls)
    ensures m.mounted == FinallyMounted(old(m.mounted), calls)
  {
    reported := [];
    ghost var start := m.mounted;
    for i := 0 to |calls|
      invariant reported + Successes(m.mounted, calls[i..]) == Successes(start, calls)
      invariant FinallyMounted(m.mounted, calls[i..]) == FinallyMounted(start, calls)
    {
      UnfoldAt(m.mounted, calls, i, reported);
      var r := PerformOne(m, disk, calls[i]);
      reported := reported + r;
    }
    assert calls[|calls|..] == [];
  }

  // ---- Which files are applications ----

  /** Position of the last dot, or -1. */
  function LastDot(name: string): (k: int)
    ensures -1 <= k < |name|
    ensures k >= 0 ==> name[k] == '.'
    ensures forall j :: k < j < |name| ==> name[j] != '.'
  {
    if name == [] then -1
    else if name[|name| - 1] == '.' then |name| - 1
    else LastDot(name[..|name| - 1])
  }

  /** The extension by `os.path.splitext` of a name without separators: from the last dot on,
      unless there are only dots before it. */
  function Extension(name: string): string {
    var dot := LastDot(name);
    if dot >= 0 && exists k :: 0 <= k < dot && name[k] != '.' then name[dot..] else []
  }

  predicate IsApplication(name: string) { Extension(name) == ".exe" }

  /** An application is a name that ends in ".exe" after something other than dots. */
  lemma ApplicationNames(name: string)
    ensures IsApplication(name)
       <==> |name| >= 5 && name[|name| - 4..] == ".exe" && exists k :: 0 <= k < |name| - 4 && name[k] != '.'
  {
    if |name| >= 4 && name[|name| - 4..] == ".exe" {
      LastDotOfExe(name);
    }
    if Extension(name) == ".exe" {
      assert |name| - LastDot(name) == 4;
    }
  }

  lemma LastDotOfExe(name: string)
    requires |name| >= 4 && name[|name| - 4..] == ".exe"
    ensures LastDot(name) == |name| - 4
  {
    var n := |name| - 4;
    assert name[n] == name[n..][0] && name[n + 1] == name[n..][1];
    assert name[n + 2] == name[n..][2] && name[n + 3] == name[n..][3];
  }

  /** The names of a listing that satisfy `p`, in listing order. */
  function Select(listing: seq<string>, p: string -> bool): seq<string> {
    if listing == [] then []
    else
      var n := |listing| - 1;
      Select(listing[..n], p) + if p(listing[n]) then [listing[n]] else []
  }

  /** Selection keeps the order and looks at each name by itself. */
  lemma {:induction false} SelectAppend(first: seq<string>, second: seq<string>, p: string -> bool)
    ensures Select(first + second, p) == Select(first, p) + Select(second, p)
    decreases |second|
  {
    if second == [] {
      assert first + second == first;
    } else {
      var n := |second| - 1;
      assert (first + second)[..|first| + n] == first + second[..n];
      SelectAppend(first, second[..n], p);
    }
  }

  lemma SelectOne(name: string, p: string -> bool)
    ensures Select([name], p) == if p(name) then [name] else []
  {
    assert Select([name][..0], p) == [];
  }

  function Applications(listing: seq<string>): seq<string> { Select(listing, IsApplication) }

  function CopyEffects(names: seq<string>): (es: seq<Effect>)
    ensures |es| == |names| && forall k :: 0 <= k < |names| ==> es[k] == CopyFile(names[k])
  {
    seq(|names|, k requires 0 <= k < |names| => CopyFile(names[k]))
  }

  /** Whatever the listing, what is copied is one application after the other, in its order. */
  lemma ApplicationsInOrder(before: seq<string>, name: string, after: seq<string>)
    ensures Applications(before + [name] + after)
         == Applications(before)
            + (if |name| >= 5 && name[|name| - 4..] == ".exe" && exists k :: 0 <= k < |name| - 4 && name[k] != '.' then [name] else [])
            + Applications(after)
    ensures Applications([]) == []
  {
    SelectAppend(before + [name], after, IsApplication);
    SelectAppend(before, [name], IsApplication);
    SelectOne(name, IsApplication);
    ApplicationNames(name);
  }

  // ---- The script ----

  datatype Exit = ExitCode(code: int) | Uncaught

  /** None of the first `n` copies raises. */
  predicate NoFailure(fails: seq<bool>, n: nat) {
    forall k :: 0 <= k < n && k < |fails| ==> !fails[k]
  }

  lemma {:induction false} SelectPrefix(listing: seq<string>, p: string -> bool, i: nat)
    requires i <= |listing|
    ensures Select(listing[..i], p) <= Select(listing, p)
    decreases |listing|
  {
    if i == |listing| {
      assert listing[..i] == listing;
    } else {
      var n := |listing| - 1;
      assert listing[..n][..i] == listing[..i];
      SelectPrefix(listing[..n], p, i);
    }
  }

  lemma SelectStep(listing: seq<string>, p: string -> bool, i: nat)
    requires i < |listing|
    ensures Select(listing[..i + 1], p) == Select(listing[..i], p) + if p(listing[i]) then [listing[i]] else []
    ensures Select(listing[..i + 1], p) <= Select(listing, p)
  {
    assert listing[..i + 1][..i] == listing[..i];
    SelectPrefix(listing, p, i + 1);
  }

  /** The copy loop of `main`, for any test `p` of which files to copy: announces the selected
      files in listing order, and in a real run copies each before announcing the next, up to
      the first copy that raises. */
  method CopyLoop(dryRun: bool, listing: seq<string>, p: string -> bool, fails: seq<bool>)
    returns (completed: bool, printed: seq<string>, copied: seq<string>)
    ensures dryRun ==> completed && printed == Select(listing, p) && copied == []
    ensures !dryRun ==>
              var chosen := Select(listing, p);
              && (completed <==> NoFailure(fails, |chosen|))
              && (completed ==> printed == copied == chosen)
              && (!completed ==>
                    && |copied| < |chosen| && |copied| < |fails| && fails[|copied|] && NoFailure(fails, |copied|)
                    && copied == chosen[..|copied|] && printed == chosen[..|copied| + 1])
  {
    printed, copied := [], [];
    for i := 0 to |listing|
      invariant printed == Select(listing[..i], p) <= Select(listing, p)
      invariant copied == if dryRun then [] else printed
      invariant !dryRun ==> NoFailure(fails, |printed|)
    {
      SelectStep(listing, p, i);
      if p(listing[i]) {
        printed := printed + [listing[i]];
        if !dryRun {
          if |copied| < |fails| && fails[|copied|] {
            return false, printed, copied;
          }
          copied := copied + [listing[i]];
        }
      }
    }
    assert listing[..|listing|] == listing;
    completed := true;
  }

  /** How a real run goes: everything succeeds from the mount to the last copy. */
  predicate RunsThrough(env: MountEnv, appears: bool, listing: seq<string>, fails: seq<bool>) {
    MountSucceeds(false, env) && appears && NoFailure(fails, |Applications(listing)|)
  }

  /** `main`: `appears` says whether the mounted disk can be seen, `fails[k]` whether the k-th
      copy raises. `printed` lists the copies announced.

      A dry run has no effects at all and announces the copies a real run would announce. A
      real run ends normally exactly when everything succeeds, and then its effects are the
      mount, the copies and the unmount, in this order. Otherwise nothing is ever unmounted,
      and the disk is left mounted exactly when the mount itself had succeeded. */
  method CopyApplications(dryRun: bool, disk: string, listing: seq<string>, env: MountEnv, appears: bool, fails: seq<bool>)
    returns (exit: Exit, printed: seq<string>, effects: seq<Effect>, leftMounted: bool)
    ensures dryRun ==> exit == ExitCode(0) && effects == [] && printed == Applications(listing) && !leftMounted
    ensures !dryRun ==> (exit == ExitCode(0) <==> RunsThrough(env, appears, listing, fails))
    ensures !dryRun && exit == ExitCode(0) ==>
              && printed == Applications(listing)
              && effects == [MountCommand(disk, MountTarget(env).value)] + CopyEffects(printed) + [UnmountCommand(disk)]
    ensures !dryRun ==> (exit == ExitCode(-1) <==> MountTarget(env).None?)
    ensures exit == ExitCode(-1) ==> effects == []
    ensures leftMounted <==> !dryRun && MountSucceeds(false, env) && !RunsThrough(env, appears, listing, fails)
    ensures leftMounted ==>
              exists n :: 0 <= n <= |Applications(listing)| && NoFailure(fails, n)
                && effects == [MountCommand(disk, MountTarget(env).value)] + CopyEffects(Applications(listing)[..n])
  {
    var vm := new Manager();
    printed := [];
    if !dryRun {
      var res := vm.Mount(disk, env);
      if res == Raised {
        return Uncaught, printed, vm.effects, vm.mounted;
      }
      if !res.success {
        return ExitCode(-1), printed, vm.effects, vm.mounted;
      }
      if !appears {
        assert vm.effects == vm.effects + CopyEffects(Applications(listing)[..0]);
        return Uncaught, printed, vm.effects, vm.mounted;
      }
    }
    var completed, copied;
    completed, printed, copied := CopyLoop(dryRun, listing, IsApplication, fails);
    vm.effects := vm.effects + CopyEffects(copied);
    if !completed {
      assert copied == Applications(listing)[..|copied|];
      return Uncaught, printed, vm.effects, vm.mounted;
    }
    if !dryRun {
      var _ := vm.Unmount(disk);
    }
    return ExitCode(0), printed, vm.effects, vm.mounted;
  }
}
