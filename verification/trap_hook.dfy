/**
  The kernel side of the emulator (trap_hook.c): a replacement for the
  kernel's do_error_trap that offers invalid-opcode faults from user mode to
  the emulator and forwards everything else to the original handler, and the
  ftrace hooking that installs that replacement: resolve each hooked
  function's address, set an ftrace filter on it and register the ftrace
  callback, with all-or-nothing installation of a table of hooks.

  The kernel interfaces (kprobes, ftrace, the emulator entry point and the
  original handler) are methods of `Kernel` whose results are arbitrary;
  each call is recorded in a ghost log, and the contracts state the log
  each operation leaves.
 */
module TrapHook {

  /** ENOENT from the kernel's errno numbers; fh_resolve_hook_address returns its negation. */
  const ENOENT: int := 2

  /** The #UD (invalid opcode) exception vector. */
  const InvalidOpcode: nat := 6

  // ---------------------------------------------------------------------
  // Kernel interfaces

  /** The arguments of do_error_trap; `regs` and `str` stand for the pointers. */
  datatype TrapArgs = TrapArgs(regs: nat, errorCode: int, str: nat, trapnr: nat, signr: int)

  /**
    One call into the kernel. Calls on a hook's ftrace_ops name the hook by
    its index in the hook table; each call carries the result it returned.
   */
  datatype Call =
    | KprobeRegister(ret: int, symbolAddress: nat)
    | KprobeUnregister
    | SetFilter(hook: nat, ip: nat, remove: bool, err: int)
    | RegisterFtrace(hook: nat, err: int)
    | UnregisterFtrace(hook: nat, err: int)
    | Utrap(regs: nat, emulated: bool)
    | Forward(args: TrapArgs)

  predicate NamesHook(c: Call)
  {
    c.SetFilter? || c.RegisterFtrace? || c.UnregisterFtrace?
  }

  class Kernel {
    /** Every call made so far, oldest first. */
    ghost var log: seq<Call>

    constructor ()
      ensures log == []
    {
      log := [];
    }

    /** register_kprobe on kallsyms_lookup_name: a result code and the probed address. */
    method RegisterKprobe() returns (ret: int, symbolAddress: nat)
      modifies this
      ensures log == old(log) + [KprobeRegister(ret, symbolAddress)]
    {
      ret := *;
      symbolAddress := *;
      log := log + [KprobeRegister(ret, symbolAddress)];
    }

    method UnregisterKprobe()
      modifies this
      ensures log == old(log) + [KprobeUnregister]
    {
      log := log + [KprobeUnregister];
    }

    /** ftrace_set_filter_ip on the hook's ftrace_ops; `remove` is its remove flag. */
    method SetFilterIp(hook: nat, ip: nat, remove: bool) returns (err: int)
      modifies this
      ensures log == old(log) + [SetFilter(hook, ip, remove, err)]
    {
      err := *;
      log := log + [SetFilter(hook, ip, remove, err)];
    }

    method RegisterFtraceFunction(hook: nat) returns (err: int)
      modifies this
      ensures log == old(log) + [RegisterFtrace(hook, err)]
    {
      err := *;
      log := log + [RegisterFtrace(hook, err)];
    }

    method UnregisterFtraceFunction(hook: nat) returns (err: int)
      modifies this
      ensures log == old(log) + [UnregisterFtrace(hook, err)]
    {
      err := *;
      log := log + [UnregisterFtrace(hook, err)];
    }

    /** opemu_utrap: whether the emulator handled the faulting instruction. */
    method OpemuUtrap(regs: nat) returns (emulated: bool)
      modifies this
      ensures log == old(log) + [Utrap(regs, emulated)]
    {
      emulated := *;
      log := log + [Utrap(regs, emulated)];
    }

    /** The original do_error_trap, reached through the saved pointer. */
    method OrigDoErrorTrap(args: TrapArgs)
      modifies this
      ensures log == old(log) + [Forward(args)]
    {
      log := log + [Forward(args)];
    }
  }

  // ---------------------------------------------------------------------
  // Trap policy

  /** kernel_trap: no fault raised in kernel mode is handled here. */
  function KernelTrap(trapnr: nat): (handled: bool)
  {
    false
  }

  /** user_trap's decision, given what the emulator answered. */
  function UserTrap(trapnr: nat, emulated: bool): (handled: bool)
  {
    trapnr == InvalidOpcode && emulated
  }

  /** Whether fh_do_error_trap returns without calling the original handler. */
  function Handled(userMode: bool, trapnr: nat, emulated: bool): (handled: bool)
    ensures handled <==> userMode && trapnr == InvalidOpcode && emulated
  {
    if userMode then UserTrap(trapnr, emulated) else KernelTrap(trapnr)
  }

  /**
    The calls fh_do_error_trap makes: the emulator is consulted only for a
    user-mode #UD, and the original handler is called, with the arguments
    unchanged, unless the fault was handled.
   */
  function TrapTrace(args: TrapArgs, userMode: bool, emulated: bool): (t: seq<Call>)
  {
    (if userMode && args.trapnr == InvalidOpcode then [Utrap(args.regs, emulated)] else []) +
    (if Handled(userMode, args.trapnr, emulated) then [] else [Forward(args)])
  }

  /**
    fh_do_error_trap. `userMode` is user_mode(regs); the ghost `emulated` is
    the emulator's answer when it was consulted.
   */
  method DoErrorTrap(k: Kernel, args: TrapArgs, userMode: bool) returns (ghost emulated: bool)
    modifies k
    ensures k.log == old(k.log) + TrapTrace(args, userMode, emulated)
  {
    emulated := false;
    if userMode {
      var handled := false;
      if args.trapnr == InvalidOpcode {
        handled := k.OpemuUtrap(args.regs);
        emulated := handled;
      }
      if handled {
        return;
      }
    } else {
      if KernelTrap(args.trapnr) {
        return;
      }
    }
    k.OrigDoErrorTrap(args);
  }

  /** How many times a trace calls the original handler. */
  function Forwards(t: seq<Call>): (n: nat)
    ensures n <= |t|
  {
    if t == [] then 0 else Forwards(t[..|t| - 1]) + (if t[|t| - 1].Forward? then 1 else 0)
  }

  /**
    A kernel-mode fault, or a user-mode fault other than #UD, is forwarded
    exactly once with its arguments unchanged and the emulator is not
    consulted; a user-mode #UD is forwarded once unless the emulator
    handled it, and then not at all.
   */
  lemma TrapForwarding(args: TrapArgs, userMode: bool, emulated: bool)
    ensures !userMode || args.trapnr != InvalidOpcode ==> TrapTrace(args, userMode, emulated) == [Forward(args)]
    ensures Forwards(TrapTrace(args, userMode, emulated)) ==
              if userMode && args.trapnr == InvalidOpcode && emulated then 0 else 1
    ensures forall c :: c in TrapTrace(args, userMode, emulated) && c.Forward? ==> c.args == args
  {
    var t := TrapTrace(args, userMode, emulated);
    if userMode && args.trapnr == InvalidOpcode {
      var u := [Utrap(args.regs, emulated)];
      if emulated {
        assert t == u;
        assert Forwards(t) == Forwards([]) + 0;
      } else {
        assert t == u + [Forward(args)];
        assert t[..1] == u;
        assert Forwards(u) == Forwards([]) + 0;
      }
    } else {
      assert Forwards([Forward(args)]) == Forwards([]) + 1;
    }
  }

  // ---------------------------------------------------------------------
  // Hooks

  datatype OpsFlag = SaveRegs | RecursionSafe | IpModify

  /** The hook's ftrace_ops: whether its callback is the thunk, and its flags. */
  datatype Ops = Ops(thunk: bool, flags: set<OpsFlag>)

  /** The ftrace_ops an installed hook carries: the thunk, saving registers, allowed to change the ip. */
  const ThunkOps := Ops(true, {SaveRegs, RecursionSafe, IpModify})

  /**
    struct ftrace_hook. `original` stands for the location the original
    function's address is saved to.
   */
  datatype Hook = Hook(name: string, replacement: nat, original: nat, address: nat, ops: Ops)

  /** What fh_resolve_hook_address returns, from the probe's result code and address. */
  function ResolveError(kprobe: int, symbolAddress: nat): (err: int)
    ensures err == 0 || err == -ENOENT
    ensures err == -ENOENT <==> kprobe >= 0 && symbolAddress == 0
  {
    if kprobe < 0 then 0
    else if symbolAddress == 0 then -ENOENT
    else 0
  }

  /** The hook after fh_resolve_hook_address. */
  function Resolved(h: Hook, kprobe: int, symbolAddress: nat): (r: Hook)
    ensures r.name == h.name && r.replacement == h.replacement && r.ops == h.ops
    ensures kprobe < 0 ==> r == h
    ensures kprobe >= 0 ==> r.address == symbolAddress
    ensures r.original == if kprobe >= 0 && symbolAddress != 0 then symbolAddress else h.original
  {
    if kprobe < 0 then h
    else if symbolAddress == 0 then h.(address := 0)
    else h.(address := symbolAddress, original := symbolAddress)
  }

  function ResolveTrace(kprobe: int, symbolAddress: nat): (t: seq<Call>)
  {
    [KprobeRegister(kprobe, symbolAddress)] + (if kprobe < 0 then [] else [KprobeUnregister])
  }

  /** fh_resolve_hook_address on hooks[i]; the ghost outputs are the probe's results. */
  method ResolveHookAddress(k: Kernel, hooks: array<Hook>, i: nat)
      returns (err: int, ghost kprobe: int, ghost symbolAddress: nat)
    requires i < hooks.Length
    modifies k, hooks
    ensures err == ResolveError(kprobe, symbolAddress)
    ensures hooks[..] == old(hooks[..])[i := Resolved(old(hooks[i]), kprobe, symbolAddress)]
    ensures k.log == old(k.log) + ResolveTrace(kprobe, symbolAddress)
  {
    var ret, addr := k.RegisterKprobe();
    kprobe, symbolAddress := ret, addr;
    if ret < 0 {
      err := 0;
      return;
    }
    hooks[i] := hooks[i].(address := addr);
    k.UnregisterKprobe();
    if hooks[i].address == 0 {
      err := -ENOENT;
      return;
    }
    hooks[i] := hooks[i].(original := hooks[i].address);
    err := 0;
  }

  /** The results the kernel returned during one fh_install_hook. */
  datatype InstallResults = InstallResults(kprobe: int, symbolAddress: nat, setFilter: int, register: int, clear: int)

  /** What fh_install_hook returns. */
  function InstallError(r: InstallResults): (err: int)
  {
    var resolve := ResolveError(r.kprobe, r.symbolAddress);
    if resolve != 0 then resolve
    else if r.setFilter != 0 then r.setFilter
    else r.register
  }

  /** The hook after fh_install_hook: resolved, and given the thunk's ops once resolution succeeded. */
  function Installed(h: Hook, r: InstallResults): (h': Hook)
  {
    var resolved := Resolved(h, r.kprobe, r.symbolAddress);
    if ResolveError(r.kprobe, r.symbolAddress) != 0 then resolved else resolved.(ops := ThunkOps)
  }

  /** The calls of fh_install_hook after a successful resolution: set the filter, then register. */
  function ArmTrace(i: nat, ip: nat, r: InstallResults): (t: seq<Call>)
  {
    [SetFilter(i, ip, false, r.setFilter)] +
    if r.setFilter != 0 then []
    else if r.register != 0 then [RegisterFtrace(i, r.register), SetFilter(i, ip, true, r.clear)]
    else [RegisterFtrace(i, 0)]
  }

  /** The calls fh_install_hook makes on hook `i`, whose address was `address` before. */
  function InstallTrace(i: nat, address: nat, r: InstallResults): (t: seq<Call>)
  {
    var resolve := ResolveTrace(r.kprobe, r.symbolAddress);
    var ip := Resolved(Hook("", 0, 0, address, ThunkOps), r.kprobe, r.symbolAddress).address;
    if ResolveError(r.kprobe, r.symbolAddress) != 0 then resolve else resolve + ArmTrace(i, ip, r)
  }

  /** fh_install_hook on hooks[i]; the ghost output holds the kernel's results. */
  method InstallHook(k: Kernel, hooks: array<Hook>, i: nat) returns (err: int, ghost r: InstallResults)
    requires i < hooks.Length
    modifies k, hooks
    ensures err == InstallError(r)
    ensures hooks[..] == old(hooks[..])[i := Installed(old(hooks[i]), r)]
    ensures k.log == old(k.log) + InstallTrace(i, old(hooks[i]).address, r)
  {
    ghost var kprobe, symbolAddress;
    err, kprobe, symbolAddress := ResolveHookAddress(k, hooks, i);
    r := InstallResults(kprobe, symbolAddress, 0, 0, 0);
    if err != 0 {
      return;
    }
    hooks[i] := hooks[i].(ops := ThunkOps);
    err := k.SetFilterIp(i, hooks[i].address, false);
    r := r.(setFilter := err);
    if err != 0 {
      return;
    }
    err := k.RegisterFtraceFunction(i);
    r := r.(register := err);
    if err != 0 {
      var clear := k.SetFilterIp(i, hooks[i].address, true);
      r := r.(clear := clear);
      return;
    }
    err := 0;
  }

  /** The results the kernel returned during one fh_remove_hook. */
  datatype RemoveResults = RemoveResults(unregister: int, clear: int)

  /** The calls fh_remove_hook makes on hook `i`: both are attempted whatever they return. */
  function RemoveTrace(i: nat, address: nat, r: RemoveResults): (t: seq<Call>)
  {
    [UnregisterFtrace(i, r.unregister), SetFilter(i, address, true, r.clear)]
  }

  /** fh_remove_hook on hooks[i]: it reports nothing and changes no hook. */
  method RemoveHook(k: Kernel, hooks: array<Hook>, i: nat) returns (ghost r: RemoveResults)
    requires i < hooks.Length
    modifies k
    ensures k.log == old(k.log) + RemoveTrace(i, hooks[i].address, r)
  {
    var unregister := k.UnregisterFtraceFunction(i);
    var clear := k.SetFilterIp(i, hooks[i].address, true);
    r := RemoveResults(unregister, clear);
  }

  // ---------------------------------------------------------------------
  // Whole tables

  /** Installing hooks 0 .. |rs|-1 in ascending order, hook j having had address `hs[j].address`. */
  function InstallsTrace(hs: seq<Hook>, rs: seq<InstallResults>): (t: seq<Call>)
    requires |rs| <= |hs|
  {
    if rs == [] then []
    else InstallsTrace(hs, rs[..|rs| - 1]) + InstallTrace(|rs| - 1, hs[|rs| - 1].address, rs[|rs| - 1])
  }

  /** Removing hooks 0 .. |rs|-1 in ascending order. */
  function AscendingRemoval(hs: seq<Hook>, rs: seq<RemoveResults>): (t: seq<Call>)
    requires |rs| <= |hs|
  {
    if rs == [] then []
    else AscendingRemoval(hs, rs[..|rs| - 1]) + RemoveTrace(|rs| - 1, hs[|rs| - 1].address, rs[|rs| - 1])
  }

  /** Removing hooks top-1, top-2, ..., top-|rs| in that (descending) order. */
  function DescendingRemoval(hs: seq<Hook>, rs: seq<RemoveResults>, top: nat): (t: seq<Call>)
    requires |rs| <= top <= |hs|
  {
    if rs == [] then []
    else DescendingRemoval(hs, rs[..|rs| - 1], top) + RemoveTrace(top - |rs|, hs[top - |rs|].address, rs[|rs| - 1])
  }

  /** The table after installing hooks 0 .. |rs|-1 with results `rs`; later hooks unchanged. */
  function InstalledTable(hs: seq<Hook>, rs: seq<InstallResults>): (t: seq<Hook>)
    requires |rs| <= |hs|
    ensures |t| == |hs|
    ensures forall j :: 0 <= j < |hs| ==> t[j] == if j < |rs| then Installed(hs[j], rs[j]) else hs[j]
  {
    seq(|hs|, j requires 0 <= j < |hs| => if j < |rs| then Installed(hs[j], rs[j]) else hs[j])
  }

  lemma AppendAssociative<T>(a: seq<T>, b: seq<T>, c: seq<T>)
    ensures (a + b) + c == a + (b + c)
  {
  }

  /** One more install, on the next hook: its entry and its calls are appended. */
  lemma InstallStep(hs: seq<Hook>, rs: seq<InstallResults>, r: InstallResults)
    requires |rs| < |hs|
    ensures InstalledTable(hs, rs)[|rs|] == hs[|rs|]
    ensures InstalledTable(hs, rs)[|rs| := Installed(hs[|rs|], r)] == InstalledTable(hs, rs + [r])
    ensures InstallsTrace(hs, rs + [r]) == InstallsTrace(hs, rs) + InstallTrace(|rs|, hs[|rs|].address, r)
  {
    assert (rs + [r])[..|rs|] == rs;
  }

  /**
    fh_install_hooks on hooks 0 .. count-1. The ghost outputs hold the
    kernel's results for each install attempted, in order, and for each
    removal of the rollback, in the order made.
   */
  method InstallHooks(k: Kernel, hooks: array<Hook>, count: nat)
      returns (err: int, ghost installs: seq<InstallResults>, ghost removals: seq<RemoveResults>)
    requires count <= hooks.Length
    modifies k, hooks
    ensures err == 0 ==> |installs| == count && AllSucceeded(installs)
    ensures err != 0 ==> 0 < |installs| <= count && AllSucceeded(installs[..|installs| - 1]) &&
                         err == InstallError(installs[|installs| - 1])
    ensures |removals| == if err == 0 then 0 else |installs| - 1
    ensures hooks[..] == InstalledTable(old(hooks[..]), installs)
    ensures k.log == old(k.log) + InstallsTrace(old(hooks[..]), installs) +
                     DescendingRemoval(hooks[..], removals, |removals|)
  {
    var i;
    err, i, installs := InstallInOrder(k, hooks, count);
    removals := [];
    if err != 0 {
      removals := Rollback(k, hooks, i);
    } else {
      assert k.log == k.log + DescendingRemoval(hooks[..], removals, 0);
    }
  }

  /**
    The loop of fh_install_hooks: install hooks in ascending order and stop
    at the first failure, returning its error and index (or 0 and count).
   */
  method InstallInOrder(k: Kernel, hooks: array<Hook>, count: nat)
      returns (err: int, i: nat, ghost installs: seq<InstallResults>)
    requires count <= hooks.Length
    modifies k, hooks
    ensures i <= count && i <= |installs| <= i + 1
    ensures err == 0 ==> i == count && |installs| == count && AllSucceeded(installs)
    ensures err != 0 ==> i < count && |installs| == i + 1 && AllSucceeded(installs[..i]) &&
                         err == InstallError(installs[i])
    ensures hooks[..] == InstalledTable(old(hooks[..]), installs)
    ensures k.log == old(k.log) + InstallsTrace(old(hooks[..]), installs)
  {
    ghost var hs := hooks[..];
    installs := [];
    i := 0;
    err := 0;
    while i < count
      invariant i <= count && |installs| == i && err == 0
      invariant AllSucceeded(installs)
      invariant hooks[..] == InstalledTable(hs, installs)
      invariant k.log == old(k.log) + InstallsTrace(hs, installs)
    {
      err, installs := InstallNext(k, hooks, i, hs, installs, old(k.log));
      if err != 0 {
        break;
      }
      i := i + 1;
    }
  }

  /** Every install in `rs` returned 0. */
  predicate AllSucceeded(rs: seq<InstallResults>)
  {
    rs == [] || (AllSucceeded(rs[..|rs| - 1]) && InstallError(rs[|rs| - 1]) == 0)
  }

  lemma {:induction false} AllSucceededAt(rs: seq<InstallResults>, j: nat)
    requires AllSucceeded(rs) && j < |rs|
    ensures InstallError(rs[j]) == 0
  {
    if j < |rs| - 1 {
      AllSucceededAt(rs[..|rs| - 1], j);
    }
  }

  /** One round of the loop: install the next hook and extend the table and the trace by it. */
  method InstallNext(k: Kernel, hooks: array<Hook>, i: nat, ghost hs: seq<Hook>, ghost installs: seq<InstallResults>,
                     ghost log0: seq<Call>)
      returns (err: int, ghost installs': seq<InstallResults>)
    requires i == |installs| < hooks.Length == |hs|
    requires hooks[..] == InstalledTable(hs, installs)
    requires k.log == log0 + InstallsTrace(hs, installs)
    requires AllSucceeded(installs)
    modifies k, hooks
    ensures |installs'| == |installs| + 1 && installs'[..|installs|] == installs
    ensures err == InstallError(installs'[|installs|])
    ensures err == 0 ==> AllSucceeded(installs')
    ensures hooks[..] == InstalledTable(hs, installs')
    ensures k.log == log0 + InstallsTrace(hs, installs')
  {
    assert hooks[i] == hs[i] by {
      InstallStep(hs, installs, InstallResults(0, 0, 0, 0, 0));
    }
    ghost var r;
    err, r := InstallHook(k, hooks, i);
    InstallStep(hs, installs, r);
    installs' := installs + [r];
    assert installs'[..|installs|] == installs;
    AppendAssociative(log0, InstallsTrace(hs, installs), InstallTrace(i, hs[i].address, r));
  }

  /** The error path of fh_install_hooks: remove hooks failed-1 down to 0. */
  method Rollback(k: Kernel, hooks: array<Hook>, failed: nat) returns (ghost removals: seq<RemoveResults>)
    requires failed <= hooks.Length
    modifies k
    ensures |removals| == failed
    ensures k.log == old(k.log) + DescendingRemoval(hooks[..], removals, failed)
  {
    removals := [];
    var i: nat := failed;
    while i != 0
      invariant i <= failed && |removals| == failed - i
      invariant k.log == old(k.log) + DescendingRemoval(hooks[..], removals, failed)
    {
      i := i - 1;
      ghost var r := RemoveHook(k, hooks, i);
      removals := removals + [r];
      assert removals[..|removals| - 1] == removals[..failed - i - 1];
    }
  }

  /** fh_remove_hooks on hooks 0 .. count-1, in ascending order. */
  method RemoveHooks(k: Kernel, hooks: array<Hook>, count: nat) returns (ghost removals: seq<RemoveResults>)
    requires count <= hooks.Length
    modifies k
    ensures |removals| == count
    ensures k.log == old(k.log) + AscendingRemoval(hooks[..], removals)
  {
    removals := [];
    var i := 0;
    while i < count
      invariant i <= count && |removals| == i
      invariant k.log == old(k.log) + AscendingRemoval(hooks[..], removals)
    {
      ghost var r := RemoveHook(k, hooks, i);
      removals := removals + [r];
      assert removals[..|removals| - 1] == removals[..i];
      i := i + 1;
    }
  }

  /**
    How fh_install_hook ends: a resolution error returns before any call on
    the hook; a failed filter is the last call; a failed registration is
    followed by clearing the filter just set; success ends with the
    registration.
   */
  lemma InstallHookOutcome(i: nat, address: nat, r: InstallResults)
    ensures var t := InstallTrace(i, address, r);
            var ip := Resolved(Hook("", 0, 0, address, ThunkOps), r.kprobe, r.symbolAddress).address;
            |t| > 0 &&
            (ResolveError(r.kprobe, r.symbolAddress) != 0 ==>
               InstallError(r) == -ENOENT && forall c :: c in t ==> !NamesHook(c)) &&
            (ResolveError(r.kprobe, r.symbolAddress) == 0 && r.setFilter != 0 ==>
               InstallError(r) == r.setFilter && t[|t| - 1] == SetFilter(i, ip, false, r.setFilter)) &&
            (ResolveError(r.kprobe, r.symbolAddress) == 0 && r.setFilter == 0 && r.register != 0 ==>
               InstallError(r) == r.register && |t| >= 3 &&
               t[|t| - 3..] == [SetFilter(i, ip, false, 0), RegisterFtrace(i, r.register), SetFilter(i, ip, true, r.clear)]) &&
            (InstallError(r) == 0 ==> t[|t| - 1] == RegisterFtrace(i, 0))
  {
    var t := InstallTrace(i, address, r);
    var resolve := ResolveTrace(r.kprobe, r.symbolAddress);
    assert forall c :: c in resolve ==> !NamesHook(c);
    if ResolveError(r.kprobe, r.symbolAddress) == 0 {
      var ip := Resolved(Hook("", 0, 0, address, ThunkOps), r.kprobe, r.symbolAddress).address;
      var arm := ArmTrace(i, ip, r);
      assert t[|t| - |arm|..] == arm;
    }
  }

  /**
    A failed probe is not an error: the install goes on with the address
    the hook already had, and the saved original is left as it was.
   */
  lemma ProbeFailureIsNotAnError(h: Hook, i: nat, r: InstallResults)
    requires r.kprobe < 0
    ensures Installed(h, r) == h.(ops := ThunkOps)
    ensures InstallError(r) == if r.setFilter != 0 then r.setFilter else r.register
    ensures |InstallTrace(i, h.address, r)| >= 2
    ensures InstallTrace(i, h.address, r)[1] == SetFilter(i, h.address, false, r.setFilter)
  {
  }

  /** Each fh_install_hook names only its own hook. */
  lemma InstallTraceNames(i: nat, address: nat, r: InstallResults)
    ensures forall c :: c in InstallTrace(i, address, r) && NamesHook(c) ==> c.hook == i
  {
    var resolve := ResolveTrace(r.kprobe, r.symbolAddress);
    assert forall c :: c in resolve ==> !NamesHook(c);
  }

  /** Installing hooks 0 .. |rs|-1 names no hook from |rs| on. */
  lemma {:induction false} InstallsTraceNames(hs: seq<Hook>, rs: seq<InstallResults>)
    requires |rs| <= |hs|
    ensures forall c :: c in InstallsTrace(hs, rs) && NamesHook(c) ==> c.hook < |rs|
  {
    if rs != [] {
      var n := |rs| - 1;
      InstallsTraceNames(hs, rs[..n]);
      InstallTraceNames(n, hs[n].address, rs[n]);
    }
  }

  /** The rollback removes hooks top-1, top-2, ..., one after the other, each with both calls. */
  lemma {:induction false} DescendingRemovalOrder(hs: seq<Hook>, rs: seq<RemoveResults>, top: nat)
    requires |rs| <= top <= |hs|
    ensures |DescendingRemoval(hs, rs, top)| == 2 * |rs|
    ensures forall m :: 0 <= m < |rs| ==>
              DescendingRemoval(hs, rs, top)[2 * m] == UnregisterFtrace(top - 1 - m, rs[m].unregister) &&
              DescendingRemoval(hs, rs, top)[2 * m + 1] == SetFilter(top - 1 - m, hs[top - 1 - m].address, true, rs[m].clear)
  {
    if rs != [] {
      var n := |rs| - 1;
      DescendingRemovalOrder(hs, rs[..n], top);
      var t := DescendingRemoval(hs, rs, top);
      assert t == DescendingRemoval(hs, rs[..n], top) + RemoveTrace(top - |rs|, hs[top - |rs|].address, rs[n]);
      forall m | 0 <= m < n
        ensures t[2 * m] == UnregisterFtrace(top - 1 - m, rs[m].unregister)
        ensures t[2 * m + 1] == SetFilter(top - 1 - m, hs[top - 1 - m].address, true, rs[m].clear)
      {
        assert rs[..n][m] == rs[m];
      }
    }
  }

  /** fh_remove_hooks removes hooks 0, 1, ..., one after the other, each with both calls. */
  lemma {:induction false} AscendingRemovalOrder(hs: seq<Hook>, rs: seq<RemoveResults>)
    requires |rs| <= |hs|
    ensures |AscendingRemoval(hs, rs)| == 2 * |rs|
    ensures forall m :: 0 <= m < |rs| ==>
              AscendingRemoval(hs, rs)[2 * m] == UnregisterFtrace(m, rs[m].unregister) &&
              AscendingRemoval(hs, rs)[2 * m + 1] == SetFilter(m, hs[m].address, true, rs[m].clear)
  {
    if rs != [] {
      var n := |rs| - 1;
      AscendingRemovalOrder(hs, rs[..n]);
      var t := AscendingRemoval(hs, rs);
      assert t == AscendingRemoval(hs, rs[..n]) + RemoveTrace(n, hs[n].address, rs[n]);
      forall m | 0 <= m < n
        ensures t[2 * m] == UnregisterFtrace(m, rs[m].unregister)
        ensures t[2 * m + 1] == SetFilter(m, hs[m].address, true, rs[m].clear)
      {
        assert rs[..n][m] == rs[m];
      }
    }
  }

  /**
    fh_install_hooks never touches a hook past the one that failed: every
    call naming a hook, in the installs and in the rollback, names one of
    the hooks it attempted.
   */
  lemma InstallHooksStaysInRange(hs: seq<Hook>, hs': seq<Hook>, installs: seq<InstallResults>,
                                 removals: seq<RemoveResults>)
    requires |installs| <= |hs| == |hs'| && |removals| <= |installs|
    ensures forall c :: (c in InstallsTrace(hs, installs) + DescendingRemoval(hs', removals, |removals|) &&
                         NamesHook(c)) ==> c.hook < |installs|
  {
    InstallsTraceNames(hs, installs);
    DescendingRemovalNames(hs', removals, |removals|);
  }

  /** The rollback names only hooks top-|rs| .. top-1. */
  lemma {:induction false} DescendingRemovalNames(hs: seq<Hook>, rs: seq<RemoveResults>, top: nat)
    requires |rs| <= top <= |hs|
    ensures forall c :: c in DescendingRemoval(hs, rs, top) && NamesHook(c) ==> top - |rs| <= c.hook < top
  {
    if rs != [] {
      DescendingRemovalNames(hs, rs[..|rs| - 1], top);
    }
  }

  // ---------------------------------------------------------------------
  // What the hook table holds in the kernel

  /** The two things an installed hook holds: its ftrace registration and its filter on the traced address. */
  datatype Resource = Registration | Filter

  /**
    How one call changes hook j's hold on a resource: +1 when it is acquired
    successfully, -1 when its release is attempted (the result of a release
    is ignored by the module).
   */
  function Weight(c: Call, j: nat, res: Resource): int
  {
    match res
    case Registration =>
      if c == RegisterFtrace(j, 0) then 1
      else if c.UnregisterFtrace? && c.hook == j then -1
      else 0
    case Filter =>
      if c.SetFilter? && c.hook == j && !c.remove && c.err == 0 then 1
      else if c.SetFilter? && c.hook == j && c.remove then -1
      else 0
  }

  /** Hook j's net hold on a resource over a trace: acquisitions minus releases. */
  function Balance(t: seq<Call>, j: nat, res: Resource): int
  {
    if t == [] then 0 else Balance(t[..|t| - 1], j, res) + Weight(t[|t| - 1], j, res)
  }

  lemma {:induction false} BalanceAppend(a: seq<Call>, b: seq<Call>, j: nat, res: Resource)
    ensures Balance(a + b, j, res) == Balance(a, j, res) + Balance(b, j, res)
  {
    if b == [] {
      assert a + b == a;
    } else {
      var b' := b[..|b| - 1];
      assert (a + b)[..|a + b| - 1] == a + b';
      BalanceAppend(a, b', j, res);
    }
  }

  lemma BalanceCons(c: Call, t: seq<Call>, j: nat, res: Resource)
    ensures Balance([c] + t, j, res) == Weight(c, j, res) + Balance(t, j, res)
  {
    BalanceAppend([c], t, j, res);
    assert [c][..0] == [];
  }

  /**
    One fh_install_hook leaves hook i holding both its registration and its
    filter exactly when it returns 0, and leaves every other hook alone: a
    failed registration removes the filter it had just set.
   */
  lemma InstallTraceBalance(i: nat, address: nat, r: InstallResults, j: nat, res: Resource)
    ensures Balance(InstallTrace(i, address, r), j, res) == if j == i && InstallError(r) == 0 then 1 else 0
  {
    var resolve := ResolveTrace(r.kprobe, r.symbolAddress);
    ResolveTraceBalance(r.kprobe, r.symbolAddress, j, res);
    if ResolveError(r.kprobe, r.symbolAddress) == 0 {
      var ip := Resolved(Hook("", 0, 0, address, ThunkOps), r.kprobe, r.symbolAddress).address;
      BalanceAppend(resolve, ArmTrace(i, ip, r), j, res);
      ArmTraceBalance(i, ip, r, j, res);
    }
  }

  /** The probe calls name no hook. */
  lemma ResolveTraceBalance(kprobe: int, symbolAddress: nat, j: nat, res: Resource)
    ensures Balance(ResolveTrace(kprobe, symbolAddress), j, res) == 0
  {
    var t := ResolveTrace(kprobe, symbolAddress);
    BalanceCons(t[0], t[1..], j, res);
    if kprobe >= 0 {
      BalanceCons(KprobeUnregister, [], j, res);
    }
  }

  lemma ArmTraceBalance(i: nat, ip: nat, r: InstallResults, j: nat, res: Resource)
    ensures Balance(ArmTrace(i, ip, r), j, res) == if j == i && r.setFilter == 0 && r.register == 0 then 1 else 0
  {
    var t := ArmTrace(i, ip, r);
    BalanceCons(t[0], t[1..], j, res);
    if |t| > 1 {
      BalanceCons(t[1], t[2..], j, res);
      if |t| > 2 {
        BalanceCons(t[2], [], j, res);
      }
    }
  }

  /** One fh_remove_hook releases both of hook i's resources and touches no other hook. */
  lemma RemoveTraceBalance(i: nat, address: nat, r: RemoveResults, j: nat, res: Resource)
    ensures Balance(RemoveTrace(i, address, r), j, res) == if j == i then -1 else 0
  {
    var t := RemoveTrace(i, address, r);
    assert t == [t[0]] + [t[1]];
    BalanceCons(t[0], [t[1]], j, res);
    BalanceCons(t[1], [], j, res);
  }

  /** Installing hooks 0 .. |rs|-1 leaves exactly the hooks whose install returned 0 holding their resources. */
  lemma {:induction false} InstallsTraceBalance(hs: seq<Hook>, rs: seq<InstallResults>, j: nat, res: Resource)
    requires |rs| <= |hs|
    ensures Balance(InstallsTrace(hs, rs), j, res) == if j < |rs| && InstallError(rs[j]) == 0 then 1 else 0
  {
    if rs != [] {
      var n := |rs| - 1;
      var prefix := rs[..n];
      InstallsTraceBalance(hs, prefix, j, res);
      BalanceAppend(InstallsTrace(hs, prefix), InstallTrace(n, hs[n].address, rs[n]), j, res);
      InstallTraceBalance(n, hs[n].address, rs[n], j, res);
    }
  }

  /** The rollback releases hooks top-|rs| .. top-1 once each and no other hook. */
  lemma {:induction false} DescendingRemovalBalance(hs: seq<Hook>, rs: seq<RemoveResults>, top: nat, j: nat, res: Resource)
    requires |rs| <= top <= |hs|
    ensures Balance(DescendingRemoval(hs, rs, top), j, res) == if top - |rs| <= j < top then -1 else 0
  {
    if rs != [] {
      var n := |rs| - 1;
      DescendingRemovalBalance(hs, rs[..n], top, j, res);
      BalanceAppend(DescendingRemoval(hs, rs[..n], top), RemoveTrace(top - |rs|, hs[top - |rs|].address, rs[n]), j, res);
      RemoveTraceBalance(top - |rs|, hs[top - |rs|].address, rs[n], j, res);
    }
  }

  /** fh_remove_hooks releases hooks 0 .. |rs|-1 once each and no other hook. */
  lemma {:induction false} AscendingRemovalBalance(hs: seq<Hook>, rs: seq<RemoveResults>, j: nat, res: Resource)
    requires |rs| <= |hs|
    ensures Balance(AscendingRemoval(hs, rs), j, res) == if j < |rs| then -1 else 0
  {
    if rs != [] {
      var n := |rs| - 1;
      AscendingRemovalBalance(hs, rs[..n], j, res);
      BalanceAppend(AscendingRemoval(hs, rs[..n]), RemoveTrace(n, hs[n].address, rs[n]), j, res);
      RemoveTraceBalance(n, hs[n].address, rs[n], j, res);
    }
  }

  /**
    fh_install_hooks is all or nothing: after it, each of the first `count`
    hooks holds its registration and its filter if it returned 0, and no
    hook holds either if it failed. The requirements are what InstallHooks
    ensures of its ghost outputs; `hs'` is the table at the rollback.
   */
  lemma InstallHooksAllOrNothing(hs: seq<Hook>, hs': seq<Hook>, count: nat, err: int,
                                 installs: seq<InstallResults>, removals: seq<RemoveResults>, j: nat, res: Resource)
    requires count <= |hs| == |hs'|
    requires err == 0 ==> |installs| == count && AllSucceeded(installs)
    requires err != 0 ==> 0 < |installs| <= count && AllSucceeded(installs[..|installs| - 1]) &&
                          err == InstallError(installs[|installs| - 1])
    requires |removals| == if err == 0 then 0 else |installs| - 1
    ensures Balance(InstallsTrace(hs, installs) + DescendingRemoval(hs', removals, |removals|), j, res) ==
            if err == 0 && j < count then 1 else 0
  {
    BalanceAppend(InstallsTrace(hs, installs), DescendingRemoval(hs', removals, |removals|), j, res);
    InstallsTraceBalance(hs, installs, j, res);
    DescendingRemovalBalance(hs', removals, |removals|, j, res);
    if err != 0 && j < |installs| - 1 {
      AllSucceededAt(installs[..|installs| - 1], j);
    } else if err == 0 && j < |installs| {
      AllSucceededAt(installs, j);
    }
  }

  /** Removing every hook of a successful fh_install_hooks releases everything it acquired. */
  lemma InstallThenRemove(hs: seq<Hook>, hs': seq<Hook>, installs: seq<InstallResults>,
                          removals: seq<RemoveResults>, j: nat, res: Resource)
    requires |installs| <= |hs| && |removals| == |installs| <= |hs'|
    requires AllSucceeded(installs)
    ensures Balance(InstallsTrace(hs, installs) + AscendingRemoval(hs', removals), j, res) == 0
  {
    BalanceAppend(InstallsTrace(hs, installs), AscendingRemoval(hs', removals), j, res);
    InstallsTraceBalance(hs, installs, j, res);
    AscendingRemovalBalance(hs', removals, j, res);
    if j < |installs| {
      AllSucceededAt(installs, j);
    }
  }

  // ---------------------------------------------------------------------
  // The ftrace callback

  /** The saved registers of the traced call; the thunk changes only the instruction pointer. */
  class SavedRegisters {
    var ip: nat

    constructor (ip0: nat)
      ensures ip == ip0
    {
      ip := ip0;
    }
  }

  /**
    fh_ftrace_thunk: the traced call is redirected to the hook's function
    unless it comes from this module, which is how the replacement reaches
    the original without being redirected again. `fromThisModule` is
    within_module(parent_ip, THIS_MODULE).
   */
  method FtraceThunk(hook: Hook, fromThisModule: bool, regs: SavedRegisters)
    modifies regs
    ensures regs.ip == if fromThisModule then old(regs.ip) else hook.replacement
  {
    if !fromThisModule {
      regs.ip := hook.replacement;
    }
  }
}
