# opemu-linux: BMI dispatch and trap hooking, modelled in Dafny

opemu-linux is a Linux kernel module that emulates instructions the CPU
lacks. It hooks the kernel's `do_error_trap` through ftrace. An invalid-opcode
fault (#UD, vector 6) raised in user mode is offered to the emulator, and
every other fault goes to the original handler. This project models two
parts of it.

- **`bmi_instruction` (bmi.c), in `bmi.dfy`.**
  - The function receives the fields of a VEX-encoded BMI1/BMI2 instruction
    that are already decoded.
  - It widens the ModRM register numbers with the VEX extension bits.
  - It chooses one of thirteen operations from the opcode byte, VEX.pp,
    VEX.mmmmm and, for opcode F3, ModRM.reg.
  - It writes the result to ModRM.reg, or to VEX.vvvv for BLSR, BLSMSK and
    BLSI and for MULX's second result.
  - It returns the grown instruction length (a `uint8_t`), or 0 for an
    opcode byte it has no case for.
  - The register file is a class over a 16-entry array. Its `Execute`
    method is proved against the pure functions `Select`, `Plan` and `Size`.
    The lemmas state each case's effect.
- **The operations themselves, in `bitops.dfy`.** The bodies of the
  per-operation callees (`rorx64`, `andn32`, …) are not part of this model.
  Each operation is therefore defined from the operation pseudocode of its
  page in Volume 2 of the Intel 64 and IA-32 Architectures Software
  Developer's Manual, on little-endian bit strings of any width
  (`bits.dfy`). Its value is then proved in natural-number arithmetic: a
  rotation, a shift, a truncation, a double-width product, or lowest-set-bit
  isolation. Where two operations are inverses, the round trip is proved
  (PEXT/PDEP).
- **trap_hook.c, in `trap_hook.dfy`.**
  - **The trap policy.** A kernel-mode fault is never handled. A user-mode
    fault is handled only when it is #UD and the emulator reports success.
    Otherwise it is forwarded exactly once with unchanged arguments.
  - **Hook installation.** Hooks are resolved, filtered and registered in
    ascending order. The first failure rolls back the installed prefix in
    descending order.
  - **Removal and the thunk.** Removal of the whole table is modelled, and
    so is the ftrace thunk's recursion guard.
  - **Kernel calls.** The kernel interfaces (kprobes, ftrace, the emulator
    entry and the original handler) are methods of a `Kernel` class whose
    results are arbitrary. Each call is appended to a ghost log. Every
    operation states the log it leaves, and whole-table properties are
    proved about those logs. "All or nothing" is one of them: after a
    failed `fh_install_hooks`, every ftrace registration and every filter
    its installs acquired has had its release attempted. The module
    ignores what a release returns, and so does the model.

## Model

| member | source | states |
|---|---|---|
| Bmi.ModReg | bmi.c:28 | ModRM.reg is below 8 and is bits 5..3 of the ModRM byte |
| Bmi.DstIndex | bmi.c:29-32 | the destination is below 16. Modulo 8 it is ModRM.reg. It is 8 or more exactly when the VEX.R bit is set |
| Bmi.SrcIndex | bmi.c:30-33 | the register source is below 16. Modulo 8 it is ModRM.rm. It is 8 or more exactly when the VEX.B bit is set |
| Bmi.Select | bmi.c:48-151 | the switch chooses an operation exactly when (opcode, VEX.pp, VEX.mmmmm, ModRM.reg) is that operation's row of the manual's opcode tables. An opcode byte outside F0/F2/F3/F5/F6/F7 chooses nothing |
| Bmi.Destinations | bmi.c:50-148 | MULX writes two registers and every other operation writes one. The first is VEX.vvvv for BLSR/BLSMSK/BLSI (VM form) and ModRM.reg otherwise. MULX's second write is to VEX.vvvv |
| Bmi.OperandWidth | bmi.c:37-53 | operands are 64 bits exactly in 64-bit mode with a 64-bit operand size, and 32 bits otherwise |
| Bmi.Emulate | bmi.c:53-143 | each operation yields one result of the operand width, and MULX yields two |
| Bmi.ZeroExtend | bmi.c:169-172 | a result stored in a register fills 64 bits. It keeps its bits and its value, and every bit above it is clear |
| Bmi.Apply | bmi.c:118-119 | writes apply in order. Registers no write names are unchanged, the last write wins, and of two writes to different registers both stay |
| Bmi.Values | bmi.c:42-56 | the values written are 64-bit words whose bits above the operand width are clear |
| Bmi.Plan | bmi.c:48-151 | an opcode byte without a case writes nothing. A matched operation writes one register, or two for MULX. Each write names a register below 16 and holds 64 bits |
| Bmi.Advance | bmi.c:46 | the `uint8_t` length grows by n modulo 256, and is the plain sum when nothing wraps |
| Bmi.Size | bmi.c:44-150 | the return value is 0 for an opcode byte without a case. Otherwise, when nothing wraps, it is ins_size plus the bytes consumed, plus one more for a matched RORX |
| Bmi.Effect | bmi.c:48-151 | the registers after the call, case by case. Nothing changes without a match. The result goes to ModRM.reg, or to VEX.vvvv for BLSR/BLSMSK/BLSI. MULX writes its high half to ModRM.reg and then its low half to VEX.vvvv |
| Bmi.NotHandled | bmi.c:150-269 | with no matching branch, no register changes. An unknown opcode byte returns 0. A known opcode byte still returns the grown, nonzero length |
| Bmi.RorxEffect | bmi.c:50-59 | RORX requires prefix F2 and map 0F3A. It writes the r/m operand rotated right by imm8 modulo the width to ModRM.reg, and adds one byte for the imm8 |
| Bmi.MulxEffect | bmi.c:113-122 | after MULX, VEX.vvvv holds RDX times the source modulo 2^w. When ModRM.reg differs from VEX.vvvv, high times 2^w plus low is the whole product. No other register changes |
| Bmi.MulxWrites | bmi.c:116-119 | MULX's writes, in order: the high half to ModRM.reg, then the low half to VEX.vvvv |
| Bmi.MulxHalves | bmi.c:116-119 | storing MULX's two halves, high first, keeps the product in the two registers |
| Bmi.SameTableBothModes | bmi.c:153-267 | the 32-bit path and the 64-bit path write the same registers in the same order. This holds by construction: the two switches (bmi.c:48-151 and bmi.c:164-267) agree case by case when read side by side, so the model merges them into one table, and the lemma does not compare them |
| Bmi.NarrowResultsZeroExtended | bmi.c:166-264 | outside 64-bit operand size, every value written has its upper 32 bits clear |
| Bmi.MulxSameRegisterKeepsLow | bmi.c:118-119 | as written, when ModRM.reg and VEX.vvvv are the same register, it ends with the low half of the product |
| Bmi.MulxStores | bmi.c:116-119 | the manual's MULX stores: ModRM.reg holds the high half (the product divided by 2^w) even when it is also VEX.vvvv. With two distinct registers they hold the whole product, and no other register changes |
| Bmi.MulxStoresAgree | bmi.c:116-119 | with two distinct destinations, the stores as written equal the manual's stores |
| Bmi.RegisterFile.Load | bmi.c:56 | storing a result changes that register only |
| Bmi.RegisterFile.Writeback | bmi.c:53-56 | one case of the switch updates the registers as Apply of its writes over the old registers |
| Bmi.RegisterFile.Execute | bmi.c:11-270 | bmi_instruction returns Size. It leaves the registers as Plan's writes applied to the old registers, with imm8 the byte right after the ModRM-consumed bytes |
| BitOps.RorxValue | bmi.c:53 | RORX's value is the source divided by 2^k plus the low k bits moved to the top, with k the imm8 modulo the width |
| BitOps.RotateRightAt | bmi.c:53 | bit i of the rotated value is bit (i + k) modulo the width of the source |
| BitOps.RotateRightInverse | bmi.c:53 | rotating right by k and then by width minus k restores the source |
| BitOps.AndnSplitsSecond | bmi.c:64 | ANDN(a, b) plus AND(a, b) is b: ANDN keeps exactly the bits of b that a does not |
| BitOps.BlsrClearsLowest | bmi.c:75 | BLSR clears the lowest set bit and keeps every other bit |
| BitOps.BlsmskMasksUpToLowest | bmi.c:80 | BLSMSK sets the bits up to and including the lowest set bit and clears the rest |
| BitOps.BlsiIsolatesLowest | bmi.c:85 | BLSI keeps only the lowest set bit |
| BitOps.BlsiOfSignBit | bmi.c:85 | BLSI of the most negative value is that value |
| BitOps.DecrementStep | bmi.c:75 | subtracting one borrows through the low zero bits and clears the lowest set bit |
| BitOps.NegateStep | bmi.c:85 | two's-complement negation keeps the bits up to the lowest set one and flips those above |
| BitOps.LowBitsValue | bmi.c:96 | BZHI's result is the source modulo 2^n |
| BitOps.PextOfPdep | bmi.c:101 | PEXT after PDEP with the same mask gives back the low popcount(mask) bits |
| BitOps.PdepOfPext | bmi.c:106 | PDEP after PEXT with the same mask keeps exactly the masked bits |
| BitOps.GatherScatter | bmi.c:101 | gathering the scattered bits gives back the prefix of the source |
| BitOps.ScatterGather | bmi.c:106 | scattering the gathered bits gives the source and-ed with the mask |
| BitOps.MulxProduct | bmi.c:116 | MULX's high half times 2^w plus its low half is the full product, and the low half is the product modulo 2^w |
| BitOps.BextrValue | bmi.c:128 | BEXTR's value is the source shifted down by START, modulo 2^LEN |
| BitOps.ShiftLeftValue | bmi.c:133 | SHLX multiplies by 2^c modulo 2^w |
| BitOps.ShiftRightArithValue | bmi.c:138 | SARX divides the signed value by 2^c, rounding toward minus infinity |
| BitOps.ShiftRightValue | bmi.c:143 | SHRX divides by 2^c, rounding down |
| TrapHook.Handled | trap_hook.c:220-243 | a kernel-mode fault is never handled (kernel_trap), and a user-mode fault is handled exactly when it is #UD and the emulator succeeded (user_trap). So fh_do_error_trap returns early exactly for a user-mode #UD that was emulated |
| TrapHook.DoErrorTrap | trap_hook.c:235-246 | the calls made: the emulator is consulted only for a user-mode #UD, and the original handler is called unless that handled it |
| TrapHook.TrapForwarding | trap_hook.c:235-246 | a kernel-mode fault, or a user-mode fault other than #UD, is forwarded once with its arguments. A user-mode #UD is forwarded once unless emulated, and then not at all |
| TrapHook.ResolveError | trap_hook.c:63-90 | fh_resolve_hook_address returns -ENOENT exactly when the probe succeeds with address 0, and 0 otherwise, including when the probe fails |
| TrapHook.Resolved | trap_hook.c:70-87 | a failed probe changes nothing. Otherwise the address is the probe's, and `original` is written only when that address is nonzero |
| TrapHook.ResolveHookAddress | trap_hook.c:63-90 | the result, the hook entry after resolution, and the probe register and unregister calls |
| TrapHook.InstallHook | trap_hook.c:111-144 | the result, the hook entry (resolved, and given the thunk's ops once resolution succeeded) and the calls made, in order |
| TrapHook.InstallHookOutcome | trap_hook.c:115-141 | a resolve error returns -ENOENT before any call on the hook. A failed filter is the last call. A failed registration is followed by clearing the filter just set. Success ends with the registration |
| TrapHook.ProbeFailureIsNotAnError | trap_hook.c:70-130 | when the probe fails, installation goes on: the filter is set on the address the hook already had, and the saved original is left unwritten |
| TrapHook.RemoveHook | trap_hook.c:150-163 | unregistering and clearing the filter are both attempted, whatever they return, and no hook entry changes |
| TrapHook.InstallHooks | trap_hook.c:174-193 | returns 0 exactly when all hooks 0..count-1 installed. Otherwise it returns the first failure's error, with every earlier install successful. The table and the calls are installs in order followed by a descending rollback |
| TrapHook.InstallInOrder | trap_hook.c:179-185 | the loop installs hooks in ascending order and stops at the first failure, returning its index and error |
| TrapHook.InstallNext | trap_hook.c:180-182 | one round of the loop extends the table and the calls by one install |
| TrapHook.Rollback | trap_hook.c:187-190 | the error path removes hooks failed-1 down to 0 |
| TrapHook.RemoveHooks | trap_hook.c:200-206 | fh_remove_hooks removes hooks 0..count-1 in ascending order |
| TrapHook.DescendingRemovalOrder | trap_hook.c:188-190 | the rollback's calls are, for m = 0, 1, …, unregister then clear of hook top-1-m |
| TrapHook.AscendingRemovalOrder | trap_hook.c:204-205 | fh_remove_hooks' calls are, for m = 0, 1, …, unregister then clear of hook m |
| TrapHook.InstallTraceNames | trap_hook.c:111-144 | each fh_install_hook names only its own hook |
| TrapHook.InstallsTraceNames | trap_hook.c:179-183 | installing hooks 0..n-1 names no hook from n on |
| TrapHook.DescendingRemovalNames | trap_hook.c:188-190 | the rollback from a failure at index i names only hooks below i |
| TrapHook.InstallHooksStaysInRange | trap_hook.c:179-190 | no hook past the failing one is ever touched, by the installs or by the rollback |
| TrapHook.InstallTraceBalance | trap_hook.c:111-144 | one fh_install_hook leaves its hook holding its registration and its filter exactly when it returns 0, and leaves every other hook alone |
| TrapHook.RemoveTraceBalance | trap_hook.c:150-163 | one fh_remove_hook releases both of its hook's resources and touches no other hook |
| TrapHook.InstallsTraceBalance | trap_hook.c:179-185 | after installs in order, exactly the hooks whose install returned 0 hold their resources |
| TrapHook.DescendingRemovalBalance | trap_hook.c:188-190 | the rollback releases each hook below the failing index once and no other hook |
| TrapHook.AscendingRemovalBalance | trap_hook.c:204-205 | fh_remove_hooks releases each of hooks 0..count-1 once and no other hook |
| TrapHook.InstallHooksAllOrNothing | trap_hook.c:174-193 | counting +1 for each successful acquisition and -1 for each attempted release: after fh_install_hooks, hooks 0..count-1 each net one registration and one filter when it returned 0, and every hook nets zero when it failed, so each acquisition has had its release attempted |
| TrapHook.InstallThenRemove | trap_hook.c:179-206 | fh_remove_hooks after a successful fh_install_hooks releases everything the install acquired |
| TrapHook.FtraceThunk | trap_hook.c:92-103 | the traced call is redirected to the hook's function unless it comes from this module, and is left alone otherwise |

## Left out

- Flags. The callees update RFLAGS (BLSR's CF, BEXTR's ZF, …), but their bodies are not part of this model. Only register results are modelled.
- The per-operation callees (`rorx64`, `andn32`, …) are not part of this model. Each is defined from its page in Volume 2 of the Intel manual, with operands in the manual's order for its form. In the RVM form (ANDN, PEXT, PDEP), VEX.vvvv is the first source and ModRM.rm is the second source, which is the mask for PEXT and PDEP. In the RMV form (BZHI, BEXTR, SHLX, SARX, SHRX), ModRM.rm is the first source and VEX.vvvv is the index, the control or the count. In the VM form (BLSR, BLSMSK, BLSI), ModRM.rm is the source and VEX.vvvv is the destination. RORX reads ModRM.rm and the imm8, and MULX reads RDX/EDX and ModRM.rm.
- `get_x64regs` is not part of this model. The r/m operand it reads, from a register or from user memory, is the input `rm`. The VEX.vvvv source and RDX are read from the register file.
- `get_consumed` is not part of this model. Its count is the input `consumed`.
- `is_saved_state64` is the input `mode64`.
- `operand_size` takes the operand width to be 64 bits exactly when it equals 64 in 64-bit mode. The 32-bit path always uses 32 bits.
- Bmi.Values: BEXTR's result is seeded with the old destination value (bmi.c:127), but the manual's BEXTR writes every bit of the destination. The seed therefore has no effect in the model, and the old value is not read.
- `_load_m64`/`_load_m32` are not part of this model. A result is stored zero-extended to 64 bits. How `_load_m32` treats the upper half of a register is not modelled.
- The fields `highIndex` and `modbyte` are only passed on to the operand fetch, so the model does not use them.
- Symbol resolution. `fh_resolve_hook_address` records the probe's address, which is the address of `kallsyms_lookup_name` and not of the hook's named symbol. The model takes that address as an arbitrary kernel result and does not use the hook's name.
- `USE_FENTRY_OFFSET` builds are not modelled: MCOUNT_INSN_SIZE is not added, and the thunk always redirects in them. The model follows the build without it.
- `*original` is modelled as a field of the hook entry, not as a pointer into other storage, so aliasing through it is not modelled.
- `within_module(parent_ip, THIS_MODULE)` and `user_mode(regs)` are inputs.
- `opemu_utrap` is a kernel call with an arbitrary boolean result.
- Logging (`pr_debug`, `pr_info`), `fh_init`/`fh_exit`, the hook table `demo_hooks` and the GCC pragma are not behaviour and are not modelled.
- pcmpstr.h holds only prototypes and is not part of this model.
- Concurrency between faults on different CPUs is not modelled.
- TrapHook.InstallHooksAllOrNothing: a release counts as done whatever `unregister_ftrace_function` or `ftrace_set_filter_ip` returns, because the module ignores those results (trap_hook.c:154-162). The lemma states that every acquisition had its release attempted, not that the kernel dropped it.
- Bmi.RegisterFile.Execute keeps the source's MULX store order (high half, then low half). `Bmi.MulxStores` is the manual's order. Which half `mulx64` returns in which out-parameter is not visible, so the finding below depends on the manual's naming.

## Findings

| source | as written | input that shows it | evidently intended | confidence | as-written member | corrected member |
|---|---|---|---|---|---|---|
| bmi.c:118-119 | MULX stores the high half to ModRM.reg and then the low half to VEX.vvvv, so when both name the same register the low half stays | MULX with ModRM.reg equal to VEX.vvvv, for example `mulx rax, rax, rcx` with RDX = 2^63 and RCX = 2: the register ends with 0 instead of 1 | the manual's MULX leaves the high half in that register | plausible, not executed; it assumes `mulx64` returns the high half in its first out-parameter | Bmi.MulxSameRegisterKeepsLow | Bmi.MulxStores |
