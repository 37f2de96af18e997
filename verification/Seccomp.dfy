/** The payload's syscall filter: a classic-BPF interpreter, and what the filter decides. */
module Seccomp {
  import opened Basics

  type word = bv32

  const LD_W_ABS: nat := 0x20
  const ALU_AND_K: nat := 0x54
  const JEQ_K: nat := 0x15
  const JGT_K: nat := 0x25
  const JGE_K: nat := 0x35
  const RET_K: nat := 0x06

  const NR_OFFSET: word := 0
  const ARCH_OFFSET: word := 4
  const ARG0_LOW_OFFSET: word := 16
  const ARG0_HIGH_OFFSET: word := 20

  const AUDIT_ARCH_X86_64: word := 0xc000_003e
  const X32_SYSCALL_BIT: word := 0x4000_0000
  const MAX_KNOWN_SYSCALL: word := 471

  const NR_CLONE: word := 56
  const NR_MKNOD: word := 133
  const NR_PIVOT_ROOT: word := 155
  const NR_CHROOT: word := 161
  const NR_MOUNT: word := 165
  const NR_UMOUNT2: word := 166
  const NR_MKNODAT: word := 259
  const NR_UNSHARE: word := 272
  const NR_OPEN_BY_HANDLE_AT: word := 304
  const NR_SETNS: word := 308
  const NR_OPEN_TREE: word := 428
  const NR_MOVE_MOUNT: word := 429
  const NR_FSOPEN: word := 430
  const NR_FSCONFIG: word := 431
  const NR_FSMOUNT: word := 432
  const NR_FSPICK: word := 433
  const NR_CLONE3: word := 435
  const NR_MOUNT_SETATTR: word := 442
  const NR_OPEN_TREE_ATTR: word := 467

  const SAFE_CLONE_FLAGS: word := 0x81fd_ff7f
  const UNSAFE_CLONE_FLAGS: word := 0x7e02_0080

  const RET_KILL_PROCESS: word := 0x8000_0000
  const RET_ALLOW: word := 0x7fff_0000
  const ACTION_EPERM: word := 0x0005_0001
  const ACTION_ENOSYS: word := 0x0005_0026

  const FILTER_LEN: nat := 35
  const EPERM_INDEX: nat := 32
  const ENOSYS_INDEX: nat := 33
  const ALLOW_INDEX: nat := 34

  datatype Insn = Insn(code: nat, jt: nat, jf: nat, k: word)

  /** The seccomp_data a filter can load. */
  datatype Data = Data(nr: word, arch: word, arg0: bv64)

  function Statement(code: nat, k: word): Insn {
    Insn(code, 0, 0, k)
  }

  function Jump(code: nat, k: word, jt: nat, jf: nat): Insn {
    Insn(code, jt, jf, k)
  }

  function ForwardOffset(from: nat, to: nat): (r: nat)
    requires from < to <= from + 256
    ensures from + r + 1 == to && r < 256
  {
    to - from - 1
  }

  // ---- the machine --------------------------------------------------------------------

  function Low(x: bv64): word {
    (x & 0xffff_ffff) as word
  }

  function High(x: bv64): word {
    (x >> 32) as word
  }

  function Load(d: Data, offset: word): Option<word> {
    if offset == NR_OFFSET then Some(d.nr)
    else if offset == ARCH_OFFSET then Some(d.arch)
    else if offset == ARG0_LOW_OFFSET then Some(Low(d.arg0))
    else if offset == ARG0_HIGH_OFFSET then Some(High(d.arg0))
    else None
  }

  predicate IsJump(i: Insn) {
    i.code == JEQ_K || i.code == JGT_K || i.code == JGE_K
  }

  predicate Holds(i: Insn, a: word) {
    if i.code == JEQ_K then a == i.k else if i.code == JGT_K then a > i.k else a >= i.k
  }

  datatype Fault = OutOfBounds | UnsupportedLoad | UnsupportedInstruction | DidNotTerminate

  datatype Next = Returns(verdict: word) | Goes(pc: nat, a: word) | Faults(fault: Fault)

  /** One instruction. */
  function Step(i: Insn, d: Data, pc: nat, a: word): (r: Next)
    ensures r.Goes? ==> r.pc > pc
  {
    if i.code == RET_K then Returns(i.k)
    else if i.code == LD_W_ABS then
      (match Load(d, i.k) case None => Faults(UnsupportedLoad) case Some(w) => Goes(pc + 1, w))
    else if i.code == ALU_AND_K then Goes(pc + 1, a & i.k)
    else if IsJump(i) then Goes(pc + 1 + (if Holds(i, a) then i.jt else i.jf), a)
    else Faults(UnsupportedInstruction)
  }

  /** The verdict from an instruction on; None where the interpreter stops with a fault. */
  function Exec(p: seq<Insn>, d: Data, pc: nat, a: word): Option<word>
    decreases |p| - pc
  {
    if pc >= |p| then None
    else
      match Step(p[pc], d, pc, a)
      case Returns(verdict) => Some(verdict)
      case Goes(next, b) => Exec(p, d, next, b)
      case Faults(_) => None
  }

  /** Known instructions and offsets, jumps that land inside, and no falling off the end. */
  ghost predicate WellFormed(p: seq<Insn>) {
    p != [] && forall i :: 0 <= i < |p| ==> InsnWellFormed(p, i)
  }

  ghost predicate InsnWellFormed(p: seq<Insn>, i: nat)
    requires i < |p|
  {
    var insn := p[i];
    || insn.code == RET_K
    || (insn.code == LD_W_ABS && i + 1 < |p|
        && (insn.k == NR_OFFSET || insn.k == ARCH_OFFSET || insn.k == ARG0_LOW_OFFSET || insn.k == ARG0_HIGH_OFFSET))
    || (insn.code == ALU_AND_K && i + 1 < |p|)
    || (IsJump(insn) && i + 1 + insn.jt < |p| && i + 1 + insn.jf < |p|)
  }

  lemma WellFormedStep(p: seq<Insn>, d: Data, pc: nat, a: word)
    requires pc < |p| && InsnWellFormed(p, pc)
    ensures var s := Step(p[pc], d, pc, a); s.Returns? || (s.Goes? && s.pc < |p|)
  {
  }

  /** The interpreter agrees with Exec and never runs out of its |p| + 1 rounds, for any program; on a
      well-formed one it always reaches a verdict. */
  method Interpret(p: seq<Insn>, d: Data) returns (r: Result<word, Fault>)
    ensures r != Err(DidNotTerminate)
    ensures Exec(p, d, 0, 0) == if r.Ok? then Some(r.value) else None
    ensures WellFormed(p) ==> r.Ok?
  {
    var a: word, pc: nat := 0, 0;
    for round := 0 to |p| + 1
      invariant round <= pc && round <= |p|
      invariant Exec(p, d, pc, a) == Exec(p, d, 0, 0)
      invariant WellFormed(p) ==> pc < |p|
    {
      if pc >= |p| { return Err(OutOfBounds); }
      if WellFormed(p) {
        WellFormedStep(p, d, pc, a);
      }
      match Step(p[pc], d, pc, a) {
        case Returns(verdict) => return Ok(verdict);
        case Goes(next, b) => pc, a := next, b;
        case Faults(fault) => return Err(fault);
      }
    }
    return Err(DidNotTerminate);
  }

  // ---- the filter ---------------------------------------------------------------------

  /** System calls refused with EPERM, in table order. */
  const FORBIDDEN: seq<word> := [
    NR_MKNOD, NR_PIVOT_ROOT, NR_CHROOT, NR_MOUNT, NR_UMOUNT2, NR_MKNODAT, NR_UNSHARE, NR_OPEN_BY_HANDLE_AT, NR_SETNS,
    NR_OPEN_TREE, NR_MOVE_MOUNT, NR_FSOPEN, NR_FSCONFIG, NR_FSMOUNT, NR_FSPICK, NR_MOUNT_SETATTR, NR_OPEN_TREE_ATTR]

  const PAYLOAD_FILTER: seq<Insn> := [
    Statement(LD_W_ABS, ARCH_OFFSET),
    Jump(JEQ_K, AUDIT_ARCH_X86_64, ForwardOffset(1, 3), ForwardOffset(1, 2)),
    Statement(RET_K, RET_KILL_PROCESS),
    Statement(LD_W_ABS, NR_OFFSET),
    Jump(JGE_K, X32_SYSCALL_BIT, ForwardOffset(4, 5), ForwardOffset(4, 6)),
    Statement(RET_K, RET_KILL_PROCESS),
    Jump(JGT_K, MAX_KNOWN_SYSCALL, ForwardOffset(6, ENOSYS_INDEX), 0),
    Jump(JEQ_K, NR_CLONE3, ForwardOffset(7, ENOSYS_INDEX), 0),
    Jump(JEQ_K, NR_MKNOD, ForwardOffset(8, EPERM_INDEX), 0),
    Jump(JEQ_K, NR_PIVOT_ROOT, ForwardOffset(9, EPERM_INDEX), 0),
    Jump(JEQ_K, NR_CHROOT, ForwardOffset(10, EPERM_INDEX), 0),
    Jump(JEQ_K, NR_MOUNT, ForwardOffset(11, EPERM_INDEX), 0),
    Jump(JEQ_K, NR_UMOUNT2, ForwardOffset(12, EPERM_INDEX), 0),
    Jump(JEQ_K, NR_MKNODAT, ForwardOffset(13, EPERM_INDEX), 0),
    Jump(JEQ_K, NR_UNSHARE, ForwardOffset(14, EPERM_INDEX), 0),
    Jump(JEQ_K, NR_OPEN_BY_HANDLE_AT, ForwardOffset(15, EPERM_INDEX), 0),
    Jump(JEQ_K, NR_SETNS, ForwardOffset(16, EPERM_INDEX), 0),
    Jump(JEQ_K, NR_OPEN_TREE, ForwardOffset(17, EPERM_INDEX), 0),
    Jump(JEQ_K, NR_MOVE_MOUNT, ForwardOffset(18, EPERM_INDEX), 0),
    Jump(JEQ_K, NR_FSOPEN, ForwardOffset(19, EPERM_INDEX), 0),
    Jump(JEQ_K, NR_FSCONFIG, ForwardOffset(20, EPERM_INDEX), 0),
    Jump(JEQ_K, NR_FSMOUNT, ForwardOffset(21, EPERM_INDEX), 0),
    Jump(JEQ_K, NR_FSPICK, ForwardOffset(22, EPERM_INDEX), 0),
    Jump(JEQ_K, NR_MOUNT_SETATTR, ForwardOffset(23, EPERM_INDEX), 0),
    Jump(JEQ_K, NR_OPEN_TREE_ATTR, ForwardOffset(24, EPERM_INDEX), 0),
    Jump(JEQ_K, NR_CLONE, ForwardOffset(25, 27), 0),
    Statement(RET_K, RET_ALLOW),
    Statement(LD_W_ABS, ARG0_HIGH_OFFSET),
    Jump(JEQ_K, 0, 0, ForwardOffset(28, EPERM_INDEX)),
    Statement(LD_W_ABS, ARG0_LOW_OFFSET),
    Statement(ALU_AND_K, UNSAFE_CLONE_FLAGS),
    Jump(JEQ_K, 0, ForwardOffset(31, ALLOW_INDEX), ForwardOffset(31, EPERM_INDEX)),
    Statement(RET_K, ACTION_EPERM),
    Statement(RET_K, ACTION_ENOSYS),
    Statement(RET_K, RET_ALLOW)]

  /** The policy in words: foreign architectures and x32 are killed, system calls past the audited table
      and clone3 do not exist, topology and device calls are refused, clone may set only safe flags in
      its whole 64-bit word, and everything else is allowed. */
  function Decision(d: Data): word {
    if d.arch != AUDIT_ARCH_X86_64 || d.nr >= X32_SYSCALL_BIT then RET_KILL_PROCESS
    else if d.nr > MAX_KNOWN_SYSCALL || d.nr == NR_CLONE3 then ACTION_ENOSYS
    else if Refused(d) then ACTION_EPERM
    else RET_ALLOW
  }

  predicate Refused(d: Data) {
    d.nr in FORBIDDEN || (d.nr == NR_CLONE && d.arg0 & !(SAFE_CLONE_FLAGS as bv64) != 0)
  }

  // The table, entry by entry.

  ghost predicate HasHead(p: seq<Insn>) {
    && |p| == FILTER_LEN
    && p[0] == Statement(LD_W_ABS, ARCH_OFFSET) && p[1] == Jump(JEQ_K, AUDIT_ARCH_X86_64, 1, 0)
    && p[2] == Statement(RET_K, RET_KILL_PROCESS)
    && p[3] == Statement(LD_W_ABS, NR_OFFSET) && p[4] == Jump(JGE_K, X32_SYSCALL_BIT, 0, 1)
    && p[5] == Statement(RET_K, RET_KILL_PROCESS)
    && p[6] == Jump(JGT_K, MAX_KNOWN_SYSCALL, 26, 0) && p[7] == Jump(JEQ_K, NR_CLONE3, 25, 0)
  }

  /** Equality tests from `start` on, one per call, all leading to `target`. */
  ghost predicate HasTests(p: seq<Insn>, calls: seq<word>, start: nat, target: nat) {
    && start + |calls| <= target < |p|
    && forall j :: 0 <= j < |calls| ==> p[start + j] == Jump(JEQ_K, calls[j], target - (start + j) - 1, 0)
  }

  ghost predicate HasTail(p: seq<Insn>) {
    && |p| == FILTER_LEN
    && p[25] == Jump(JEQ_K, NR_CLONE, 1, 0) && p[26] == Statement(RET_K, RET_ALLOW)
    && p[27] == Statement(LD_W_ABS, ARG0_HIGH_OFFSET) && p[28] == Jump(JEQ_K, 0, 0, 3)
    && p[29] == Statement(LD_W_ABS, ARG0_LOW_OFFSET) && p[30] == Statement(ALU_AND_K, UNSAFE_CLONE_FLAGS)
    && p[31] == Jump(JEQ_K, 0, 2, 0)
    && p[32] == Statement(RET_K, ACTION_EPERM) && p[33] == Statement(RET_K, ACTION_ENOSYS)
    && p[34] == Statement(RET_K, RET_ALLOW)
  }

  ghost predicate IsPayloadFilter(p: seq<Insn>) {
    HasHead(p) && |FORBIDDEN| == 17 && HasTests(p, FORBIDDEN, 8, EPERM_INDEX) && HasTail(p)
  }

  lemma PayloadFilterEntries()
    ensures IsPayloadFilter(PAYLOAD_FILTER)
  {
    PayloadHead();
    PayloadTests();
    PayloadTail();
  }

  lemma PayloadHead()
    ensures HasHead(PAYLOAD_FILTER)
  {
  }

  lemma PayloadTests()
    ensures HasTests(PAYLOAD_FILTER, FORBIDDEN, 8, EPERM_INDEX)
  {
    forall j | 0 <= j < |FORBIDDEN|
      ensures PAYLOAD_FILTER[8 + j] == Jump(JEQ_K, FORBIDDEN[j], EPERM_INDEX - (8 + j) - 1, 0)
    {
      PayloadTest(j);
    }
  }

  lemma PayloadTest(j: nat)
    requires j < |FORBIDDEN|
    ensures PAYLOAD_FILTER[8 + j] == Jump(JEQ_K, FORBIDDEN[j], EPERM_INDEX - (8 + j) - 1, 0)
  {
    assert j < 6 || 6 <= j < 12 || 12 <= j < 17;
  }

  lemma PayloadTail()
    ensures HasTail(PAYLOAD_FILTER)
  {
  }

  lemma PayloadFilterIsWellFormed(p: seq<Insn>)
    requires IsPayloadFilter(p)
    ensures WellFormed(p)
  {
    forall i | 8 <= i < 25
      ensures InsnWellFormed(p, i)
    {
      assert p[8 + (i - 8)] == Jump(JEQ_K, FORBIDDEN[i - 8], EPERM_INDEX - i - 1, 0);
    }
  }

  // ---- one instruction at a time ------------------------------------------------------

  lemma Loads(p: seq<Insn>, d: Data, pc: nat, a: word, offset: word)
    requires pc < |p| && p[pc] == Statement(LD_W_ABS, offset) && Load(d, offset).Some?
    ensures Exec(p, d, pc, a) == Exec(p, d, pc + 1, Load(d, offset).value)
  {
  }

  lemma Masks(p: seq<Insn>, d: Data, pc: nat, a: word, k: word)
    requires pc < |p| && p[pc] == Statement(ALU_AND_K, k)
    ensures Exec(p, d, pc, a) == Exec(p, d, pc + 1, a & k)
  {
  }

  lemma Tests(p: seq<Insn>, d: Data, pc: nat, a: word)
    requires pc < |p| && IsJump(p[pc])
    ensures Exec(p, d, pc, a) == Exec(p, d, pc + 1 + (if Holds(p[pc], a) then p[pc].jt else p[pc].jf), a)
  {
  }

  lemma Answers(p: seq<Insn>, d: Data, pc: nat, a: word, k: word)
    requires pc < |p| && p[pc] == Statement(RET_K, k)
    ensures Exec(p, d, pc, a) == Some(k)
  {
  }

  // ---- the policy ---------------------------------------------------------------------

  /** Splitting a flag word does not change which flags it holds. */
  lemma FlagWords(x: bv64)
    ensures High(x) == 0 && Low(x) & UNSAFE_CLONE_FLAGS == 0 <==> x & !(SAFE_CLONE_FLAGS as bv64) == 0
  {
  }

  lemma CloneFlags(p: seq<Insn>, d: Data)
    requires HasTail(p)
    ensures Exec(p, d, 27, d.nr) ==
            Some(if d.arg0 & !(SAFE_CLONE_FLAGS as bv64) != 0 then ACTION_EPERM else RET_ALLOW)
  {
    FlagWords(d.arg0);
    var high, low := High(d.arg0), Low(d.arg0);
    Loads(p, d, 27, d.nr, ARG0_HIGH_OFFSET);
    Tests(p, d, 28, high);
    Answers(p, d, 32, high, ACTION_EPERM);
    Loads(p, d, 29, high, ARG0_LOW_OFFSET);
    Masks(p, d, 30, low, UNSAFE_CLONE_FLAGS);
    Tests(p, d, 31, low & UNSAFE_CLONE_FLAGS);
    Answers(p, d, 32, low & UNSAFE_CLONE_FLAGS, ACTION_EPERM);
    Answers(p, d, 34, low & UNSAFE_CLONE_FLAGS, RET_ALLOW);
  }

  /** A run of equality tests gives its verdict to exactly the calls it lists. */
  lemma {:induction false} ListedCalls(p: seq<Insn>, d: Data, calls: seq<word>, start: nat, target: nat, verdict: word, i: nat)
    requires HasTests(p, calls, start, target) && p[target] == Statement(RET_K, verdict) && i <= |calls|
    ensures Exec(p, d, start + i, d.nr) == if d.nr in calls[i..] then Some(verdict) else Exec(p, d, start + |calls|, d.nr)
    decreases |calls| - i
  {
    if i < |calls| {
      ListedCalls(p, d, calls, start, target, verdict, i + 1);
      assert calls[i..] == [calls[i]] + calls[i + 1..];
      Tests(p, d, start + i, d.nr);
      Answers(p, d, target, d.nr, verdict);
    }
  }

  /** The filter computes the policy, for every architecture, system call and flag word. */
  lemma FilterDecides(p: seq<Insn>, d: Data)
    requires IsPayloadFilter(p)
    ensures Exec(p, d, 0, 0) == Some(Decision(d))
  {
    Loads(p, d, 0, 0, ARCH_OFFSET);
    Tests(p, d, 1, d.arch);
    Answers(p, d, 2, d.arch, RET_KILL_PROCESS);
    Loads(p, d, 3, d.arch, NR_OFFSET);
    Tests(p, d, 4, d.nr);
    Answers(p, d, 5, d.nr, RET_KILL_PROCESS);
    NativeCall(p, d, Refused(d));
  }

  lemma NativeCall(p: seq<Insn>, d: Data, refused: bool)
    requires IsPayloadFilter(p) && refused == Refused(d)
    ensures Exec(p, d, 6, d.nr) == Some(if d.nr > MAX_KNOWN_SYSCALL || d.nr == NR_CLONE3 then ACTION_ENOSYS
                                        else if refused then ACTION_EPERM else RET_ALLOW)
  {
    Tests(p, d, 6, d.nr);
    Answers(p, d, 33, d.nr, ACTION_ENOSYS);
    Tests(p, d, 7, d.nr);
    KnownCall(p, d, refused);
  }

  lemma KnownCall(p: seq<Insn>, d: Data, refused: bool)
    requires IsPayloadFilter(p) && refused == Refused(d)
    ensures Exec(p, d, 8, d.nr) == Some(if refused then ACTION_EPERM else RET_ALLOW)
  {
    ListedCalls(p, d, FORBIDDEN, 8, EPERM_INDEX, ACTION_EPERM, 0);
    assert FORBIDDEN[0..] == FORBIDDEN;
    Tests(p, d, 25, d.nr);
    Answers(p, d, 26, d.nr, RET_ALLOW);
    CloneFlags(p, d);
  }

  /** Interpreting the filter yields the policy's verdict. */
  method RunPayloadFilter(d: Data) returns (r: Result<word, Fault>)
    ensures r == Ok(Decision(d))
  {
    PayloadFilterEntries();
    PayloadFilterIsWellFormed(PAYLOAD_FILTER);
    FilterDecides(PAYLOAD_FILTER, d);
    r := Interpret(PAYLOAD_FILTER, d);
  }
}
