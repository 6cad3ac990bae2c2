/**
 The process table of kernel/process.c as a state machine: system calls and user stores
 take one kernel state to the next.
 */
module Kernel {
  import opened Wrappers
  import opened Paging
  import opened VirtualMemory
  import opened Programs
  import opened Files
  import R = Ramdisk
  import D = Dirents

  const MAX_PROCESSES: nat := 16
  const MAX_FDS: nat := 16
  const BRK_LIMIT: nat := 0x1000_0000
  const ANY_PID: Word := 0xffff_ffff_ffff_ffff

  const ENOENT := 2
  const ENOEXEC := 8
  const EBADF := 9
  const ECHILD := 10
  const EAGAIN := 11
  const ENOMEM := 12
  const EFAULT := 14
  const EISDIR := 21
  const EINVAL := 22
  const EMFILE := 24

  /** The saved registers; those the kernel never looks at are `others`. */
  datatype Frame = Frame(rax: Word, rdi: Word, rsi: Word, rdx: Word, rip: Word, rsp: Word, others: seq<Word>)

  datatype FdKind = NoFd | Stdin | Stdout | Stderr | FileFd | DirFd
  datatype Fd = Fd(kind: FdKind, file: File, offset: Word)

  datatype Status = Unused | Running | Blocked | Zombie

  /** `parent` and `vforkParent` are slots of the table. */
  datatype Proc = Proc(
    pid: nat, ppid: nat, status: Status, cr3: nat, entry: nat, stack: nat, brk: nat, exitStatus: nat,
    parent: Option<nat>, vforkParent: Option<nat>, saved: Frame, fds: seq<Fd>)

  /** `cr3` is the register, `current` a slot; `halted` means that init has exited; `archive` is the ramdisk. */
  datatype Kernel = Kernel(mem: Mem, procs: seq<Proc>, current: nat, nextPid: nat, cr3: nat, halted: bool, archive: seq<Byte>)

  function EmptyFrame(): Frame { Frame(0, 0, 0, 0, 0, 0, []) }
  function EmptyFd(): Fd { Fd(NoFd, File([], [], false, false), 0) }
  function EmptyFds(): (s: seq<Fd>) { seq(MAX_FDS, _ => EmptyFd()) }

  /** A slot after memset. */
  function EmptyProc(): (p: Proc) {
    Proc(0, 0, Unused, 0, 0, 0, 0, 0, None, None, EmptyFrame(), EmptyFds())
  }

  function StandardFds(): (s: seq<Fd>) {
    EmptyFds()[0 := EmptyFd().(kind := Stdin)][1 := EmptyFd().(kind := Stdout)][2 := EmptyFd().(kind := Stderr)]
  }

  function NewProc(pid: nat): (p: Proc) {
    EmptyProc().(pid := pid, status := Running, fds := StandardFds())
  }

  function Errno(e: nat): (w: Word)
    requires 0 < e < 4096
  {
    WORD_LIMIT - e
  }

  function Returns(f: Frame, value: nat): (f': Frame) {
    f.(rax := value % WORD_LIMIT)
  }

  /** The first unused slot from i on, or |procs|. */
  function FirstUnused(procs: seq<Proc>, i: nat): (r: nat)
    requires i <= |procs|
    ensures i <= r <= |procs|
    ensures r < |procs| ==> procs[r].status == Unused
    decreases |procs| - i
  {
    if i == |procs| || procs[i].status == Unused then i else FirstUnused(procs, i + 1)
  }

  /** States the machine can be in: a table of slots and a current one. */
  predicate Shape(k: Kernel) {
    |k.procs| == MAX_PROCESSES && k.current < MAX_PROCESSES
  }

  function Current(k: Kernel): (p: Proc)
    requires Shape(k)
  {
    k.procs[k.current]
  }

  function SetCurrent(k: Kernel, p: Proc): (k': Kernel)
    requires Shape(k)
    ensures Shape(k')
  {
    k.(procs := k.procs[k.current := p])
  }

  // ----- vfork -----

  function VforkChild(k: Kernel, f: Frame, root: nat): (p: Proc)
    requires Shape(k)
  {
    NewProc(k.nextPid).(ppid := Current(k).pid, parent := Some(k.current), vforkParent := Some(k.current),
      cr3 := root, entry := Current(k).entry, stack := Current(k).stack, brk := Current(k).brk,
      saved := Returns(f, k.nextPid), fds := Current(k).fds)
  }

  /** A failed vfork has used up a pid and cleared the slot again. */
  function VforkFailed(k: Kernel, slot: nat, m: Mem): (k': Kernel)
    requires Shape(k) && slot < MAX_PROCESSES
    ensures Shape(k')
  {
    k.(mem := m, procs := k.procs[slot := EmptyProc()], nextPid := k.nextPid + 1)
  }

  function VforkDone(k: Kernel, slot: nat, m: Mem, child: Proc): (k': Kernel)
    requires Shape(k) && slot < MAX_PROCESSES
    ensures Shape(k')
  {
    Kernel(m, k.procs[slot := child][k.current := Current(k).(status := Blocked)], slot, k.nextPid + 1, child.cr3, false, k.archive)
  }

  function Vfork(k: Kernel, f: Frame): (r: (Kernel, Frame))
    requires Shape(k)
    ensures Shape(r.0)
  {
    var slot := FirstUnused(k.procs, 0);
    if slot == MAX_PROCESSES then (k, Returns(f, Errno(EAGAIN))) else
    var (m1, root) := CreateRoot(k.mem);
    if root == 0 then (VforkFailed(k, slot, m1), Returns(f, Errno(ENOMEM))) else
    var (m2, ok) := CloneUserSpace(m1, Current(k).cr3, root);
    if ok then (VforkDone(k, slot, m2, VforkChild(k, f, root)), Returns(f, 0))
    else (VforkFailed(k, slot, DestroyUserSpace(m2, root)), Returns(f, Errno(ENOMEM)))
  }

  // ----- execve -----

  function ExecDone(k: Kernel, m: Mem, l: Loaded): (k': Kernel)
    requires Shape(k)
    ensures Shape(k')
  {
    SetCurrent(k, Current(k).(cr3 := l.cr3, entry := l.entry, stack := l.stack, brk := l.brk))
      .(mem := DestroyUserSpace(m, Current(k).cr3), cr3 := l.cr3)
  }

  /** `call` is what was copied from user memory, None when that faulted. */
  function Execve(k: Kernel, f: Frame, call: Option<Invocation>): (r: (Kernel, Frame))
    requires Shape(k)
    ensures Shape(r.0)
  {
    if call.None? then (k, Returns(f, Errno(EFAULT))) else
    var (m1, l) := LoadProgram(k.mem, Resolve(k.archive, call.value));
    if l.None? then (k.(mem := m1), Returns(f, Errno(ENOEXEC)))
    else (ExecDone(k, m1, l.value),
          Returns(f, 0).(rip := l.value.entry % WORD_LIMIT, rsp := l.value.stack % WORD_LIMIT))
  }

  // ----- brk -----

  function Brk(k: Kernel, f: Frame, request: Word): (r: (Kernel, Frame))
    requires Shape(k)
    ensures Shape(r.0)
  {
    var p := Current(k);
    if request == 0 || request < p.brk || request >= BRK_LIMIT then (k, Returns(f, p.brk)) else
    var (m1, ok) := MapPages(k.mem, p.cr3, (p.brk + 4095) / 4096, (request + 4095) / 4096, 2);
    if ok then (SetCurrent(k, p.(brk := request)).(mem := m1), Returns(f, request))
    else (k.(mem := m1), Returns(f, p.brk))
  }

  // ----- exit and wait4 -----

  /** The record of a process that has exited. */
  function Dead(p: Proc, status: Word): (p': Proc) {
    p.(exitStatus := status % 256, status := Zombie)
  }

  function Resume(k: Kernel, v: nat, status: Word): (k': Kernel)
    requires Shape(k) && v < MAX_PROCESSES
    ensures Shape(k')
  {
    var procs := k.procs[k.current := Dead(Current(k), status)];
    Kernel(k.mem, procs[v := procs[v].(status := Running)], v, k.nextPid, procs[v].cr3, k.halted, k.archive)
  }

  /** The exit of init, which has no one to resume, halts the machine. */
  function Exit(k: Kernel, f: Frame, status: Word): (r: (Kernel, Frame))
    requires Shape(k)
    ensures Shape(r.0)
  {
    var v := Current(k).vforkParent;
    if v.Some? && v.value < MAX_PROCESSES then (Resume(k, v.value, status), Returns(Current(k).saved, Current(k).pid))
    else (SetCurrent(k, Dead(Current(k), status)).(halted := true), f)
  }

  predicate Reapable(p: Proc, current: nat, pid: Word) {
    p.status == Zombie && p.parent == Some(current) && (pid == ANY_PID || pid == p.pid)
  }

  /** The first slot from i on that this wait4 may reap, or |procs|. */
  function FirstReapable(procs: seq<Proc>, current: nat, pid: Word, i: nat): (r: nat)
    requires i <= |procs|
    ensures i <= r <= |procs|
    ensures r < |procs| ==> Reapable(procs[r], current, pid)
    ensures forall j :: i <= j < r ==> !Reapable(procs[j], current, pid)
    decreases |procs| - i
  {
    if i == |procs| || Reapable(procs[i], current, pid) then i else FirstReapable(procs, current, pid, i + 1)
  }

  /** The int exit_status << 8. */
  function StatusBytes(exitStatus: nat): (s: seq<Byte>)
    ensures |s| == 4
  {
    [0, exitStatus % 256, exitStatus / 256 % 256, exitStatus / 65536 % 256]
  }

  function Reaped(k: Kernel, i: nat, m: Mem): (k': Kernel)
    requires Shape(k) && i < MAX_PROCESSES
    ensures Shape(k')
  {
    k.(mem := DestroyUserSpace(m, k.procs[i].cr3), procs := k.procs[i := EmptyProc()])
  }

  function Wait4(k: Kernel, f: Frame, pid: Word, address: Word): (r: (Kernel, Frame))
    requires Shape(k)
    ensures Shape(r.0)
  {
    var i := FirstReapable(k.procs, k.current, pid, 0);
    if i == MAX_PROCESSES then (k, Returns(f, Errno(ECHILD)))
    else if address != 0 && !UserRange(address, 4) then (k, Returns(f, Errno(EFAULT)))
    else
      var m1 := if address == 0 then k.mem else StoreAll(k.mem, k.cr3, address, StatusBytes(k.procs[i].exitStatus));
      (Reaped(k, i, m1), Returns(f, k.procs[i].pid))
  }

  // ----- descriptors -----

  function FirstFreeFd(fds: seq<Fd>, i: nat): (r: nat)
    requires i <= |fds|
    ensures i <= r <= |fds|
    ensures r < |fds| ==> fds[r].kind == NoFd
    decreases |fds| - i
  {
    if i == |fds| || fds[i].kind == NoFd then i else FirstFreeFd(fds, i + 1)
  }

  function SetFd(k: Kernel, fd: nat, d: Fd): (k': Kernel)
    requires Shape(k) && fd < |Current(k).fds|
    ensures Shape(k')
  {
    SetCurrent(k, Current(k).(fds := Current(k).fds[fd := d]))
  }

  /** A fresh descriptor of a file. */
  function Opened(file: File): (d: Fd) { Fd(if file.directory then DirFd else FileFd, file, 0) }

  /** The path is None when copying it from user memory faulted. */
  function Open(k: Kernel, f: Frame, path: Option<CString>): (r: (Kernel, Frame))
    requires Shape(k)
    ensures Shape(r.0)
  {
    var fds := Current(k).fds;
    if |fds| < 3 || FirstFreeFd(fds, 3) == |fds| then (k, Returns(f, Errno(EMFILE))) else
    var fd := FirstFreeFd(fds, 3);
    if path.None? then (k, Returns(f, Errno(EFAULT))) else
    match FileAt(k.archive, path.value)
    case None => (k, Returns(f, Errno(ENOENT)))
    case Some(file) => (SetFd(k, fd, Opened(file)), Returns(f, fd))
  }

  function Close(k: Kernel, f: Frame, fd: Word): (r: (Kernel, Frame))
    requires Shape(k)
    ensures Shape(r.0)
  {
    var fds := Current(k).fds;
    if fd >= |fds| || fd <= 2 || fds[fd].kind == NoFd then (k, Returns(f, Errno(EBADF)))
    else (SetFd(k, fd, EmptyFd()), Returns(f, 0))
  }

  function Lseek(k: Kernel, f: Frame, fd: Word, offset: Word, whence: Word): (r: (Kernel, Frame))
    requires Shape(k)
    ensures Shape(r.0)
  {
    var fds := Current(k).fds;
    if fd >= |fds| || fds[fd].kind != FileFd then (k, Returns(f, Errno(EBADF)))
    else if whence > 2 then (k, Returns(f, Errno(EINVAL)))
    else
      var base := if whence == 0 then 0 else if whence == 1 then fds[fd].offset else |fds[fd].file.data|;
      var next := (base + offset) % WORD_LIMIT;
      (SetFd(k, fd, fds[fd].(offset := next)), Returns(f, next))
  }

  /** The keyboard delivers `keys`; a read from it blocks until they have all come. */
  function Read(k: Kernel, f: Frame, fd: Word, buffer: Word, count: Word, keys: seq<Byte>): (r: (Kernel, Frame))
    requires Shape(k)
    ensures Shape(r.0)
  {
    var fds := Current(k).fds;
    if !UserRange(buffer, count) then (k, Returns(f, Errno(EFAULT)))
    else if fd >= |fds| || fds[fd].kind == NoFd then (k, Returns(f, Errno(EBADF)))
    else if fds[fd].kind == Stdin then
      (if |keys| == count then k.(mem := StoreAll(k.mem, k.cr3, buffer, keys)) else k, Returns(f, count))
    else if fds[fd].kind != FileFd then (k, Returns(f, Errno(EISDIR)))
    else if fds[fd].offset >= |fds[fd].file.data| then (k, Returns(f, 0))
    else
      var n := Min(count, |fds[fd].file.data| - fds[fd].offset);
      var bytes := fds[fd].file.data[fds[fd].offset..fds[fd].offset + n];
      (SetFd(k, fd, fds[fd].(offset := (fds[fd].offset + n) % WORD_LIMIT))
         .(mem := StoreAll(k.mem, k.cr3, buffer, bytes)),
       Returns(f, n))
  }

  /** The listing of an open directory. */
  function ListingOf(a: seq<Byte>, d: Fd): (nodes: seq<R.Node>) {
    D.Listing(R.Walk(a, 0), d.file.path)
  }

  function HeldByte(m: Mem, root: nat, va: nat): (b: Byte) {
    if Load(m, root, va).Some? then Load(m, root, va).value else 0
  }

  /** What a range of memory holds, unmapped bytes as 0. */
  function Held(m: Mem, root: nat, va: nat, n: nat): (s: seq<Byte>)
    ensures |s| == n
  {
    seq<Byte>(n, i requires 0 <= i < n => HeldByte(m, root, va + i))
  }

  /** The next records of the listing are packed over what the buffer holds. */
  function Getdents(k: Kernel, f: Frame, fd: Word, buffer: Word, count: Word): (r: (Kernel, Frame))
    requires Shape(k)
    ensures Shape(r.0)
  {
    var fds := Current(k).fds;
    if fd >= |fds| || fds[fd].kind != DirFd then (k, Returns(f, Errno(EBADF)))
    else if !UserRange(buffer, count) then (k, Returns(f, Errno(EFAULT)))
    else
      var nodes := ListingOf(k.archive, fds[fd]);
      var bytes := D.Pack(nodes, fds[fd].offset, Held(k.mem, k.cr3, buffer, count));
      var entries := D.Fitting(nodes, fds[fd].offset, count);
      (SetFd(k, fd, fds[fd].(offset := (fds[fd].offset + entries) % WORD_LIMIT)).(mem := StoreAll(k.mem, k.cr3, buffer, bytes)),
       Returns(f, |bytes|))
  }

  // ----- steps and runs -----

  datatype Event =
    | UserStore(va: nat, b: Byte)
    | VforkCall(frame: Frame)
    | ExecveCall(frame: Frame, call: Option<Invocation>)
    | BrkCall(frame: Frame, request: Word)
    | ExitCall(frame: Frame, code: Word)
    | Wait4Call(frame: Frame, pid: Word, address: Word)
    | OpenCall(frame: Frame, path: Option<CString>)
    | CloseCall(frame: Frame, fd: Word)
    | LseekCall(frame: Frame, fd: Word, offset: Word, whence: Word)
    | ReadCall(frame: Frame, fd: Word, buffer: Word, count: Word, keys: seq<Byte>)
    | GetdentsCall(frame: Frame, fd: Word, buffer: Word, count: Word)

  /** One step, with the frame that user code resumes from. */
  function Next(k: Kernel, e: Event): (r: (Kernel, Frame))
    requires Shape(k)
    ensures Shape(r.0)
  {
    if k.halted then (k, EmptyFrame()) else
    match e
    case UserStore(va, b) =>
      (if Usable(k.mem, k.cr3, va) then k.(mem := Store(k.mem, k.cr3, va, b)) else k, EmptyFrame())
    case VforkCall(f) => Vfork(k, f)
    case ExecveCall(f, call) => Execve(k, f, call)
    case BrkCall(f, request) => Brk(k, f, request)
    case ExitCall(f, code) => Exit(k, f, code)
    case Wait4Call(f, pid, address) => Wait4(k, f, pid, address)
    case OpenCall(f, path) => Open(k, f, path)
    case CloseCall(f, fd) => Close(k, f, fd)
    case LseekCall(f, fd, offset, whence) => Lseek(k, f, fd, offset, whence)
    case ReadCall(f, fd, buffer, count, keys) => Read(k, f, fd, buffer, count, keys)
    case GetdentsCall(f, fd, buffer, count) => Getdents(k, f, fd, buffer, count)
  }

  function Run(k: Kernel, events: seq<Event>): (k': Kernel)
    requires Shape(k)
    ensures Shape(k')
    decreases |events|
  {
    if events == [] then k else Run(Next(k, events[0]).0, events[1..])
  }

  // ----- xbks_process_start_init -----

  /** The state in which init enters user mode, or None when it cannot be loaded. */
  function StartInit(m: Mem, a: seq<Byte>, call: Invocation): (r: Option<Kernel>)
    ensures r.Some? ==> Shape(r.value)
  {
    var (m1, l) := LoadProgram(m, Resolve(a, call));
    if l.None? then None
    else
      var init := NewProc(1).(cr3 := l.value.cr3, entry := l.value.entry, stack := l.value.stack, brk := l.value.brk);
      Some(Kernel(m1, seq(MAX_PROCESSES, _ => EmptyProc())[0 := init], 0, 2, l.value.cr3, false, a))
  }
}
