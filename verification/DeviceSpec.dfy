/**
  What the character device promises, on values: the device is the list of all commands ever stored
  and the bytes still waiting for a newline.  The ring is the last ten commands.
  The driver class refines these functions; what they guarantee is proved in WholeRun.dfy.
 */
module DeviceSpec {
  import opened Lines
  import opened Wrappers
  import opened FlatIndex
  import opened CircularBuffer

  const EFAULT := 14
  const ENOMEM := 12
  const EINVAL := 22
  const ENOTTY := 25
  const ERESTARTSYS := 512

  /** _IOWR(0x16, 1, struct aesd_seekto): two direction bits, the size 8, the magic and the number. */
  const IOCSEEKTO: nat := 0xC008_1601

  const SEEK_SET := 0
  const SEEK_CUR := 1
  const SEEK_END := 2

  datatype Device = Device(stored: seq<seq<byte>>, pending: seq<byte>)

  function Ring(d: Device): seq<seq<byte>> {
    LastN(CAPACITY, d.stored)
  }

  /** The ring read as one flat byte string. */
  function Content(d: Device): seq<byte> {
    Flatten(Ring(d))
  }

  /** Every byte the device has accepted: evicted, held in the ring, or pending. */
  function Stream(d: Device): seq<byte> {
    Flatten(d.stored) + d.pending
  }

  ghost predicate WellFormed(d: Device) {
    AllCommands(d.stored)
  }

  // ----- write -----

  /**
    What can go wrong in a write: the lock wait is interrupted, growing the pending block fails, the
    user copy faults, and, of the allocations for commands, the one after the first `mallocs` fails.
   */
  datatype WriteFaults = WriteFaults(interrupted: bool, growFails: bool, copyFails: bool, mallocs: nat)

  predicate Accepts(buf: seq<byte>, f: WriteFaults) {
    buf != [] && !f.interrupted && !f.growFails && !f.copyFails
  }

  /** All complete commands move from pending to the ring, as far as `mallocs` allocations go. */
  function Drain(d: Device, mallocs: nat): Device {
    var cs := Commands(d.pending);
    if |cs| <= mallocs then Device(d.stored + cs, Tail(d.pending))
    else Device(d.stored + cs[..mallocs], Flatten(cs[mallocs..]) + Tail(d.pending))
  }

  predicate Drains(d: Device, mallocs: nat) {
    |Commands(d.pending)| <= mallocs
  }

  function StoreSpec(d: Device, buf: seq<byte>, mallocs: nat): (Device, int) {
    var e := Device(d.stored, d.pending + buf);
    (Drain(e, mallocs), if Drains(e, mallocs) then |buf| else -ENOMEM)
  }

  function WriteSpec(d: Device, buf: seq<byte>, f: WriteFaults): (Device, int) {
    if buf == [] then (d, 0)
    else if f.interrupted then (d, -ERESTARTSYS)
    else if f.growFails then (d, -ENOMEM)
    else if f.copyFails then (d, -EFAULT)
    else StoreSpec(d, buf, f.mallocs)
  }

  /**
    Bytes the newline scans look at in all rounds together: every pending byte once, or, when memory
    runs out, those up to the end of the command that found none.
   */
  function ScanCost(d: Device, mallocs: nat): nat {
    if Drains(d, mallocs) then |d.pending| else |Flatten(Commands(d.pending)[..mallocs + 1])|
  }

  // ----- read -----

  /** The lock wait is interrupted, or, of the user copies, the one after the first `copies` faults. */
  datatype ReadFaults = ReadFaults(interrupted: bool, copies: nat)

  function ReadLength(d: Device, pos: nat, count: nat): nat {
    var total := |Content(d)|;
    if total <= pos then 0 else if count <= total - pos then count else total - pos
  }

  function RingSizes(d: Device): seq<nat> {
    Sizes(Ring(d))
  }

  /** How many ring entries the bytes [pos, pos + n) lie in. */
  function EntriesTouched(d: Device, pos: nat, n: nat): int {
    if n == 0 then 0
    else
      match (Locate(RingSizes(d), pos), Locate(RingSizes(d), pos + n - 1))
      case (Some(p), Some(q)) => q.index - p.index + 1
      case _ => 0
  }

  /** A call's return value and, for a successful read, the bytes handed to the user. */
  datatype Reply = Reply(ret: int, data: seq<byte>)

  function ReadSpec(d: Device, pos: nat, count: nat, f: ReadFaults): (nat, Reply) {
    var n := ReadLength(d, pos, count);
    if count == 0 then (pos, Reply(0, []))
    else if f.interrupted then (pos, Reply(-ERESTARTSYS, []))
    else if EntriesTouched(d, pos, n) > f.copies then (pos, Reply(-EFAULT, []))
    else (pos + n, Reply(n, if n == 0 then [] else Content(d)[pos..pos + n]))
  }

  // ----- seek -----

  datatype SeekTo = SeekTo(writeCmd: nat, writeCmdOffset: nat)

  /** The flat position of byte `writeCmdOffset` of command `writeCmd` of the ring. */
  function SeekPosition(d: Device, s: SeekTo): Option<nat> {
    if s.writeCmd < |Ring(d)| && s.writeCmdOffset < |Ring(d)[s.writeCmd]|
    then Some(|Flatten(Ring(d)[..s.writeCmd])| + s.writeCmdOffset)
    else None
  }

  /** `arg` is None when the argument cannot be copied from user space. */
  function IoctlSpec(d: Device, pos: nat, cmd: nat, arg: Option<SeekTo>, interrupted: bool): (nat, int) {
    if arg.None? then (pos, -EFAULT)
    else if interrupted then (pos, -ERESTARTSYS)
    else if cmd != IOCSEEKTO then (pos, -ENOTTY)
    else
      match SeekPosition(d, arg.value)
      case None => (pos, -EINVAL)
      case Some(p) => (p, 0)
  }

  function LlseekSpec(d: Device, pos: nat, offset: int, whence: int, interrupted: bool): (nat, int) {
    if interrupted then (pos, -ERESTARTSYS)
    else if !(SEEK_SET <= whence <= SEEK_END) then (pos, -EINVAL)
    else
      var base := if whence == SEEK_SET then 0 else if whence == SEEK_CUR then pos else |Content(d)|;
      if base + offset < 0 then (pos, -EINVAL) else (base + offset, base + offset)
  }

  // ----- runs of calls -----

  datatype Call =
    | Write(buf: seq<byte>, wf: WriteFaults)
    | Read(file: nat, count: nat, rf: ReadFaults)
    | Ioctl(file: nat, cmd: nat, arg: Option<SeekTo>, interrupted: bool)
    | Llseek(file: nat, offset: int, whence: int, interrupted: bool)

  /** The device and the position of every open file; a file never moved stands at 0. */
  datatype World = World(device: Device, pos: map<nat, nat>)

  const START := World(Device([], []), map[])

  function PosOf(w: World, file: nat): nat {
    if file in w.pos then w.pos[file] else 0
  }

  function SetPos(w: World, file: nat, p: nat): World {
    if p == PosOf(w, file) then w else w.(pos := w.pos[file := p])
  }

  function Apply(w: World, c: Call): (World, Reply) {
    match c
    case Write(buf, f) =>
      var (d, r) := WriteSpec(w.device, buf, f);
      (w.(device := d), Reply(r, []))
    case Read(file, count, f) =>
      var (p, reply) := ReadSpec(w.device, PosOf(w, file), count, f);
      (SetPos(w, file, p), reply)
    case Ioctl(file, cmd, arg, interrupted) =>
      var (p, r) := IoctlSpec(w.device, PosOf(w, file), cmd, arg, interrupted);
      (SetPos(w, file, p), Reply(r, []))
    case Llseek(file, offset, whence, interrupted) =>
      var (p, r) := LlseekSpec(w.device, PosOf(w, file), offset, whence, interrupted);
      (SetPos(w, file, p), Reply(r, []))
  }

  /** The world after a run of calls, one after the other. */
  function After(w: World, calls: seq<Call>): World {
    if calls == [] then w
    else Apply(After(w, calls[..|calls| - 1]), calls[|calls| - 1]).0
  }

  /** What each call of the run returns. */
  function Replies(w: World, calls: seq<Call>): (replies: seq<Reply>)
    ensures |replies| == |calls|
  {
    seq(|calls|, i requires 0 <= i < |calls| => Apply(After(w, calls[..i]), calls[i]).1)
  }
}
