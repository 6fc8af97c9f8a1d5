/**
  Any number of threads call the driver at once.  A call takes the lock, works in as many steps as its
  loops have rounds, with steps of other threads in between, and releases the lock.  Every such
  execution is one where the calls happen whole, one after the other, in the order they got the lock.
 */
module Interleaving {
  import opened Lines
  import opened Wrappers
  import opened FlatIndex
  import opened DeviceSpec
  import opened Draining
  import opened Seeking
  import opened WholeRun

  // ----- the work of one call under the lock -----

  datatype Body =
    | Growing(buf: seq<byte>, wf: WriteFaults)
    | Appending(buf: seq<byte>, wf: WriteFaults)
    | Cutting(accepted: nat, mallocs: nat)
    | Copying(file: nat, count: nat, data: seq<byte>, copies: nat, allowed: nat)
    | Adding(file: nat, seekTo: SeekTo, i: nat, position: nat)
    | Totalling(file: nat, offset: int, i: nat, total: nat)
    | Moving(file: nat, target: int)
    | Finished(reply: Reply)

  /** The calls that return without ever holding the lock. */
  predicate NeverLocks(c: Call) {
    match c
    case Write(buf, f) => buf == [] || f.interrupted
    case Read(_, count, f) => count == 0 || f.interrupted
    case Ioctl(_, _, arg, interrupted) => arg.None? || interrupted
    case Llseek(_, _, _, interrupted) => interrupted
  }

  /** What they return. */
  function EarlyReturn(c: Call): Reply
    requires NeverLocks(c)
  {
    match c
    case Write(buf, f) => Reply(if buf == [] then 0 else -ERESTARTSYS, [])
    case Read(_, count, f) => Reply(if count == 0 then 0 else -ERESTARTSYS, [])
    case Ioctl(_, _, arg, _) => Reply(if arg.None? then -EFAULT else -ERESTARTSYS, [])
    case Llseek(_, _, _, _) => Reply(-ERESTARTSYS, [])
  }

  /** A call that has just got the lock. */
  function Enter(c: Call, w: World): Body
    requires !NeverLocks(c)
  {
    match c
    case Write(buf, f) => Growing(buf, f)
    case Read(file, count, f) => Copying(file, count, [], 0, f.copies)
    case Ioctl(file, cmd, arg, _) =>
      if cmd != IOCSEEKTO then Finished(Reply(-ENOTTY, []))
      else if arg.value.writeCmd >= |Ring(w.device)| then Finished(Reply(-EINVAL, []))
      else Adding(file, arg.value, 0, 0)
    case Llseek(file, offset, whence, _) =>
      if whence == SEEK_SET then Moving(file, offset)
      else if whence == SEEK_CUR then Moving(file, PosOf(w, file) + offset)
      else if whence == SEEK_END then Totalling(file, offset, 0, 0)
      else Finished(Reply(-EINVAL, []))
  }

  /** What holds of the body of a call between two of its steps. */
  ghost predicate Sane(b: Body, w: World) {
    && WellFormed(w.device)
    && match b
       case Growing(buf, f) => buf != []
       case Appending(buf, f) => buf != []
       case Copying(file, count, data, copies, allowed) =>
         && count > 0
         && ReadSoFar(w.device, PosOf(w, file), count, |data|, copies) && copies <= allowed
         && (data == [] || data == Content(w.device)[PosOf(w, file)..PosOf(w, file) + |data|])
       case Adding(file, s, i, position) =>
         && i <= s.writeCmd < |Ring(w.device)|
         && position == |Flatten(Ring(w.device)[..i])|
       case Totalling(file, offset, i, total) =>
         i <= |Ring(w.device)| && total == |Flatten(Ring(w.device)[..i])|
       case _ => true
  }

  /** One step: a kernel call or one round of a loop. */
  ghost function Step(b: Body, w: World): (Body, World)
    requires Sane(b, w) && !b.Finished?
  {
    var d := w.device;
    match b
    case Growing(buf, f) =>
      (if f.growFails then Finished(Reply(-ENOMEM, [])) else Appending(buf, f), w)
    case Appending(buf, f) =>
      if f.copyFails then (Finished(Reply(-EFAULT, [])), w)
      else (Cutting(|buf|, f.mallocs), w.(device := d.(pending := d.pending + buf)))
    case Cutting(accepted, mallocs) =>
      if FirstNewline(d.pending) == |d.pending| then (Finished(Reply(accepted, [])), w)
      else if mallocs == 0 then (Finished(Reply(-ENOMEM, [])), w)
      else (Cutting(accepted, mallocs - 1), w.(device := OneTaken(d)))
    case Copying(_, _, _, _, _) => CopyStep(b, w)
    case Adding(file, s, i, position) =>
      if i < s.writeCmd then (b.(i := i + 1, position := position + |Ring(d)[i]|), w)
      else if s.writeCmdOffset >= |Ring(d)[s.writeCmd]| then (Finished(Reply(-EINVAL, [])), w)
      else (Finished(Reply(0, [])), SetPos(w, file, position + s.writeCmdOffset))
    case Totalling(file, offset, i, total) =>
      if i < |Ring(d)| then (b.(i := i + 1, total := total + |Ring(d)[i]|), w)
      else (Moving(file, total + offset), w)
    case Moving(file, target) =>
      if target < 0 then (Finished(Reply(-EINVAL, [])), w)
      else (Finished(Reply(target, [])), SetPos(w, file, target))
  }

  /** One round of the read loop, or its end. */
  ghost function CopyStep(b: Body, w: World): (Body, World)
    requires b.Copying? && Sane(b, w)
  {
    var d, pos := w.device, PosOf(w, b.file);
    SearchIsExact(d, pos + |b.data|);
    if |b.data| == b.count then (Finished(Reply(|b.data|, b.data)), SetPos(w, b.file, pos + |b.data|))
    else
      match Locate(RingSizes(d), pos + |b.data|)
      case None => (Finished(Reply(|b.data|, b.data)), SetPos(w, b.file, pos + |b.data|))
      case Some(p) =>
        if b.copies == b.allowed then (Finished(Reply(-EFAULT, [])), w)
        else
          var n := CopySize(d, b.count - |b.data|, p);
          (b.(data := b.data + Ring(d)[p.index][p.offset..p.offset + n], copies := b.copies + 1), w)
  }

  /** What a call under the lock will have done and returned once it has run to its end undisturbed. */
  ghost function Outcome(b: Body, w: World): (World, Reply) {
    var d := w.device;
    match b
    case Growing(buf, f) => Apply(w, Write(buf, f.(interrupted := false)))
    case Appending(buf, f) => Apply(w, Write(buf, f.(interrupted := false, growFails := false)))
    case Cutting(accepted, mallocs) =>
      (w.(device := Drain(d, mallocs)), Reply(if Drains(d, mallocs) then accepted else -ENOMEM, []))
    case Copying(file, count, _, _, allowed) => Apply(w, Read(file, count, ReadFaults(false, allowed)))
    case Adding(file, s, _, _) => Apply(w, Ioctl(file, IOCSEEKTO, Some(s), false))
    case Totalling(file, offset, _, _) => Apply(w, Llseek(file, offset, SEEK_END, false))
    case Moving(file, target) => Apply(w, Llseek(file, target, SEEK_SET, false))
    case Finished(reply) => (w, reply)
  }

  /** How many steps are left, at most. */
  ghost function StepsLeft(b: Body, w: World): nat {
    match b
    case Growing(buf, f) => |w.device.pending| + |buf| + 3
    case Appending(buf, f) => |w.device.pending| + |buf| + 2
    case Cutting(_, _) => |w.device.pending| + 1
    case Copying(_, count, data, _, _) => if |data| <= count then count - |data| + 1 else 1
    case Adding(_, s, i, _) => if i <= s.writeCmd then s.writeCmd - i + 1 else 1
    case Totalling(_, _, i, _) => if i <= |Ring(w.device)| then |Ring(w.device)| - i + 2 else 2
    case Moving(_, _) => 1
    case Finished(_) => 0
  }

  lemma EnterIsSane(c: Call, w: World)
    requires WellFormed(w.device) && !NeverLocks(c)
    ensures Sane(Enter(c, w), w)
    ensures Outcome(Enter(c, w), w) == Apply(w, c)
  {
    if c.Read? {
      ReadStarts(w.device, PosOf(w, c.file), c.count);
    }
  }

  /** Each step brings the call nearer its end and leaves its outcome as it was. */
  lemma StepKeepsOutcome(b: Body, w: World)
    requires Sane(b, w) && !b.Finished?
    ensures var (b', w') := Step(b, w);
            Sane(b', w') && Outcome(b', w') == Outcome(b, w) && StepsLeft(b', w') < StepsLeft(b, w)
  {
    match b {
      case Cutting(accepted, mallocs) => CutKeepsOutcome(b, w);
      case Copying(_, _, _, _, _) => CopyKeepsOutcome(b, w);
      case Adding(_, _, _, _) => AddKeepsOutcome(b, w);
      case Totalling(_, _, _, _) => TotalKeepsOutcome(b, w);
      case _ =>
    }
  }

  lemma CutKeepsOutcome(b: Body, w: World)
    requires Sane(b, w) && b.Cutting?
    ensures var (b', w') := Step(b, w);
            Sane(b', w') && Outcome(b', w') == Outcome(b, w) && StepsLeft(b', w') < StepsLeft(b, w)
  {
    var d := w.device;
    if FirstNewline(d.pending) == |d.pending| {
      DrainNothing(d, b.mallocs);
    } else {
      Round(d, b.mallocs);
      AllCommandsAppend(d.stored, [d.pending[..FirstNewline(d.pending) + 1]]);
    }
  }

  lemma CopyKeepsOutcome(b: Body, w: World)
    requires Sane(b, w) && b.Copying?
    ensures var (b', w') := Step(b, w);
            Sane(b', w') && Outcome(b', w') == Outcome(b, w) && StepsLeft(b', w') < StepsLeft(b, w)
  {
    hide Apply, Ring, Content, RingSizes, WellFormed, IsPlace, AtEntryEnd;
    var off := PosOf(w, b.file) + |b.data|;
    SearchIsExact(w.device, off);
    if |b.data| == b.count || Locate(RingSizes(w.device), off).None? {
      CopyEnds(b, w);
    } else if b.copies == b.allowed {
      CopyFaults(b, w);
    } else {
      CopyContinues(b, w);
    }
  }

  lemma CopyEnds(b: Body, w: World)
    requires Sane(b, w) && b.Copying?
    requires |b.data| == b.count || |Content(w.device)| <= PosOf(w, b.file) + |b.data|
    ensures Outcome(b, w) == (SetPos(w, b.file, PosOf(w, b.file) + |b.data|), Reply(|b.data|, b.data))
  {
    hide Ring, Content, Locate, ReadSoFar, WellFormed, EntriesTouched, ReadLength;
    ReadEnds(w.device, PosOf(w, b.file), b.count, |b.data|, b.copies);
  }

  lemma CopyFaults(b: Body, w: World)
    requires Sane(b, w) && b.Copying? && |b.data| < b.count && b.copies == b.allowed
    requires Locate(RingSizes(w.device), PosOf(w, b.file) + |b.data|).Some?
    ensures Outcome(b, w) == (w, Reply(-EFAULT, []))
  {
    hide Ring, Content, Locate, ReadSoFar, WellFormed, EntriesTouched, ReadLength;
    var d, pos := w.device, PosOf(w, b.file);
    ReadContinues(d, pos, b.count, |b.data|, b.copies, Locate(RingSizes(d), pos + |b.data|).value);
  }

  lemma CopyContinues(b: Body, w: World)
    requires Sane(b, w) && b.Copying? && |b.data| < b.count && b.copies < b.allowed
    requires Locate(RingSizes(w.device), PosOf(w, b.file) + |b.data|).Some?
    ensures var (b', w') := CopyStep(b, w);
            Sane(b', w') && Outcome(b', w') == Outcome(b, w) && StepsLeft(b', w') < StepsLeft(b, w)
  {
    hide Apply, Ring, Content, Locate, ReadSoFar, WellFormed, EntriesTouched, RingSizes, CopySize;
    var d, pos := w.device, PosOf(w, b.file);
    var p := Locate(RingSizes(d), pos + |b.data|).value;
    ReadContinues(d, pos, b.count, |b.data|, b.copies, p);
    CopyIsSlice(d, pos + |b.data|, b.count - |b.data|, p);
    SliceNext(Content(d), pos, |b.data|, CopySize(d, b.count - |b.data|, p));
  }

  lemma AddKeepsOutcome(b: Body, w: World)
    requires Sane(b, w) && b.Adding?
    ensures var (b', w') := Step(b, w);
            Sane(b', w') && Outcome(b', w') == Outcome(b, w) && StepsLeft(b', w') < StepsLeft(b, w)
  {
    hide Ring, Flatten, WellFormed;
    if b.i < b.seekTo.writeCmd {
      NextPrefix(Ring(w.device), b.i);
    }
  }

  lemma TotalKeepsOutcome(b: Body, w: World)
    requires Sane(b, w) && b.Totalling?
    ensures var (b', w') := Step(b, w);
            Sane(b', w') && Outcome(b', w') == Outcome(b, w) && StepsLeft(b', w') < StepsLeft(b, w)
  {
    var ring := Ring(w.device);
    if b.i < |ring| {
      NextPrefix(ring, b.i);
    } else {
      assert ring[..b.i] == ring;
    }
  }

  lemma NextPrefix(cs: seq<seq<byte>>, n: nat)
    requires n < |cs|
    ensures |Flatten(cs[..n + 1])| == |Flatten(cs[..n])| + |cs[n]|
  {
    assert cs[..n + 1] == cs[..n] + [cs[n]];
    FlattenAppend(cs[..n], [cs[n]]);
    FlattenOne(cs[n]);
  }
}
