/**
  The device object driven from outside: a run of calls from load to unload of the module, and the
  server's reply to a seek request.
 */
module DeviceRun {
  import opened Lines
  import opened Wrappers
  import opened KernelHeap
  import opened CircularBuffer
  import opened DeviceSpec
  import opened Seeking
  import opened WholeRun
  import opened CharDevice

  /** The calls name open files, and reads fit the user's buffer. */
  predicate Fits(c: Call, files: nat, space: nat) {
    match c
    case Write(_, _) => true
    case Read(file, count, _) => file < files && count <= space
    case Ioctl(file, _, _, _) => file < files
    case Llseek(file, _, _, _) => file < files
  }

  ghost predicate At(files: seq<OpenFile>, w: World)
    reads files
  {
    forall k :: 0 <= k < |files| ==> files[k].fPos == PosOf(w, k)
  }

  /** One call on the device does to it and to the files, and returns, what the reference says. */
  method Dispatch(dev: AesdDevice, files: seq<OpenFile>, user: array<byte>, c: Call, ghost w: World) returns (reply: Reply)
    requires dev.Valid() && !dev.lock.locked && dev.view == w.device && At(files, w)
    requires forall j, k :: 0 <= j < k < |files| ==> files[j] != files[k]
    requires Fits(c, |files|, user.Length)
    modifies dev, dev.heap, dev.buffer, dev.buffer.entry, dev.lock, files, user
    ensures dev.Valid() && !dev.lock.locked
    ensures (dev.view, reply) == (Apply(w, c).0.device, Apply(w, c).1) && At(files, Apply(w, c).0)
  {
    hide AesdDevice.Valid, WriteSpec, EntriesTouched, Content, SeekPosition, ReadLength;
    match c
    case Write(buf, f) =>
      var r, _ := dev.Write(buf, f);
      reply := Reply(r, []);
    case Read(file, count, f) =>
      var r := dev.Read(files[file], user, count, f);
      reply := Reply(r, if r > 0 then user[..r] else []);
    case Ioctl(file, cmd, arg, interrupted) =>
      var r := dev.Ioctl(files[file], cmd, arg, interrupted);
      reply := Reply(r, []);
    case Llseek(file, offset, whence, interrupted) =>
      var r := dev.Llseek(files[file], offset, whence, interrupted);
      reply := Reply(r, []);
  }

  /** Any run of calls, whatever fails in it, does and returns what the reference says. */
  method RunCalls(dev: AesdDevice, files: seq<OpenFile>, user: array<byte>, calls: seq<Call>, ghost w: World)
    returns (replies: seq<Reply>)
    requires dev.Valid() && !dev.lock.locked && dev.view == w.device && At(files, w)
    requires forall j, k :: 0 <= j < k < |files| ==> files[j] != files[k]
    requires forall i :: 0 <= i < |calls| ==> Fits(calls[i], |files|, user.Length)
    modifies dev, dev.heap, dev.buffer, dev.buffer.entry, dev.lock, files, user
    ensures dev.Valid() && !dev.lock.locked
    ensures dev.view == After(w, calls).device && At(files, After(w, calls))
    ensures replies == Replies(w, calls)
  {
    hide WellFormed, SlotsHold, PendingHolds, Owns, LiveSlots, Apply, Fits, At, Replies, After;
    NoCalls(w);
    replies := [];
    assert calls[..0] == [];
    var i := 0;
    while i < |calls|
      invariant i <= |calls| && |replies| == i
      invariant forall k :: 0 <= k < i ==> replies[k] == Replies(w, calls)[k]
      invariant dev.Valid() && !dev.lock.locked
      invariant dev.view == After(w, calls[..i]).device && At(files, After(w, calls[..i]))
    {
      RunNext(w, calls, i);
      var reply := Dispatch(dev, files, user, calls[i], After(w, calls[..i]));
      replies := replies + [reply];
      i := i + 1;
    }
    assert calls[..i] == calls;
  }

  lemma NoCalls(w: World)
    ensures After(w, []) == w
  {
  }

  /** From load to unload of the module: after the cleanup nothing is left allocated. */
  method Lifetime(files: seq<OpenFile>, user: array<byte>, calls: seq<Call>) returns (replies: seq<Reply>, dev: AesdDevice)
    requires forall j, k :: 0 <= j < k < |files| ==> files[j] != files[k]
    requires forall k :: 0 <= k < |files| ==> files[k].fPos == 0
    requires forall i :: 0 <= i < |calls| ==> Fits(calls[i], |files|, user.Length)
    modifies files, user
    ensures replies == Replies(START, calls) && At(files, After(START, calls))
    ensures dev.heap.mem == map[] && dev.pending == NULL
  {
    hide WellFormed, SlotsHold, PendingHolds, Owns, LiveSlots, Fits, Replies, After;
    dev := new AesdDevice();
    replies := RunCalls(dev, files, user, calls, START);
    dev.Cleanup();
  }

  /** Reads with the whole of `buffer` until a read returns 0, and hands on what came. */
  method ReadToEnd(dev: AesdDevice, file: OpenFile, buffer: array<byte>) returns (sent: seq<byte>)
    requires dev.Valid() && !dev.lock.locked && buffer.Length > 0
    modifies file, buffer, dev.lock
    ensures dev.Valid() && !dev.lock.locked
    ensures sent == ReadAll(dev.view, old(file.fPos), buffer.Length)
  {
    hide SlotsHold, PendingHolds, Owns, LiveSlots, WellFormed, EntriesTouched, Content;
    sent := [];
    while true
      invariant dev.Valid() && !dev.lock.locked
      invariant sent + ReadAll(dev.view, file.fPos, buffer.Length) == ReadAll(dev.view, old(file.fPos), buffer.Length)
      decreases |Content(dev.view)| - file.fPos
    {
      TouchedAtMostAll(dev.view, file.fPos, buffer.Length);
      ghost var before := file.fPos;
      var n := dev.Read(file, buffer, buffer.Length, ReadFaults(false, CAPACITY));
      if n <= 0 {
        return;
      }
      ConcatAssoc(sent, buffer[..n], ReadAll(dev.view, file.fPos, buffer.Length));
      sent := sent + buffer[..n];
    }
  }

  /** The seek branch of client_thread: a file of its own, the ioctl, and all that reads then give. */
  method SeekReply(dev: AesdDevice, request: SeekTo, buffer: array<byte>) returns (accepted: bool, sent: seq<byte>)
    requires dev.Valid() && !dev.lock.locked && buffer.Length > 0
    modifies buffer, dev.lock
    ensures dev.Valid() && !dev.lock.locked
    ensures accepted <==> request.writeCmd < |Ring(dev.view)| && request.writeCmdOffset < |Ring(dev.view)[request.writeCmd]|
    ensures accepted ==>
              sent == Ring(dev.view)[request.writeCmd][request.writeCmdOffset..]
                      + Flatten(Ring(dev.view)[request.writeCmd + 1..])
    ensures !accepted ==> sent == []
  {
    hide SlotsHold, PendingHolds, Owns, LiveSlots, Content, ReadAll, Ring, Flatten;
    var file := new OpenFile();
    var r := dev.Ioctl(file, IOCSEEKTO, Some(request), false);
    if r < 0 {
      return false, [];
    }
    SeekToThenReadAll(dev.view, request, 0, buffer.Length);
    sent := ReadToEnd(dev, file, buffer);
    accepted := true;
  }
}
