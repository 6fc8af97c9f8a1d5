/**
  The server's threads and the file they share, for the build on a regular file and input and output
  that succeed.  A client thread appends what it received in one critical section and sends the whole
  file back in another; the timestamp thread only appends.  The file is written and read in pieces.
 */
module SharedLog {
  import opened Lines

  /** The most a receive takes, one byte of the buffer being kept for the terminator. */
  const RECV_MAX := 1023

  /** The most one read of the echo loop takes. */
  const READ_MAX := 1024

  /** What fputs writes of a buffer: everything before the first NUL. */
  function UpToNul(s: seq<byte>): (r: seq<byte>)
    ensures r <= s && forall i :: 0 <= i < |r| ==> r[i] != 0
    ensures |r| < |s| ==> s[|r|] == 0
  {
    if s == [] || s[0] == 0 then [] else [s[0]] + UpToNul(s[1..])
  }

  function Ascii(s: string): seq<byte>
    requires forall i :: 0 <= i < |s| ==> s[i] < 128 as char
  {
    seq(|s|, i requires 0 <= i < |s| => s[i] as int as byte)
  }

  /** What starts a seek request.  On a regular file its ioctl fails, and nothing is appended or sent. */
  predicate IsSeekRequest(data: seq<byte>) {
    Ascii("AESDCHAR_IOCSEEKTO:") <= data
  }

  datatype Thread =
    | Idle
    | Ready(text: seq<byte>, echo: bool)
    | Putting(text: seq<byte>, echo: bool, done: nat)
    | Between(ticket: nat)
    | Sending(ticket: nat, sent: seq<byte>)

  datatype Lock = Free | HeldBy(tid: nat)

  /** A text, whose it is, and whether it is a client's, who gets the file back. */
  datatype Chunk = Chunk(owner: nat, text: seq<byte>, echo: bool)

  /** A finished echo: which chunk it answers, how many chunks it shows, and what was sent. */
  datatype Echo = Echo(ticket: nat, seen: nat, sent: seq<byte>)

  /** `chunks` lists what was appended, in the order of the critical sections; `echoes` what was sent back. */
  datatype System = System(file: seq<byte>, lock: Lock, threads: map<nat, Thread>, chunks: seq<Chunk>, echoes: seq<Echo>)

  const INITIAL := System([], Free, map[], [], [])

  function ThreadOf(s: System, t: nat): Thread {
    if t in s.threads then s.threads[t] else Idle
  }

  function Texts(chunks: seq<Chunk>): seq<seq<byte>> {
    seq(|chunks|, i requires 0 <= i < |chunks| => chunks[i].text)
  }

  datatype Action =
    | Receive(tid: nat, data: seq<byte>)
    | Request(tid: nat, data: seq<byte>)
    | Tick(tid: nat, stamp: seq<byte>)
    | LockToPut(tid: nat)
    | PutSome(tid: nat, n: nat)
    | PutDone(tid: nat)
    | LockToSend(tid: nat)
    | SendSome(tid: nat)
    | SendDone(tid: nat)

  ghost predicate Enabled(s: System, a: Action) {
    match a
    case Receive(t, data) => ThreadOf(s, t) == Idle && 0 < |data| <= RECV_MAX && !IsSeekRequest(data)
    case Request(t, data) => ThreadOf(s, t) == Idle && 0 < |data| <= RECV_MAX && IsSeekRequest(data)
    case Tick(t, stamp) => ThreadOf(s, t) == Idle
    case LockToPut(t) => ThreadOf(s, t).Ready? && s.lock == Free
    case PutSome(t, n) => ThreadOf(s, t).Putting? && 0 < n <= |ThreadOf(s, t).text| - ThreadOf(s, t).done
    case PutDone(t) => ThreadOf(s, t).Putting? && ThreadOf(s, t).done == |ThreadOf(s, t).text|
    case LockToSend(t) => ThreadOf(s, t).Between? && s.lock == Free
    case SendSome(t) => ThreadOf(s, t).Sending? && |ThreadOf(s, t).sent| < |s.file|
    case SendDone(t) => ThreadOf(s, t).Sending? && |ThreadOf(s, t).sent| >= |s.file|
  }

  function Min(a: int, b: int): int {
    if a < b then a else b
  }

  ghost function Perform(s: System, a: Action): System
    requires Enabled(s, a)
  {
    var t := a.tid;
    var th := ThreadOf(s, t);
    match a
    case Receive(_, data) => s.(threads := s.threads[t := Ready(UpToNul(data), true)])
    case Request(_, _) => s
    case Tick(_, stamp) => s.(threads := s.threads[t := Ready(UpToNul(stamp), false)])
    case LockToPut(_) => s.(lock := HeldBy(t), threads := s.threads[t := Putting(th.text, th.echo, 0)])
    case PutSome(_, n) =>
      s.(file := s.file + th.text[th.done..th.done + n], threads := s.threads[t := th.(done := th.done + n)])
    case PutDone(_) =>
      s.(lock := Free, chunks := s.chunks + [Chunk(t, th.text, th.echo)],
         threads := s.threads[t := if th.echo then Between(|s.chunks|) else Idle])
    case LockToSend(_) => s.(lock := HeldBy(t), threads := s.threads[t := Sending(th.ticket, [])])
    case SendSome(_) =>
      var n := Min(READ_MAX, |s.file| - |th.sent|);
      s.(threads := s.threads[t := th.(sent := th.sent + s.file[|th.sent|..|th.sent| + n])])
    case SendDone(_) =>
      s.(lock := Free, threads := s.threads[t := Idle],
         echoes := s.echoes + [Echo(th.ticket, |s.chunks|, th.sent)])
  }

  ghost predicate Execution(run: seq<System>, actions: seq<Action>) {
    && |run| == |actions| + 1
    && run[0] == INITIAL
    && forall i :: 0 <= i < |actions| ==> Enabled(run[i], actions[i]) && run[i + 1] == Perform(run[i], actions[i])
  }

  // ----- the invariant -----

  /** Exactly the thread that works in a critical section has the lock. */
  ghost predicate LockKept(s: System) {
    && (forall t :: t in s.threads && (s.threads[t].Putting? || s.threads[t].Sending?) ==> s.lock == HeldBy(t))
    && (s.lock.HeldBy? ==>
          s.lock.tid in s.threads && (s.threads[s.lock.tid].Putting? || s.threads[s.lock.tid].Sending?))
  }

  /** What the lock's holder has put so far of a text not yet on the list. */
  ghost function Partial(s: System): seq<byte> {
    if s.lock.HeldBy? then
      match ThreadOf(s, s.lock.tid)
      case Putting(text, _, done) => if done <= |text| then text[..done] else text
      case _ => []
    else []
  }

  ghost predicate FileKept(s: System) {
    s.file == Flatten(Texts(s.chunks)) + Partial(s)
  }

  /** A thread that is to send, or sends, answers a client's chunk of its own. */
  ghost predicate ThreadKept(s: System, t: nat, th: Thread) {
    match th
    case Putting(text, _, done) => done <= |text|
    case Between(k) => k < |s.chunks| && s.chunks[k].owner == t && s.chunks[k].echo
    case Sending(k, sent) => k < |s.chunks| && s.chunks[k].owner == t && s.chunks[k].echo && sent <= s.file
    case _ => true
  }

  ghost predicate ThreadsKept(s: System) {
    forall t :: t in s.threads ==> ThreadKept(s, t, s.threads[t])
  }

  /** An echo shows whole chunks only, from the first on, and the one it answers among them. */
  ghost predicate EchoKept(s: System, e: Echo) {
    e.ticket < e.seen <= |s.chunks| && e.sent == Flatten(Texts(s.chunks[..e.seen]))
  }

  ghost predicate EchoesKept(s: System) {
    forall i :: 0 <= i < |s.echoes| ==> EchoKept(s, s.echoes[i])
  }

  ghost predicate Good(s: System) {
    LockKept(s) && FileKept(s) && ThreadsKept(s) && EchoesKept(s)
  }

  lemma ActionKeeps(s: System, a: Action)
    requires Good(s) && Enabled(s, a)
    ensures Good(Perform(s, a))
  {
    match a {
      case Receive(_, _) => OutsideKeeps(s, a);
      case Request(_, _) =>
      case Tick(_, _) => OutsideKeeps(s, a);
      case LockToPut(_) => EnterKeeps(s, a);
      case LockToSend(_) => EnterKeeps(s, a);
      case PutSome(_, _) => PutKeeps(s, a);
      case PutDone(_) => PutDoneKeeps(s, a);
      case SendSome(_) => SendKeeps(s, a);
      case SendDone(_) => SendDoneKeeps(s, a);
    }
  }

  lemma OutsideKeeps(s: System, a: Action)
    requires Good(s) && Enabled(s, a) && (a.Receive? || a.Tick?)
    ensures Good(Perform(s, a))
  {
    hide Flatten, UpToNul, Ascii;
    assert Partial(Perform(s, a)) == Partial(s);
  }

  lemma EnterKeeps(s: System, a: Action)
    requires Good(s) && Enabled(s, a) && (a.LockToPut? || a.LockToSend?)
    ensures Good(Perform(s, a))
  {
    hide Flatten, Ascii;
    assert Partial(Perform(s, a)) == [];
  }

  lemma PutKeeps(s: System, a: Action)
    requires Good(s) && Enabled(s, a) && a.PutSome?
    ensures Good(Perform(s, a))
  {
    hide Flatten, Ascii;
    var th, whole := ThreadOf(s, a.tid), Flatten(Texts(s.chunks));
    var piece := th.text[th.done..th.done + a.n];
    assert s.lock == HeldBy(a.tid) && Partial(s) == th.text[..th.done];
    assert th.text[..th.done + a.n] == th.text[..th.done] + piece;
    ConcatAssoc(whole, th.text[..th.done], piece);
  }

  lemma PutDoneKeeps(s: System, a: Action)
    requires Good(s) && Enabled(s, a) && a.PutDone?
    ensures Good(Perform(s, a))
  {
    hide Flatten, Ascii;
    var text, after := ThreadOf(s, a.tid).text, Perform(s, a);
    assert Texts(after.chunks) == Texts(s.chunks) + [text];
    FlattenAppend(Texts(s.chunks), [text]);
    FlattenOne(text);
    assert text[..|text|] == text;
    assert forall n :: 0 <= n <= |s.chunks| ==> after.chunks[..n] == s.chunks[..n];
  }

  lemma SendKeeps(s: System, a: Action)
    requires Good(s) && Enabled(s, a) && a.SendSome?
    ensures Good(Perform(s, a))
  {
    hide Flatten, Ascii;
    assert Partial(s) == [] && Partial(Perform(s, a)) == [];
  }

  lemma SendDoneKeeps(s: System, a: Action)
    requires Good(s) && Enabled(s, a) && a.SendDone?
    ensures Good(Perform(s, a))
  {
    hide Flatten, Ascii;
    assert s.chunks[..|s.chunks|] == s.chunks;
    assert Partial(s) == [];
  }

  lemma {:induction false} AlwaysGood(run: seq<System>, actions: seq<Action>)
    requires Execution(run, actions)
    ensures forall i :: 0 <= i < |run| ==> Good(run[i])
  {
    hide Enabled, Good;
    if actions == [] {
      InitiallyGood();
    } else {
      var n := |actions| - 1;
      AlwaysGood(run[..n + 1], actions[..n]);
      assert run[n] == run[..n + 1][n];
      ActionKeeps(run[n], actions[n]);
      assert forall i :: 0 <= i < n + 1 ==> run[i] == run[..n + 1][i];
    }
  }

  lemma InitiallyGood()
    ensures Good(INITIAL)
  {
  }

  // ----- what was received is what is appended -----

  /** The chunks that `actions` give to thread `t`: up to their first NUL, a client's or a stamp. */
  ghost function Given(actions: seq<Action>, t: nat): seq<Chunk> {
    if actions == [] then []
    else
      var n := |actions| - 1;
      Given(actions[..n], t) + (if actions[n].tid == t then GivenBy(actions[n]) else [])
  }

  ghost function GivenBy(a: Action): seq<Chunk> {
    match a
    case Receive(t, data) => [Chunk(t, UpToNul(data), true)]
    case Tick(t, stamp) => [Chunk(t, UpToNul(stamp), false)]
    case _ => []
  }

  ghost function OwnedBy(chunks: seq<Chunk>, t: nat): seq<Chunk> {
    if chunks == [] then []
    else
      var n := |chunks| - 1;
      OwnedBy(chunks[..n], t) + (if chunks[n].owner == t then [chunks[n]] else [])
  }

  /** The chunk a thread has and has not yet appended. */
  ghost function InHand(s: System, t: nat): seq<Chunk> {
    match ThreadOf(s, t)
    case Ready(text, echo) => [Chunk(t, text, echo)]
    case Putting(text, echo, _) => [Chunk(t, text, echo)]
    case _ => []
  }

  lemma OwnedNext(chunks: seq<Chunk>, c: Chunk, t: nat)
    ensures OwnedBy(chunks + [c], t) == OwnedBy(chunks, t) + (if c.owner == t then [c] else [])
  {
    assert (chunks + [c])[..|chunks|] == chunks;
  }

  lemma ActionKeepsOrder(s: System, a: Action, t: nat, given: seq<Chunk>)
    requires Enabled(s, a) && OwnedBy(s.chunks, t) + InHand(s, t) == given
    ensures OwnedBy(Perform(s, a).chunks, t) + InHand(Perform(s, a), t)
            == given + (if a.tid == t then GivenBy(a) else [])
  {
    hide OwnedBy, UpToNul, Ascii;
    if a.PutDone? {
      OwnedNext(s.chunks, Chunk(a.tid, ThreadOf(s, a.tid).text, ThreadOf(s, a.tid).echo), t);
    }
  }

  /**
    Each thread appends exactly what it was given, once each and in that order; at most the last is
    still in its hands.
   */
  lemma {:induction false} AppendedAsGiven(run: seq<System>, actions: seq<Action>, i: nat, t: nat)
    requires Execution(run, actions) && i < |run|
    ensures OwnedBy(run[i].chunks, t) + InHand(run[i], t) == Given(actions[..i], t)
  {
    if i == 0 {
      assert actions[..0] == [];
    } else {
      hide Perform, Enabled, OwnedBy, InHand, GivenBy;
      AppendedAsGiven(run, actions, i - 1, t);
      assert run[i - 1 + 1] == Perform(run[i - 1], actions[i - 1]);
      ActionKeepsOrder(run[i - 1], actions[i - 1], t, Given(actions[..i - 1], t));
      assert actions[..i][..i - 1] == actions[..i - 1];
    }
  }

  lemma {:induction false} IsOwned(chunks: seq<Chunk>, k: nat)
    requires k < |chunks|
    ensures chunks[k] in OwnedBy(chunks, chunks[k].owner)
  {
    var n := |chunks| - 1;
    if k < n {
      IsOwned(chunks[..n], k);
      assert chunks[..n][k] == chunks[k];
    }
  }

  lemma {:induction false} GivenOnce(actions: seq<Action>, t: nat, c: Chunk) returns (j: nat)
    requires c in Given(actions, t)
    ensures j < |actions| && actions[j].tid == t && GivenBy(actions[j]) == [c]
  {
    var n := |actions| - 1;
    if c in Given(actions[..n], t) {
      j := GivenOnce(actions[..n], t, c);
    } else {
      j := n;
    }
  }

  /** Where a chunk comes from: a client's from a receive that is no seek request, a stamp from a tick. */
  lemma ChunkOrigin(run: seq<System>, actions: seq<Action>, i: nat, k: nat) returns (j: nat)
    requires Execution(run, actions) && i < |run| && k < |run[i].chunks|
    ensures j < i && actions[j].tid == run[i].chunks[k].owner
    ensures run[i].chunks[k].echo ==>
              && actions[j].Receive? && run[i].chunks[k].text == UpToNul(actions[j].data)
              && 0 < |actions[j].data| < 1024 && !IsSeekRequest(run[i].chunks[k].text)
    ensures !run[i].chunks[k].echo ==> actions[j].Tick? && run[i].chunks[k].text == UpToNul(actions[j].stamp)
  {
    hide Perform, Given, OwnedBy, InHand, UpToNul, Ascii;
    var c := run[i].chunks[k];
    AppendedAsGiven(run, actions, i, c.owner);
    IsOwned(run[i].chunks, k);
    j := GivenOnce(actions[..i], c.owner, c);
    assert actions[..i][j] == actions[j] && Enabled(run[j], actions[j]);
    if c.echo {
      PrefixOfText(actions[j].data);
    }
  }

  lemma PrefixOfText(data: seq<byte>)
    requires !IsSeekRequest(data)
    ensures !IsSeekRequest(UpToNul(data))
  {
    hide Ascii;
  }

  // ----- what clients can rely on -----

  /** Whenever no one is appending, the file is the appended texts, whole and in lock order. */
  lemma FileIsTexts(run: seq<System>, actions: seq<Action>, i: nat)
    requires Execution(run, actions) && i < |run|
    requires run[i].lock == Free || ThreadOf(run[i], run[i].lock.tid).Sending?
    ensures run[i].file == Flatten(Texts(run[i].chunks))
  {
    AlwaysGood(run, actions);
  }

  /** Tickets of the finished echoes. */
  ghost function Tickets(echoes: seq<Echo>): seq<nat> {
    seq(|echoes|, i requires 0 <= i < |echoes| => echoes[i].ticket)
  }

  /** The client that appended chunk `k` is about to be sent the file, or is being sent it. */
  ghost predicate Awaits(s: System, k: nat)
    requires k < |s.chunks|
  {
    match ThreadOf(s, s.chunks[k].owner)
    case Between(ticket) => ticket == k
    case Sending(ticket, _) => ticket == k
    case _ => false
  }

  /** A client's chunk is owed one echo, given or outstanding; a stamp is owed none. */
  ghost predicate Served(s: System, k: nat)
    requires k < |s.chunks|
  {
    multiset(Tickets(s.echoes))[k] + (if Awaits(s, k) then 1 else 0) == (if s.chunks[k].echo then 1 else 0)
  }

  lemma TicketsNext(echoes: seq<Echo>, e: Echo)
    ensures multiset(Tickets(echoes + [e])) == multiset(Tickets(echoes)) + multiset{e.ticket}
  {
    assert Tickets(echoes + [e]) == Tickets(echoes) + [e.ticket];
  }

  lemma NotYetServed(s: System)
    requires EchoesKept(s)
    ensures multiset(Tickets(s.echoes))[|s.chunks|] == 0
  {
    hide Flatten;
    assert forall i :: 0 <= i < |s.echoes| ==> EchoKept(s, s.echoes[i]) && Tickets(s.echoes)[i] < |s.chunks|;
  }

  lemma ActionKeepsServed(s: System, a: Action, k: nat)
    requires Good(s) && Enabled(s, a) && k < |Perform(s, a).chunks|
    requires k < |s.chunks| ==> Served(s, k)
    ensures Served(Perform(s, a), k)
  {
    hide Tickets, UpToNul, Ascii, Flatten, FileKept, LockKept;
    if a.PutDone? {
      NotYetServed(s);
    } else if a.SendDone? {
      TicketsNext(s.echoes, Echo(ThreadOf(s, a.tid).ticket, |s.chunks|, ThreadOf(s, a.tid).sent));
    }
  }

  /** In every execution each client's chunk is answered once, or has its answer still to come; no stamp is. */
  lemma {:induction false} ServedOnce(run: seq<System>, actions: seq<Action>, i: nat, k: nat)
    requires Execution(run, actions) && i < |run| && k < |run[i].chunks|
    ensures Served(run[i], k)
  {
    assert i > 0;
    AlwaysGood(run, actions);
    hide Good, Served;
    assert run[i - 1 + 1] == Perform(run[i - 1], actions[i - 1]);
    if k < |run[i - 1].chunks| {
      ServedOnce(run, actions, i - 1, k);
    }
    ActionKeepsServed(run[i - 1], actions[i - 1], k);
  }

  /** Every echo holds, between whole texts of others, what its own client sent, up to the first NUL. */
  lemma EchoHoldsOwnText(run: seq<System>, actions: seq<Action>, i: nat, k: nat) returns (j: nat)
    requires Execution(run, actions) && i < |run| && k < |run[i].echoes|
    ensures var e, chunks := run[i].echoes[k], run[i].chunks;
            && e.ticket < e.seen <= |chunks|
            && j < i && actions[j].Receive? && actions[j].tid == chunks[e.ticket].owner
            && e.sent == Flatten(Texts(chunks[..e.ticket])) + UpToNul(actions[j].data)
                         + Flatten(Texts(chunks[e.ticket + 1..e.seen]))
  {
    AlwaysGood(run, actions);
    hide Enabled, Perform, LockKept, FileKept, ThreadsKept, UpToNul, Ascii, Flatten, IsSeekRequest;
    var e, chunks := run[i].echoes[k], run[i].chunks;
    assert EchoKept(run[i], e);
    AnsweredIsClients(run, actions, i, k);
    j := ChunkOrigin(run, actions, i, e.ticket);
    TextsAround(chunks, e.ticket, e.seen);
  }

  lemma TextsAround(chunks: seq<Chunk>, k: nat, n: nat)
    requires k < n <= |chunks|
    ensures Flatten(Texts(chunks[..n]))
            == Flatten(Texts(chunks[..k])) + chunks[k].text + Flatten(Texts(chunks[k + 1..n]))
  {
    hide Flatten;
    var before, own, rest := Texts(chunks[..k]), chunks[k].text, Texts(chunks[k + 1..n]);
    assert Texts(chunks[..n]) == before + ([own] + rest);
    FlattenAppend(before, [own] + rest);
    FlattenCons(own, rest);
  }

  lemma AnsweredIsClients(run: seq<System>, actions: seq<Action>, i: nat, k: nat)
    requires Execution(run, actions) && i < |run| && k < |run[i].echoes|
    ensures run[i].echoes[k].ticket < |run[i].chunks| && run[i].chunks[run[i].echoes[k].ticket].echo
  {
    AlwaysGood(run, actions);
    hide Enabled, Perform, LockKept, FileKept, ThreadsKept, Flatten;
    assert EchoKept(run[i], run[i].echoes[k]);
    ServedOnce(run, actions, i, run[i].echoes[k].ticket);
    assert Tickets(run[i].echoes)[k] in multiset(Tickets(run[i].echoes));
  }

  /** Of any two echoes, to whichever clients, one is the beginning of the other. */
  lemma EchoesNest(run: seq<System>, actions: seq<Action>, i: nat, j: nat, k: nat)
    requires Execution(run, actions) && i < |run| && j < |run[i].echoes| && k < |run[i].echoes|
    requires run[i].echoes[j].seen <= run[i].echoes[k].seen
    ensures run[i].echoes[j].sent <= run[i].echoes[k].sent
  {
    AlwaysGood(run, actions);
    hide Enabled, Perform, LockKept, FileKept, ThreadsKept, Flatten;
    var d, e, chunks := run[i].echoes[j], run[i].echoes[k], run[i].chunks;
    assert EchoKept(run[i], d) && EchoKept(run[i], e);
    assert Texts(chunks[..e.seen]) == Texts(chunks[..d.seen]) + Texts(chunks[d.seen..e.seen]);
    FlattenAppend(Texts(chunks[..d.seen]), Texts(chunks[d.seen..e.seen]));
  }

  // ----- everyone gets on -----

  /** What is left of the critical section: bytes to put, or bytes to send. */
  ghost function WorkLeft(s: System): int {
    if s.lock == Free then 0
    else
      match ThreadOf(s, s.lock.tid)
      case Putting(text, _, done) => |text| - done
      case Sending(_, sent) => |s.file| - |sent|
      case _ => 0
  }

  /**
    Whoever has the lock can go on.  While work is left there is a step, and every step that thread can
    take lowers it (sending takes 1024 bytes at a time); when none is left the thread can give the lock up.
   */
  lemma HolderProceeds(run: seq<System>, actions: seq<Action>, i: nat)
    requires Execution(run, actions) && i < |run| && run[i].lock.HeldBy?
    ensures var s := run[i]; var t := s.lock.tid;
            && WorkLeft(s) >= 0
            && (WorkLeft(s) > 0 ==>
                  if ThreadOf(s, t).Putting? then
                    forall n: nat :: 0 < n <= WorkLeft(s) ==>
                      && Enabled(s, PutSome(t, n))
                      && WorkLeft(Perform(s, PutSome(t, n))) == WorkLeft(s) - n
                  else
                    && Enabled(s, SendSome(t))
                    && WorkLeft(Perform(s, SendSome(t))) == if WorkLeft(s) <= 1024 then 0 else WorkLeft(s) - 1024)
            && (WorkLeft(s) == 0 ==>
                  var a := if ThreadOf(s, t).Putting? then PutDone(t) else SendDone(t);
                  Enabled(s, a) && Perform(s, a).lock == Free)
  {
    AlwaysGood(run, actions);
    hide Flatten, Ascii, UpToNul, EchoesKept, FileKept;
  }

  /** How many stages a thread still has before it is idle again. */
  function Stages(th: Thread): nat {
    match th
    case Idle => 0
    case Sending(_, _) => 1
    case Between(_) => 2
    case Putting(_, _, _) => 3
    case Ready(_, _) => 4
  }

  predicate IsInput(a: Action) {
    a.Receive? || a.Request? || a.Tick?
  }

  /**
    Every step counts: one that is not new input takes its thread to a later stage or lowers the work left
    in the one it is in, and no step changes what another thread has in hand.
   */
  lemma StepsCount(run: seq<System>, actions: seq<Action>, i: nat)
    requires Execution(run, actions) && i < |actions| && !IsInput(actions[i])
    ensures var t := actions[i].tid;
            var before, after := Stages(ThreadOf(run[i], t)), Stages(ThreadOf(run[i + 1], t));
            after < before || (after == before && 0 <= WorkLeft(run[i + 1]) < WorkLeft(run[i]))
    ensures forall u :: u != actions[i].tid ==> ThreadOf(run[i + 1], u) == ThreadOf(run[i], u)
  {
    AlwaysGood(run, actions);
    hide Flatten, Ascii, UpToNul, EchoesKept, FileKept;
    assert Enabled(run[i], actions[i]);
  }

  /** A thread that waits can take the next step as soon as the lock is free, and has the lock then. */
  lemma WaitersProceed(s: System, t: nat)
    requires s.lock == Free
    ensures ThreadOf(s, t).Ready? ==>
              Enabled(s, LockToPut(t)) && Perform(s, LockToPut(t)).lock == HeldBy(t)
    ensures ThreadOf(s, t).Between? ==>
              Enabled(s, LockToSend(t)) && Perform(s, LockToSend(t)).lock == HeldBy(t)
  {
  }

  /**
    An idle client takes any message that fits its buffer, as a text or as a seek request and never both;
    an idle timestamp thread can write at any time.
   */
  lemma IdleTakesAnything(s: System, t: nat, data: seq<byte>)
    requires ThreadOf(s, t) == Idle && 0 < |data| < 1024
    ensures Enabled(s, Receive(t, data)) <==> !(Ascii("AESDCHAR_IOCSEEKTO:") <= data)
    ensures Enabled(s, Request(t, data)) <==> Ascii("AESDCHAR_IOCSEEKTO:") <= data
    ensures Enabled(s, Tick(t, data))
  {
  }
}
