/** Threads that send packets over one connection under one mutex, in any interleaving. */
module Senders {
  import opened LittleEndian
  import opened Memories
  import opened Packets

  /** The statements of a send function; a lock names the packet it is taken for. */
  datatype Statement = Lock(packet: Packet) | Send(bytes: seq<Byte>) | Unlock

  /** One send function: the payload is only sent when there is one. */
  function Statements(p: Packet): seq<Statement> {
    [Lock(p)] + AfterLock(p)
  }

  function AfterLock(p: Packet): seq<Statement> {
    [Send(HeaderBytes(p.dev, p.id, |p.data|))] + AfterHeader(p)
  }

  function AfterHeader(p: Packet): seq<Statement> {
    if p.data == [] then [Unlock] else [Send(p.data)] + [Unlock]
  }

  /** A thread that sends packets one after the other. */
  function Program(ps: seq<Packet>): seq<Statement> {
    if ps == [] then [] else Statements(ps[0]) + Program(ps[1..])
  }

  datatype Acquisition = Acquisition(thread: nat, packet: Packet)

  /** What is left of each thread's program, the mutex with its holder, the bytes sent so
      far, and the log of mutex acquisitions. */
  datatype System = System(threads: seq<seq<Statement>>, holder: Option<nat>, wire: seq<Byte>, log: seq<Acquisition>)

  /** The next statement of thread i; a thread that waits for the mutex, or is done, stays where it is. */
  function Step(s: System, i: nat): System {
    if i >= |s.threads| || s.threads[i] == [] then s
    else
      var s1 := s.(threads := s.threads[i := s.threads[i][1..]]);
      match s.threads[i][0]
      case Lock(p) => if s.holder.Some? then s else s1.(holder := Some(i), log := s.log + [Acquisition(i, p)])
      case Send(bs) => s1.(wire := s.wire + bs)
      case Unlock => s1.(holder := None)
  }

  function Run(s: System, schedule: seq<nat>): System {
    if schedule == [] then s else Step(Run(s, schedule[..|schedule| - 1]), schedule[|schedule| - 1])
  }

  /** All threads before their first statement. */
  function Start(queues: seq<seq<Packet>>): System {
    System(seq(|queues|, i requires 0 <= i < |queues| => Program(queues[i])), None, [], [])
  }

  // ----- what holds in every reachable state -----

  function PacketsOf(log: seq<Acquisition>): (ps: seq<Packet>)
    ensures |ps| == |log|
  {
    seq(|log|, k requires 0 <= k < |log| => log[k].packet)
  }

  /** The packets for which thread i acquired the mutex, in order. */
  function SentBy(log: seq<Acquisition>, i: nat): seq<Packet> {
    if log == [] then []
    else
      var last := log[|log| - 1];
      SentBy(log[..|log| - 1], i) + (if last.thread == i then [last.packet] else [])
  }

  /** Thread i is inside the send function for p: n bytes of p are out. */
  ghost predicate Sending(left: seq<Statement>, todo: seq<Packet>, p: Packet, n: nat) {
    || (n == 0 && left == AfterLock(p) + Program(todo))
    || (n == 16 && left == AfterHeader(p) + Program(todo))
    || (n == |Encode(p)| && left == [Unlock] + Program(todo))
  }

  /** Between two sends nothing is half written; during one, a prefix of its packet is. */
  ghost predicate Consistent(s: System, todo: seq<seq<Packet>>) {
    && |todo| == |s.threads|
    && (forall i :: 0 <= i < |todo| && s.holder != Some(i) ==> s.threads[i] == Program(todo[i]))
    && match s.holder
       case None => s.wire == EncodeAll(PacketsOf(s.log))
       case Some(h) => h < |todo| && exists n: nat :: MidSend(s, todo, h, n)
  }

  ghost predicate MidSend(s: System, todo: seq<seq<Packet>>, h: nat, n: nat)
    requires h < |todo| == |s.threads|
  {
    && s.log != [] && s.log[|s.log| - 1].thread == h
    && var p, done := s.log[|s.log| - 1].packet, s.log[..|s.log| - 1];
    && Sending(s.threads[h], todo[h], p, n) && n <= |Encode(p)|
    && s.wire == EncodeAll(PacketsOf(done)) + Encode(p)[..n]
  }

  /** Every thread's queue is what it has acquired the mutex for and what it has still to do. */
  ghost predicate InOrder(s: System, todo: seq<seq<Packet>>, queues: seq<seq<Packet>>) {
    |todo| == |queues| && forall i :: 0 <= i < |todo| ==> queues[i] == SentBy(s.log, i) + todo[i]
  }

  lemma StartConsistent(queues: seq<seq<Packet>>)
    ensures Consistent(Start(queues), queues) && InOrder(Start(queues), queues, queues)
  {
  }

  lemma HeadAndTail(x: Statement, a: seq<Statement>, b: seq<Statement>)
    ensures var s := [x] + a + b; s[0] == x && s[1..] == a + b
  {
  }

  lemma ProgramHead(ps: seq<Packet>)
    requires ps != []
    ensures Program(ps) != [] && Program(ps)[0] == Lock(ps[0])
    ensures Program(ps)[1..] == AfterLock(ps[0]) + Program(ps[1..])
  {
    HeadAndTail(Lock(ps[0]), AfterLock(ps[0]), Program(ps[1..]));
  }

  /** A thread outside its send functions can only lock. */
  lemma LockStep(s: System, todo: seq<seq<Packet>>, i: nat) returns (todo': seq<seq<Packet>>)
    requires Consistent(s, todo) && i < |todo| && s.holder == None && todo[i] != []
    ensures Consistent(Step(s, i), todo') && todo' == todo[i := todo[i][1..]]
    ensures Step(s, i).log == s.log + [Acquisition(i, todo[i][0])]
  {
    todo' := todo[i := todo[i][1..]];
    ProgramHead(todo[i]);
    var s' := Step(s, i);
    assert s'.log[..|s'.log| - 1] == s.log;
    assert Encode(todo[i][0])[..0] == [];
    assert MidSend(s', todo', i, 0);
  }

  /** Sending bytes on behalf of thread h. */
  lemma SendIs(s: System, h: nat, bs: seq<Byte>, left: seq<Statement>)
    requires h < |s.threads| && s.threads[h] == [Send(bs)] + left
    ensures Step(s, h) == s.(threads := s.threads[h := left], wire := s.wire + bs)
  {
    assert s.threads[h][1..] == left;
  }

  lemma EncodePieces(before: seq<Byte>, p: Packet)
    ensures before + Encode(p)[..0] + HeaderBytes(p.dev, p.id, |p.data|) == before + Encode(p)[..16]
    ensures before + Encode(p)[..16] + p.data == before + Encode(p)[..|Encode(p)|]
  {
  }

  lemma HeaderStep(s: System, todo: seq<seq<Packet>>, h: nat, p: Packet)
    requires |todo| == |s.threads| && h < |todo| && s.holder == Some(h) && MidSend(s, todo, h, 0)
    requires s.log != [] && s.log[|s.log| - 1].packet == p
    ensures s.threads[h] != [] && Step(s, h).holder == s.holder && Step(s, h).log == s.log
    ensures MidSend(Step(s, h), todo, h, 16)
  {
    var bs := HeaderBytes(p.dev, p.id, |p.data|);
    var left := AfterHeader(p) + Program(todo[h]);
    assert AfterLock(p) + Program(todo[h]) == [Send(bs)] + left;
    SendIs(s, h, bs, left);
    EncodePieces(EncodeAll(PacketsOf(s.log[..|s.log| - 1])), p);
  }

  lemma PayloadStep(s: System, todo: seq<seq<Packet>>, h: nat, p: Packet)
    requires |todo| == |s.threads| && h < |todo| && s.holder == Some(h) && MidSend(s, todo, h, 16)
    requires s.log != [] && s.log[|s.log| - 1].packet == p && p.data != []
    ensures s.threads[h] != [] && Step(s, h).holder == s.holder && Step(s, h).log == s.log
    ensures MidSend(Step(s, h), todo, h, |Encode(p)|)
  {
    var left := [Unlock] + Program(todo[h]);
    assert AfterHeader(p) + Program(todo[h]) == [Send(p.data)] + left;
    SendIs(s, h, p.data, left);
    EncodePieces(EncodeAll(PacketsOf(s.log[..|s.log| - 1])), p);
  }

  /** The next statement of a send function writes the next piece of its packet. */
  lemma SendStep(s: System, todo: seq<seq<Packet>>, h: nat, n: nat) returns (n': nat)
    requires |todo| == |s.threads| && h < |todo| && s.holder == Some(h) && MidSend(s, todo, h, n)
    requires n < |Encode(s.log[|s.log| - 1].packet)|
    ensures s.threads[h] != [] && Step(s, h).holder == s.holder && Step(s, h).log == s.log
    ensures MidSend(Step(s, h), todo, h, n')
  {
    var p := s.log[|s.log| - 1].packet;
    if n == 0 {
      HeaderStep(s, todo, h, p);
      n' := 16;
    } else {
      PayloadStep(s, todo, h, p);
      n' := |Encode(p)|;
    }
  }

  lemma UnlockStep(s: System, todo: seq<seq<Packet>>, h: nat, n: nat)
    requires Consistent(s, todo) && h < |todo| && s.holder == Some(h) && MidSend(s, todo, h, n)
    requires n == |Encode(s.log[|s.log| - 1].packet)|
    ensures Consistent(Step(s, h), todo) && Step(s, h).log == s.log
  {
    var last := |s.log| - 1;
    var p := s.log[last].packet;
    assert Encode(p)[..n] == Encode(p);
    EncodeSnoc(PacketsOf(s.log[..last]), p);
    assert PacketsOf(s.log) == PacketsOf(s.log[..last]) + [p];
    assert s.threads[h] == [Unlock] + Program(todo[h]);
  }

  lemma StepConsistent(s: System, todo: seq<seq<Packet>>, queues: seq<seq<Packet>>, i: nat)
    returns (todo': seq<seq<Packet>>)
    requires Consistent(s, todo) && InOrder(s, todo, queues)
    ensures Consistent(Step(s, i), todo') && InOrder(Step(s, i), todo', queues)
  {
    todo' := todo;
    if i < |todo| {
      if s.holder == Some(i) {
        var n: nat :| MidSend(s, todo, i, n);
        if n < |Encode(s.log[|s.log| - 1].packet)| {
          var n' := SendStep(s, todo, i, n);
        } else {
          UnlockStep(s, todo, i, n);
        }
      } else if todo[i] != [] {
        ProgramHead(todo[i]);
        if s.holder == None {
          todo' := LockStep(s, todo, i);
          LockOrder(s, todo, queues, i);
        }
      }
    }
  }

  lemma LockOrder(s: System, todo: seq<seq<Packet>>, queues: seq<seq<Packet>>, i: nat)
    requires InOrder(s, todo, queues) && i < |todo| && todo[i] != []
    ensures forall s': System :: s'.log == s.log + [Acquisition(i, todo[i][0])] ==>
             InOrder(s', todo[i := todo[i][1..]], queues)
  {
    var log := s.log + [Acquisition(i, todo[i][0])];
    assert log[..|log| - 1] == s.log;
    assert todo[i] == [todo[i][0]] + todo[i][1..];
  }

  /** Every reachable state is consistent, whatever the interleaving. */
  lemma {:induction false} RunConsistent(queues: seq<seq<Packet>>, schedule: seq<nat>) returns (todo: seq<seq<Packet>>)
    ensures Consistent(Run(Start(queues), schedule), todo) && InOrder(Run(Start(queues), schedule), todo, queues)
    decreases |schedule|
  {
    if schedule == [] {
      StartConsistent(queues);
      todo := queues;
    } else {
      var n := |schedule| - 1;
      todo := RunConsistent(queues, schedule[..n]);
      todo := StepConsistent(Run(Start(queues), schedule[..n]), todo, queues, schedule[n]);
    }
  }

  // ----- the main results -----

  ghost predicate QueuesSendable(queues: seq<seq<Packet>>) {
    forall i :: 0 <= i < |queues| ==> AllSendable(queues[i])
  }

  lemma {:induction false} LoggedIsQueued(log: seq<Acquisition>, k: nat)
    requires k < |log|
    ensures log[k].packet in SentBy(log, log[k].thread)
    decreases |log|
  {
    if k < |log| - 1 {
      LoggedIsQueued(log[..|log| - 1], k);
    }
  }

  /** Every acquisition is by one of the threads. */
  ghost predicate KnownThreads(s: System) {
    forall k :: 0 <= k < |s.log| ==> s.log[k].thread < |s.threads|
  }

  lemma {:induction false} RunKnowsThreads(queues: seq<seq<Packet>>, schedule: seq<nat>)
    ensures KnownThreads(Run(Start(queues), schedule)) && |Run(Start(queues), schedule).threads| == |queues|
    decreases |schedule|
  {
    if schedule != [] {
      RunKnowsThreads(queues, schedule[..|schedule| - 1]);
    }
  }

  lemma LogSendable(queues: seq<seq<Packet>>, schedule: seq<nat>)
    requires QueuesSendable(queues)
    ensures AllSendable(PacketsOf(Run(Start(queues), schedule).log))
  {
    var s := Run(Start(queues), schedule);
    var todo := RunConsistent(queues, schedule);
    RunKnowsThreads(queues, schedule);
    forall k | 0 <= k < |s.log|
      ensures Sendable(s.log[k].packet)
    {
      LoggedIsQueued(s.log, k);
      var i := s.log[k].thread;
      assert queues[i] == SentBy(s.log, i) + todo[i];
      assert s.log[k].packet in queues[i];
    }
  }

  /** What is on the wire is always a prefix of the packets in acquisition order. */
  lemma WireIsPrefix(s: System, todo: seq<seq<Packet>>)
    requires Consistent(s, todo)
    ensures s.wire <= EncodeAll(PacketsOf(s.log))
  {
    if s.holder.Some? {
      var h := s.holder.value;
      var n: nat :| MidSend(s, todo, h, n);
      var last := |s.log| - 1;
      var p := s.log[last].packet;
      EncodeSnoc(PacketsOf(s.log[..last]), p);
      assert PacketsOf(s.log) == PacketsOf(s.log[..last]) + [p];
      assert Encode(p) == Encode(p)[..n] + Encode(p)[n..];
    }
  }

  /** Framing, end to end: at any moment of any interleaving, and however many of the sent
      bytes have arrived, the receiver's packets are the first ones in the order of mutex
      acquisition, whole and unmixed; and each thread's packets come in its own order. */
  lemma Framing(queues: seq<seq<Packet>>, schedule: seq<nat>, k: nat)
    requires QueuesSendable(queues) && k <= |Run(Start(queues), schedule).wire|
    ensures var s := Run(Start(queues), schedule);
            && ParseAll(s.wire[..k]) <= PacketsOf(s.log)
            && (s.holder == None ==> ParseAll(s.wire) == PacketsOf(s.log))
            && forall i :: 0 <= i < |queues| ==> SentBy(s.log, i) <= queues[i]
  {
    var s := Run(Start(queues), schedule);
    var todo := RunConsistent(queues, schedule);
    var ps := PacketsOf(s.log);
    WireIsPrefix(s, todo);
    LogSendable(queues, schedule);
    ParsePrefix(ps, k);
    assert s.wire[..k] == EncodeAll(ps)[..k];
    ParseEncodeAll(ps);
  }

  /** The mutex never blocks everybody: until all threads are done, one of them can go on. */
  lemma NoDeadlock(queues: seq<seq<Packet>>, schedule: seq<nat>)
    requires exists left :: left in Run(Start(queues), schedule).threads && left != []
    ensures exists i :: Step(Run(Start(queues), schedule), i) != Run(Start(queues), schedule)
  {
    var s := Run(Start(queues), schedule);
    var todo := RunConsistent(queues, schedule);
    if s.holder.Some? {
      var h := HolderGoesOn(s, todo);
      StepMoves(s, h);
    } else {
      var i :| 0 <= i < |s.threads| && s.threads[i] != [];
      StepMoves(s, i);
    }
  }

  lemma StepMoves(s: System, i: nat)
    requires i < |s.threads| && s.threads[i] != [] && (s.holder.None? || !s.threads[i][0].Lock?)
    ensures Step(s, i) != s
  {
    assert |Step(s, i).threads[i]| == |s.threads[i]| - 1;
  }

  /** The holder of the mutex still has statements before its next lock. */
  lemma HolderGoesOn(s: System, todo: seq<seq<Packet>>) returns (h: nat)
    requires Consistent(s, todo) && s.holder.Some?
    ensures h < |s.threads| && s.threads[h] in s.threads && s.threads[h] != [] && !s.threads[h][0].Lock?
  {
    h := s.holder.value;
    var n: nat :| MidSend(s, todo, h, n);
    SendingLeft(s.threads[h], todo[h], s.log[|s.log| - 1].packet, n);
  }

  lemma SendingLeft(left: seq<Statement>, todo: seq<Packet>, p: Packet, n: nat)
    requires Sending(left, todo, p, n)
    ensures left != [] && !left[0].Lock?
  {
  }

  lemma NothingLeft(ps: seq<Packet>)
    ensures Program(ps) == [] ==> ps == []
  {
  }

  /** When all threads are done, the receiver has every packet, each thread's in its order. */
  lemma AllArrive(queues: seq<seq<Packet>>, schedule: seq<nat>)
    requires QueuesSendable(queues)
    requires forall left :: left in Run(Start(queues), schedule).threads ==> left == []
    ensures var s := Run(Start(queues), schedule);
            && ParseAll(s.wire) == PacketsOf(s.log)
            && forall i :: 0 <= i < |queues| ==> SentBy(s.log, i) == queues[i]
  {
    var s := Run(Start(queues), schedule);
    var todo := RunConsistent(queues, schedule);
    if s.holder.Some? {
      var h := HolderGoesOn(s, todo);
    }
    Framing(queues, schedule, 0);
    forall i | 0 <= i < |queues|
      ensures SentBy(s.log, i) == queues[i]
    {
      assert s.threads[i] in s.threads && s.threads[i] == Program(todo[i]);
      NothingLeft(todo[i]);
    }
  }
}
