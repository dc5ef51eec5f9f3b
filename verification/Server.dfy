/**
 * The multi-threaded server of `aesdsocket.c`, file build: connection threads and the timestamp
 * thread append to one file under one mutex, and each connection reads the file back before it
 * lets the mutex go. Every step of every thread can be interleaved with every other.
 */
module Server {
  import opened Bytes
  import opened Framing

  datatype Who = Clock | Peer(id: nat)

  /** One write_to_file. */
  datatype Append = Append(who: Who, bytes: seq<byte>)

  /** What one packet's sender was sent back, and which append was its own. */
  datatype Echo = Echo(id: nat, own: nat, bytes: seq<byte>)

  /** Where a connection thread is; `batch` is what is left of the last recv. */
  datatype Pc =
    | Reading
    | Waiting
    | Writing
    | Echoing(pos: nat, chunk: seq<byte>, sent: seq<byte>)

  /** `taken` is every byte processed so far, `held` the packet buffer. */
  datatype Client = Client(taken: seq<byte>, held: seq<byte>, batch: seq<byte>, pc: Pc)

  datatype ClockPc = Sleeping | ClockWaiting(text: seq<byte>) | ClockWriting(text: seq<byte>) | ClockWritten

  datatype Owner = Nobody | Held(who: Who)

  /** `base` is what the file had at the start, `log` the appends so far, `echoes` the finished read-backs. */
  datatype State = State(base: seq<byte>, file: seq<byte>, owner: Owner,
                         clients: map<nat, Client>, clock: ClockPc,
                         log: seq<Append>, echoes: seq<Echo>)

  function Start(base: seq<byte>): State {
    State(base, base, Nobody, map[], Sleeping, [], [])
  }

  datatype Event =
    | Connect(id: nat)
    | Recv(id: nat, batch: seq<byte>)
    | TakeNext(id: nat)
    | Lock(id: nat)
    | Write(id: nat)
    | ReadChunk(id: nat, n: nat)
    | Send(id: nat, n: nat)
    | Unlock(id: nat)
    | Tick(text: seq<byte>)
    | ClockLock
    | ClockWrite
    | ClockUnlock

  predicate Enabled(s: State, e: Event) {
    match e
    case Connect(id) => id !in s.clients
    case Recv(id, batch) => id in s.clients && s.clients[id].pc.Reading? && s.clients[id].batch == [] && batch != []
    case TakeNext(id) => id in s.clients && s.clients[id].pc.Reading? && s.clients[id].batch != []
    case Lock(id) => id in s.clients && s.clients[id].pc.Waiting? && s.owner.Nobody?
    case Write(id) => id in s.clients && s.clients[id].pc.Writing?
    case ReadChunk(id, n) =>
      && id in s.clients && s.clients[id].pc.Echoing? && s.clients[id].pc.chunk == []
      && 0 < n <= FILE_BUF_SIZE && s.clients[id].pc.pos + n <= |s.file|
    case Send(id, n) => id in s.clients && s.clients[id].pc.Echoing? && 0 < n <= |s.clients[id].pc.chunk|
    case Unlock(id) =>
      && id in s.clients && s.clients[id].pc.Echoing?
      && s.clients[id].pc.chunk == [] && s.clients[id].pc.pos == |s.file|
    case Tick(text) => s.clock.Sleeping?
    case ClockLock => s.clock.ClockWaiting? && s.owner.Nobody?
    case ClockWrite => s.clock.ClockWriting?
    case ClockUnlock => s.clock.ClockWritten?
  }

  function Put(s: State, id: nat, c: Client): State {
    s.(clients := s.clients[id := c])
  }

  function Next(s: State, e: Event): State
    requires Enabled(s, e)
  {
    match e
    case Connect(id) => Put(s, id, Client([], [], [], Reading))
    case Recv(id, batch) => Put(s, id, s.clients[id].(batch := batch))
    case TakeNext(id) =>
      var c := s.clients[id];
      var b := c.batch[0];
      Put(s, id, Client(c.taken + [b], c.held + [b], c.batch[1..], if b == NEWLINE then Waiting else Reading))
    case Lock(id) => Put(s, id, s.clients[id].(pc := Writing)).(owner := Held(Peer(id)))
    case Write(id) =>
      var c := s.clients[id];
      Put(s, id, c.(pc := Echoing(0, [], []))).(file := s.file + c.held, log := s.log + [Append(Peer(id), c.held)])
    case ReadChunk(id, n) =>
      var c := s.clients[id];
      Put(s, id, c.(pc := Echoing(c.pc.pos + n, s.file[c.pc.pos..c.pc.pos + n], c.pc.sent)))
    case Send(id, n) =>
      var c := s.clients[id];
      Put(s, id, c.(pc := Echoing(c.pc.pos, c.pc.chunk[n..], c.pc.sent + c.pc.chunk[..n])))
    case Unlock(id) =>
      var c := s.clients[id];
      Put(s, id, c.(held := [], pc := Reading))
      .(owner := Nobody, echoes := s.echoes + [Echo(id, if s.log == [] then 0 else |s.log| - 1, c.pc.sent)])
    case Tick(text) => s.(clock := ClockWaiting(text))
    case ClockLock => s.(clock := ClockWriting(s.clock.text), owner := Held(Clock))
    case ClockWrite =>
      s.(clock := ClockWritten, file := s.file + s.clock.text, log := s.log + [Append(Clock, s.clock.text)])
    case ClockUnlock => s.(clock := Sleeping, owner := Nobody)
  }

  // ---- what every reachable state satisfies ----

  function Contents(log: seq<Append>): seq<byte> {
    if log == [] then [] else Contents(log[..|log| - 1]) + log[|log| - 1].bytes
  }

  /** The packets that `who` has appended, in order. */
  function By(log: seq<Append>, who: Who): seq<seq<byte>> {
    if log == [] then []
    else By(log[..|log| - 1], who) + if log[|log| - 1].who == who then [log[|log| - 1].bytes] else []
  }

  lemma LogSnoc(log: seq<Append>, a: Append, who: Who)
    ensures Contents(log + [a]) == Contents(log) + a.bytes
    ensures By(log + [a], who) == By(log, who) + if a.who == who then [a.bytes] else []
  {
    assert (log + [a])[..|log|] == log;
  }

  predicate Critical(pc: Pc) {
    pc.Writing? || pc.Echoing?
  }

  ghost predicate LockOk(s: State) {
    && (forall id :: id in s.clients ==> (Critical(s.clients[id].pc) <==> s.owner == Held(Peer(id))))
    && (s.owner.Held? && s.owner.who.Peer? ==> s.owner.who.id in s.clients)
    && (s.owner == Held(Clock) <==> s.clock.ClockWriting? || s.clock.ClockWritten?)
  }

  ghost predicate FileOk(s: State) {
    s.file == s.base + Contents(s.log)
  }

  function EchoCount(echoes: seq<Echo>, id: nat): nat {
    if echoes == [] then 0
    else EchoCount(echoes[..|echoes| - 1], id) + if echoes[|echoes| - 1].id == id then 1 else 0
  }

  /**
   * A thread's appends are the lines it has processed, but for the one it is about to append;
   * each has been echoed once, but for the one it is echoing.
   */
  ghost predicate StreamOk(c: Client, mine: seq<seq<byte>>, echoed: nat) {
    match c.pc
    case Reading => mine == Lines(c.taken) && c.held == Tail(c.taken) && echoed == |mine|
    case Echoing(_, _, _) =>
      mine == Lines(c.taken) && Tail(c.taken) == [] && echoed + 1 == |mine| && c.held == mine[|mine| - 1]
    case _ => mine + [c.held] == Lines(c.taken) && Tail(c.taken) == [] && echoed == |mine|
  }

  /** A thread that reads back has sent or is sending what it has read of the file, which ends in its packet. */
  ghost predicate EchoingOk(c: Client, id: nat, file: seq<byte>, log: seq<Append>) {
    c.pc.Echoing? ==>
      && c.pc.pos <= |file| && c.pc.sent + c.pc.chunk == file[..c.pc.pos]
      && log != [] && log[|log| - 1] == Append(Peer(id), c.held)
  }

  /** What is known of connection `id`, also before it exists. */
  ghost predicate ClientOk(s: State, id: nat) {
    if id in s.clients then
      && StreamOk(s.clients[id], By(s.log, Peer(id)), EchoCount(s.echoes, id))
      && EchoingOk(s.clients[id], id, s.file, s.log)
    else By(s.log, Peer(id)) == [] && EchoCount(s.echoes, id) == 0
  }

  /** An echo is the file as it was just after its own packet was appended. */
  ghost predicate EchoOk(base: seq<byte>, log: seq<Append>, e: Echo) {
    && e.own < |log| && log[e.own].who == Peer(e.id)
    && e.bytes == base + Contents(log[..e.own + 1])
  }

  /** Echoes come in the order of the appends they belong to; one that is under way belongs to the last append. */
  ghost predicate EchoesOk(s: State) {
    && (forall i :: 0 <= i < |s.echoes| ==> EchoOk(s.base, s.log, s.echoes[i]))
    && (forall i, j :: 0 <= i < j < |s.echoes| ==> s.echoes[i].own < s.echoes[j].own)
    && (forall id, i :: id in s.clients && s.clients[id].pc.Echoing? && 0 <= i < |s.echoes| ==>
          s.echoes[i].own < |s.log| - 1)
  }

  ghost predicate Inv(s: State) {
    LockOk(s) && FileOk(s) && EchoesOk(s) && forall id :: ClientOk(s, id)
  }

  // ---- each step keeps it ----

  lemma LockStep(s: State, e: Event)
    requires LockOk(s) && Enabled(s, e)
    ensures LockOk(Next(s, e))
  {
  }

  lemma FileGrows(base: seq<byte>, log: seq<Append>, a: Append)
    ensures (base + Contents(log)) + a.bytes == base + Contents(log + [a])
  {
    LogSnoc(log, a, Clock);
  }

  lemma FileStep(s: State, e: Event)
    requires FileOk(s) && Enabled(s, e)
    ensures FileOk(Next(s, e))
  {
    if e.Write? {
      FileGrows(s.base, s.log, Append(Peer(e.id), s.clients[e.id].held));
    } else if e.ClockWrite? {
      FileGrows(s.base, s.log, Append(Clock, s.clock.text));
    }
  }

  /** Taking one more byte off the batch. */
  lemma TakeOk(c: Client, mine: seq<seq<byte>>, echoed: nat, b: byte, rest: seq<byte>)
    requires c.pc.Reading? && StreamOk(c, mine, echoed)
    ensures StreamOk(Client(c.taken + [b], c.held + [b], rest, if b == NEWLINE then Waiting else Reading), mine, echoed)
  {
    SplitSnoc(c.taken, b);
  }

  lemma WriteOk(c: Client, mine: seq<seq<byte>>, echoed: nat)
    requires c.pc.Writing? && StreamOk(c, mine, echoed)
    ensures StreamOk(c.(pc := Echoing(0, [], [])), mine + [c.held], echoed)
  {
  }

  lemma CountSnoc(echoes: seq<Echo>, e: Echo, id: nat)
    ensures EchoCount(echoes + [e], id) == EchoCount(echoes, id) + if e.id == id then 1 else 0
  {
    assert (echoes + [e])[..|echoes|] == echoes;
  }

  /** The connection that an event is a step of. */
  predicate StepOf(e: Event, id: nat) {
    !e.Tick? && !e.ClockLock? && !e.ClockWrite? && !e.ClockUnlock? && e.id == id
  }

  /** Reading, taking bytes, locking and appending. */
  lemma OwnStep(s: State, e: Event, id: nat)
    requires ClientOk(s, id) && Enabled(s, e) && StepOf(e, id)
    requires e.Connect? || e.Recv? || e.TakeNext? || e.Lock? || e.Write?
    ensures ClientOk(Next(s, e), id)
  {
    if e.TakeNext? {
      var c := s.clients[id];
      TakeOk(c, By(s.log, Peer(id)), EchoCount(s.echoes, id), c.batch[0], c.batch[1..]);
    } else if e.Write? {
      var c := s.clients[id];
      LogSnoc(s.log, Append(Peer(id), c.held), Peer(id));
      WriteOk(c, By(s.log, Peer(id)), EchoCount(s.echoes, id));
    }
  }

  lemma ReadChunkOk(c: Client, id: nat, file: seq<byte>, log: seq<Append>, n: nat)
    requires c.pc.Echoing? && EchoingOk(c, id, file, log) && c.pc.chunk == [] && c.pc.pos + n <= |file|
    ensures EchoingOk(c.(pc := Echoing(c.pc.pos + n, file[c.pc.pos..c.pc.pos + n], c.pc.sent)), id, file, log)
  {
    assert file[..c.pc.pos + n] == file[..c.pc.pos] + file[c.pc.pos..c.pc.pos + n];
  }

  lemma SendOk(c: Client, id: nat, file: seq<byte>, log: seq<Append>, n: nat)
    requires c.pc.Echoing? && EchoingOk(c, id, file, log) && n <= |c.pc.chunk|
    ensures EchoingOk(c.(pc := Echoing(c.pc.pos, c.pc.chunk[n..], c.pc.sent + c.pc.chunk[..n])), id, file, log)
  {
    assert c.pc.chunk == c.pc.chunk[..n] + c.pc.chunk[n..];
  }

  /** Reading back, sending and unlocking. */
  lemma OwnEchoStep(s: State, e: Event, id: nat)
    requires ClientOk(s, id) && Enabled(s, e) && StepOf(e, id)
    requires e.ReadChunk? || e.Send? || e.Unlock?
    ensures ClientOk(Next(s, e), id)
  {
    var c := s.clients[id];
    if e.ReadChunk? {
      ReadChunkOk(c, id, s.file, s.log, e.n);
    } else if e.Send? {
      SendOk(c, id, s.file, s.log, e.n);
    } else {
      CountSnoc(s.echoes, Echo(id, |s.log| - 1, c.pc.sent), id);
    }
  }

  /** An append by somebody else: the thread cannot be in its critical section. */
  lemma OtherWrite(s: State, e: Event, id: nat)
    requires LockOk(s) && ClientOk(s, id) && Enabled(s, e) && !StepOf(e, id)
    requires e.Write? || e.ClockWrite?
    ensures ClientOk(Next(s, e), id)
  {
    var a := if e.Write? then Append(Peer(e.id), s.clients[e.id].held) else Append(Clock, s.clock.text);
    LogSnoc(s.log, a, Peer(id));
  }

  lemma OtherStep(s: State, e: Event, id: nat)
    requires ClientOk(s, id) && Enabled(s, e) && !StepOf(e, id)
    requires !e.Write? && !e.ClockWrite?
    ensures ClientOk(Next(s, e), id)
  {
    if e.Unlock? {
      CountSnoc(s.echoes, Next(s, e).echoes[|s.echoes|], id);
    }
  }

  lemma ClientStep(s: State, e: Event, id: nat)
    requires LockOk(s) && ClientOk(s, id) && Enabled(s, e)
    ensures ClientOk(Next(s, e), id)
  {
    if StepOf(e, id) {
      if e.ReadChunk? || e.Send? || e.Unlock? {
        OwnEchoStep(s, e, id);
      } else {
        OwnStep(s, e, id);
      }
    } else if e.Write? || e.ClockWrite? {
      OtherWrite(s, e, id);
    } else {
      OtherStep(s, e, id);
    }
  }

  lemma EchoKept(base: seq<byte>, log: seq<Append>, log': seq<Append>, e: Echo)
    requires EchoOk(base, log, e) && log <= log'
    ensures EchoOk(base, log', e)
  {
    assert log'[..e.own + 1] == log[..e.own + 1];
  }

  /** The echo that an unlock completes is the whole file, and the last append is its own. */
  lemma EchoDone(s: State, id: nat)
    requires FileOk(s) && ClientOk(s, id) && Enabled(s, Unlock(id))
    ensures s.log != [] && EchoOk(s.base, s.log, Echo(id, |s.log| - 1, s.clients[id].pc.sent))
  {
    assert s.log[..|s.log|] == s.log && s.file[..|s.file|] == s.file;
    assert s.clients[id].pc.sent + [] == s.clients[id].pc.sent;
  }

  lemma EchoesUnlock(s: State, id: nat)
    requires LockOk(s) && FileOk(s) && EchoesOk(s) && ClientOk(s, id) && Enabled(s, Unlock(id))
    ensures EchoesOk(Next(s, Unlock(id)))
  {
    EchoDone(s, id);
    EchoesSnoc(s, id, Echo(id, |s.log| - 1, s.clients[id].pc.sent));
  }

  lemma EchoesSnoc(s: State, id: nat, e: Echo)
    requires EchoesOk(s) && EchoOk(s.base, s.log, e) && e.own == |s.log| - 1
    requires id in s.clients && s.clients[id].pc.Echoing?
    ensures forall i :: 0 <= i < |s.echoes + [e]| ==> EchoOk(s.base, s.log, (s.echoes + [e])[i])
    ensures forall i, j :: 0 <= i < j < |s.echoes + [e]| ==> (s.echoes + [e])[i].own < (s.echoes + [e])[j].own
  {
  }

  lemma EchoesStep(s: State, e: Event)
    requires EchoesOk(s) && Enabled(s, e) && !e.Unlock?
    ensures EchoesOk(Next(s, e))
  {
    var s' := Next(s, e);
    assert s.log <= s'.log;
    forall i | 0 <= i < |s.echoes| ensures EchoOk(s'.base, s'.log, s'.echoes[i]) {
      EchoKept(s.base, s.log, s'.log, s.echoes[i]);
    }
  }

  lemma InvStep(s: State, e: Event)
    requires Inv(s) && Enabled(s, e)
    ensures Inv(Next(s, e))
  {
    LockStep(s, e);
    FileStep(s, e);
    if e.Unlock? {
      EchoesUnlock(s, e.id);
    } else {
      EchoesStep(s, e);
    }
    forall id ensures ClientOk(Next(s, e), id) {
      ClientStep(s, e, id);
    }
  }

  // ---- what it means ----

  ghost predicate IsRun(base: seq<byte>, events: seq<Event>, states: seq<State>) {
    && |states| == |events| + 1 && states[0] == Start(base)
    && forall i :: 0 <= i < |events| ==> Enabled(states[i], events[i]) && states[i + 1] == Next(states[i], events[i])
  }

  lemma {:induction false} RunKeepsInv(base: seq<byte>, events: seq<Event>, states: seq<State>, i: nat)
    requires IsRun(base, events, states) && i <= |events|
    ensures Inv(states[i]) && states[i].base == base
  {
    if i > 0 {
      RunKeepsInv(base, events, states, i - 1);
      InvStep(states[i - 1], events[i - 1]);
    }
  }

  lemma {:induction false} ContentsPrefix(log: seq<Append>, j: nat)
    requires j <= |log|
    ensures Contents(log[..j]) <= Contents(log)
  {
    if j == |log| {
      assert log[..j] == log;
    } else {
      ContentsPrefix(log[..|log| - 1], j);
      assert log[..|log| - 1][..j] == log[..j];
    }
  }

  /** Each echo is the file just after its own packet went in, so it ends with that packet. */
  lemma EchoEndsInOwnPacket(s: State, i: nat) returns (front: seq<byte>)
    requires Inv(s) && i < |s.echoes|
    ensures s.echoes[i].own < |s.log| && s.log[s.echoes[i].own].who == Peer(s.echoes[i].id)
    ensures s.echoes[i].bytes == front + s.log[s.echoes[i].own].bytes
  {
    var own := s.echoes[i].own;
    front := s.base + Contents(s.log[..own]);
    LogSnoc(s.log[..own], s.log[own], Clock);
    assert s.log[..own + 1] == s.log[..own] + [s.log[own]];
  }

  /** Earlier echoes are prefixes of later ones, and all are prefixes of the file. */
  lemma EchoesNest(s: State, i: nat, j: nat)
    requires Inv(s) && i < j < |s.echoes|
    ensures s.echoes[i].bytes <= s.echoes[j].bytes <= s.file
  {
    var a, b := s.echoes[i].own, s.echoes[j].own;
    assert EchoOk(s.base, s.log, s.echoes[i]) && EchoOk(s.base, s.log, s.echoes[j]);
    ContentsPrefix(s.log[..b + 1], a + 1);
    assert s.log[..b + 1][..a + 1] == s.log[..a + 1];
    ContentsPrefix(s.log, b + 1);
  }

  /** What the recv calls of connection `id` have returned. */
  function Received(events: seq<Event>, id: nat): seq<byte> {
    if events == [] then []
    else
      var e := events[|events| - 1];
      Received(events[..|events| - 1], id) + if e.Recv? && e.id == id then e.batch else []
  }

  /** The bytes of connection `id` that have been processed, then those that wait in its buffer. */
  function Ledger(s: State, id: nat): seq<byte> {
    if id in s.clients then s.clients[id].taken + s.clients[id].batch else []
  }

  /** Only recv adds to them, and nothing is lost or reordered. */
  lemma LedgerStep(s: State, e: Event, id: nat)
    requires Enabled(s, e)
    ensures Ledger(Next(s, e), id) == Ledger(s, id) + if e.Recv? && e.id == id then e.batch else []
  {
    if e == TakeNext(id) {
      var c := s.clients[id];
      assert c.batch == [c.batch[0]] + c.batch[1..];
    }
  }

  lemma {:induction false} LedgerIsReceived(base: seq<byte>, events: seq<Event>, states: seq<State>, k: nat, id: nat)
    requires IsRun(base, events, states) && k <= |events|
    ensures Ledger(states[k], id) == Received(events[..k], id)
  {
    if k > 0 {
      LedgerIsReceived(base, events, states, k - 1, id);
      LedgerStep(states[k - 1], events[k - 1], id);
      assert events[..k][..k - 1] == events[..k - 1];
    }
  }

  /** Each client's packets reach the file in the order received, each once, and each is echoed once. */
  lemma SendingOrder(base: seq<byte>, events: seq<Event>, states: seq<State>, k: nat, id: nat)
    requires IsRun(base, events, states) && k <= |events|
    ensures By(states[k].log, Peer(id)) <= Lines(Received(events[..k], id))
    ensures id in states[k].clients && states[k].clients[id].pc.Reading? && states[k].clients[id].batch == [] ==>
              By(states[k].log, Peer(id)) == Lines(Received(events[..k], id))
              && EchoCount(states[k].echoes, id) == |Lines(Received(events[..k], id))|
  {
    RunKeepsInv(base, events, states, k);
    LedgerIsReceived(base, events, states, k, id);
    AppendsOfLedger(states[k], id);
  }

  lemma AppendsOfLedger(s: State, id: nat)
    requires ClientOk(s, id)
    ensures By(s.log, Peer(id)) <= Lines(Ledger(s, id))
    ensures id in s.clients && s.clients[id].pc.Reading? && s.clients[id].batch == [] ==>
              By(s.log, Peer(id)) == Lines(Ledger(s, id)) && EchoCount(s.echoes, id) == |Lines(Ledger(s, id))|
  {
    if id in s.clients {
      var c := s.clients[id];
      SplitOn(c.taken, c.batch);
      assert c.batch == [] ==> c.taken + c.batch == c.taken;
    }
  }

  /** The timestamps made so far. */
  function Stamps(events: seq<Event>): seq<seq<byte>> {
    if events == [] then []
    else
      var e := events[|events| - 1];
      Stamps(events[..|events| - 1]) + if e.Tick? then [e.text] else []
  }

  /** The one that is not in the file yet. */
  function Unwritten(clock: ClockPc): seq<seq<byte>> {
    if clock.ClockWaiting? || clock.ClockWriting? then [clock.text] else []
  }

  lemma StampStep(s: State, e: Event)
    requires Enabled(s, e)
    ensures By(Next(s, e).log, Clock) + Unwritten(Next(s, e).clock)
            == By(s.log, Clock) + Unwritten(s.clock) + if e.Tick? then [e.text] else []
  {
    if e.Write? {
      LogSnoc(s.log, Append(Peer(e.id), s.clients[e.id].held), Clock);
    } else if e.ClockWrite? {
      LogSnoc(s.log, Append(Clock, s.clock.text), Clock);
    }
  }

  /** Every timestamp reaches the file, in order and unchanged, but for one that still waits to be written. */
  lemma {:induction false} StampsWritten(base: seq<byte>, events: seq<Event>, states: seq<State>, k: nat)
    requires IsRun(base, events, states) && k <= |events|
    ensures By(states[k].log, Clock) + Unwritten(states[k].clock) == Stamps(events[..k])
  {
    if k > 0 {
      StampsWritten(base, events, states, k - 1);
      StampStep(states[k - 1], events[k - 1]);
      assert events[..k][..k - 1] == events[..k - 1];
    }
  }

  /** The whole promise, at any moment of any interleaving. */
  lemma ServerPromise(base: seq<byte>, events: seq<Event>, states: seq<State>, k: nat)
    requires IsRun(base, events, states) && k <= |events|
    ensures var s := states[k];
            && s.file == base + Contents(s.log)
            && (forall i, j :: 0 <= i < j < |s.echoes| ==> s.echoes[i].bytes <= s.echoes[j].bytes)
            && (forall i :: 0 <= i < |s.echoes| ==> EchoOk(base, s.log, s.echoes[i]))
            && (forall id :: By(s.log, Peer(id)) <= Lines(Received(events[..k], id)))
            && By(s.log, Clock) + Unwritten(s.clock) == Stamps(events[..k])
  {
    RunKeepsInv(base, events, states, k);
    StampsWritten(base, events, states, k);
    var s := states[k];
    forall i, j | 0 <= i < j < |s.echoes| ensures s.echoes[i].bytes <= s.echoes[j].bytes {
      EchoesNest(s, i, j);
    }
    forall id ensures By(s.log, Peer(id)) <= Lines(Received(events[..k], id)) {
      SendingOrder(base, events, states, k, id);
    }
  }

  // ---- progress ----

  /** Whose step an event is. */
  function Actor(e: Event): Who {
    if e.Tick? || e.ClockLock? || e.ClockWrite? || e.ClockUnlock? then Clock else Peer(e.id)
  }

  /** An event that the thread holding the mutex can take next. */
  lemma HolderMoves(s: State) returns (e: Event)
    requires Inv(s) && s.owner.Held?
    ensures Enabled(s, e) && Actor(e) == s.owner.who
  {
    match s.owner.who
    case Clock => e := if s.clock.ClockWriting? then ClockWrite else ClockUnlock;
    case Peer(id) =>
      assert ClientOk(s, id);
      var pc := s.clients[id].pc;
      e := if pc.Writing? then Write(id)
           else if pc.chunk != [] then Send(id, |pc.chunk|)
           else if pc.pos < |s.file| then ReadChunk(id, 1)
           else Unlock(id);
  }

  /** A thread that has something to do can go on, or waits for one that can. */
  lemma NoDeadlock(s: State, id: nat) returns (e: Event)
    requires Inv(s) && id in s.clients && !(s.clients[id].pc.Reading? && s.clients[id].batch == [])
    ensures Enabled(s, e) && !e.Connect? && !e.Recv? && !e.Tick?
    ensures Actor(e) == Peer(id) || s.owner == Held(Actor(e))
  {
    if s.clients[id].pc.Reading? {
      e := TakeNext(id);
    } else if s.owner.Nobody? {
      e := Lock(id);
    } else {
      e := HolderMoves(s);
    }
  }

  /** The same for the timestamp thread. */
  lemma ClockGoesOn(s: State) returns (e: Event)
    requires Inv(s) && !s.clock.Sleeping?
    ensures Enabled(s, e) && !e.Connect? && !e.Recv? && !e.Tick?
    ensures Actor(e) == Clock || s.owner == Held(Actor(e))
  {
    if s.owner.Nobody? {
      e := ClockLock;
    } else {
      e := HolderMoves(s);
    }
  }

  /** In both states the thread of an event is at the same place. */
  predicate SamePlace(s: State, t: State, who: Who) {
    match who
    case Clock => s.clock == t.clock
    case Peer(id) =>
      (id in s.clients <==> id in t.clients) && (id in s.clients ==> s.clients[id] == t.clients[id])
  }

  /** Threads hold each other up at the mutex only: elsewhere what a thread can do depends on it and the file alone. */
  lemma OnlyTheMutexBlocks(s: State, t: State, e: Event)
    requires SamePlace(s, t, Actor(e)) && s.file == t.file
    requires e.Lock? || e.ClockLock? ==> s.owner == t.owner
    ensures Enabled(s, e) <==> Enabled(t, e)
  {
  }

  /** At most so many steps of its own does the holder of the mutex take before it lets the mutex go. */
  function StepsLeft(s: State): nat {
    match s.owner
    case Nobody => 0
    case Held(Clock) => if s.clock.ClockWriting? then 2 else 1
    case Held(Peer(id)) =>
      if id !in s.clients then 0
      else
        match s.clients[id].pc
        case Writing => 2 * (|s.file| + |s.clients[id].held|) + 2
        case Echoing(pos, chunk, _) => if pos <= |s.file| then 2 * (|s.file| - pos) + |chunk| + 1 else 0
        case _ => 0
  }

  lemma StepsLeftWhileHeld(s: State)
    requires Inv(s) && s.owner.Held?
    ensures StepsLeft(s) > 0
  {
    if s.owner.who.Peer? {
      assert ClientOk(s, s.owner.who.id);
    }
  }

  lemma OthersWait(s: State, e: Event)
    requires LockOk(s) && Enabled(s, e) && s.owner.Held? && Actor(e) != s.owner.who
    ensures StepsLeft(Next(s, e)) == StepsLeft(s) && Next(s, e).owner == s.owner
  {
  }

  /** The holder's own steps count down; those of the other threads change neither the count nor the holder. */
  lemma CountDown(s: State, e: Event)
    requires Inv(s) && Enabled(s, e) && s.owner.Held?
    ensures Actor(e) == s.owner.who ==> StepsLeft(Next(s, e)) < StepsLeft(s)
    ensures Actor(e) == s.owner.who && Next(s, e).owner.Held? ==> Next(s, e).owner == s.owner
    ensures Actor(e) != s.owner.who ==> StepsLeft(Next(s, e)) == StepsLeft(s) && Next(s, e).owner == s.owner
  {
    if Actor(e) != s.owner.who {
      OthersWait(s, e);
    } else if s.owner.who.Peer? {
      assert ClientOk(s, s.owner.who.id);
    }
  }

  /** How many of the events from `i` on, before `k`, are steps of `who`. */
  function StepsBy(events: seq<Event>, who: Who, i: nat, k: nat): nat
    requires i <= k <= |events|
  {
    if i == k then 0 else StepsBy(events, who, i, k - 1) + if Actor(events[k - 1]) == who then 1 else 0
  }

  /** The mutex is held from `i` to `k`. */
  ghost predicate HeldThroughout(states: seq<State>, i: nat, k: nat)
    requires i <= k < |states|
  {
    forall j :: i <= j <= k ==> states[j].owner.Held?
  }

  lemma HeldStep(base: seq<byte>, events: seq<Event>, states: seq<State>, i: nat)
    requires IsRun(base, events, states) && i < |events| && states[i].owner.Held? && states[i + 1].owner.Held?
    ensures states[i + 1].owner == states[i].owner
    ensures StepsLeft(states[i + 1]) + (if Actor(events[i]) == states[i].owner.who then 1 else 0)
            <= StepsLeft(states[i])
  {
    RunKeepsInv(base, events, states, i);
    CountDown(states[i], events[i]);
  }

  lemma {:induction false} HolderStays(base: seq<byte>, events: seq<Event>, states: seq<State>, i: nat, k: nat)
    requires IsRun(base, events, states) && i <= k <= |events|
    requires HeldThroughout(states, i, k)
    ensures states[k].owner == states[i].owner
  {
    if i < k {
      HolderStays(base, events, states, i, k - 1);
      HeldStep(base, events, states, k - 1);
    }
  }

  /** A number that each step of `who` makes smaller, and no step greater, is at least the steps of `who`. */
  lemma {:induction false} StepsAddUp(events: seq<Event>, who: Who, left: seq<nat>, i: nat, k: nat)
    requires i <= k <= |events| && |left| == |events| + 1
    requires forall j :: i <= j < k ==> left[j + 1] + (if Actor(events[j]) == who then 1 else 0) <= left[j]
    ensures StepsBy(events, who, i, k) + left[k] <= left[i]
  {
    if i < k {
      StepsAddUp(events, who, left, i, k - 1);
      assert left[k - 1 + 1] + (if Actor(events[k - 1]) == who then 1 else 0) <= left[k - 1];
    }
  }

  lemma HolderCountsDown(base: seq<byte>, events: seq<Event>, states: seq<State>, i: nat, k: nat)
    requires IsRun(base, events, states) && i <= k <= |events|
    requires HeldThroughout(states, i, k)
    ensures StepsBy(events, states[i].owner.who, i, k) + StepsLeft(states[k]) <= StepsLeft(states[i])
  {
    var who, left := states[i].owner.who, seq(|states|, j requires 0 <= j < |states| => StepsLeft(states[j]));
    forall j | i <= j < k ensures left[j + 1] + (if Actor(events[j]) == who then 1 else 0) <= left[j] {
      HolderStays(base, events, states, i, j);
      HeldStep(base, events, states, j);
    }
    StepsAddUp(events, who, left, i, k);
  }

  /**
   * Every critical section ends: whoever holds the mutex can always take a step of its own, and
   * after at most `StepsLeft` of them, however other threads' steps come in between, it has let
   * the mutex go.
   */
  lemma SectionEnds(base: seq<byte>, events: seq<Event>, states: seq<State>, i: nat, k: nat) returns (j: nat)
    requires IsRun(base, events, states) && i <= k <= |events| && states[i].owner.Held?
    requires StepsBy(events, states[i].owner.who, i, k) >= StepsLeft(states[i])
    ensures i < j <= k && states[j].owner.Nobody?
  {
    if HeldThroughout(states, i, k) {
      HolderCountsDown(base, events, states, i, k);
      RunKeepsInv(base, events, states, k);
      StepsLeftWhileHeld(states[k]);
      assert false;
    } else {
      j :| i <= j <= k && !states[j].owner.Held?;
    }
  }

  // ---- every order of packets and timestamps can happen ----

  ghost predicate Reachable(base: seq<byte>, s: State) {
    exists events, states :: IsRun(base, events, states) && states[|events|] == s
  }

  lemma Reach(base: seq<byte>, s: State, e: Event)
    requires Reachable(base, s) && Enabled(s, e)
    ensures Reachable(base, Next(s, e))
  {
    var events, states :| IsRun(base, events, states) && states[|events|] == s;
    var events', states' := events + [e], states + [Next(s, e)];
    assert IsRun(base, events', states') && states'[|events'|] == Next(s, e);
  }

  lemma PutTwice(s: State, id: nat, c: Client, c': Client)
    ensures Put(Put(s, id, c), id, c') == Put(s, id, c')
  {
    assert s.clients[id := c][id := c'] == s.clients[id := c'];
  }

  /** A thread takes in a whole line that it has received. */
  lemma {:induction false} TakeLine(base: seq<byte>, s: State, id: nat, c: Client)
    requires Reachable(base, Put(s, id, c)) && c.pc.Reading? && IsLine(c.batch)
    ensures Reachable(base, Put(s, id, Client(c.taken + c.batch, c.held + c.batch, [], Waiting)))
    decreases |c.batch|
  {
    var b, rest := c.batch[0], c.batch[1..];
    Reach(base, Put(s, id, c), TakeNext(id));
    var c' := Client(c.taken + [b], c.held + [b], rest, if b == NEWLINE then Waiting else Reading);
    PutTwice(s, id, c, c');
    if rest == [] {
      assert c.batch == [b];
    } else {
      assert b in c.batch[..|c.batch| - 1];
      assert rest[..|rest| - 1] == c.batch[..|c.batch| - 1][1..];
      TakeLine(base, s, id, c');
      assert (c.taken + [b]) + rest == c.taken + c.batch && (c.held + [b]) + rest == c.held + c.batch;
    }
  }

  /** A thread reads the file to its end, and sends what it reads. */
  lemma {:induction false} ReadToEnd(base: seq<byte>, s: State, id: nat, c: Client)
    requires Reachable(base, Put(s, id, c)) && c.pc.Echoing? && c.pc.chunk == [] && c.pc.pos <= |s.file|
    ensures exists sent :: Reachable(base, Put(s, id, c.(pc := Echoing(|s.file|, [], sent))))
    decreases |s.file| - c.pc.pos
  {
    var pos, left := c.pc.pos, |s.file| - c.pc.pos;
    if left == 0 {
      assert c == c.(pc := Echoing(|s.file|, [], c.pc.sent));
    } else {
      var n := if left < FILE_BUF_SIZE then left else FILE_BUF_SIZE;
      Reach(base, Put(s, id, c), ReadChunk(id, n));
      var chunk := s.file[pos..pos + n];
      var c1 := c.(pc := Echoing(pos + n, chunk, c.pc.sent));
      PutTwice(s, id, c, c1);
      Reach(base, Put(s, id, c1), Send(id, n));
      var c2 := c.(pc := Echoing(pos + n, [], c.pc.sent + chunk));
      assert chunk[..n] == chunk && chunk[n..] == [];
      PutTwice(s, id, c1, c2);
      ReadToEnd(base, s, id, c2);
    }
  }

  /** Nobody is in the middle of anything. */
  ghost predicate Quiet(s: State) {
    && s.owner.Nobody? && s.clock.Sleeping?
    && forall id :: id in s.clients ==>
         s.clients[id].pc.Reading? && s.clients[id].batch == [] && s.clients[id].held == []
  }

  /** A new or an old connection sends a line, which comes in as one batch, and gets its echo. */
  lemma PacketHappens(base: seq<byte>, s: State, id: nat, line: seq<byte>) returns (s': State)
    requires Reachable(base, s) && Quiet(s) && IsLine(line)
    ensures Reachable(base, s') && Quiet(s') && s'.log == s.log + [Append(Peer(id), line)]
  {
    var taken := if id in s.clients then s.clients[id].taken else [];
    var idle := Client(taken, [], [], Reading);
    if id !in s.clients {
      Reach(base, s, Connect(id));
    } else {
      assert s.clients == s.clients[id := idle];
    }
    Reach(base, Put(s, id, idle), Recv(id, line));
    PutTwice(s, id, idle, idle.(batch := line));
    TakeLine(base, s, id, idle.(batch := line));
    assert [] + line == line;
    s' := SectionHappens(base, s, id, Client(taken + line, line, [], Waiting));
  }

  /** The state in which client `id` holds the mutex and has written its packet. */
  function WrittenBy(s: State, id: nat, bytes: seq<byte>): State {
    s.(owner := Held(Peer(id)), file := s.file + bytes, log := s.log + [Append(Peer(id), bytes)])
  }

  lemma LockAndWrite(base: seq<byte>, s: State, id: nat, c: Client)
    requires Reachable(base, Put(s, id, c)) && s.owner.Nobody? && c.pc.Waiting?
    ensures Reachable(base, Put(WrittenBy(s, id, c.held), id, c.(pc := Echoing(0, [], []))))
  {
    var locked, c' := s.(owner := Held(Peer(id))), c.(pc := Writing);
    Reach(base, Put(s, id, c), Lock(id));
    PutTwice(locked, id, c, c');
    assert Next(Put(s, id, c), Lock(id)) == Put(locked, id, c');
    Reach(base, Put(locked, id, c'), Write(id));
    PutTwice(WrittenBy(s, id, c.held), id, c', c.(pc := Echoing(0, [], [])));
  }

  /** From the lock to the unlock. */
  lemma SectionHappens(base: seq<byte>, s: State, id: nat, c: Client) returns (s': State)
    requires Reachable(base, Put(s, id, c)) && Quiet(s) && c.pc.Waiting? && c.batch == []
    ensures Reachable(base, s') && Quiet(s') && s'.log == s.log + [Append(Peer(id), c.held)]
  {
    LockAndWrite(base, s, id, c);
    var written, c1 := WrittenBy(s, id, c.held), c.(pc := Echoing(0, [], []));
    ReadToEnd(base, written, id, c1);
    var sent :| Reachable(base, Put(written, id, c1.(pc := Echoing(|written.file|, [], sent))));
    var last := Put(written, id, c1.(pc := Echoing(|written.file|, [], sent)));
    Reach(base, last, Unlock(id));
    s' := Next(last, Unlock(id));
  }

  lemma StampHappens(base: seq<byte>, s: State, text: seq<byte>) returns (s': State)
    requires Reachable(base, s) && Quiet(s)
    ensures Reachable(base, s') && Quiet(s') && s'.log == s.log + [Append(Clock, text)]
  {
    Reach(base, s, Tick(text));
    var s1 := Next(s, Tick(text));
    Reach(base, s1, ClockLock);
    var s2 := Next(s1, ClockLock);
    Reach(base, s2, ClockWrite);
    var s3 := Next(s2, ClockWrite);
    Reach(base, s3, ClockUnlock);
    s' := Next(s3, ClockUnlock);
  }

  /** Lines from any connections and timestamps, in any order: there is a run that appends exactly these. */
  lemma {:induction false} AnyOrderHappens(base: seq<byte>, log: seq<Append>) returns (s: State)
    requires forall i :: 0 <= i < |log| ==> log[i].who.Peer? ==> IsLine(log[i].bytes)
    ensures Reachable(base, s) && Quiet(s) && s.log == log
  {
    if log == [] {
      s := Start(base);
      var none: seq<Event> := [];
      assert IsRun(base, none, [s]) && [s][|none|] == s;
    } else {
      var log0, a := log[..|log| - 1], log[|log| - 1];
      s := AnyOrderHappens(base, log0);
      assert log == log0 + [a];
      match a.who
      case Peer(id) => s := PacketHappens(base, s, id, a.bytes);
      case Clock => s := StampHappens(base, s, a.bytes);
    }
  }
}
