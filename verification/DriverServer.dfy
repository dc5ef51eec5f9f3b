/**
 * The server of `aesdsocket.c` in its device build: packets go to the character device of
 * `main.c`, and packets that parse as a seek command become an ioctl on it. The server is the
 * device's only user, and handles each packet while it holds the mutex.
 */
module DriverServer {
  import opened Bytes
  import opened Window
  import opened Ring
  import opened DeviceModel
  import opened DeviceReads
  import opened Device
  import Framing

  /** Recognises "AESDCHAR_IOCSEEKTO:X,Y" and gives X and Y. */
  type Parser = seq<byte> -> Option<Place>

  predicate EndsInNewline(p: seq<byte>) {
    p != [] && p[|p| - 1] == NEWLINE
  }

  /** A command ends with its line: bytes behind that newline make no difference. */
  ghost predicate ReadsFront(parse: Parser) {
    forall p: seq<byte>, q: seq<byte> {:trigger parse(p + q)} ::
      EndsInNewline(p) && parse(p).Some? ==> parse(p + q) == parse(p)
  }

  /** The device after one packet, what the connection's buffer keeps, what is sent back, and the open descriptors. */
  datatype Handled = Handled(dev: Dev, held: seq<byte>, echo: Option<seq<byte>>, open: nat)

  function BufSize(i: nat): nat {
    Framing.FILE_BUF_SIZE
  }

  /** What reading on from `pos`, a buffer at a time, sends back. */
  function EchoFrom(live: seq<seq<byte>>, pos: nat): seq<byte> {
    ReadAll(live, pos, BufSize, 0)
  }

  lemma EchoIsSuffix(live: seq<seq<byte>>, pos: nat)
    ensures EchoFrom(live, pos) == if pos <= |Flatten(live)| then Flatten(live)[pos..] else []
  {
    ReadAllIsSuffix(live, pos, BufSize, 0);
  }

  /**
   * One packet, when `open` of the `fds` descriptors that the process can have for the device are
   * in use. A refused seek leaves the packet in the buffer, in front of the next one, and its
   * descriptor open; without a free descriptor nothing is done, and the packet stays as well.
   */
  function Handle(d: Dev, packet: seq<byte>, parse: Parser, open: nat, fds: nat): Handled {
    if open >= fds then Handled(d, packet, None, open)
    else
      match parse(packet)
      case Some(to) =>
        var s := SeekToStep(d.Live(), 0, AESDCHAR_IOCSEEKTO, to, false, true);
        if s.reply.Done? then Handled(d, [], Some(EchoFrom(d.Live(), s.pos)), open)
        else Handled(d, packet, None, open + 1)
      case None =>
        var d' := WriteStep(d, packet, GOOD).dev;
        Handled(d', [], Some(EchoFrom(d'.Live(), 0)), open)
  }

  // ---- the same, on the device object ----

  /** One read into file_buf. */
  method ReadOn(dev: Device, f: File) returns (bytes: seq<byte>)
    requires dev.Valid() && dev.Fits() && f.fPos < LOFF_MAX
    modifies f
    ensures f.fPos == old(f.fPos) + |bytes| < LOFF_MAX
    ensures bytes != [] ==> f.fPos <= |Flatten(dev.Live())| && bytes == Flatten(dev.Live())[old(f.fPos)..f.fPos]
    ensures bytes == [] ==> f.fPos >= |Flatten(dev.Live())|
  {
    ReadIsSlice(dev.Live(), f.fPos, Framing.FILE_BUF_SIZE);
    var r := dev.Read(f, Framing.FILE_BUF_SIZE, false, true);
    bytes := r.bytes;
  }

  lemma Extend<T>(all: seq<T>, a: nat, b: nat, c: nat)
    requires a <= b <= c <= |all|
    ensures all[a..b] + all[b..c] == all[a..c]
  {
  }

  /** The read loop of lines 226-240 and 271-285. */
  method Drain(dev: Device, f: File) returns (sent: seq<byte>)
    requires dev.Valid() && dev.Fits() && f.fPos < LOFF_MAX
    modifies f
    ensures sent == old(EchoFrom(dev.Live(), f.fPos))
  {
    ghost var start, all := f.fPos, Flatten(dev.Live());
    EchoIsSuffix(dev.Live(), start);
    sent := [];
    while true
      invariant f.fPos < LOFF_MAX
      invariant if start <= |all| then start <= f.fPos <= |all| && sent == all[start..f.fPos]
                else sent == [] && f.fPos == start
      decreases |all| - f.fPos
    {
      ghost var mid := f.fPos;
      var bytes := ReadOn(dev, f);
      if bytes == [] {
        break;
      }
      Extend(all, start, mid, f.fPos);
      sent := sent + bytes;
    }
  }

  /** Lines 207-247: a seek command. */
  method SeekAndSend(dev: Device, to: Place) returns (echo: Option<seq<byte>>)
    requires dev.Valid() && dev.Fits()
    ensures var s := SeekToStep(dev.Live(), 0, AESDCHAR_IOCSEEKTO, to, false, true);
            echo == if s.reply.Done? then Some(EchoFrom(dev.Live(), s.pos)) else None
  {
    var f := new File();
    var r := dev.Ioctl(f, AESDCHAR_IOCSEEKTO, to, false, true);
    if r.Fail? {
      return None;
    }
    var sent := Drain(dev, f);
    echo := Some(sent);
  }

  /** Lines 252-289: any other packet. */
  method WriteAndSend(dev: Device, packet: seq<byte>) returns (echo: seq<byte>)
    requires dev.Valid() && |Flatten(WriteStep(dev.Abs(), packet, GOOD).dev.Live())| < LOFF_MAX
    modifies dev, dev.ring, dev.ring.entry
    ensures dev.Valid() && dev.Abs() == WriteStep(old(dev.Abs()), packet, GOOD).dev
    ensures echo == EchoFrom(dev.Live(), 0)
  {
    var _ := dev.Write(packet, GOOD);
    var f := new File();
    echo := Drain(dev, f);
  }

  /** One packet; `kept` tells whether it stays in the buffer, `open'` how many descriptors are in use after it. */
  method HandlePacket(dev: Device, packet: seq<byte>, parse: Parser, open: nat, fds: nat)
    returns (echo: Option<seq<byte>>, kept: bool, open': nat)
    requires dev.Valid() && dev.Fits()
    requires |Flatten(Handle(dev.Abs(), packet, parse, open, fds).dev.Live())| < LOFF_MAX
    modifies dev, dev.ring, dev.ring.entry
    ensures dev.Valid()
    ensures Handled(dev.Abs(), if kept then packet else [], echo, open')
            == Handle(old(dev.Abs()), packet, parse, open, fds)
  {
    if open >= fds {
      return None, true, open;
    }
    var command := parse(packet);
    if command.Some? {
      echo := SeekAndSend(dev, command.value);
      kept := echo.None?;
      open' := if kept then open + 1 else open;
    } else {
      var sent := WriteAndSend(dev, packet);
      echo, kept, open' := Some(sent), false, open;
    }
  }

  // ---- whole runs ----

  /** The device, each connection's packet buffer, the packets written so far, and the descriptors in use. */
  datatype State = State(dev: Dev, held: map<nat, seq<byte>>, written: seq<seq<byte>>, open: nat) {
    function Held(id: nat): seq<byte> {
      if id in held then held[id] else []
    }
  }

  const START := State(FRESH, map[], [], 0)

  /** Connection `id` has received another line, and handles its buffer under the mutex. */
  datatype Arrival = Arrival(id: nat, line: seq<byte>)

  function Next(s: State, a: Arrival, parse: Parser, fds: nat): State {
    var packet := s.Held(a.id) + a.line;
    var h := Handle(s.dev, packet, parse, s.open, fds);
    var writes := s.open < fds && parse(packet).None?;
    State(h.dev, s.held[a.id := h.held], if writes then s.written + [packet] else s.written, h.open)
  }

  function Run(arrivals: seq<Arrival>, parse: Parser, fds: nat): State {
    if arrivals == [] then START
    else Next(Run(arrivals[..|arrivals| - 1], parse, fds), arrivals[|arrivals| - 1], parse, fds)
  }

  predicate LinesArrive(arrivals: seq<Arrival>) {
    forall i :: 0 <= i < |arrivals| ==> IsLine(arrivals[i].line)
  }

  /** The state of the run, with the device in the object. */
  ghost predicate Serves(dev: Device, held: map<nat, seq<byte>>, written: seq<seq<byte>>, open: nat, s: State)
    reads dev, dev.ring, dev.ring.entry
  {
    dev.Valid() && State(dev.Abs(), held, written, open) == s
  }

  /** The live bytes can be addressed at every moment of the run. */
  ghost predicate Servable(arrivals: seq<Arrival>, parse: Parser, fds: nat) {
    forall k :: 0 <= k <= |arrivals| ==> |Flatten(Run(arrivals[..k], parse, fds).dev.Live())| < LOFF_MAX
  }

  method ServeOne(dev: Device, held: map<nat, seq<byte>>, ghost written: seq<seq<byte>>, open: nat, a: Arrival,
                  parse: Parser, fds: nat, ghost s: State)
    returns (held': map<nat, seq<byte>>, ghost written': seq<seq<byte>>, open': nat, echo: Option<seq<byte>>)
    requires Serves(dev, held, written, open, s)
    requires |Flatten(s.dev.Live())| < LOFF_MAX && |Flatten(Next(s, a, parse, fds).dev.Live())| < LOFF_MAX
    modifies dev, dev.ring, dev.ring.entry
    ensures Serves(dev, held', written', open', Next(s, a, parse, fds))
    ensures echo == EchoTo(s, a, parse, fds)
  {
    var packet := (if a.id in held then held[a.id] else []) + a.line;
    var kept;
    echo, kept, open' := HandlePacket(dev, packet, parse, open, fds);
    held' := held[a.id := if kept then packet else []];
    written' := if open < fds && parse(packet).None? then written + [packet] else written;
  }

  /** What an arrival in state `s` is sent back. */
  function EchoTo(s: State, a: Arrival, parse: Parser, fds: nat): Option<seq<byte>> {
    Handle(s.dev, s.Held(a.id) + a.line, parse, s.open, fds).echo
  }

  /** What is sent back for each of the first `k` arrivals. */
  function Echoes(arrivals: seq<Arrival>, k: nat, parse: Parser, fds: nat): (r: seq<Option<seq<byte>>>)
    requires k <= |arrivals|
    ensures |r| == k
  {
    if k == 0 then []
    else Echoes(arrivals, k - 1, parse, fds) + [EchoTo(Run(arrivals[..k - 1], parse, fds), arrivals[k - 1], parse, fds)]
  }

  lemma RunSnoc(arrivals: seq<Arrival>, k: nat, parse: Parser, fds: nat)
    requires k < |arrivals|
    ensures Run(arrivals[..k + 1], parse, fds) == Next(Run(arrivals[..k], parse, fds), arrivals[k], parse, fds)
  {
    assert arrivals[..k + 1][..k] == arrivals[..k];
  }

  /** The server on the device object: any arrivals on any connections, from a device just loaded. */
  method Serve(dev: Device, arrivals: seq<Arrival>, parse: Parser, fds: nat)
    returns (held: map<nat, seq<byte>>, open: nat, echoes: seq<Option<seq<byte>>>)
    requires dev.Valid() && dev.Abs() == FRESH && Servable(arrivals, parse, fds)
    modifies dev, dev.ring, dev.ring.entry
    ensures Serves(dev, held, Run(arrivals, parse, fds).written, open, Run(arrivals, parse, fds))
    ensures echoes == Echoes(arrivals, |arrivals|, parse, fds)
  {
    held, open, echoes := map[], 0, [];
    ghost var s, written: seq<seq<byte>> := START, [];
    var k := 0;
    assert arrivals[..0] == [] && arrivals[..|arrivals|] == arrivals;
    while k < |arrivals|
      invariant k <= |arrivals| && s == Run(arrivals[..k], parse, fds)
      invariant Serves(dev, held, written, open, s)
      invariant echoes == Echoes(arrivals, k, parse, fds)
    {
      RunSnoc(arrivals, k, parse, fds);
      assert |Flatten(Run(arrivals[..k], parse, fds).dev.Live())| < LOFF_MAX;
      assert |Flatten(Run(arrivals[..k + 1], parse, fds).dev.Live())| < LOFF_MAX;
      var echo;
      held, written, open, echo := ServeOne(dev, held, written, open, arrivals[k], parse, fds, s);
      s := Next(s, arrivals[k], parse, fds);
      echoes := echoes + [echo];
      k := k + 1;
    }
  }

  /** What connection `id` has sent, in order. */
  function LinesFrom(arrivals: seq<Arrival>, id: nat): seq<seq<byte>> {
    if arrivals == [] then []
    else
      var a := arrivals[|arrivals| - 1];
      LinesFrom(arrivals[..|arrivals| - 1], id) + if a.id == id then [a.line] else []
  }

  lemma {:induction false} ArrivalIsSent(arrivals: seq<Arrival>, i: nat) returns (k: nat)
    requires i < |arrivals|
    ensures k < |LinesFrom(arrivals, arrivals[i].id)|
    ensures LinesFrom(arrivals, arrivals[i].id)[k] == arrivals[i].line
  {
    if i < |arrivals| - 1 {
      k := ArrivalIsSent(arrivals[..|arrivals| - 1], i);
    } else {
      k := |LinesFrom(arrivals[..i], arrivals[i].id)|;
    }
  }

  /** The packets that connection `id` has handled. */
  function PacketsFrom(arrivals: seq<Arrival>, id: nat, parse: Parser, fds: nat): seq<seq<byte>> {
    if arrivals == [] then []
    else
      var before, a := arrivals[..|arrivals| - 1], arrivals[|arrivals| - 1];
      PacketsFrom(before, id, parse, fds)
      + if a.id == id then [Run(before, parse, fds).Held(id) + a.line] else []
  }

  /** Which of them it has kept. */
  function KeptBy(arrivals: seq<Arrival>, id: nat, parse: Parser, fds: nat): set<nat> {
    if arrivals == [] then {}
    else
      var before, a := arrivals[..|arrivals| - 1], arrivals[|arrivals| - 1];
      KeptBy(before, id, parse, fds)
      + if a.id == id && Run(arrivals, parse, fds).Held(id) != [] then {|LinesFrom(before, id)|} else {}
  }

  /** A packet is kept as a whole or not at all, and a connection leaves the other buffers alone. */
  lemma HeldStep(s: State, a: Arrival, id: nat, parse: Parser, fds: nat)
    ensures a.id == id ==>
              Next(s, a, parse, fds).Held(id) == [] || Next(s, a, parse, fds).Held(id) == s.Held(id) + a.line
    ensures a.id != id ==> Next(s, a, parse, fds).Held(id) == s.Held(id)
  {
  }

  /** The buffers of a run are those of the framing, and so are the packets. */
  lemma {:induction false} RunFrames(arrivals: seq<Arrival>, id: nat, parse: Parser, fds: nat)
    ensures var kept := KeptBy(arrivals, id, parse, fds);
            && PacketsFrom(arrivals, id, parse, fds) == Framing.Packets(LinesFrom(arrivals, id), kept)
            && Run(arrivals, parse, fds).Held(id) == Framing.Left(LinesFrom(arrivals, id), kept)
  {
    if arrivals != [] {
      var before, a := arrivals[..|arrivals| - 1], arrivals[|arrivals| - 1];
      RunFrames(before, id, parse, fds);
      HeldStep(Run(before, parse, fds), a, id, parse, fds);
      var lines, kept := LinesFrom(before, id), KeptBy(before, id, parse, fds);
      if a.id == id {
        var more := if Run(arrivals, parse, fds).Held(id) != [] then {|lines|} else {};
        Framing.KeptOfLines(lines, kept, more);
        KeptBefore(before, id, parse, fds);
        Framing.PacketsSnoc(lines, a.line, kept + more);
      } else {
        assert lines + [] == lines && kept + {} == kept;
        assert PacketsFrom(before, id, parse, fds) + [] == PacketsFrom(before, id, parse, fds);
      }
    }
  }

  lemma {:induction false} KeptBefore(arrivals: seq<Arrival>, id: nat, parse: Parser, fds: nat)
    ensures forall k :: k in KeptBy(arrivals, id, parse, fds) ==> k < |LinesFrom(arrivals, id)|
  {
    if arrivals != [] {
      KeptBefore(arrivals[..|arrivals| - 1], id, parse, fds);
    }
  }

  /**
   * At any moment, and whatever the lock order, each connection has handed on the first packets
   * that framing makes of its stream, allocation failures included, some of them behind what a
   * refused seek has left in the buffer. So every arrival is a line, and they are the first lines.
   */
  lemma StreamsArriveAsLines(arrivals: seq<Arrival>, streams: map<nat, seq<byte>>, limits: nat -> nat,
                             parse: Parser, fds: nat)
    requires forall i :: 0 <= i < |arrivals| ==> arrivals[i].id in streams
    requires forall id :: id in streams ==>
               PacketsFrom(arrivals, id, parse, fds)
               <= Framing.Feed(streams[id], limits(id), KeptBy(arrivals, id, parse, fds)).packets
    ensures LinesArrive(arrivals)
    ensures forall id :: id in streams ==> LinesFrom(arrivals, id) <= Lines(streams[id])
  {
    forall id | id in streams ensures LinesFrom(arrivals, id) <= Lines(streams[id]) {
      var kept := KeptBy(arrivals, id, parse, fds);
      Framing.PacketsArePrefix(streams[id], limits(id), kept);
      RunFrames(arrivals, id, parse, fds);
      Framing.PacketsDetermine(LinesFrom(arrivals, id), Lines(streams[id]), kept);
    }
    forall i | 0 <= i < |arrivals| ensures IsLine(arrivals[i].line) {
      var id := arrivals[i].id;
      var k := ArrivalIsSent(arrivals, i);
      SplitShape(streams[id]);
      assert Lines(streams[id])[k] == arrivals[i].line;
    }
  }

  /**
   * The packet buffer of a connection after any run: it holds what the connection keeps, is the least
   * of 1024, 2048, ... that the longest packet so far needs, what was kept included, and no
   * realloc fails unless that size is beyond what the allocator gives.
   */
  lemma DeviceBufferFits(arrivals: seq<Arrival>, id: nat, parse: Parser, fds: nat, limit: nat)
    requires LinesArrive(arrivals)
    ensures var kept, packets := KeptBy(arrivals, id, parse, fds), PacketsFrom(arrivals, id, parse, fds);
            var c := Framing.Feed(Flatten(LinesFrom(arrivals, id)), limit, kept);
            && Framing.FitsBuffer(c, Framing.Longest(packets), limit)
            && (!c.failed ==> c.packets == packets && c.held == Run(arrivals, parse, fds).Held(id))
  {
    var lines, kept := LinesFrom(arrivals, id), KeptBy(arrivals, id, parse, fds);
    RunFrames(arrivals, id, parse, fds);
    LinesFromAreLines(arrivals, id);
    SplitOfLines(lines, []);
    assert Flatten(lines) + [] == Flatten(lines) && lines + [] == lines;
    assert Framing.Left(lines, kept) + [] == Framing.Left(lines, kept);
    Framing.BufferFits(Flatten(lines), limit, kept);
    Framing.LeftAtMost(lines, kept);
    if !Framing.Feed(Flatten(lines), limit, kept).failed {
      Framing.PacketsOfStream(Flatten(lines), limit, kept);
    }
  }

  lemma {:induction false} LinesFromAreLines(arrivals: seq<Arrival>, id: nat)
    requires LinesArrive(arrivals)
    ensures AllLines(LinesFrom(arrivals, id))
  {
    if arrivals != [] {
      LinesFromAreLines(arrivals[..|arrivals| - 1], id);
    }
  }

  /** A line written to a device with an empty working buffer becomes one entry, and leaves it empty. */
  lemma WriteLine(d: Dev, line: seq<byte>)
    requires IsLine(line) && d.work == DeviceModel.Held([])
    ensures WriteStep(d, line, GOOD).dev == Dev(d.lines + [line], DeviceModel.Held([]))
  {
    assert [] + line == line == line + [];
    FirstNewlineOfLine(line, []);
    assert line[..|line|] == line && line[|line|..] == [];
  }

  /** A buffer between packets is empty, or starts with a seek command that failed and ends in a newline. */
  ghost predicate HeldOk(held: seq<byte>, parse: Parser) {
    held == [] || (parse(held).Some? && EndsInNewline(held))
  }

  ghost predicate Inv(s: State, parse: Parser, fds: nat) {
    && s.dev == Dev(s.written, DeviceModel.Held([]))
    && AllLines(s.written)
    && s.open <= fds
    && (s.open < fds ==> forall id :: id in s.held ==> HeldOk(s.held[id], parse))
  }

  /** A line that is not a command, on a connection whose buffer is empty, is written as it is. */
  lemma LineWritten(s: State, a: Arrival, parse: Parser, fds: nat)
    requires IsLine(a.line) && Inv(s, parse, fds) && s.open < fds && s.Held(a.id) == [] && parse(a.line).None?
    ensures Inv(Next(s, a, parse, fds), parse, fds)
    ensures Next(s, a, parse, fds).written == s.written + [a.line]
  {
    assert [] + a.line == a.line;
    WriteLine(s.dev, a.line);
  }

  lemma SeekHandled(d: Dev, packet: seq<byte>, parse: Parser, open: nat, fds: nat)
    requires parse(packet).Some? && open < fds
    ensures var h := Handle(d, packet, parse, open, fds);
            && h.dev == d
            && if Inside(Sizes(d.Live()), parse(packet).value) then h.held == [] && h.open == open
               else h.held == packet && h.open == open + 1
  {
  }

  /** A buffer that parses as a command writes nothing; it is dropped if the seek succeeds, else kept. */
  lemma CommandHandled(s: State, a: Arrival, parse: Parser, fds: nat)
    requires EndsInNewline(a.line) && Inv(s, parse, fds) && s.open < fds && parse(s.Held(a.id) + a.line).Some?
    ensures Inv(Next(s, a, parse, fds), parse, fds)
    ensures Next(s, a, parse, fds).written == s.written
  {
    var packet := s.Held(a.id) + a.line;
    SeekHandled(s.dev, packet, parse, s.open, fds);
    assert packet[|packet| - 1] == a.line[|a.line| - 1];
    assert HeldOk(packet, parse);
  }

  /** Whether the line of an arrival is written: a descriptor is free, nothing is held, and it is no command. */
  ghost predicate Writes(s: State, a: Arrival, parse: Parser, fds: nat) {
    s.open < fds && s.Held(a.id) == [] && parse(a.line).None?
  }

  lemma InvStep(s: State, a: Arrival, parse: Parser, fds: nat)
    requires ReadsFront(parse) && IsLine(a.line) && Inv(s, parse, fds)
    ensures Inv(Next(s, a, parse, fds), parse, fds)
    ensures Next(s, a, parse, fds).written == s.written + if Writes(s, a, parse, fds) then [a.line] else []
  {
    if Writes(s, a, parse, fds) {
      LineWritten(s, a, parse, fds);
    } else if s.open < fds {
      assert [] + a.line == a.line;
      assert HeldOk(s.Held(a.id), parse);
      assert parse(s.Held(a.id) + a.line).Some?;
      CommandHandled(s, a, parse, fds);
    }
  }

  /** In every run: the working buffer is empty between packets, and the ring holds the last ten written. */
  lemma {:induction false} RunKeepsInv(arrivals: seq<Arrival>, parse: Parser, fds: nat)
    requires ReadsFront(parse) && LinesArrive(arrivals)
    ensures Inv(Run(arrivals, parse, fds), parse, fds)
    ensures Run(arrivals, parse, fds).dev.Live() == Last(Run(arrivals, parse, fds).written, SLOTS)
  {
    if arrivals != [] {
      var before, a := arrivals[..|arrivals| - 1], arrivals[|arrivals| - 1];
      RunKeepsInv(before, parse, fds);
      InvStep(Run(before, parse, fds), a, parse, fds);
    }
  }

  // ---- descriptors ----

  /** The seeks of a run that the device refused, or that found no descriptor. */
  function Refused(arrivals: seq<Arrival>, parse: Parser, fds: nat): nat {
    if arrivals == [] then 0
    else
      var before, a := arrivals[..|arrivals| - 1], arrivals[|arrivals| - 1];
      Refused(before, parse, fds) + if RefusedAt(Run(before, parse, fds), a, parse) then 1 else 0
  }

  /** The packet of an arrival is a command that names no byte of a live entry. */
  predicate RefusedAt(s: State, a: Arrival, parse: Parser) {
    var command := parse(s.Held(a.id) + a.line);
    command.Some? && !Inside(Sizes(s.dev.Live()), command.value)
  }

  lemma OpenStep(s: State, a: Arrival, parse: Parser, fds: nat)
    ensures Next(s, a, parse, fds).open == if s.open < fds && RefusedAt(s, a, parse) then s.open + 1 else s.open
  {
  }

  /** Every refused seek costs a descriptor, for good, until there are none. */
  lemma {:induction false} OpenIsRefused(arrivals: seq<Arrival>, parse: Parser, fds: nat)
    ensures Run(arrivals, parse, fds).open == Min(Refused(arrivals, parse, fds), fds)
  {
    if arrivals != [] {
      var before, a := arrivals[..|arrivals| - 1], arrivals[|arrivals| - 1];
      OpenIsRefused(before, parse, fds);
      OpenStep(Run(before, parse, fds), a, parse, fds);
    }
  }

  /** `n` times the same line on one connection. */
  function Repeat(id: nat, line: seq<byte>, n: nat): seq<Arrival> {
    seq(n, i => Arrival(id, line))
  }

  /** Repeating a command on the empty device uses up a descriptor each time. */
  lemma {:induction false} RepeatedSeeks(id: nat, command: seq<byte>, n: nat, parse: Parser, fds: nat)
    requires ReadsFront(parse) && EndsInNewline(command) && parse(command).Some? && n <= fds
    ensures var s := Run(Repeat(id, command, n), parse, fds);
            && s.open == n && s.dev == FRESH && s.written == [] && s.held.Keys <= {id}
            && (n > 0 ==> EndsInNewline(s.Held(id)) && parse(s.Held(id)) == parse(command))
  {
    if n > 0 {
      RepeatedSeeks(id, command, n - 1, parse, fds);
      var s := Run(Repeat(id, command, n - 1), parse, fds);
      assert Repeat(id, command, n)[..n - 1] == Repeat(id, command, n - 1);
      RepeatedSeek(s, id, command, parse, fds);
    }
  }

  lemma RepeatedSeek(s: State, id: nat, command: seq<byte>, parse: Parser, fds: nat)
    requires ReadsFront(parse) && EndsInNewline(command) && parse(command).Some? && s.open < fds && s.dev == FRESH
    requires s.Held(id) == [] || (EndsInNewline(s.Held(id)) && parse(s.Held(id)) == parse(command))
    ensures var s' := Next(s, Arrival(id, command), parse, fds);
            && s'.open == s.open + 1 && s'.dev == FRESH && s'.written == s.written
            && EndsInNewline(s'.Held(id)) && parse(s'.Held(id)) == parse(command)
  {
    var packet := s.Held(id) + command;
    assert s.Held(id) == [] ==> packet == command;
    assert parse(packet) == parse(command);
    SeekHandled(s.dev, packet, parse, s.open, fds);
  }

  /** Refused seeks on one connection stop all others: a line that comes in with an empty buffer is not written. */
  lemma DescriptorsUsedUp(command: seq<byte>, line: seq<byte>, parse: Parser, fds: nat)
    requires ReadsFront(parse) && EndsInNewline(command) && parse(command).Some?
    requires IsLine(line) && parse(line).None?
    ensures var seeks := Repeat(0, command, fds);
            && Run(seeks, parse, fds).open == fds && Run(seeks, parse, fds).Held(1) == []
            && Run(seeks + [Arrival(1, line)], parse, fds).written == []
            && NonSeek(seeks + [Arrival(1, line)], parse) == [line]
  {
    var seeks, a := Repeat(0, command, fds), Arrival(1, line);
    RepeatedSeeks(0, command, fds, parse, fds);
    assert (seeks + [a])[..|seeks|] == seeks;
    RepeatedIsSeek(command, fds, parse);
  }

  lemma {:induction false} RepeatedIsSeek(command: seq<byte>, n: nat, parse: Parser)
    requires parse(command).Some?
    ensures NonSeek(Repeat(0, command, n), parse) == []
  {
    if n > 0 {
      RepeatedIsSeek(command, n - 1, parse);
      assert Repeat(0, command, n)[..n - 1] == Repeat(0, command, n - 1);
    }
  }

  // ---- which lines are written ----

  /** The lines that are not seek commands, in order of handling. */
  function NonSeek(arrivals: seq<Arrival>, parse: Parser): seq<seq<byte>> {
    if arrivals == [] then []
    else
      var a := arrivals[|arrivals| - 1];
      NonSeek(arrivals[..|arrivals| - 1], parse) + if parse(a.line).None? then [a.line] else []
  }

  /**
   * No line that should be written comes in behind a refused seek on its connection, or after as
   * many refused seeks, on any connections, as there are descriptors.
   */
  ghost predicate NoneBehindFailedSeek(arrivals: seq<Arrival>, parse: Parser, fds: nat) {
    arrivals == [] ||
    (var before, a := arrivals[..|arrivals| - 1], arrivals[|arrivals| - 1];
     && NoneBehindFailedSeek(before, parse, fds)
     && (parse(a.line).None? ==> Run(before, parse, fds).Held(a.id) == [] && Refused(before, parse, fds) < fds))
  }

  /** One more line: written and wanted, wanted but not written, or neither. */
  lemma WantedStep(written: seq<seq<byte>>, wanted: seq<seq<byte>>, line: seq<byte>, stuck: bool, command: bool,
                   all: bool)
    requires |written| <= |wanted| && (written == wanted <==> all)
    ensures var written' := if !stuck && !command then written + [line] else written;
            var wanted' := if command then wanted else wanted + [line];
            && |written'| <= |wanted'|
            && (written' == wanted' <==> all && (command || !stuck))
  {
    if !stuck && !command && written + [line] == wanted + [line] {
      assert written == (written + [line])[..|written|] == (wanted + [line])[..|wanted|] == wanted;
    }
  }

  /** The device gets every line that is not a command exactly when that condition holds. */
  lemma {:induction false} AllWrittenExactly(arrivals: seq<Arrival>, parse: Parser, fds: nat)
    requires ReadsFront(parse) && LinesArrive(arrivals)
    ensures |Run(arrivals, parse, fds).written| <= |NonSeek(arrivals, parse)|
    ensures Run(arrivals, parse, fds).written == NonSeek(arrivals, parse) <==>
            NoneBehindFailedSeek(arrivals, parse, fds)
  {
    if arrivals != [] {
      var before, a := arrivals[..|arrivals| - 1], arrivals[|arrivals| - 1];
      var s := Run(before, parse, fds);
      AllWrittenExactly(before, parse, fds);
      RunKeepsInv(before, parse, fds);
      OpenIsRefused(before, parse, fds);
      InvStep(s, a, parse, fds);
      WantedStep(s.written, NonSeek(before, parse), a.line, s.Held(a.id) != [] || s.open >= fds, parse(a.line).Some?,
                 NoneBehindFailedSeek(before, parse, fds));
      assert s.written + [] == s.written && NonSeek(before, parse) + [] == NonSeek(before, parse);
    }
  }

  /** Every seek command that a connection sends, when it is handled, names a byte of a live entry. */
  ghost predicate SeeksSucceed(arrivals: seq<Arrival>, parse: Parser, fds: nat) {
    arrivals == [] ||
    (var before, a := arrivals[..|arrivals| - 1], arrivals[|arrivals| - 1];
     && SeeksSucceed(before, parse, fds)
     && (parse(a.line).Some? ==> Inside(Sizes(Run(before, parse, fds).dev.Live()), parse(a.line).value)))
  }

  /** No buffer keeps anything and no descriptor has been lost. */
  ghost predicate Clean(s: State) {
    s.open == 0 && forall id :: id in s.held ==> s.held[id] == []
  }

  lemma SucceedingStep(s: State, a: Arrival, parse: Parser, fds: nat)
    requires IsLine(a.line) && Inv(s, parse, fds) && Clean(s) && 0 < fds
    requires parse(a.line).Some? ==> Inside(Sizes(s.dev.Live()), parse(a.line).value)
    ensures Inv(Next(s, a, parse, fds), parse, fds) && Clean(Next(s, a, parse, fds))
    ensures Next(s, a, parse, fds).written == s.written + if parse(a.line).None? then [a.line] else []
  {
    assert s.Held(a.id) == [] && [] + a.line == a.line;
    if parse(a.line).None? {
      LineWritten(s, a, parse, fds);
    } else {
      CommandHandled(s, a, parse, fds);
      SeekHandled(s.dev, a.line, parse, s.open, fds);
    }
  }

  /** When every seek succeeds, nothing is kept or lost, and exactly the lines that are not commands are written. */
  lemma {:induction false} SucceedingRun(arrivals: seq<Arrival>, parse: Parser, fds: nat)
    requires LinesArrive(arrivals) && SeeksSucceed(arrivals, parse, fds) && 0 < fds
    ensures Inv(Run(arrivals, parse, fds), parse, fds) && Clean(Run(arrivals, parse, fds))
    ensures Run(arrivals, parse, fds).written == NonSeek(arrivals, parse)
  {
    if arrivals != [] {
      var before, a := arrivals[..|arrivals| - 1], arrivals[|arrivals| - 1];
      SucceedingRun(before, parse, fds);
      SucceedingStep(Run(before, parse, fds), a, parse, fds);
    }
  }

  /** So the ring holds exactly the last ten lines that are not commands, whatever the parser. */
  lemma RingHoldsLastPackets(arrivals: seq<Arrival>, parse: Parser, fds: nat)
    requires LinesArrive(arrivals) && SeeksSucceed(arrivals, parse, fds) && 0 < fds
    ensures Run(arrivals, parse, fds).dev == Dev(NonSeek(arrivals, parse), DeviceModel.Held([]))
    ensures Run(arrivals, parse, fds).dev.Live() == Last(NonSeek(arrivals, parse), SLOTS)
  {
    SucceedingRun(arrivals, parse, fds);
  }

  /** A written packet is answered with the last ten packets, its own at the end. */
  lemma EchoOfPacket(s: State, line: seq<byte>, parse: Parser, fds: nat)
    requires Inv(s, parse, fds) && s.open < fds && IsLine(line) && parse(line).None?
    ensures Handle(s.dev, line, parse, s.open, fds).echo == Some(Flatten(Last(s.written + [line], SLOTS)))
    ensures Flatten(Last(s.written + [line], SLOTS)) == Flatten(Last(s.written, SLOTS - 1)) + line
  {
    WriteLine(s.dev, line);
    EchoIsSuffix(Last(s.written + [line], SLOTS), 0);
    assert Last(s.written + [line], SLOTS) == Last(s.written, SLOTS - 1) + [line];
    FlattenSnoc(Last(s.written, SLOTS - 1), line);
  }

  /** A successful seek is answered with the rest of the entry it names and the entries after it. */
  lemma EchoOfSeek(d: Dev, packet: seq<byte>, parse: Parser, open: nat, fds: nat)
    requires open < fds && parse(packet).Some? && Inside(Sizes(d.Live()), parse(packet).value)
    ensures var to := parse(packet).value;
            Handle(d, packet, parse, open, fds).echo
            == Some(d.Live()[to.index][to.offset..] + Flatten(d.Live()[to.index + 1..]))
  {
    ReadFromEntry(d.Live(), 0, parse(packet).value, BufSize);
  }

  // ---- what is sent back ----

  /** A packet is answered when a descriptor is free and it is no command, or one that names a byte of a live entry. */
  predicate Answered(d: Dev, packet: seq<byte>, parse: Parser, open: nat, fds: nat) {
    open < fds && (parse(packet).None? || Inside(Sizes(d.Live()), parse(packet).value))
  }

  /** Something is sent back exactly then; else the packet stays, and a refused seek costs a descriptor. */
  lemma PacketAnswered(d: Dev, packet: seq<byte>, parse: Parser, open: nat, fds: nat)
    ensures var h, answered := Handle(d, packet, parse, open, fds), Answered(d, packet, parse, open, fds);
            && (h.echo.Some? <==> answered)
            && h.held == (if answered then [] else packet)
            && h.open == (if open < fds && !answered then open + 1 else open)
            && (h.dev != d ==> answered && parse(packet).None?)
  {
  }

  lemma {:induction false} EchoesGrow(arrivals: seq<Arrival>, k: nat, n: nat, parse: Parser, fds: nat)
    requires k <= n <= |arrivals|
    ensures Echoes(arrivals, k, parse, fds) <= Echoes(arrivals, n, parse, fds)
  {
    if k < n {
      EchoesGrow(arrivals, k, n - 1, parse, fds);
    }
  }

  lemma EchoAt(arrivals: seq<Arrival>, k: nat, parse: Parser, fds: nat)
    requires k < |arrivals|
    ensures Echoes(arrivals, |arrivals|, parse, fds)[k]
            == EchoTo(Run(arrivals[..k], parse, fds), arrivals[k], parse, fds)
  {
    EchoesGrow(arrivals, k + 1, |arrivals|, parse, fds);
    assert Echoes(arrivals, k + 1, parse, fds)[k] == EchoTo(Run(arrivals[..k], parse, fds), arrivals[k], parse, fds);
  }

  /** What one arrival is sent back, and what it changes. */
  ghost predicate EchoIs(s: State, a: Arrival, s': State, echo: Option<seq<byte>>, parse: Parser, fds: nat) {
    var packet, live := s.Held(a.id) + a.line, s.dev.Live();
    && (forall id :: id != a.id ==> s'.Held(id) == s.Held(id))
    && if !Answered(s.dev, packet, parse, s.open, fds) then
         echo == None && s'.dev == s.dev && s'.written == s.written && s'.Held(a.id) == packet
       else if parse(packet).Some? then
         var to := parse(packet).value;
         && echo == Some(live[to.index][to.offset..] + Flatten(live[to.index + 1..]))
         && s'.dev == s.dev && s'.written == s.written && s'.Held(a.id) == []
       else
         && s'.written == s.written + [a.line] && s'.Held(a.id) == []
         && echo == Some(Flatten(Last(s'.written, SLOTS)))
  }

  lemma EchoStep(s: State, a: Arrival, parse: Parser, fds: nat)
    requires ReadsFront(parse) && IsLine(a.line) && Inv(s, parse, fds)
    ensures EchoIs(s, a, Next(s, a, parse, fds), EchoTo(s, a, parse, fds), parse, fds)
  {
    var packet := s.Held(a.id) + a.line;
    PacketAnswered(s.dev, packet, parse, s.open, fds);
    if Answered(s.dev, packet, parse, s.open, fds) {
      if parse(packet).Some? {
        EchoOfSeek(s.dev, packet, parse, s.open, fds);
      } else {
        assert HeldOk(s.Held(a.id), parse);
        assert s.Held(a.id) == [] && packet == a.line;
        EchoOfPacket(s, a.line, parse, fds);
      }
    }
  }

  /** In every run each arrival is sent back exactly that. */
  lemma EveryEcho(arrivals: seq<Arrival>, k: nat, parse: Parser, fds: nat)
    requires ReadsFront(parse) && LinesArrive(arrivals) && k < |arrivals|
    ensures EchoIs(Run(arrivals[..k], parse, fds), arrivals[k], Run(arrivals[..k + 1], parse, fds),
                   Echoes(arrivals, |arrivals|, parse, fds)[k], parse, fds)
  {
    EchoAt(arrivals, k, parse, fds);
    RunSnoc(arrivals, k, parse, fds);
    RunKeepsInv(arrivals[..k], parse, fds);
    EchoStep(Run(arrivals[..k], parse, fds), arrivals[k], parse, fds);
  }

  // ---- behind a refused seek ----

  /** The buffer of connection `id` starts with a seek that the device refuses. */
  ghost predicate Stuck(s: State, id: nat, parse: Parser) {
    && EndsInNewline(s.Held(id)) && parse(s.Held(id)).Some?
    && !Inside(Sizes(s.dev.Live()), parse(s.Held(id)).value)
  }

  /** More arrivals, from state `s`. */
  function RunOn(s: State, more: seq<Arrival>, parse: Parser, fds: nat): State {
    if more == [] then s else Next(RunOn(s, more[..|more| - 1], parse, fds), more[|more| - 1], parse, fds)
  }

  /** The arrivals on other connections. */
  function Others(more: seq<Arrival>, id: nat): seq<Arrival> {
    if more == [] then []
    else
      var a := more[|more| - 1];
      Others(more[..|more| - 1], id) + if a.id == id then [] else [a]
  }

  /** Whenever connection `id` has another line, the device still refuses the seek that its buffer starts with. */
  ghost predicate StaysRefused(s: State, more: seq<Arrival>, id: nat, parse: Parser, fds: nat) {
    more == [] ||
    (var before, a := more[..|more| - 1], more[|more| - 1];
     StaysRefused(s, before, id, parse, fds) && (a.id == id ==> Stuck(RunOn(s, before, parse, fds), id, parse)))
  }

  /**
   * `now` is `without`, but for the buffer of connection `id`, which has gained `lines` over `was`,
   * and the descriptors, of which `now` has lost one more for each of them.
   */
  ghost predicate SameButFor(was: State, now: State, without: State, id: nat, lines: seq<seq<byte>>) {
    && now.dev == without.dev && now.written == without.written
    && now.open == without.open + |lines|
    && now.Held(id) == was.Held(id) + Flatten(lines)
    && forall other :: other != id ==> now.Held(other) == without.Held(other)
  }

  /** A line on the stuck connection only goes into its buffer, and costs a descriptor. */
  lemma StuckStep(was: State, now: State, without: State, id: nat, lines: seq<seq<byte>>, line: seq<byte>,
                  parse: Parser, fds: nat)
    requires ReadsFront(parse) && SameButFor(was, now, without, id, lines) && Stuck(now, id, parse) && now.open < fds
    ensures SameButFor(was, Next(now, Arrival(id, line), parse, fds), without, id, lines + [line])
  {
    assert parse(now.Held(id) + line) == parse(now.Held(id));
    SeekHandled(now.dev, now.Held(id) + line, parse, now.open, fds);
    FlattenSnoc(lines, line);
    assert (was.Held(id) + Flatten(lines)) + line == was.Held(id) + (Flatten(lines) + line);
  }

  /** A line on another connection does the same with and without the stuck one. */
  lemma OtherStep(was: State, now: State, without: State, id: nat, lines: seq<seq<byte>>, a: Arrival,
                  parse: Parser, fds: nat)
    requires SameButFor(was, now, without, id, lines) && a.id != id && now.open < fds
    ensures SameButFor(was, Next(now, a, parse, fds), Next(without, a, parse, fds), id, lines)
  {
    assert now.Held(a.id) == without.Held(a.id);
    forall other | other != id
      ensures Next(now, a, parse, fds).Held(other) == Next(without, a, parse, fds).Held(other)
    {
      assert now.Held(other) == without.Held(other);
    }
  }

  lemma RunOnSnoc(s: State, more: seq<Arrival>, a: Arrival, parse: Parser, fds: nat)
    ensures RunOn(s, more + [a], parse, fds) == Next(RunOn(s, more, parse, fds), a, parse, fds)
  {
    assert (more + [a])[..|more|] == more;
  }

  /**
   * Among any arrivals on any connections, while the device refuses its seek and a descriptor is
   * left, a connection only fills its buffer. The device, what is written to it and all other
   * connections are as if its lines had never been sent; but each line costs a descriptor.
   */
  lemma {:induction false} StuckBehindFailedSeek(s: State, more: seq<Arrival>, id: nat, parse: Parser, fds: nat)
    requires ReadsFront(parse) && StaysRefused(s, more, id, parse, fds)
    requires more != [] ==> RunOn(s, more[..|more| - 1], parse, fds).open < fds
    ensures SameButFor(s, RunOn(s, more, parse, fds), RunOn(s, Others(more, id), parse, fds), id, LinesFrom(more, id))
  {
    if more == [] {
      assert s.Held(id) + [] == s.Held(id);
    } else {
      var before, a := more[..|more| - 1], more[|more| - 1];
      if before != [] {
        OpenStep(RunOn(s, before[..|before| - 1], parse, fds), before[|before| - 1], parse, fds);
      }
      StuckBehindFailedSeek(s, before, id, parse, fds);
      var now, without := RunOn(s, before, parse, fds), RunOn(s, Others(before, id), parse, fds);
      if a.id == id {
        StuckStep(s, now, without, id, LinesFrom(before, id), a.line, parse, fds);
        assert Others(before, id) + [] == Others(before, id);
      } else {
        OtherStep(s, now, without, id, LinesFrom(before, id), a, parse, fds);
        RunOnSnoc(s, Others(before, id), a, parse, fds);
        assert LinesFrom(before, id) + [] == LinesFrom(before, id);
      }
    }
  }

  /** When the seek is accepted at last, everything that was held behind it is gone, unwritten. */
  lemma AcceptedSeekDiscards(s: State, id: nat, line: seq<byte>, parse: Parser, fds: nat)
    requires ReadsFront(parse) && EndsInNewline(s.Held(id)) && parse(s.Held(id)).Some? && s.open < fds
    requires Inside(Sizes(s.dev.Live()), parse(s.Held(id)).value)
    ensures var s' := Next(s, Arrival(id, line), parse, fds);
            s'.dev == s.dev && s'.written == s.written && s'.Held(id) == [] && s'.open == s.open
  {
    assert parse(s.Held(id) + line) == parse(s.Held(id));
    SeekHandled(s.dev, s.Held(id) + line, parse, s.open, fds);
  }

  /** Once the descriptors are used up, nothing is ever written again, on any connection. */
  lemma {:induction false} NothingAfterUsedUp(s: State, more: seq<Arrival>, parse: Parser, fds: nat)
    requires s.open >= fds
    ensures var s' := RunOn(s, more, parse, fds); s'.dev == s.dev && s'.written == s.written && s'.open == s.open
  {
    if more != [] {
      NothingAfterUsedUp(s, more[..|more| - 1], parse, fds);
    }
  }

  /** A seek command sent before the first packet is refused: the device is empty. */
  lemma FirstSeekSticks(id: nat, command: seq<byte>, parse: Parser, fds: nat)
    requires EndsInNewline(command) && parse(command).Some? && 0 < fds
    ensures Stuck(RunOn(START, [Arrival(id, command)], parse, fds), id, parse)
  {
    assert [Arrival(id, command)][..0] == [];
    assert [] + command == command;
    SeekHandled(FRESH, command, parse, 0, fds);
  }
}
