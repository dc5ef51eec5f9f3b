/**
 * How `handle_connection` of `aesdsocket.c` cuts a byte stream into packets, in both builds. They
 * differ in one thing: in the device build a packet that is a refused seek stays in the buffer.
 */
module Framing {
  import opened Bytes

  /** The file is read back at most this many bytes at a time. */
  const FILE_BUF_SIZE: nat := 1024

  /** packet_size starts at this many bytes. */
  const FIRST_SIZE: nat := 1024

  /** What a connection has done: bytes held, buffer size, packets completed, sizes asked of realloc. */
  datatype Conn = Conn(held: seq<byte>, size: nat, packets: seq<seq<byte>>, asked: seq<nat>, failed: bool)

  const IDLE := Conn([], 0, [], [], false)

  function Grown(size: nat): nat {
    if size == 0 then FIRST_SIZE else size * 2
  }

  /**
   * One received byte. Since every size is asked for once, a bound on the sizes decides which realloc
   * fails. A newline hands the packet on; the packets numbered in `kept` stay in the buffer even so,
   * in front of the next one. In the file build there are none, in the device build the refused seeks.
   */
  function TakeByte(c: Conn, b: byte, limit: nat, kept: set<nat>): Conn {
    if c.failed then c
    else if |c.held| + 1 > c.size && Grown(c.size) > limit then
      c.(held := [], asked := c.asked + [Grown(c.size)], failed := true)
    else
      var c' := if |c.held| + 1 > c.size
                then c.(size := Grown(c.size), asked := c.asked + [Grown(c.size)]) else c;
      Stored(c', b, kept)
  }

  function Stored(c: Conn, b: byte, kept: set<nat>): Conn {
    var packet := c.held + [b];
    if b != NEWLINE then c.(held := packet)
    else c.(held := if |c.packets| in kept then packet else [], packets := c.packets + [packet])
  }

  function Feed(s: seq<byte>, limit: nat, kept: set<nat>): Conn {
    if s == [] then IDLE else TakeByte(Feed(s[..|s| - 1], limit, kept), s[|s| - 1], limit, kept)
  }

  // ---- packets and lines ----

  /** The lines since the last one whose packet was not kept. */
  function Left(lines: seq<seq<byte>>, kept: set<nat>): seq<byte> {
    var last := |lines| - 1;
    if lines == [] || last !in kept then [] else Left(lines[..last], kept) + lines[last]
  }

  /** Each packet is a line, behind the lines that were kept before it. */
  function Packets(lines: seq<seq<byte>>, kept: set<nat>): (r: seq<seq<byte>>)
    ensures |r| == |lines|
  {
    var last := |lines| - 1;
    if lines == [] then [] else Packets(lines[..last], kept) + [Left(lines[..last], kept) + lines[last]]
  }

  lemma PacketsSnoc(lines: seq<seq<byte>>, line: seq<byte>, kept: set<nat>)
    ensures Packets(lines + [line], kept) == Packets(lines, kept) + [Left(lines, kept) + line]
    ensures Left(lines + [line], kept) == if |lines| in kept then Left(lines, kept) + line else []
  {
    assert (lines + [line])[..|lines|] == lines;
  }

  lemma {:induction false} PacketAt(lines: seq<seq<byte>>, kept: set<nat>, n: nat)
    requires n < |lines|
    ensures Packets(lines, kept)[n] == Left(lines[..n], kept) + lines[n]
  {
    if n < |lines| - 1 {
      PacketAt(lines[..|lines| - 1], kept, n);
      assert lines[..|lines| - 1][..n] == lines[..n];
    }
  }

  /** When nothing is kept, the packets are the lines. */
  lemma {:induction false} NoneKept(lines: seq<seq<byte>>)
    ensures Packets(lines, {}) == lines && Left(lines, {}) == []
  {
    if lines != [] {
      NoneKept(lines[..|lines| - 1]);
      assert [] + lines[|lines| - 1] == lines[|lines| - 1];
    }
  }

  /** Only what is said of these lines matters. */
  lemma {:induction false} KeptOfLines(lines: seq<seq<byte>>, kept: set<nat>, more: set<nat>)
    requires forall k :: k in more ==> k >= |lines|
    ensures Left(lines, kept + more) == Left(lines, kept)
    ensures Packets(lines, kept + more) == Packets(lines, kept)
  {
    if lines != [] {
      var n := |lines| - 1;
      KeptOfLines(lines[..n], kept, more);
      assert lines == lines[..n] + [lines[n]];
      PacketsSnoc(lines[..n], lines[n], kept);
      PacketsSnoc(lines[..n], lines[n], kept + more);
    }
  }

  /** The packets determine the lines. */
  lemma {:induction false} PacketsDetermine(a: seq<seq<byte>>, b: seq<seq<byte>>, kept: set<nat>)
    requires Packets(a, kept) <= Packets(b, kept)
    ensures a <= b
  {
    if a != [] {
      var n := |a| - 1;
      assert a == a[..n] + [a[n]];
      PacketsSnoc(a[..n], a[n], kept);
      PacketsDetermine(a[..n], b, kept);
      SamePacket(a[..n], a[n], b, kept);
    }
  }

  lemma SamePacket(front: seq<seq<byte>>, line: seq<byte>, b: seq<seq<byte>>, kept: set<nat>)
    requires front <= b && Packets(front, kept) + [Left(front, kept) + line] <= Packets(b, kept)
    ensures front + [line] <= b
  {
    var n, packet := |front|, Left(front, kept) + line;
    assert b[..n] == front;
    assert (Packets(front, kept) + [packet])[n] == packet;
    SamePrefix(Packets(front, kept) + [packet], Packets(b, kept), n);
    PacketAt(b, kept, n);
    SameRest(Left(front, kept), line, b[n]);
  }

  lemma SamePrefix(a: seq<seq<byte>>, b: seq<seq<byte>>, n: nat)
    requires a <= b && n < |a|
    ensures a[n] == b[n]
  {
  }

  lemma SameRest(front: seq<byte>, x: seq<byte>, y: seq<byte>)
    requires front + x == front + y
    ensures x == y
  {
    assert x == (front + x)[|front|..] == (front + y)[|front|..] == y;
  }

  /** A newline completes the tail to one more line. */
  lemma SplitNewline(s: seq<byte>)
    ensures Lines(s + [NEWLINE]) == Lines(s) + [Tail(s) + [NEWLINE]] && Tail(s + [NEWLINE]) == []
  {
    SplitShape(s);
    var l := Tail(s) + [NEWLINE];
    assert l[..|l| - 1] == Tail(s);
    SplitOn(s, [NEWLINE]);
    SplitAfterLine(l, []);
    assert l + [] == l;
  }

  /** Any other byte only lengthens the tail. */
  lemma SplitOther(s: seq<byte>, b: byte)
    requires b != NEWLINE
    ensures Lines(s + [b]) == Lines(s) && Tail(s + [b]) == Tail(s) + [b]
  {
    SplitShape(s);
    SplitOn(s, [b]);
    FirstNewlineAbsent(Tail(s) + [b]);
  }

  /** Only the tail has to be divided anew. */
  lemma SplitOn(s: seq<byte>, t: seq<byte>)
    ensures Lines(s + t) == Lines(s) + Lines(Tail(s) + t)
    ensures Tail(s + t) == Tail(Tail(s) + t)
  {
    SplitRestores(s);
    SplitShape(s);
    Associate(Flatten(Lines(s)), Tail(s), t);
    SplitOfLines(Lines(s), Tail(s) + t);
  }

  lemma Associate(a: seq<byte>, b: seq<byte>, c: seq<byte>)
    ensures (a + b) + c == a + (b + c)
  {
  }

  /** How one more byte changes the lines and the tail of a stream. */
  lemma SplitSnoc(s: seq<byte>, b: byte)
    ensures Lines(s + [b]) == if b == NEWLINE then Lines(s) + [Tail(s) + [b]] else Lines(s)
    ensures Tail(s + [b]) == if b == NEWLINE then [] else Tail(s) + [b]
  {
    if b == NEWLINE {
      SplitNewline(s);
    } else {
      SplitOther(s, b);
    }
  }

  /** What is there of the next packet: the lines that were kept, and the unfinished line. */
  function Waiting(s: seq<byte>, kept: set<nat>): seq<byte> {
    Left(Lines(s), kept) + Tail(s)
  }

  /** One more byte makes the next packet longer; a newline completes it. */
  lemma WaitingSnoc(s: seq<byte>, b: byte, kept: set<nat>)
    ensures b != NEWLINE ==>
              && Packets(Lines(s + [b]), kept) == Packets(Lines(s), kept)
              && Waiting(s + [b], kept) == Waiting(s, kept) + [b]
    ensures b == NEWLINE ==>
              && Packets(Lines(s + [b]), kept) == Packets(Lines(s), kept) + [Waiting(s, kept) + [b]]
              && Waiting(s + [b], kept) == if |Lines(s)| in kept then Waiting(s, kept) + [b] else []
  {
    SplitSnoc(s, b);
    Associate(Left(Lines(s), kept), Tail(s), [b]);
    if b == NEWLINE {
      PacketsSnoc(Lines(s), Tail(s) + [b], kept);
      var left := Left(Lines(s) + [Tail(s) + [b]], kept);
      assert left + [] == left;
    }
  }

  /** The packets of the stream `s` have been handed on, and the buffer holds what is left. */
  ghost predicate HandedOn(c: Conn, s: seq<byte>, kept: set<nat>) {
    c.packets == Packets(Lines(s), kept) && c.held == Waiting(s, kept)
  }

  lemma StoredHandsOn(c: Conn, s: seq<byte>, b: byte, kept: set<nat>)
    requires HandedOn(c, s, kept)
    ensures HandedOn(Stored(c, b, kept), s + [b], kept)
  {
    WaitingSnoc(s, b, kept);
  }

  /** The packets are the lines of the stream, each behind what was kept; the buffer holds what follows. */
  lemma {:induction false} PacketsOfStream(s: seq<byte>, limit: nat, kept: set<nat>)
    requires !Feed(s, limit, kept).failed
    ensures HandedOn(Feed(s, limit, kept), s, kept)
  {
    if s != [] {
      var s0, b := s[..|s| - 1], s[|s| - 1];
      PacketsOfStream(s0, limit, kept);
      var c := Feed(s0, limit, kept);
      StoredHandsOn(c, s0, b, kept);
      StoredHandsOn(c.(size := Grown(c.size), asked := c.asked + [Grown(c.size)]), s0, b, kept);
      assert s == s0 + [b];
    }
  }

  /** In the file build the packets are the lines of the stream, and the buffer holds its tail. */
  lemma PacketsAreLines(s: seq<byte>, limit: nat)
    requires !Feed(s, limit, {}).failed
    ensures Feed(s, limit, {}).packets == Lines(s)
    ensures Feed(s, limit, {}).held == Tail(s)
  {
    PacketsOfStream(s, limit, {});
    NoneKept(Lines(s));
    assert [] + Tail(s) == Tail(s);
  }

  /** Also when an allocation fails, what was handed on is the front of the stream's packets. */
  lemma PacketsArePrefix(s: seq<byte>, limit: nat, kept: set<nat>)
    ensures Feed(s, limit, kept).packets <= Packets(Lines(s), kept)
  {
    if !Feed(s, limit, kept).failed {
      PacketsOfStream(s, limit, kept);
    } else {
      var t, b, u := UpToFailure(s, limit, kept);
      Associate(t, [b], u);
      PacketsOfFront(t, [b] + u, kept);
    }
  }

  lemma PacketsOfFront(s: seq<byte>, more: seq<byte>, kept: set<nat>)
    ensures Packets(Lines(s), kept) <= Packets(Lines(s + more), kept)
  {
    SplitOn(s, more);
    PacketsAppend(Lines(s), Lines(Tail(s) + more), kept);
  }

  lemma {:induction false} PacketsAppend(lines: seq<seq<byte>>, more: seq<seq<byte>>, kept: set<nat>)
    ensures Packets(lines, kept) <= Packets(lines + more, kept)
  {
    if more == [] {
      assert lines + more == lines;
    } else {
      var more0, line := more[..|more| - 1], more[|more| - 1];
      PacketsAppend(lines, more0, kept);
      assert lines + more == (lines + more0) + [line];
      PacketsSnoc(lines + more0, line, kept);
    }
  }

  /**
   * The byte `b` for which no memory was found: the packets that were complete before it have been
   * handed on, no later one is, and the buffer is gone.
   */
  lemma {:induction false} UpToFailure(s: seq<byte>, limit: nat, kept: set<nat>)
    returns (t: seq<byte>, b: byte, u: seq<byte>)
    requires Feed(s, limit, kept).failed
    ensures s == (t + [b]) + u && !Feed(t, limit, kept).failed && Feed(t + [b], limit, kept).failed
    ensures Feed(s, limit, kept).packets == Packets(Lines(t), kept) && Feed(s, limit, kept).held == []
  {
    FailedSoFar(s, limit, kept);
    var s0, x := s[..|s| - 1], s[|s| - 1];
    assert s == s0 + [x];
    if !Feed(s0, limit, kept).failed {
      t, b, u := s0, x, [];
      FailsAt(t, b, limit, kept);
    } else {
      t, b, u := UpToFailure(s0, limit, kept);
      Associate(t + [b], u, [x]);
      u := u + [x];
    }
  }

  /** Nothing is taken in after a failure. */
  lemma FailedSoFar(s: seq<byte>, limit: nat, kept: set<nat>)
    requires Feed(s, limit, kept).failed
    ensures s != []
    ensures Feed(s[..|s| - 1], limit, kept).failed ==> Feed(s, limit, kept) == Feed(s[..|s| - 1], limit, kept)
  {
  }

  lemma FailsAt(s: seq<byte>, b: byte, limit: nat, kept: set<nat>)
    requires !Feed(s, limit, kept).failed && Feed(s + [b], limit, kept).failed
    ensures Feed(s + [b], limit, kept).packets == Packets(Lines(s), kept) && Feed(s + [b], limit, kept).held == []
  {
    PacketsOfStream(s, limit, kept);
    FeedSnoc(s, b, limit, kept);
  }

  // ---- the size of the buffer ----

  function Max(a: nat, b: nat): nat {
    if a < b then b else a
  }

  function Longest(packets: seq<seq<byte>>): nat {
    if packets == [] then 0 else Max(Longest(packets[..|packets| - 1]), |packets[|packets| - 1]|)
  }

  lemma LongestSnoc(packets: seq<seq<byte>>, packet: seq<byte>)
    ensures Longest(packets + [packet]) == Max(Longest(packets), |packet|)
  {
    assert (packets + [packet])[..|packets|] == packets;
  }

  lemma LeftAtMost(lines: seq<seq<byte>>, kept: set<nat>)
    ensures |Left(lines, kept)| <= Longest(Packets(lines, kept))
  {
    if lines != [] {
      var n := |lines| - 1;
      assert lines == lines[..n] + [lines[n]];
      PacketsSnoc(lines[..n], lines[n], kept);
      LongestSnoc(Packets(lines[..n], kept), Left(lines[..n], kept) + lines[n]);
    }
  }

  /** The most that the buffer has to hold: the longest packet, or what is there of the next one. */
  function MostHeld(s: seq<byte>, kept: set<nat>): nat {
    Max(Longest(Packets(Lines(s), kept)), |Waiting(s, kept)|)
  }

  lemma MostHeldStep(s: seq<byte>, b: byte, kept: set<nat>)
    ensures |Waiting(s, kept)| <= MostHeld(s, kept)
    ensures MostHeld(s + [b], kept) == Max(MostHeld(s, kept), |Waiting(s, kept)| + 1)
  {
    WaitingSnoc(s, b, kept);
    LongestSnoc(Packets(Lines(s), kept), Waiting(s, kept) + [b]);
  }

  /** The least of 1024, 2048, 4096, ... from `c` on that is at least `n`. */
  function LeastFrom(c: nat, n: nat): (r: nat)
    requires c > 0
    ensures r >= n && r >= c
    ensures r == c || r < 2 * n
    decreases n - c
  {
    if c >= n then c else LeastFrom(2 * c, n)
  }

  function CapacityFor(n: nat): nat {
    if n == 0 then 0 else LeastFrom(FIRST_SIZE, n)
  }

  /** When the buffer is exactly full, the capacity for one more byte is twice the size. */
  lemma {:induction false} LeastFromFull(c: nat, n: nat)
    requires 0 < c && LeastFrom(c, n) == n
    ensures LeastFrom(c, n + 1) == 2 * n
    decreases n - c
  {
    if c < n {
      LeastFromFull(2 * c, n);
    } else {
      assert LeastFrom(2 * c, n + 1) == 2 * c;
    }
  }

  lemma {:induction false} LeastFromSame(c: nat, n: nat, m: nat)
    requires 0 < c && n <= m <= LeastFrom(c, n)
    ensures LeastFrom(c, m) == LeastFrom(c, n)
    decreases n - c
  {
    if c < n {
      LeastFromSame(2 * c, n, m);
    }
  }

  lemma {:induction false} LeastFromMonotone(c: nat, n: nat, m: nat)
    requires 0 < c && n <= m
    ensures LeastFrom(c, n) <= LeastFrom(c, m)
    decreases n - c
  {
    if c < n {
      LeastFromMonotone(2 * c, n, m);
    }
  }

  /** One more byte: the buffer grows exactly when the new need exceeds it, to the capacity for that need. */
  lemma CapacityStep(size: nat, most: nat, held: nat)
    requires held <= most && size == CapacityFor(most)
    ensures var most' := if held + 1 > most then held + 1 else most;
            && (held + 1 > size ==> CapacityFor(most') == Grown(size))
            && (held + 1 <= size ==> CapacityFor(most') == size)
  {
    if held + 1 > size {
      if size > 0 {
        LeastFromFull(FIRST_SIZE, size);
      }
    } else if held + 1 > most && most > 0 {
      LeastFromSame(FIRST_SIZE, most, held + 1);
    }
  }

  /** The sizes asked for so far add up to less than twice the size of the buffer. */
  predicate AskedOk(c: Conn) {
    if c.size == 0 then c.asked == [] else Sum(c.asked) + FIRST_SIZE == 2 * c.size
  }

  lemma AskedStep(asked: seq<nat>, size: nat)
    requires if size == 0 then asked == [] else Sum(asked) + FIRST_SIZE == 2 * size
    ensures Sum(asked + [Grown(size)]) + FIRST_SIZE == 2 * Grown(size)
  {
    SumSnoc(asked, Grown(size));
  }

  /** What `BufferFits` says of one connection state. */
  ghost predicate FitsBuffer(c: Conn, most: nat, limit: nat) {
    && (c.failed <==> CapacityFor(most) > limit)
    && (!c.failed ==> c.size == CapacityFor(most) && |c.held| <= most <= c.size && AskedOk(c))
    && (c.failed ==> c.size <= limit < Grown(c.size) && Sum(c.asked) + FIRST_SIZE == 2 * Grown(c.size))
  }

  lemma FitsStep(c: Conn, most: nat, b: byte, limit: nat, kept: set<nat>)
    requires !c.failed && FitsBuffer(c, most, limit)
    ensures FitsBuffer(TakeByte(c, b, limit, kept), Max(most, |c.held| + 1), limit)
  {
    CapacityStep(c.size, most, |c.held|);
    AskedStep(c.asked, c.size);
  }

  /**
   * The buffer is always the least of 1024, 2048, ... that the longest packet so far needs, never
   * overflows, and costs less than twice its size in all; a realloc fails exactly when that
   * size is beyond what the allocator gives. This holds whatever is kept.
   */
  lemma {:induction false} BufferFits(s: seq<byte>, limit: nat, kept: set<nat>)
    ensures FitsBuffer(Feed(s, limit, kept), MostHeld(s, kept), limit)
  {
    if s != [] {
      var s0, b := s[..|s| - 1], s[|s| - 1];
      BufferFits(s0, limit, kept);
      FitsNext(s0, b, limit, kept);
      assert s == s0 + [b];
    }
  }

  lemma FitsNext(s: seq<byte>, b: byte, limit: nat, kept: set<nat>)
    requires FitsBuffer(Feed(s, limit, kept), MostHeld(s, kept), limit)
    ensures FitsBuffer(TakeByte(Feed(s, limit, kept), b, limit, kept), MostHeld(s + [b], kept), limit)
  {
    var c, most, most' := Feed(s, limit, kept), MostHeld(s, kept), MostHeld(s + [b], kept);
    MostHeldStep(s, b, kept);
    if !c.failed {
      PacketsOfStream(s, limit, kept);
      assert most' == Max(most, |c.held| + 1);
      FitsStep(c, most, b, limit, kept);
    } else {
      assert TakeByte(c, b, limit, kept) == c;
      FailedFits(c, most, most', limit);
    }
  }

  /** A failed allocation was for less than what is needed later. */
  lemma FailedFits(c: Conn, most: nat, most': nat, limit: nat)
    requires c.failed && FitsBuffer(c, most, limit) && most <= most'
    ensures FitsBuffer(c, most', limit)
  {
    if most > 0 {
      LeastFromMonotone(FIRST_SIZE, most, most');
    }
  }

  function Pow2(k: nat): nat {
    if k == 0 then 1 else 2 * Pow2(k - 1)
  }

  lemma {:induction false} LeastFromForm(c: nat, n: nat, k: nat) returns (k': nat)
    requires c == FIRST_SIZE * Pow2(k) && c > 0
    ensures LeastFrom(c, n) == FIRST_SIZE * Pow2(k')
    decreases n - c
  {
    k' := k;
    if c < n {
      assert Pow2(k + 1) == 2 * Pow2(k);
      k' := LeastFromForm(2 * c, n, k + 1);
    }
  }

  /** The size is 0 or 1024 times a power of two, and at most 1024 or less than twice the longest packet. */
  lemma CapacityBounds(n: nat)
    ensures n <= CapacityFor(n)
    ensures CapacityFor(n) <= FIRST_SIZE || CapacityFor(n) < 2 * n
    ensures n > 0 ==> exists k :: CapacityFor(n) == FIRST_SIZE * Pow2(k)
  {
    var k := LeastFromForm(FIRST_SIZE, n, 0);
  }

  lemma FeedSnoc(s: seq<byte>, b: byte, limit: nat, kept: set<nat>)
    ensures Feed(s + [b], limit, kept) == TakeByte(Feed(s, limit, kept), b, limit, kept)
  {
    assert (s + [b])[..|s|] == s;
  }

  lemma {:induction false} FailedStays(s: seq<byte>, t: seq<byte>, limit: nat, kept: set<nat>)
    requires Feed(s, limit, kept).failed
    ensures Feed(s + t, limit, kept) == Feed(s, limit, kept)
  {
    if t == [] {
      assert s + t == s;
    } else {
      var t0, b := t[..|t| - 1], t[|t| - 1];
      FailedStays(s, t0, limit, kept);
      assert s + t == (s + t0) + [b];
      FeedSnoc(s + t0, b, limit, kept);
    }
  }

  /** After the first `i` bytes of a batch that comes behind `before`. */
  function FeedPart(before: seq<byte>, batch: seq<byte>, i: nat, limit: nat, kept: set<nat>): Conn
    requires i <= |batch|
  {
    Feed(before + batch[..i], limit, kept)
  }

  lemma FeedNothing(before: seq<byte>, batch: seq<byte>, limit: nat, kept: set<nat>)
    ensures FeedPart(before, batch, 0, limit, kept) == Feed(before, limit, kept)
  {
    assert before + batch[..0] == before;
  }

  lemma FeedWhole(before: seq<byte>, batch: seq<byte>, limit: nat, kept: set<nat>)
    ensures FeedPart(before, batch, |batch|, limit, kept) == Feed(before + batch, limit, kept)
  {
    assert batch[..|batch|] == batch;
  }

  lemma TakeMore(before: seq<byte>, batch: seq<byte>, i: nat)
    requires i < |batch|
    ensures before + batch[..i + 1] == (before + batch[..i]) + [batch[i]]
    ensures before + batch == (before + batch[..i + 1]) + batch[i + 1..]
  {
  }

  /** Feeding a batch byte by byte. */
  lemma FeedPrefix(before: seq<byte>, batch: seq<byte>, i: nat, limit: nat, kept: set<nat>)
    requires i < |batch|
    ensures FeedPart(before, batch, i + 1, limit, kept)
            == TakeByte(FeedPart(before, batch, i, limit, kept), batch[i], limit, kept)
  {
    TakeMore(before, batch, i);
    FeedSnoc(before + batch[..i], batch[i], limit, kept);
  }

  /** Once it has failed, the rest of the batch does not matter. */
  lemma FeedFailed(before: seq<byte>, batch: seq<byte>, i: nat, limit: nat, kept: set<nat>)
    requires i < |batch| && FeedPart(before, batch, i + 1, limit, kept).failed
    ensures Feed(before + batch, limit, kept) == FeedPart(before, batch, i + 1, limit, kept)
  {
    TakeMore(before, batch, i);
    FailedStays(before + batch[..i + 1], batch[i + 1..], limit, kept);
  }

  /** Feeding batch after batch; once one has failed, the later ones do not matter. */
  lemma FeedBatch(batches: seq<seq<byte>>, n: nat, limit: nat, kept: set<nat>)
    requires n < |batches|
    ensures Flatten(batches[..n + 1]) == Flatten(batches[..n]) + batches[n]
    ensures Feed(Flatten(batches[..n + 1]), limit, kept).failed ==>
              Feed(Flatten(batches), limit, kept) == Feed(Flatten(batches[..n + 1]), limit, kept)
  {
    assert batches[..n + 1] == batches[..n] + [batches[n]];
    FlattenSnoc(batches[..n], batches[n]);
    assert batches == batches[..n + 1] + batches[n + 1..];
    FlattenAppend(batches[..n + 1], batches[n + 1..]);
    if Feed(Flatten(batches[..n + 1]), limit, kept).failed {
      FailedStays(Flatten(batches[..n + 1]), Flatten(batches[n + 1..]), limit, kept);
    }
  }

  /** packet_buf, packet_len and packet_size, with what has gone through them. */
  class Packetizer {
    var packetBuf: array?<byte>
    var packetLen: nat
    var packetSize: nat
    var packets: seq<seq<byte>>
    ghost var asked: seq<nat>

    ghost predicate Valid()
      reads this, packetBuf
    {
      && packetLen <= packetSize
      && if packetBuf == null then packetSize == 0 else packetBuf.Length == packetSize > 0
    }

    ghost function Abs(): Conn
      requires Valid()
      reads this, packetBuf
    {
      Conn(if packetBuf == null then [] else packetBuf[..packetLen], packetSize, packets, asked, false)
    }

    constructor ()
      ensures Valid() && Abs() == IDLE && fresh(this) && packetBuf == null
    {
      packetBuf, packetLen, packetSize, packets, asked := null, 0, 0, [], [];
    }

    /** Lines 173-186: false when realloc fails; the buffer is then freed. */
    method Reserve(limit: nat) returns (ok: bool)
      requires Valid()
      modifies this
      ensures packets == old(packets)
      ensures ok ==> Valid() && packetLen < packetSize && (packetBuf != old(packetBuf) ==> fresh(packetBuf))
      ensures ok == (old(packetLen + 1 > packetSize) ==> old(Grown(packetSize)) <= limit)
      ensures ok ==> Abs() == old(if packetLen + 1 <= packetSize then Abs()
                                  else Abs().(size := Grown(packetSize), asked := asked + [Grown(packetSize)]))
      ensures !ok ==> packetBuf == null && packetLen == 0
      ensures !ok ==> packetSize == old(packetSize) && asked == old(asked + [Grown(packetSize)])
    {
      ok := true;
      if packetLen + 1 > packetSize {
        var newSize := if packetSize != 0 then packetSize * 2 else FIRST_SIZE;
        asked := asked + [newSize];
        if newSize > limit {
          packetBuf, packetLen := null, 0;
          return false;
        }
        var tmp := new byte[newSize];
        if packetBuf != null {
          forall i | 0 <= i < packetLen {
            tmp[i] := packetBuf[i];
          }
        }
        packetBuf, packetSize := tmp, newSize;
      }
    }

    /** Lines 188-291: stores the byte; a newline completes a packet, which is handled and dropped, or kept. */
    method Store(b: byte, kept: set<nat>)
      requires Valid() && packetLen < packetSize
      modifies this, packetBuf
      ensures Valid() && packetBuf == old(packetBuf)
      ensures Abs() == Stored(old(Abs()), b, kept)
    {
      packetBuf[packetLen] := b;
      packetLen := packetLen + 1;
      assert packetBuf[..packetLen] == old(packetBuf[..packetLen]) + [b];
      if b == NEWLINE {
        var handled := |packets|;
        packets := packets + [packetBuf[..packetLen]];
        if handled !in kept {
          packetLen := 0;
        }
      }
    }

    /** The body of the loop over the received bytes; false when it leaves the connection. */
    method Take(b: byte, limit: nat, kept: set<nat>) returns (ok: bool)
      requires Valid()
      modifies this, packetBuf
      ensures packetBuf != old(packetBuf) && packetBuf != null ==> fresh(packetBuf)
      ensures ok == !TakeByte(old(Abs()), b, limit, kept).failed
      ensures ok ==> Valid() && packetBuf != null && Abs() == TakeByte(old(Abs()), b, limit, kept)
      ensures !ok ==> packets == old(packets)
    {
      ok := Reserve(limit);
      if ok {
        Store(b, kept);
      }
    }
  }

  /** What one connection did, and whether it set its completion flag. */
  datatype Outcome = Outcome(packets: seq<seq<byte>>, held: seq<byte>, complete: bool)

  /**
   * handle_connection, on what successive recv calls return (each at least one byte) before the
   * end of the stream, `kept` being the packets that it leaves in the buffer. However the bytes are
   * cut into batches, the outcome depends on them and on `kept` alone.
   */
  method HandleConnection(batches: seq<seq<byte>>, limit: nat, kept: set<nat>) returns (o: Outcome)
    requires forall i :: 0 <= i < |batches| ==> batches[i] != []
    ensures var c := Feed(Flatten(batches), limit, kept);
            && o.packets == c.packets && o.held == c.held
            && (o.complete <==> batches != [] && !c.failed)
  {
    var p := new Packetizer();
    var n := 0;
    assert batches[..0] == [];
    while n < |batches|
      invariant n <= |batches| && p.Valid() && fresh(p) && (p.packetBuf != null ==> fresh(p.packetBuf))
      invariant p.Abs() == Feed(Flatten(batches[..n]), limit, kept)
      invariant n > 0 ==> p.packetBuf != null
    {
      FeedBatch(batches, n, limit, kept);
      var ok := TakeBatch(p, batches[n], Flatten(batches[..n]), limit, kept);
      n := n + 1;
      if !ok {
        return Outcome(p.packets, [], false);
      }
    }
    assert batches[..n] == batches;
    o := Outcome(p.packets, if p.packetBuf == null then [] else p.packetBuf[..p.packetLen], p.packetBuf != null);
  }

  /** An allocation failed on the way, and this had been handled by then. */
  ghost predicate Stopped(packets: seq<seq<byte>>, s: seq<byte>, limit: nat, kept: set<nat>) {
    var c := Feed(s, limit, kept);
    c.failed && c.packets == packets && c.held == []
  }

  /** `p` has taken in the first `i` bytes of a batch that came behind `before`. */
  ghost predicate HasTaken(p: Packetizer, before: seq<byte>, batch: seq<byte>, i: nat, limit: nat, kept: set<nat>)
    requires i <= |batch|
    reads p, p.packetBuf
  {
    p.Valid() && p.Abs() == FeedPart(before, batch, i, limit, kept)
  }

  /** One turn of the loop over a batch; when it fails, the rest of the batch does not matter. */
  method TakeNth(p: Packetizer, batch: seq<byte>, i: nat, ghost before: seq<byte>, limit: nat, kept: set<nat>)
    returns (ok: bool)
    requires i < |batch| && HasTaken(p, before, batch, i, limit, kept)
    modifies p, p.packetBuf
    ensures p.packetBuf != old(p.packetBuf) && p.packetBuf != null ==> fresh(p.packetBuf)
    ensures ok ==> p.packetBuf != null && HasTaken(p, before, batch, i + 1, limit, kept)
    ensures !ok ==> Stopped(p.packets, before + batch, limit, kept)
  {
    FeedPrefix(before, batch, i, limit, kept);
    ok := p.Take(batch[i], limit, kept);
    if !ok {
      FeedFailed(before, batch, i, limit, kept);
    }
  }

  /** The loop over one batch. */
  method TakeBatch(p: Packetizer, batch: seq<byte>, ghost before: seq<byte>, limit: nat, kept: set<nat>)
    returns (ok: bool)
    requires p.Valid() && p.Abs() == Feed(before, limit, kept) && batch != []
    modifies p, p.packetBuf
    ensures p.packetBuf != old(p.packetBuf) && p.packetBuf != null ==> fresh(p.packetBuf)
    ensures ok ==> p.Valid() && p.packetBuf != null && p.Abs() == Feed(before + batch, limit, kept)
    ensures !ok ==> Stopped(p.packets, before + batch, limit, kept)
  {
    var i := 0;
    FeedNothing(before, batch, limit, kept);
    while i < |batch|
      invariant i <= |batch| && HasTaken(p, before, batch, i, limit, kept)
      invariant p.packetBuf != old(p.packetBuf) && p.packetBuf != null ==> fresh(p.packetBuf)
      invariant i > 0 ==> p.packetBuf != null
    {
      ok := TakeNth(p, batch, i, before, limit, kept);
      if !ok {
        return;
      }
      i := i + 1;
    }
    FeedWhole(before, batch, limit, kept);
    ok := true;
  }
}
