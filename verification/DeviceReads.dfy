/** What readers of the character device see. */
module DeviceReads {
  import opened Bytes
  import opened Window
  import opened Ring
  import opened DeviceModel
  import opened DeviceRuns

  // ---- one read ----

  /** A read that copies anything copies the bytes that follow its position. */
  lemma ReadIsSlice(live: seq<seq<byte>>, pos: nat, count: nat)
    ensures var s := ReadStep(live, pos, count, false, true);
            && s.reply.Data?
            && s.pos == pos + |s.reply.bytes|
            && (s.reply.bytes != [] ==> s.pos <= |Flatten(live)| && s.reply.bytes == Flatten(live)[pos..s.pos])
            && (s.reply.bytes == [] <==> count == 0 || pos >= |Flatten(live)|)
  {
    SumOfSizes(live);
    var found := Locate(Sizes(live), pos);
    if found.Some? {
      var at := found.value;
      ReadHit(live, pos, count, at);
      LocateInverse(Sizes(live), pos, at);
      FlattenSlice(live, at, Min(count, |live[at.index]| - at.offset));
    }
  }

  /** It copies all that was asked for, unless it stops at the end of the entry that the position falls in. */
  lemma ReadFillsOrStops(live: seq<seq<byte>>, pos: nat, count: nat)
    requires pos < |Flatten(live)|
    ensures var s := ReadStep(live, pos, count, false, true);
            && Locate(Sizes(live), pos).Some?
            && var next := Position(Sizes(live), Place(Locate(Sizes(live), pos).value.index + 1, 0));
               pos < next && s.pos == if pos + count <= next then pos + count else next
  {
    SumOfSizes(live);
    var at := Locate(Sizes(live), pos).value;
    ReadHit(live, pos, count, at);
    LocateInverse(Sizes(live), pos, at);
    SumPrefix(Sizes(live), at.index);
  }

  // ---- reading to the end ----

  /** The bytes that reads with counts counts(i), counts(i + 1), ... return until one returns nothing. */
  function ReadAll(live: seq<seq<byte>>, pos: nat, counts: nat -> nat, i: nat): seq<byte>
    requires forall k :: counts(k) > 0
    decreases |Flatten(live)| - pos
  {
    ReadIsSlice(live, pos, counts(i));
    var s := ReadStep(live, pos, counts(i), false, true);
    if s.reply.bytes == [] then [] else s.reply.bytes + ReadAll(live, s.pos, counts, i + 1)
  }

  lemma CutSuffix<T>(all: seq<T>, a: nat, b: nat)
    requires a <= b <= |all|
    ensures all[a..] == all[a..b] + all[b..]
  {
  }

  /** However the counts cut it, reading to the end yields everything from the position on. */
  lemma {:induction false} ReadAllIsSuffix(live: seq<seq<byte>>, pos: nat, counts: nat -> nat, i: nat)
    requires forall k :: counts(k) > 0
    ensures ReadAll(live, pos, counts, i) == if pos <= |Flatten(live)| then Flatten(live)[pos..] else []
    decreases |Flatten(live)| - pos
  {
    ReadIsSlice(live, pos, counts(i));
    var s := ReadStep(live, pos, counts(i), false, true);
    if s.reply.bytes != [] {
      ReadAllIsSuffix(live, s.pos, counts, i + 1);
      CutSuffix(Flatten(live), pos, s.pos);
    }
  }

  // ---- seeks ----

  /** llseek moves exactly when the whence is known and the target is a position. */
  lemma SeekExact(total: nat, pos: nat, off: Loff, whence: int)
    requires total < LOFF_MAX && pos < LOFF_MAX
    ensures var base := if whence == SEEK_SET then 0 else if whence == SEEK_CUR then pos else total;
            SeekStep(total, pos, off, whence, false) ==
            if whence in {SEEK_SET, SEEK_CUR, SEEK_END} && 0 <= base + off < LOFF_MAX
            then FileStep(base + off, Moved(base + off)) else FileStep(pos, Fail(EINVAL))
  {
  }

  /** Seeking to k bytes before the end and reading on returns the last k bytes. */
  lemma ReadLastBytes(live: seq<seq<byte>>, pos: nat, k: nat, counts: nat -> nat)
    requires 0 < k <= |Flatten(live)| < LOFF_MAX && pos < LOFF_MAX
    requires forall i :: counts(i) > 0
    ensures var s := SeekStep(|Flatten(live)|, pos, 0 - k, SEEK_END, false);
            && s.reply.Moved?
            && ReadAll(live, s.pos, counts, 0) == Flatten(live)[|Flatten(live)| - k..]
  {
    SeekExact(|Flatten(live)|, pos, 0 - k, SEEK_END);
    ReadAllIsSuffix(live, |Flatten(live)| - k, counts, 0);
  }

  /** The seek command moves to the byte it names, exactly when that is a byte of a live entry. */
  lemma SeekToExact(live: seq<seq<byte>>, pos: nat, to: Place)
    requires |live| <= SLOTS
    ensures var s := SeekToStep(live, pos, AESDCHAR_IOCSEEKTO, to, false, true);
            if to.index < |live| && to.offset < |live[to.index]|
            then s.reply == Done && s.pos < |Flatten(live)| && Flatten(live)[s.pos] == live[to.index][to.offset]
            else s == FileStep(pos, Fail(EINVAL))
  {
    if Inside(Sizes(live), to) {
      FlattenSlice(live, to, 1);
      var p := Position(Sizes(live), to);
      assert Flatten(live)[p] == Flatten(live)[p..p + 1][0];
    }
  }

  /** Seeking to byte `o` of entry `k` and reading on returns the rest of that entry and the later ones. */
  lemma ReadFromEntry(live: seq<seq<byte>>, pos: nat, to: Place, counts: nat -> nat)
    requires |live| <= SLOTS && Inside(Sizes(live), to)
    requires forall i :: counts(i) > 0
    ensures var s := SeekToStep(live, pos, AESDCHAR_IOCSEEKTO, to, false, true);
            && s.reply.Done? && Locate(Sizes(live), s.pos) == Some(to)
            && ReadAll(live, s.pos, counts, 0) == live[to.index][to.offset..] + Flatten(live[to.index + 1..])
  {
    var p := Position(Sizes(live), to);
    LocateInverse(Sizes(live), p, to);
    ReadAllIsSuffix(live, p, counts, 0);
    SuffixFromEntry(live, to);
  }

  lemma SuffixFromEntry(live: seq<seq<byte>>, to: Place)
    requires Inside(Sizes(live), to)
    ensures var p := Position(Sizes(live), to);
            && p <= |Flatten(live)|
            && Flatten(live)[p..] == live[to.index][to.offset..] + Flatten(live[to.index + 1..])
  {
    var k := to.index;
    assert live == live[..k] + live[k..];
    FlattenAppend(live[..k], live[k..]);
    assert Sizes(live)[..k] == Sizes(live[..k]);
    SumOfSizes(live[..k]);
    assert live[k..][1..] == live[k + 1..];
    assert Flatten(live) == Flatten(live[..k]) + (live[k] + Flatten(live[k + 1..]));
  }

  // ---- readers under concurrent writes ----

  /** The bytes that have left the ring. */
  function EvictedBytes(d: Dev): nat {
    |Flatten(Evicted(d.lines))|
  }

  lemma EvictedThenLive(d: Dev)
    ensures Flatten(d.lines) == Flatten(Evicted(d.lines)) + Flatten(d.Live())
  {
    FlattenAppend(Evicted(d.lines), d.Live());
    assert d.lines == Evicted(d.lines) + d.Live();
  }

  /** What one successful read returned, placed in the stream of all committed lines. */
  datatype Slice = Slice(evicted: nat, start: nat, bytes: seq<byte>) {
    function End(): nat {
      start + |bytes|
    }
  }

  /** The successful reads of one file, in order. */
  function ReadLog(ops: seq<Op>, file: nat): seq<Slice> {
    if ops == [] then []
    else
      var s, op := Run(ops[..|ops| - 1]), ops[|ops| - 1];
      ReadLog(ops[..|ops| - 1], file) + if IsReadOf(s, op, file) then [SliceRead(s, op, file)] else []
  }

  predicate IsReadOf(s: Sys, op: Op, file: nat) {
    op.Read? && op.file == file && FileOp(s, op).reply.Data?
  }

  function SliceRead(s: Sys, op: Op, file: nat): Slice
    requires IsReadOf(s, op, file)
  {
    var e := EvictedBytes(s.dev);
    Slice(e, e + s.Pos(file), FileOp(s, op).reply.bytes)
  }

  /** Lines are only ever added at the end, so evicted bytes only ever grow at the end. */
  lemma StepExtends(s: Sys, op: Op)
    ensures s.dev.lines <= Step(s, op).dev.lines
    ensures Flatten(s.dev.lines) <= Flatten(Step(s, op).dev.lines)
    ensures EvictedBytes(s.dev) <= EvictedBytes(Step(s, op).dev)
  {
    var d, d' := s.dev, Step(s, op).dev;
    assert d'.lines == d.lines + d'.lines[|d.lines|..];
    FlattenAppend(d.lines, d'.lines[|d.lines|..]);
    var ev, ev' := Evicted(d.lines), Evicted(d'.lines);
    assert ev' == ev + ev'[|ev|..];
    FlattenAppend(ev, ev'[|ev|..]);
  }

  ghost predicate PartOf(s: Slice, stream: seq<byte>) {
    s.bytes == [] || (s.End() <= |stream| && s.bytes == stream[s.start..s.End()])
  }

  lemma SliceOfSecond<T>(a: seq<T>, b: seq<T>, p: nat, q: nat)
    requires p <= q <= |b|
    ensures (a + b)[|a| + p..|a| + q] == b[p..q]
  {
  }

  /** A stretch of the second part, placed in the whole. */
  lemma PartOfSecond(a: seq<byte>, b: seq<byte>, pos: nat, bytes: seq<byte>)
    requires bytes == [] || (pos + |bytes| <= |b| && bytes == b[pos..pos + |bytes|])
    ensures PartOf(Slice(|a|, |a| + pos, bytes), a + b)
  {
    if bytes != [] {
      SliceOfSecond(a, b, pos, pos + |bytes|);
    }
  }

  /** A read without failures, placed in the stream of all committed lines. */
  function WindowRead(d: Dev, pos: nat, count: nat): Slice {
    ReadIsSlice(d.Live(), pos, count);
    Slice(EvictedBytes(d), EvictedBytes(d) + pos, ReadStep(d.Live(), pos, count, false, true).reply.bytes)
  }

  lemma WindowSlice(d: Dev, pos: nat, count: nat)
    ensures PartOf(WindowRead(d, pos, count), Flatten(d.lines))
  {
    ReadIsSlice(d.Live(), pos, count);
    EvictedThenLive(d);
    PartOfSecond(Flatten(Evicted(d.lines)), Flatten(d.Live()), pos, WindowRead(d, pos, count).bytes);
  }

  /** Each read returns the committed stream at the evicted bytes plus its position. */
  lemma ReadPartOf(s: Sys, op: Op, file: nat)
    requires IsReadOf(s, op, file)
    ensures PartOf(SliceRead(s, op, file), Flatten(s.dev.lines))
  {
    if FileOp(s, op).reply.bytes != [] {
      WindowSlice(s.dev, s.Pos(file), op.count);
      assert SliceRead(s, op, file) == WindowRead(s.dev, s.Pos(file), op.count);
    }
  }

  ghost predicate AllPartOf(log: seq<Slice>, stream: seq<byte>) {
    forall i :: 0 <= i < |log| ==> PartOf(log[i], stream)
  }

  lemma PartsStay(log: seq<Slice>, stream: seq<byte>, longer: seq<byte>)
    requires AllPartOf(log, stream) && stream <= longer
    ensures AllPartOf(log, longer)
  {
    forall i | 0 <= i < |log| ensures PartOf(log[i], longer) {
      var x := log[i];
      if x.bytes != [] {
        assert longer[x.start..x.End()] == longer[..|stream|][x.start..x.End()];
      }
    }
  }

  lemma ReadsStep(log: seq<Slice>, s: Sys, op: Op, file: nat)
    requires AllPartOf(log, Flatten(s.dev.lines))
    ensures AllPartOf(log + if IsReadOf(s, op, file) then [SliceRead(s, op, file)] else [], Flatten(s.dev.lines))
  {
    if IsReadOf(s, op, file) {
      ReadPartOf(s, op, file);
    }
  }

  /** In any run, each read of any file is a stretch of the committed stream, which nothing changes later. */
  lemma {:induction false} ReadsFromStream(ops: seq<Op>, file: nat)
    ensures AllPartOf(ReadLog(ops, file), Flatten(Run(ops).dev.lines))
  {
    if ops != [] {
      var ops0, op := ops[..|ops| - 1], ops[|ops| - 1];
      var s := Run(ops0);
      ReadsFromStream(ops0, file);
      ReadsStep(ReadLog(ops0, file), s, op, file);
      StepExtends(s, op);
      PartsStay(ReadLog(ops, file), Flatten(s.dev.lines), Flatten(Step(s, op).dev.lines));
    }
  }

  predicate NeverSeeks(ops: seq<Op>, file: nat) {
    forall i :: 0 <= i < |ops| ==> (ops[i].Seek? || ops[i].SeekTo?) ==> ops[i].file != file
  }

  /** A reader's next read starts where the last one ended, plus the bytes evicted in between. */
  ghost predicate Slides(log: seq<Slice>) {
    && (log != [] ==> log[0].start == log[0].evicted)
    && forall i :: 0 <= i < |log| - 1 ==>
         && log[i].evicted <= log[i + 1].evicted
         && log[i + 1].start == log[i].End() + (log[i + 1].evicted - log[i].evicted)
  }

  /** Where the reads so far have brought the file. */
  ghost predicate At(log: seq<Slice>, evicted: nat, pos: nat) {
    if log == [] then pos == 0
    else
      var last := log[|log| - 1];
      last.evicted <= evicted && pos == last.End() - last.evicted
  }

  lemma SlidesSnoc(log: seq<Slice>, evicted: nat, pos: nat, bytes: seq<byte>)
    requires Slides(log) && At(log, evicted, pos)
    ensures var log' := log + [Slice(evicted, evicted + pos, bytes)];
            Slides(log') && At(log', evicted, pos + |bytes|)
  {
  }

  /** Only its own reads move a file that does not seek. */
  lemma PosAfter(s: Sys, op: Op, file: nat)
    requires op.Write? || op.Read? || op.file != file
    ensures Step(s, op).Pos(file) ==
            s.Pos(file) + if IsReadOf(s, op, file) then |SliceRead(s, op, file).bytes| else 0
  {
    if op.Read? && op.file == file {
      ReadIsSlice(s.dev.Live(), s.Pos(file), op.count);
    }
  }

  /** A file that never seeks is where its reads have brought it. */
  lemma {:induction false} ReaderIsAt(ops: seq<Op>, file: nat)
    requires NeverSeeks(ops, file)
    ensures At(ReadLog(ops, file), EvictedBytes(Run(ops).dev), Run(ops).Pos(file))
  {
    if ops != [] {
      var ops0, op := ops[..|ops| - 1], ops[|ops| - 1];
      ReaderIsAt(ops0, file);
      PosAfter(Run(ops0), op, file);
      StepExtends(Run(ops0), op);
    }
  }

  /** It reads on from there, skipping exactly what was evicted between its reads. */
  lemma {:induction false} ReadsSlide(ops: seq<Op>, file: nat)
    requires NeverSeeks(ops, file)
    ensures Slides(ReadLog(ops, file))
  {
    if ops != [] {
      var ops0, op := ops[..|ops| - 1], ops[|ops| - 1];
      ReadsSlide(ops0, file);
      ReaderIsAt(ops0, file);
      SlidesOn(ReadLog(ops0, file), Run(ops0), op, file);
    }
  }

  lemma SlidesOn(log: seq<Slice>, s: Sys, op: Op, file: nat)
    requires Slides(log) && At(log, EvictedBytes(s.dev), s.Pos(file))
    ensures Slides(log + if IsReadOf(s, op, file) then [SliceRead(s, op, file)] else [])
  {
    if IsReadOf(s, op, file) {
      SlidesSnoc(log, EvictedBytes(s.dev), s.Pos(file), SliceRead(s, op, file).bytes);
    } else {
      assert log + [] == log;
    }
  }

  /** So no byte is ever returned twice, and reads never go back. */
  lemma {:induction false} SlidesForward(log: seq<Slice>, i: nat, j: nat)
    requires Slides(log) && i < j < |log|
    ensures log[i].End() <= log[j].start
  {
    if i + 1 < j {
      SlidesForward(log, i, j - 1);
    }
  }
}
