/** The character device of `main.c`, over its ring and the kernel heap. */
module Device {
  import opened Bytes
  import opened Window
  import opened Ring
  import opened DeviceModel

  /** An open file; the kernel keeps its position. */
  class File {
    var fPos: nat

    constructor ()
      ensures fPos == 0
    {
      fPos := 0;
    }
  }

  function BlockOf(p: Ptr): set<nat> {
    if p.Block? then {p.addr} else {}
  }

  /** The heap blocks that entries point at. */
  function BlocksOf(es: seq<Entry>): set<nat> {
    set e | e in es && e.buffptr.Block? :: e.buffptr.addr
  }

  lemma BlocksOfSnoc(es: seq<Entry>, e: Entry)
    ensures BlocksOf(es + [e]) == BlocksOf(es) + BlockOf(e.buffptr)
  {
    forall a | a in BlocksOf(es) + BlockOf(e.buffptr) ensures a in BlocksOf(es + [e]) {
      if a in BlocksOf(es) {
        var x :| x in es && x.buffptr == Block(a);
        assert x in es + [e];
      } else {
        assert e in es + [e];
      }
    }
  }

  /** The allocator never runs out of addresses. */
  lemma {:induction false} AddressLeft(s: set<nat>) returns (a: nat)
    ensures forall x :: x in s ==> x < a
  {
    if s == {} {
      a := 0;
    } else {
      var x :| x in s;
      a := AddressLeft(s - {x});
      assert s == (s - {x}) + {x};
      a := a + x + 1;
    }
  }

  lemma BlocksOfMember(es: seq<Entry>)
    ensures forall i :: 0 <= i < |es| && es[i].buffptr.Block? ==> es[i].buffptr.addr in BlocksOf(es)
  {
  }

  type Heap = map<nat, seq<byte>>

  /** Every line has a block of its own. */
  ghost predicate LinesStored(heap: Heap, h: seq<Entry>, lines: seq<seq<byte>>) {
    && |h| == |lines|
    && (forall i :: 0 <= i < |h| ==>
          && h[i].buffptr.Block? && h[i].buffptr.addr in heap
          && heap[h[i].buffptr.addr] == lines[i] && h[i].size == |lines[i]|)
    && (forall i, j :: 0 <= i < j < |h| ==> h[i].buffptr != h[j].buffptr)
  }

  /** The heap is split, without overlap, among the lines, the working buffer, the init buffer and the orphans. */
  ghost predicate HeapDivided(heap: Heap, h: seq<Entry>, working: Ptr, buffer: Ptr, orphans: set<nat>) {
    && heap.Keys == BlocksOf(h) + BlockOf(working) + BlockOf(buffer) + orphans
    && BlocksOf(h) !! BlockOf(working) !! BlockOf(buffer) !! orphans
  }

  /** Changing blocks that hold no line leaves the lines alone. */
  lemma LinesUntouched(heap: Heap, heap': Heap, h: seq<Entry>, lines: seq<seq<byte>>)
    requires LinesStored(heap, h, lines)
    requires forall a :: a in BlocksOf(h) && a in heap ==> a in heap' && heap'[a] == heap[a]
    ensures LinesStored(heap', h, lines)
  {
    BlocksOfMember(h);
  }

  lemma LineAdded(heap: Heap, h: seq<Entry>, lines: seq<seq<byte>>, working: Ptr, buffer: Ptr,
                  orphans: set<nat>, a: nat, line: seq<byte>)
    requires LinesStored(heap, h, lines) && HeapDivided(heap, h, working, buffer, orphans)
    requires a !in heap
    ensures LinesStored(heap[a := line], h + [Entry(Block(a), |line|)], lines + [line])
    ensures HeapDivided(heap[a := line], h + [Entry(Block(a), |line|)], working, buffer, orphans)
  {
    BlocksOfSnoc(h, Entry(Block(a), |line|));
    LinesUntouched(heap, heap[a := line], h, lines);
  }

  /** Losing the pointer to the working block makes one more orphan. */
  lemma OrphanCount(heap: Heap, h: seq<Entry>, working: Ptr, buffer: Ptr, orphans: set<nat>)
    requires HeapDivided(heap, h, working, buffer, orphans)
    ensures |orphans + BlockOf(working)| == |orphans| + if working.Block? then 1 else 0
  {
    assert orphans !! BlockOf(working);
  }

  const AESD_BUFFER_SIZE: nat := 1024

  class Device {
    const ring: CircularBuffer
    /** Allocated when the module is loaded; nothing else uses it. */
    const buffer: Ptr
    var workingEntry: Ptr
    var workingSize: nat
    /** The kernel's blocks, by address. */
    var heap: Heap
    ghost var lines: seq<seq<byte>>
    /** Blocks whose only pointer was overwritten by a failed krealloc. */
    ghost var orphans: set<nat>

    ghost predicate WorkStored()
      reads this
    {
      match workingEntry
      case Null => true
      case ZeroSize => workingSize == 0
      case Block(a) => a in heap && |heap[a]| == workingSize > 0
    }

    ghost predicate Valid()
      reads this, ring, ring.entry
    {
      && ring.Valid() && WorkStored()
      && LinesStored(heap, ring.history, lines)
      && HeapDivided(heap, ring.history, workingEntry, buffer, orphans)
    }

    ghost function Abs(): Dev
      reads this
      requires WorkStored()
    {
      Dev(lines, if workingEntry.Block? then Held(heap[workingEntry.addr]) else DropPointer(workingSize))
    }

    /** The lines that can still be read. */
    ghost function Live(): seq<seq<byte>>
      reads this
    {
      Last(lines, SLOTS)
    }

    /** The live bytes can be addressed by a file position. */
    ghost predicate Fits()
      reads this
    {
      |Flatten(Live())| < LOFF_MAX
    }

    /** aesd_init_module; nobody looks whether the allocation of the init buffer succeeds. */
    constructor (bufferOk: bool, garbage: seq<byte>)
      ensures Valid() && fresh(ring) && fresh(ring.entry)
      ensures Abs() == FRESH && orphans == {} && heap.Keys == BlockOf(buffer)
      ensures if bufferOk then buffer.Block? && |heap[buffer.addr]| == AESD_BUFFER_SIZE else buffer == Null
    {
      var a := FreshAddress({});
      ring := new CircularBuffer();
      buffer := if bufferOk then Block(a) else Null;
      workingEntry, workingSize := Null, 0;
      heap := if bufferOk then map[a := Fill(garbage, AESD_BUFFER_SIZE)] else map[];
      lines, orphans := [], {};
    }

    /** An address that `taken` does not use. */
    static method FreshAddress(taken: set<nat>) returns (a: nat)
      ensures a !in taken
    {
      ghost var b := AddressLeft(taken);
      assert b !in taken;
      a :| a !in taken;
    }

    /**
     * krealloc: a new block that keeps the old bytes up to the new size, the rest unspecified;
     * the old block stays allocated when it fails; size 0 frees.
     */
    method Krealloc(p: Ptr, n: nat, ok: bool, garbage: seq<byte>) returns (q: Ptr)
      requires p.Block? ==> p.addr in heap
      modifies this`heap
      ensures n == 0 ==> q == ZeroSize && heap == old(heap) - BlockOf(p)
      ensures n > 0 && !ok ==> q == Null && heap == old(heap)
      ensures n > 0 && ok ==>
                && q.Block? && q.addr !in old(heap) - BlockOf(p)
                && var bytes := if p.Block? then old(heap)[p.addr] else [];
                   heap == (old(heap) - BlockOf(p))[q.addr := Resized(bytes, n, garbage)]
    {
      if n == 0 {
        q := ZeroSize;
        heap := heap - BlockOf(p);
      } else if !ok {
        q := Null;
      } else {
        var rest := heap - BlockOf(p);
        var a := FreshAddress(rest.Keys);
        q := Block(a);
        heap := rest[a := Resized(if p.Block? then heap[p.addr] else [], n, garbage)];
      }
    }

    /** Lines 153-164: appends `chunk` to the working buffer. */
    method Grow(chunk: seq<byte>, env: WriteEnv) returns (ok: bool)
      requires Valid() && chunk != []
      modifies this
      ensures Valid() && ok == env.growOk
      ensures ok ==> workingEntry.Block?
      ensures Abs() == Dev(old(lines), if ok then Held(Recovered(old(Abs()).work, env.garbage) + chunk)
                                       else DropPointer(old(Abs()).work.Size()))
      ensures orphans == old(if env.growOk then orphans else orphans + BlockOf(workingEntry))
    {
      var grown := Krealloc(workingEntry, workingSize + |chunk|, env.growOk, env.garbage);
      ok := !grown.Null?;
      if !ok {
        orphans := orphans + BlockOf(workingEntry);
      }
      workingEntry := grown;
      if ok {
        heap := heap[workingEntry.addr := heap[workingEntry.addr][..workingSize] + chunk];
        workingSize := workingSize + |chunk|;
        GrownBytes(old(Abs()).work, |chunk|, env.garbage);
      }
      LinesUntouched(old(heap), heap, ring.history, lines);
    }

    /** Lines 166-193: moves the first complete line, if there is one, into the ring. */
    method Commit(env: WriteEnv) returns (ok: bool)
      requires Valid() && workingEntry.Block?
      modifies this, ring, ring.entry
      ensures Valid()
      ensures CommitResult(Abs(), ok) == CommitStep(old(lines), old(heap[workingEntry.addr]), env)
      ensures orphans == old(if CommitOrphans(heap[workingEntry.addr], env) == 0 then orphans
                             else orphans + BlockOf(workingEntry))
    {
      var newline := FirstNewline(heap[workingEntry.addr]);
      if newline == workingSize {
        return true;
      }
      if !env.entryOk {
        return false;
      }
      var entrySize := newline + 1;
      AddLine(heap[workingEntry.addr][..entrySize]);
      Shrink(entrySize, env);
      return true;
    }

    /** A block of its own for a complete line, added to the ring. */
    method AddLine(line: seq<byte>)
      requires Valid()
      modifies this, ring, ring.entry
      ensures Valid()
      ensures workingEntry == old(workingEntry) && workingSize == old(workingSize)
      ensures Abs() == Dev(old(lines) + [line], old(Abs()).work) && orphans == old(orphans)
    {
      var entryBuf := FreshAddress(heap.Keys);
      LineAdded(heap, ring.history, lines, workingEntry, buffer, orphans, entryBuf, line);
      heap := heap[entryBuf := line];
      ring.AddEntry(Entry(Block(entryBuf), |line|));
      lines := lines + [line];
    }

    /** memmove and krealloc: drops the first `n` bytes of the working buffer. */
    method Shrink(n: nat, env: WriteEnv)
      requires Valid() && workingEntry.Block? && n <= workingSize
      modifies this
      ensures Valid()
      ensures Abs() == Dev(old(lines), if env.shrinkOk then Held(old(heap[workingEntry.addr])[n..])
                                       else DropPointer(old(workingSize) - n))
      ensures orphans == old(if n < workingSize && !env.shrinkOk then orphans + BlockOf(workingEntry) else orphans)
    {
      var bytes := heap[workingEntry.addr];
      heap := heap[workingEntry.addr := bytes[n..] + bytes[|bytes| - n..]];
      workingSize := workingSize - n;
      var p := Krealloc(workingEntry, workingSize, env.shrinkOk, env.garbage);
      if p.Null? {
        orphans := orphans + BlockOf(workingEntry);
      }
      workingEntry := p;
      LinesUntouched(old(heap), heap, ring.history, lines);
    }

    method Write(data: seq<byte>, env: WriteEnv) returns (r: Reply)
      requires Valid()
      modifies this, ring, ring.entry
      ensures Valid()
      ensures DevStep(Abs(), r) == WriteStep(old(Abs()), data, env)
      ensures |orphans| == old(|orphans| + WriteOrphans(Abs(), data, env))
    {
      if env.interrupted {
        return Fail(ERESTARTSYS);
      }
      if !env.kbufOk {
        return Fail(ENOMEM);
      }
      if !env.copyOk {
        return Fail(EFAULT);
      }
      var kbuf := data;
      r := Count(|data|);
      var copied, remaining := 0, |data|;
      while remaining > 0
        invariant Valid() && copied + remaining == |data|
        invariant copied == 0 ==> Abs() == old(Abs()) && r == Count(|data|) && |orphans| == old(|orphans|)
        invariant copied != 0 ==>
                    && remaining == 0 && DevStep(Abs(), r) == WriteStep(old(Abs()), data, env)
                    && |orphans| == old(|orphans| + WriteOrphans(Abs(), data, env))
      {
        var chunk := remaining;
        assert kbuf[copied..copied + chunk] == data;
        var ok := TakeChunk(kbuf[copied..copied + chunk], env);
        if !ok {
          return Fail(ENOMEM);
        }
        copied, remaining := copied + chunk, remaining - chunk;
      }
    }

    /** The body of the loop. */
    method TakeChunk(chunk: seq<byte>, env: WriteEnv) returns (ok: bool)
      requires Valid() && chunk != [] && env.TakesInput()
      modifies this, ring, ring.entry
      ensures Valid()
      ensures DevStep(Abs(), if ok then Count(|chunk|) else Fail(ENOMEM)) == WriteStep(old(Abs()), chunk, env)
      ensures |orphans| == old(|orphans| + WriteOrphans(Abs(), chunk, env))
    {
      OrphanCount(heap, ring.history, workingEntry, buffer, orphans);
      ok := Grow(chunk, env);
      if ok {
        OrphanCount(heap, ring.history, workingEntry, buffer, orphans);
        ok := Commit(env);
      }
    }

    /** The live slots hold the live lines. */
    lemma LiveLines()
      requires Valid()
      ensures EntrySizes(ring.Live()) == Sizes(Live())
      ensures forall k :: 0 <= k < |ring.Live()| ==>
                var p := ring.Live()[k].buffptr;
                p.Block? && p.addr in heap && heap[p.addr] == Live()[k]
      ensures Sum(Sizes(Live())) == |Flatten(Live())|
    {
      SumOfSizes(Live());
    }

    method Read(f: File, count: nat, interrupted: bool, copyOk: bool) returns (r: Reply)
      requires Valid() && Fits() && f.fPos < LOFF_MAX
      modifies f
      ensures FileStep(f.fPos, r) == old(ReadStep(Live(), f.fPos, count, interrupted, copyOk))
      ensures f.fPos < LOFF_MAX
    {
      if interrupted {
        return Fail(ERESTARTSYS);
      }
      LiveLines();
      var found := ring.FindEntryOffsetForFpos(f.fPos);
      if found.None? {
        return Data([]);
      }
      ghost var at := Locate(Sizes(Live()), f.fPos).value;
      r := CopyToUser(f, ring.entry[found.value.index], found.value.offset, count, copyOk, Live(), at);
    }

    /** Lines 92-103. */
    method CopyToUser(f: File, entry: Entry, from: nat, count: nat, copyOk: bool,
                      ghost live: seq<seq<byte>>, ghost at: Place)
      returns (r: Reply)
      requires Locate(Sizes(live), f.fPos) == Some(at) && from == at.offset
      requires entry.buffptr.Block? && entry.buffptr.addr in heap
      requires heap[entry.buffptr.addr] == live[at.index] && entry.size == |live[at.index]|
      modifies f
      ensures FileStep(f.fPos, r) == ReadStep(live, old(f.fPos), count, false, copyOk)
      ensures f.fPos == old(f.fPos) || f.fPos <= |Flatten(live)|
    {
      var bytesToCopy := entry.size - from;
      if count < bytesToCopy {
        bytesToCopy := count;
      }
      if !copyOk {
        return Fail(EFAULT);
      }
      ReadHit(live, f.fPos, count, at);
      r := Data(heap[entry.buffptr.addr][from..from + bytesToCopy]);
      f.fPos := f.fPos + bytesToCopy;
    }

    method Llseek(f: File, off: Loff, whence: int, interrupted: bool) returns (r: Reply)
      requires Valid() && Fits() && f.fPos < LOFF_MAX
      modifies f
      ensures FileStep(f.fPos, r) == old(SeekStep(|Flatten(Live())|, f.fPos, off, whence, interrupted))
      ensures f.fPos < LOFF_MAX
    {
      if interrupted {
        return Fail(ERESTARTSYS);
      }
      LiveLines();
      var totalSize := ring.TotalSize();
      r := MoveTo(f, totalSize, off, whence);
    }

    /** Lines 232-256. */
    method MoveTo(f: File, totalSize: nat, off: Loff, whence: int) returns (r: Reply)
      modifies f
      ensures FileStep(f.fPos, r) == SeekStep(totalSize, old(f.fPos), off, whence, false)
      ensures f.fPos == old(f.fPos) || f.fPos < LOFF_MAX
    {
      var newpos: Loff;
      if whence == SEEK_SET {
        newpos := off;
      } else if whence == SEEK_CUR {
        newpos := ToLoff(f.fPos + off);
      } else if whence == SEEK_END {
        newpos := ToLoff(totalSize + off);
      } else {
        return Fail(EINVAL);
      }
      if newpos < 0 {
        return Fail(EINVAL);
      }
      f.fPos := newpos;
      return Moved(newpos);
    }

    /** `to` is the index and the offset that the caller's struct aesd_seekto carries. */
    method Ioctl(f: File, cmd: nat, to: Place, interrupted: bool, copyOk: bool) returns (r: Reply)
      requires Valid() && Fits() && f.fPos < LOFF_MAX
      modifies f
      ensures FileStep(f.fPos, r) == old(SeekToStep(Live(), f.fPos, cmd, to, interrupted, copyOk))
      ensures f.fPos < LOFF_MAX
    {
      if cmd != AESDCHAR_IOCSEEKTO {
        return Fail(ENOTTY);
      }
      if !copyOk {
        return Fail(EFAULT);
      }
      if to.index >= SLOTS {
        return Fail(EINVAL);
      }
      if interrupted {
        return Fail(ERESTARTSYS);
      }
      LiveLines();
      ghost var sizes := EntrySizes(ring.Live());
      ring.ShowsLive();
      var bufIndex, totalBytes := ring.Walk(to.index, ring.Live());
      if to.offset >= ring.entry[bufIndex].size {
        return Fail(EINVAL);
      }
      assert Inside(sizes, to);
      SumPrefix(sizes, to.index);
      LocateInverse(sizes, totalBytes + to.offset, to);
      totalBytes := SizeAdd(totalBytes, to.offset);
      var found := ring.FindEntryOffsetForFpos(totalBytes);
      if found.None? {
        return Fail(EINVAL);
      }
      f.fPos := totalBytes;
      return Done;
    }

    method Kfree(p: Ptr)
      requires p.Block? ==> p.addr in heap
      modifies this`heap
      ensures heap == old(heap) - BlockOf(p)
    {
      heap := heap - BlockOf(p);
    }

    /**
     * aesd_cleanup_module. Every kfree is of an allocated block, so nothing is freed twice; what
     * stays allocated is the init buffer, one block for each line that was evicted, and the orphans.
     */
    method Cleanup()
      requires Valid()
      modifies this, ring.entry
      ensures ring.entry[..] == Blanks(SLOTS) && workingEntry == Null
      ensures heap.Keys == BlocksOf(Evicted(old(ring.history))) + BlockOf(buffer) + old(orphans)
      ensures |heap| == |Evicted(old(lines))| + (if buffer.Block? then 1 else 0) + |old(orphans)|
    {
      ring.ShowsLive();
      LastDistinct(ring.history);
      Remainder(heap, ring.history, workingEntry, buffer, orphans);
      FreeAll(ring.Live());
    }

    /** The two parts of cleanup that free memory. */
    method FreeAll(ghost live: seq<Entry>)
      requires ring.Shows(live) && Distinct(live)
      requires BlocksOf(live) <= heap.Keys && BlockOf(workingEntry) <= heap.Keys - BlocksOf(live)
      modifies this, ring.entry
      ensures ring.entry[..] == Blanks(SLOTS) && workingEntry == Null
      ensures heap.Keys == old(heap.Keys - BlocksOf(live) - BlockOf(workingEntry))
      ensures |heap| == |heap.Keys|
    {
      FreeSlots(live);
      FreeWorking();
    }

    method FreeWorking()
      requires BlockOf(workingEntry) <= heap.Keys
      modifies this
      ensures workingEntry == Null && heap == old(heap - BlockOf(workingEntry))
    {
      if workingEntry != Null {
        Kfree(workingEntry);
        workingEntry := Null;
        workingSize := 0;
      }
    }

    /** AESD_CIRCULAR_BUFFER_FOREACH over all ten slots, live or not. */
    method FreeSlots(ghost live: seq<Entry>)
      requires ring.Shows(live) && Distinct(live)
      requires BlocksOf(live) <= heap.Keys
      modifies this`heap, ring.entry
      ensures ring.entry[..] == Blanks(SLOTS)
      ensures heap == old(heap) - BlocksOf(live)
    {
      ghost var slots := ring.entry[..];
      SlotBlocks(ring, live);
      var index := 0;
      while index < SLOTS
        invariant index <= SLOTS
        invariant forall i :: 0 <= i < SLOTS ==> ring.entry[i] == if i < index then BLANK else slots[i]
        invariant heap == old(heap) - BlocksOf(slots[..index])
      {
        assert slots[..index + 1] == slots[..index] + [slots[index]];
        BlocksOfSnoc(slots[..index], slots[index]);
        if ring.entry[index].buffptr != Null {
          assert slots[index] in slots;
          Kfree(ring.entry[index].buffptr);
          ring.entry[index] := Entry(Null, 0);
        }
        index := index + 1;
      }
      assert slots[..index] == slots;
    }
  }

  /** The entries are blocks, no two the same. */
  ghost predicate Distinct(es: seq<Entry>) {
    && (forall i :: 0 <= i < |es| ==> es[i].buffptr.Block?)
    && (forall i, j :: 0 <= i < j < |es| ==> es[i].buffptr != es[j].buffptr)
  }

  lemma LastDistinct(h: seq<Entry>)
    requires Distinct(h)
    ensures Distinct(Last(h, SLOTS))
  {
  }

  /** How many steps after the read position slot `i` comes. */
  function StepsTo(outOffs: nat, i: nat): (k: nat)
    requires outOffs < SLOTS && i < SLOTS
    ensures k < SLOTS && SlotAt(outOffs, k) == i
  {
    if i >= outOffs then i - outOffs else i + SLOTS - outOffs
  }

  lemma SlotIsLive(ring: CircularBuffer, live: seq<Entry>, i: nat)
    requires ring.Shows(live) && i < SLOTS
    ensures var k := StepsTo(ring.outOffs, i); ring.entry[i] == if k < |live| then live[k] else BLANK
  {
  }

  /** The array slots are blank or hold the live entries, each once. */
  lemma SlotBlocks(ring: CircularBuffer, live: seq<Entry>)
    requires ring.Shows(live) && Distinct(live)
    ensures BlocksOf(ring.entry[..]) == BlocksOf(live)
    ensures forall i :: 0 <= i < SLOTS ==> ring.entry[i] == BLANK || ring.entry[i].buffptr.Block?
    ensures forall i, j :: 0 <= i < j < SLOTS && ring.entry[i].buffptr.Block? ==>
              ring.entry[i].buffptr != ring.entry[j].buffptr
  {
    var out := ring.outOffs;
    forall i | 0 <= i < SLOTS
      ensures ring.entry[i] == if StepsTo(out, i) < |live| then live[StepsTo(out, i)] else BLANK
    {
      SlotIsLive(ring, live, i);
    }
    forall k | 0 <= k < |live| ensures live[k] in ring.entry[..] {
      assert ring.entry[..][SlotAt(out, k)] == live[k];
    }
    forall e | e in ring.entry[..] && e.buffptr.Block? ensures e in live {
      var i :| 0 <= i < SLOTS && ring.entry[i] == e;
    }
  }

  lemma {:induction false} CountBlocks(h: seq<Entry>)
    requires Distinct(h)
    ensures |BlocksOf(h)| == |h|
  {
    if h == [] {
      assert BlocksOf(h) == {};
    } else {
      var h0, e := h[..|h| - 1], h[|h| - 1];
      CountBlocks(h0);
      assert h == h0 + [e];
      BlocksOfSnoc(h0, e);
      assert e.buffptr.addr !in BlocksOf(h0);
    }
  }

  lemma EvictedBlocks(h: seq<Entry>)
    requires Distinct(h)
    ensures BlocksOf(Evicted(h)) == BlocksOf(h) - BlocksOf(Last(h, SLOTS))
    ensures |BlocksOf(Evicted(h))| == |Evicted(h)|
  {
    CountBlocks(Evicted(h));
  }

  /** What cleanup leaves, from how the heap was divided. */
  lemma Remainder(heap: Heap, h: seq<Entry>, working: Ptr, buffer: Ptr, orphans: set<nat>)
    requires HeapDivided(heap, h, working, buffer, orphans) && Distinct(h)
    ensures heap.Keys - BlocksOf(Last(h, SLOTS)) - BlockOf(working)
            == BlocksOf(Evicted(h)) + BlockOf(buffer) + orphans
    ensures |BlocksOf(Evicted(h)) + BlockOf(buffer) + orphans|
            == |Evicted(h)| + (if buffer.Block? then 1 else 0) + |orphans|
    ensures BlocksOf(Last(h, SLOTS)) <= heap.Keys
    ensures BlockOf(working) <= heap.Keys - BlocksOf(Last(h, SLOTS))
  {
    EvictedBlocks(h);
    SetsLeft(BlocksOf(h), BlocksOf(Last(h, SLOTS)), BlockOf(working), BlockOf(buffer), orphans);
  }

  lemma SetsLeft(all: set<nat>, live: set<nat>, working: set<nat>, buffer: set<nat>, orphans: set<nat>)
    requires live <= all && all !! working !! buffer !! orphans
    ensures (all + working + buffer + orphans) - live - working == (all - live) + buffer + orphans
    ensures |(all - live) + buffer + orphans| == |all - live| + |buffer| + |orphans|
  {
    assert (all - live) !! buffer;
    assert ((all - live) + buffer) !! orphans;
  }

  /** Growing the working buffer keeps what it had, or exposes what was in memory if it had nothing. */
  lemma GrownBytes(w: Work, more: nat, garbage: seq<byte>)
    ensures var had := if w.Held? then w.bytes else [];
            Resized(had, w.Size() + more, garbage)[..w.Size()] == Recovered(w, garbage)
  {
  }

  function Resized(bytes: seq<byte>, n: nat, garbage: seq<byte>): (s: seq<byte>)
    ensures |s| == n
  {
    if |bytes| >= n then bytes[..n] else bytes + Fill(garbage, n)[|bytes|..]
  }
}
