/** The ten-slot ring of `aesd-circular-buffer.c`. */
module Ring {
  import opened Bytes
  import opened Window

  /** A kernel pointer: NULL, the marker that krealloc(p, 0) returns, or a block of the heap. */
  datatype Ptr = Null | ZeroSize | Block(addr: nat)

  datatype Entry = Entry(buffptr: Ptr, size: nat)

  const BLANK := Entry(Null, 0)

  /** AESDCHAR_MAX_WRITE_OPERATIONS_SUPPORTED */
  const SLOTS: nat := 10

  /** size_t arithmetic wraps at this value. */
  const SIZE_MOD: nat := 0x1_0000_0000_0000_0000

  /** The size_t value with the same 64 bits as `x`. */
  function ToSize(x: nat): (s: nat)
    ensures x < SIZE_MOD ==> s == x
  {
    if x < SIZE_MOD then x else ToSize(x - SIZE_MOD)
  }

  /** Addition of two size_t values. */
  function SizeAdd(a: nat, b: nat): (s: nat)
    ensures a + b < SIZE_MOD ==> s == a + b
  {
    ToSize(a + b)
  }

  datatype RingState = RingState(entry: seq<Entry>, inOffs: nat, outOffs: nat, full: bool) {
    ghost predicate InRange() {
      |entry| == SLOTS && inOffs < SLOTS && outOffs < SLOTS
    }

    /** The slots in ring order, starting at the read position. */
    ghost function FromOut(): (v: seq<Entry>)
      requires InRange()
    {
      entry[outOffs..] + entry[..outOffs]
    }
  }

  function Blanks(n: nat): (b: seq<Entry>)
    ensures |b| == n
  {
    seq(n, _ => BLANK)
  }

  ghost function AddState(r: RingState, e: Entry): (r': RingState)
    requires r.InRange()
    ensures r'.InRange()
  {
    var out' := if r.full then (r.outOffs + 1) % SLOTS else r.outOffs;
    var in' := (r.inOffs + 1) % SLOTS;
    RingState(r.entry[r.inOffs := e], in', out', r.full || in' == out')
  }

  /** The ring that initialisation followed by adding the entries of `h`, in order, leads to. */
  ghost function RingAfter(h: seq<Entry>): (r: RingState)
    ensures r.InRange()
  {
    if h == [] then RingState(Blanks(SLOTS), 0, 0, false)
    else AddState(RingAfter(h[..|h| - 1]), h[|h| - 1])
  }

  function Last<T>(h: seq<T>, n: nat): seq<T> {
    if |h| <= n then h else h[|h| - n..]
  }

  /** The part of a history that the ring no longer holds. */
  function Evicted<T>(h: seq<T>): (e: seq<T>)
    ensures h == e + Last(h, SLOTS)
    ensures |e| == if |h| <= SLOTS then 0 else |h| - SLOTS
  {
    h[..|h| - |Last(h, SLOTS)|]
  }

  /** What `RingClosedForm` says of one ring state. */
  ghost predicate IsRingOf(r: RingState, h: seq<Entry>) {
    && r.InRange()
    && r.inOffs == |h| % SLOTS
    && (r.full <==> |h| >= SLOTS)
    && r.outOffs == (if |h| >= SLOTS then |h| % SLOTS else 0)
    && r.FromOut() == Last(h, SLOTS) + Blanks(SLOTS - |Last(h, SLOTS)|)
  }

  lemma AddToPartial(r: RingState, h: seq<Entry>, e: Entry)
    requires IsRingOf(r, h) && |h| < SLOTS
    ensures IsRingOf(AddState(r, e), h + [e])
  {
    var r' := AddState(r, e);
    assert r.entry == r.FromOut() == h + Blanks(SLOTS - |h|);
    assert r'.entry == (h + [e]) + Blanks(SLOTS - |h| - 1);
    assert r'.FromOut() == r'.entry;
  }

  lemma AddToFull(r: RingState, h: seq<Entry>, e: Entry)
    requires IsRingOf(r, h) && |h| >= SLOTS
    ensures IsRingOf(AddState(r, e), h + [e])
  {
    var r' := AddState(r, e);
    assert r.FromOut() == Last(h, SLOTS);
    assert r'.FromOut() == r.FromOut()[1..] + [e];
    assert Last(h + [e], SLOTS) == Last(h, SLOTS)[1..] + [e];
  }

  /**
   * Every reachable ring, in closed form: where the indices stand after n additions, and that
   * the slots read in ring order are the last ten additions followed by untouched blank slots.
   */
  lemma {:induction false} RingClosedForm(h: seq<Entry>)
    ensures IsRingOf(RingAfter(h), h)
  {
    if h == [] {
      assert RingAfter(h).FromOut() == Blanks(SLOTS);
    } else {
      var h0, e := h[..|h| - 1], h[|h| - 1];
      assert h == h0 + [e];
      RingClosedForm(h0);
      if |h0| < SLOTS {
        AddToPartial(RingAfter(h0), h0, e);
      } else {
        AddToFull(RingAfter(h0), h0, e);
      }
    }
  }

  function EntrySizes(es: seq<Entry>): (ns: seq<nat>)
    ensures |ns| == |es|
  {
    seq(|es|, i requires 0 <= i < |es| => es[i].size)
  }

  /** The slot `k` steps after slot `outOffs`. */
  function SlotAt(outOffs: nat, k: nat): (i: nat)
    ensures i < SLOTS
  {
    (outOffs + k) % SLOTS
  }

  lemma NextSlot(outOffs: nat, k: nat)
    ensures (SlotAt(outOffs, k) + 1) % SLOTS == SlotAt(outOffs, k + 1)
  {
  }

  lemma FromOutIndex(r: RingState, k: nat)
    requires r.InRange() && k < SLOTS
    ensures r.FromOut()[k] == r.entry[SlotAt(r.outOffs, k)]
  {
  }

  /** Adding the slot sizes in array order gives the same total as adding them in ring order. */
  lemma SumFromOut(r: RingState)
    requires r.InRange()
    ensures Sum(EntrySizes(r.entry)) == Sum(EntrySizes(r.FromOut()))
  {
    var a, b := EntrySizes(r.entry[..r.outOffs]), EntrySizes(r.entry[r.outOffs..]);
    assert EntrySizes(r.entry) == a + b;
    assert EntrySizes(r.FromOut()) == b + a;
    SumAppend(a, b);
    SumAppend(b, a);
  }

  /** struct aesd_circular_buffer, with the list of everything ever added to it. */
  class CircularBuffer {
    const entry: array<Entry>
    var inOffs: nat
    var outOffs: nat
    var full: bool
    ghost var history: seq<Entry>

    ghost function State(): RingState
      reads this, entry
    {
      RingState(entry[..], inOffs, outOffs, full)
    }

    /** The ring is what adding `history` to an initialised ring leads to. */
    ghost predicate Valid()
      reads this, entry
    {
      State() == RingAfter(history)
    }

    ghost function Live(): seq<Entry>
      reads this
    {
      Last(history, SLOTS)
    }

    constructor ()
      ensures Valid() && history == [] && fresh(entry)
    {
      entry := new Entry[SLOTS](_ => BLANK);
      inOffs, outOffs, full := 0, 0, false;
      history := [];
      new;
      assert entry[..] == Blanks(SLOTS);
    }

    method AddEntry(e: Entry)
      requires Valid()
      modifies this, entry
      ensures Valid() && history == old(history) + [e]
    {
      assert RingAfter(history).InRange();
      if full {
        outOffs := (outOffs + 1) % SLOTS;
      }
      entry[inOffs] := e;
      inOffs := (inOffs + 1) % SLOTS;
      if inOffs == outOffs {
        full := true;
      }
      history := history + [e];
      assert history[..|history| - 1] == old(history);
      assert State() == AddState(old(State()), e);
    }

    /** How many entries are live, read off the indices. */
    lemma LiveCount()
      requires Valid()
      ensures entry.Length == SLOTS && inOffs < SLOTS && outOffs < SLOTS
      ensures !full ==> outOffs == 0
      ensures |Live()| == if full then SLOTS else inOffs
    {
      RingClosedForm(history);
    }

    /** When the ring is full, its slots add up to the live total in whatever order they are added. */
    lemma FullTotal()
      requires Valid() && full
      ensures Sum(EntrySizes(entry[..])) == Sum(EntrySizes(Live()))
    {
      RingClosedForm(history);
      SumFromOut(State());
      assert State().FromOut() == Live();
    }

    /** Entry `k` of `live` sits `k` steps after the read position; the slots after those are blank. */
    ghost predicate Shows(live: seq<Entry>)
      reads this, entry
    {
      && entry.Length == SLOTS && outOffs < SLOTS && |live| <= SLOTS
      && forall k :: 0 <= k < SLOTS ==> entry[SlotAt(outOffs, k)] == if k < |live| then live[k] else BLANK
    }

    lemma ShowsLive()
      requires Valid()
      ensures Shows(Live())
    {
      RingClosedForm(history);
      forall k | 0 <= k < SLOTS
        ensures entry[SlotAt(outOffs, k)] == if k < |Live()| then Live()[k] else BLANK
      {
        FromOutIndex(State(), k);
      }
    }

    /** The slot, and the byte in it, at `charOffset` of the live entries read end to end. */
    method FindEntryOffsetForFpos(charOffset: nat) returns (found: Option<Place>)
      requires Valid()
      requires Sum(EntrySizes(Live())) < SIZE_MOD
      ensures entry.Length == SLOTS
      ensures Locate(EntrySizes(Live()), charOffset).None? ==> found.None?
      ensures Locate(EntrySizes(Live()), charOffset).Some? ==>
                var at := Locate(EntrySizes(Live()), charOffset).value;
                && found == Some(Place(SlotAt(outOffs, at.index), at.offset))
                && entry[found.value.index] == Live()[at.index]
    {
      var entries: int;
      if full {
        entries := SLOTS;
      } else if inOffs >= outOffs {
        entries := inOffs - outOffs;
      } else {
        entries := (SLOTS - outOffs) + inOffs;
      }
      LiveCount();
      ShowsLive();
      found := Search(charOffset, entries, Live());
    }

    /** Lines 59-71. */
    method Search(charOffset: nat, entries: nat, ghost live: seq<Entry>) returns (found: Option<Place>)
      requires Shows(live) && entries == |live|
      requires Sum(EntrySizes(live)) < SIZE_MOD
      ensures Locate(EntrySizes(live), charOffset).None? ==> found.None?
      ensures Locate(EntrySizes(live), charOffset).Some? ==>
                var at := Locate(EntrySizes(live), charOffset).value;
                && found == Some(Place(SlotAt(outOffs, at.index), at.offset))
                && entry[found.value.index] == live[at.index]
    {
      var bytesSearched := 0;
      var idx := outOffs;
      ghost var sizes := EntrySizes(live);
      var i := 0;
      while i < entries
        invariant 0 <= i <= entries
        invariant idx == SlotAt(outOffs, i)
        invariant bytesSearched == Sum(sizes[..i]) <= charOffset
      {
        assert entry[idx] == live[i];
        NextSlot(outOffs, i);
        SumPrefix(sizes, i);
        var reached := SizeAdd(bytesSearched, entry[idx].size);
        if charOffset < reached {
          ghost var at := Place(i, charOffset - bytesSearched);
          assert Inside(sizes, at) && Position(sizes, at) == charOffset;
          LocateInverse(sizes, charOffset, at);
          return Some(Place(idx, charOffset - bytesSearched));
        }
        bytesSearched := reached;
        idx := (idx + 1) % SLOTS;
        i := i + 1;
      }
      assert sizes[..i] == sizes;
      return None;
    }

    /** main.c 217-228: in array order when full, else from the read to the write position. */
    method TotalSize() returns (total: nat)
      requires Valid()
      requires Sum(EntrySizes(Live())) < SIZE_MOD
      ensures total == Sum(EntrySizes(Live()))
    {
      LiveCount();
      if full {
        FullTotal();
        total := SumSlots();
      } else {
        ShowsLive();
        total := SumToWritePosition(Live());
      }
    }

    method SumSlots() returns (total: nat)
      requires entry.Length == SLOTS && Sum(EntrySizes(entry[..])) < SIZE_MOD
      ensures total == Sum(EntrySizes(entry[..]))
    {
      ghost var slots := EntrySizes(entry[..]);
      total := 0;
      var i := 0;
      while i < SLOTS
        invariant i <= SLOTS && total == Sum(slots[..i])
      {
        SumPrefix(slots, i);
        total := SizeAdd(total, entry[i].size);
        i := i + 1;
      }
      assert slots[..i] == slots;
    }

    method SumToWritePosition(ghost live: seq<Entry>) returns (total: nat)
      requires Shows(live) && outOffs == 0 && inOffs == |live| < SLOTS
      requires Sum(EntrySizes(live)) < SIZE_MOD
      ensures total == Sum(EntrySizes(live))
    {
      ghost var sizes := EntrySizes(live);
      total := 0;
      var idx := outOffs;
      while idx != inOffs
        invariant idx <= inOffs && total == Sum(sizes[..idx])
        decreases inOffs - idx
      {
        assert SlotAt(outOffs, idx) == idx;
        SumPrefix(sizes, idx);
        total := SizeAdd(total, entry[idx].size);
        idx := (idx + 1) % SLOTS;
      }
      assert sizes[..idx] == sizes;
    }

    /**
     * main.c 294-303: `steps` slots from the read position, adding their sizes on the way.
     * The walk ignores the write position: past the live entries it crosses blank slots.
     */
    method Walk(steps: nat, ghost live: seq<Entry>) returns (slot: nat, bytes: nat)
      requires Shows(live) && steps < SLOTS
      requires Sum(EntrySizes(live)) < SIZE_MOD
      ensures slot < SLOTS
      ensures if steps < |live| then bytes == Sum(EntrySizes(live)[..steps]) && entry[slot] == live[steps]
              else bytes == Sum(EntrySizes(live)) && entry[slot] == BLANK
    {
      ghost var sizes := EntrySizes(live);
      slot, bytes := outOffs, 0;
      var i := 0;
      assert sizes[..|sizes|] == sizes;
      while i < steps
        invariant i <= steps && slot == SlotAt(outOffs, i)
        invariant bytes == Sum(if i <= |sizes| then sizes[..i] else sizes)
      {
        assert entry[slot] == if i < |live| then live[i] else BLANK;
        NextSlot(outOffs, i);
        if i < |sizes| {
          SumPrefix(sizes, i);
        }
        bytes := SizeAdd(bytes, entry[slot].size);
        slot := (slot + 1) % SLOTS;
        i := i + 1;
      }
    }
  }
}
