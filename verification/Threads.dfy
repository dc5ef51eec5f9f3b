/**
 * The life of the server's thread records: the main loop of `aesdsocket.c` creates and reaps
 * them while the workers that use them run at any speed.
 */
module Threads {
  import opened Selecting

  /** Where a worker is. It uses its record until it has exited. */
  datatype Worker = Worker(flagged: bool, exited: bool)

  /** Where the main thread is. */
  datatype Main =
    | Accepting
    | Spawned(id: nat)
    | At(item: nat)
    | Joining(item: nat, tmp: int)

  const NONE := -1

  datatype State = State(main: Main, queue: seq<nat>, workers: map<nat, Worker>, freed: set<nat>)

  const START := State(Accepting, [], map[], {})

  datatype Event =
    | Accept(id: nat)      // malloc and pthread_create
    | Insert               // TAILQ_INSERT_TAIL, then to the first record
    | Look                 // take the successor, read the flag
    | JoinAndFree          // pthread_join, TAILQ_REMOVE, free
    | Work(id: nat)        // a worker uses its socket or the mutex
    | SetFlag(id: nat)
    | Exit(id: nat)        // closes the socket and returns

  function IndexOf(q: seq<nat>, x: nat): (i: nat)
    ensures i <= |q|
    ensures i < |q| ==> q[i] == x
    ensures i == |q| ==> x !in q
    ensures x !in q[..i]
  {
    if q == [] || q[0] == x then 0 else 1 + IndexOf(q[1..], x)
  }

  /** The record after `x`, as its next field tells. */
  function Successor(q: seq<nat>, x: nat): int {
    var i := IndexOf(q, x);
    if i + 1 < |q| then q[i + 1] else NONE
  }

  function Without(q: seq<nat>, x: nat): seq<nat> {
    var i := IndexOf(q, x);
    if i < |q| then q[..i] + q[i + 1..] else q
  }

  function GoTo(item: int): Main {
    if item < 0 then Accepting else At(item)
  }

  /** When an event can happen. Records are numbered by allocation, so a number is never used twice. */
  predicate Enabled(s: State, e: Event) {
    match e
    case Accept(id) => s.main.Accepting? && id !in s.workers
    case Insert => s.main.Spawned?
    case Look => s.main.At? && s.main.item in s.workers
    case JoinAndFree => s.main.Joining? && s.main.item in s.workers && s.workers[s.main.item].exited
    case Work(id) => id in s.workers && !s.workers[id].exited
    case SetFlag(id) => id in s.workers && !s.workers[id].exited
    case Exit(id) => id in s.workers && !s.workers[id].exited
  }

  function Next(s: State, e: Event): State
    requires Enabled(s, e)
  {
    match e
    case Accept(id) => s.(main := Spawned(id), workers := s.workers[id := Worker(false, false)])
    case Insert =>
      var q := s.queue + [s.main.id];
      s.(main := At(q[0]), queue := q)
    case Look =>
      var tmp := Successor(s.queue, s.main.item);
      s.(main := if s.workers[s.main.item].flagged then Joining(s.main.item, tmp) else GoTo(tmp))
    case JoinAndFree =>
      s.(main := GoTo(s.main.tmp), queue := Without(s.queue, s.main.item), freed := s.freed + {s.main.item})
    case Work(id) => s
    case SetFlag(id) => s.(workers := s.workers[id := s.workers[id].(flagged := true)])
    case Exit(id) => s.(workers := s.workers[id := s.workers[id].(exited := true)])
  }

  /** The records that an event reads or writes: its own, and the neighbours whose links a queue operation changes. */
  function Touches(s: State, e: Event): set<nat>
    requires Enabled(s, e)
  {
    match e
    case Accept(id) => {}
    case Insert => {s.main.id} + (if s.queue == [] then {} else {s.queue[|s.queue| - 1]})
    case Look => {s.main.item}
    case JoinAndFree =>
      var i := IndexOf(s.queue, s.main.item);
      {s.main.item}
      + (if 0 < i < |s.queue| then {s.queue[i - 1]} else {})
      + (if i + 1 < |s.queue| then {s.queue[i + 1]} else {})
    case Work(id) => {id}
    case SetFlag(id) => {id}
    case Exit(id) => {id}
  }

  ghost predicate NoRepeats(q: seq<nat>) {
    forall i, j :: 0 <= i < j < |q| ==> q[i] != q[j]
  }

  ghost predicate MainOk(s: State) {
    match s.main
    case Accepting => true
    case Spawned(id) => id in s.workers && id !in s.queue && id !in s.freed
    case At(item) => item in s.queue
    case Joining(item, tmp) =>
      item in s.queue && item in s.workers && s.workers[item].flagged && tmp == Successor(s.queue, item)
  }

  /** Queued and running threads have live records; freed records belong to flagged threads that have exited. */
  ghost predicate Inv(s: State) {
    && NoRepeats(s.queue)
    && (forall x :: x in s.queue ==> x in s.workers && x !in s.freed)
    && (forall x :: x in s.freed ==> x in s.workers && s.workers[x].flagged && s.workers[x].exited)
    && MainOk(s)
  }

  lemma WithoutKeeps(q: seq<nat>, x: nat)
    requires NoRepeats(q) && x in q
    ensures NoRepeats(Without(q, x)) && x !in Without(q, x)
    ensures forall y :: y in Without(q, x) <==> y in q && y != x
    ensures Successor(q, x) == NONE || (Successor(q, x) >= 0 && Successor(q, x) in Without(q, x))
  {
    var i := IndexOf(q, x);
    var r := Without(q, x);
    assert q == q[..i] + [x] + q[i + 1..];
    if i + 1 < |q| {
      assert r[i] == q[i + 1];
    }
  }

  lemma InvStep(s: State, e: Event)
    requires Inv(s) && Enabled(s, e)
    ensures Inv(Next(s, e))
  {
    if e.JoinAndFree? {
      WithoutKeeps(s.queue, s.main.item);
    } else if e.Insert? {
      assert (s.queue + [s.main.id])[0] in s.queue + [s.main.id];
    }
  }

  /** No event of a reachable state touches a freed record, and no record is freed twice. */
  lemma NoUseAfterFree(s: State, e: Event)
    requires Inv(s) && Enabled(s, e)
    ensures Touches(s, e) !! s.freed
    ensures e.JoinAndFree? ==> s.main.item !in s.freed
  {
  }

  /** An event depends on no record that it does not touch, and changes none. */
  lemma OnlyTouched(s: State, e: Event, x: nat, w: Worker)
    requires Enabled(s, e) && x in s.workers && x !in Touches(s, e)
    ensures var t := s.(workers := s.workers[x := w]);
            Enabled(t, e) && Next(t, e) == Next(s, e).(workers := Next(s, e).workers[x := w])
    ensures Next(s, e).workers[x] == s.workers[x]
  {
    if e.Accept? || e.SetFlag? || e.Exit? {
      var v := Next(s, e).workers[e.id];
      assert s.workers[x := w][e.id := v] == s.workers[e.id := v][x := w];
    }
  }

  /** The record before `x`, as its back link tells. */
  function Predecessor(q: seq<nat>, x: nat): int {
    var i := IndexOf(q, x);
    if 0 < i < |q| then q[i - 1] else NONE
  }

  lemma IndexOfAt(q: seq<nat>, i: nat)
    requires NoRepeats(q) && i < |q|
    ensures IndexOf(q, q[i]) == i
  {
  }

  /** The links of position `j`, from its neighbours. */
  lemma LinksAt(q: seq<nat>, j: nat)
    requires NoRepeats(q) && j < |q|
    ensures Successor(q, q[j]) == if j + 1 < |q| then q[j + 1] else NONE
    ensures Predecessor(q, q[j]) == if j > 0 then q[j - 1] else NONE
  {
    IndexOfAt(q, j);
  }

  /** Taking out position `i` changes the links of its two neighbours only. */
  lemma LinksWithout(q: seq<nat>, i: nat, j: nat)
    requires NoRepeats(q) && i < |q| && j < |q| && j != i
    ensures j != i - 1 ==> Successor(Without(q, q[i]), q[j]) == Successor(q, q[j])
    ensures j != i + 1 ==> Predecessor(Without(q, q[i]), q[j]) == Predecessor(q, q[j])
  {
    IndexOfAt(q, i);
    WithoutKeeps(q, q[i]);
    LinksAt(q, j);
    var r, k := Without(q, q[i]), if j < i then j else j - 1;
    assert r[k] == q[j];
    LinksAt(r, k);
  }

  lemma LinksBehind(q: seq<nat>, x: nat, j: nat)
    requires NoRepeats(q) && x !in q && j < |q|
    ensures j != |q| - 1 ==> Successor(q + [x], q[j]) == Successor(q, q[j])
    ensures Predecessor(q + [x], q[j]) == Predecessor(q, q[j])
  {
    IndexOfAt(q, j);
    IndexOfAt(q + [x], j);
  }

  /** Nor does it change the links of a record that it does not touch. */
  lemma LinksTouched(s: State, e: Event, y: nat)
    requires Inv(s) && Enabled(s, e) && y in s.queue && y !in Touches(s, e)
    ensures y in Next(s, e).queue
    ensures Successor(Next(s, e).queue, y) == Successor(s.queue, y)
    ensures Predecessor(Next(s, e).queue, y) == Predecessor(s.queue, y)
  {
    var j := IndexOf(s.queue, y);
    if e.JoinAndFree? {
      WithoutKeeps(s.queue, s.main.item);
      LinksWithout(s.queue, IndexOf(s.queue, s.main.item), j);
    } else if e.Insert? {
      LinksBehind(s.queue, s.main.id, j);
    }
  }

  ghost predicate StepAt(events: seq<Event>, states: seq<State>, i: nat)
    requires i < |events| < |states|
  {
    Enabled(states[i], events[i]) && states[i + 1] == Next(states[i], events[i])
  }

  ghost predicate IsRun(events: seq<Event>, states: seq<State>) {
    && |states| == |events| + 1 && states[0] == START
    && forall i :: 0 <= i < |events| ==> StepAt(events, states, i)
  }

  /** In every interleaving of main thread and workers, at every moment. */
  lemma {:induction false} ReapingIsSafe(events: seq<Event>, states: seq<State>, i: nat)
    requires IsRun(events, states) && i <= |events|
    ensures Inv(states[i])
    ensures i < |events| ==> Enabled(states[i], events[i]) && Touches(states[i], events[i]) !! states[i].freed
  {
    if i > 0 {
      ReapingIsSafe(events, states, i - 1);
      assert StepAt(events, states, i - 1);
      InvStep(states[i - 1], events[i - 1]);
    }
    if i < |events| {
      assert StepAt(events, states, i);
      NoUseAfterFree(states[i], events[i]);
    }
  }

  // ---- what the events so far say of every record ----

  /** The connections accepted so far, in order. */
  function Accepted(events: seq<Event>): seq<nat> {
    if events == [] then []
    else
      var e := events[|events| - 1];
      Accepted(events[..|events| - 1]) + if e.Accept? then [e.id] else []
  }

  /** A record that has not reached the queue yet. */
  function Pending(main: Main): seq<nat> {
    if main.Spawned? then [main.id] else []
  }

  function NotIn(q: seq<nat>, freed: set<nat>): seq<nat> {
    if q == [] then []
    else
      var x := q[|q| - 1];
      NotIn(q[..|q| - 1], freed) + if x in freed then [] else [x]
  }

  /** The records queued or on their way there are those accepted and not freed, in order of acceptance. */
  ghost predicate Accounted(s: State, accepted: seq<nat>) {
    && s.queue + Pending(s.main) == NotIn(accepted, s.freed)
    && NoRepeats(accepted) && forall x :: x in accepted <==> x in s.workers
  }

  lemma NotInSnoc(q: seq<nat>, x: nat, freed: set<nat>)
    ensures NotIn(q + [x], freed) == NotIn(q, freed) + if x in freed then [] else [x]
  {
    assert (q + [x])[..|q|] == q;
  }

  lemma {:induction false} NotInOthers(q: seq<nat>, x: nat, freed: set<nat>)
    requires x !in q
    ensures NotIn(q, freed + {x}) == NotIn(q, freed) && x !in NotIn(q, freed)
  {
    if q != [] {
      NotInOthers(q[..|q| - 1], x, freed);
    }
  }

  lemma CutSnoc(q: seq<nat>, i: nat, y: nat)
    requires i < |q|
    ensures (q + [y])[..i] + (q + [y])[i + 1..] == (q[..i] + q[i + 1..]) + [y]
  {
  }

  lemma WithoutSnoc(q: seq<nat>, x: nat, y: nat)
    requires x in q
    ensures Without(q + [y], x) == Without(q, x) + [y]
  {
    IndexOfFront(q, x, y);
    var i := IndexOf(q, x);
    CutSnoc(q, i, y);
  }

  lemma {:induction false} IndexOfFront(q: seq<nat>, x: nat, y: nat)
    requires x in q
    ensures IndexOf(q + [y], x) == IndexOf(q, x) < |q|
  {
    if q[0] != x {
      IndexOfFront(q[1..], x, y);
      assert (q + [y])[1..] == q[1..] + [y];
    }
  }

  lemma WithoutLast(q: seq<nat>, x: nat)
    requires x !in q
    ensures Without(q + [x], x) == q
  {
    var i := IndexOf(q + [x], x);
    assert (q + [x])[|q|] == x;
    assert i >= |q|;
    assert x !in (q + [x])[..i];
  }

  /** Freeing a record takes it, and no other, out of the list. */
  lemma {:induction false} NotInFreed(q: seq<nat>, x: nat, freed: set<nat>)
    requires NoRepeats(q) && x in q && x !in freed
    ensures x in NotIn(q, freed) && NotIn(q, freed + {x}) == Without(NotIn(q, freed), x)
  {
    var q0, y := q[..|q| - 1], q[|q| - 1];
    assert q == q0 + [y];
    if y == x {
      FreedLast(q0, x, freed);
    } else {
      NotInFreed(q0, x, freed);
      FreedBefore(q0, x, y, freed);
    }
  }

  lemma FreedLast(q: seq<nat>, x: nat, freed: set<nat>)
    requires x !in q && x !in freed
    ensures x in NotIn(q + [x], freed) && NotIn(q + [x], freed + {x}) == Without(NotIn(q + [x], freed), x)
  {
    NotInSnoc(q, x, freed);
    NotInSnoc(q, x, freed + {x});
    NotInOthers(q, x, freed);
    WithoutLast(NotIn(q, freed), x);
    assert NotIn(q, freed) + [] == NotIn(q, freed);
  }

  lemma FreedBefore(q: seq<nat>, x: nat, y: nat, freed: set<nat>)
    requires y != x && x in NotIn(q, freed) && NotIn(q, freed + {x}) == Without(NotIn(q, freed), x)
    ensures x in NotIn(q + [y], freed) && NotIn(q + [y], freed + {x}) == Without(NotIn(q + [y], freed), x)
  {
    NotInSnoc(q, y, freed);
    NotInSnoc(q, y, freed + {x});
    if y !in freed {
      WithoutSnoc(NotIn(q, freed), x, y);
    } else {
      assert NotIn(q, freed) + [] == NotIn(q, freed) && Without(NotIn(q, freed), x) + [] == Without(NotIn(q, freed), x);
    }
  }

  lemma AccountedAccept(s: State, id: nat, accepted: seq<nat>)
    requires Inv(s) && Enabled(s, Accept(id)) && Accounted(s, accepted)
    ensures Accounted(Next(s, Accept(id)), accepted + [id])
  {
    NotInSnoc(accepted, id, s.freed);
    assert s.queue + [] == s.queue;
  }

  lemma AccountedJoin(s: State, accepted: seq<nat>)
    requires Inv(s) && Enabled(s, JoinAndFree) && Accounted(s, accepted)
    ensures Accounted(Next(s, JoinAndFree), accepted)
  {
    assert s.queue + [] == s.queue;
    NotInFreed(accepted, s.main.item, s.freed);
    assert Without(s.queue, s.main.item) + [] == Without(s.queue, s.main.item);
  }

  lemma AccountedStep(s: State, e: Event, accepted: seq<nat>)
    requires Inv(s) && Enabled(s, e) && Accounted(s, accepted)
    ensures Accounted(Next(s, e), accepted + if e.Accept? then [e.id] else [])
  {
    if e.Accept? {
      AccountedAccept(s, e.id, accepted);
    } else {
      assert accepted + [] == accepted;
      if e.JoinAndFree? {
        AccountedJoin(s, accepted);
      }
    }
  }

  /** In every run: no record is lost from the queue, and none comes in that was not accepted. */
  lemma {:induction false} QueueIsAccepted(events: seq<Event>, states: seq<State>, k: nat)
    requires IsRun(events, states) && k <= |events|
    ensures Accounted(states[k], Accepted(events[..k]))
  {
    if k > 0 {
      QueueIsAccepted(events, states, k - 1);
      ReapingIsSafe(events, states, k - 1);
      assert StepAt(events, states, k - 1);
      AccountedStep(states[k - 1], events[k - 1], Accepted(events[..k - 1]));
      assert events[..k][..k - 1] == events[..k - 1];
    }
  }

  /** What the events so far say of the thread of record `x`. */
  ghost predicate WorkerIs(s: State, events: seq<Event>, x: nat) {
    && (x in s.workers <==> Accept(x) in events)
    && (x in s.workers ==>
          (s.workers[x].flagged <==> SetFlag(x) in events) && (s.workers[x].exited <==> Exit(x) in events))
    && (x !in s.workers ==> SetFlag(x) !in events && Exit(x) !in events)
  }

  lemma WorkerStep(s: State, e: Event, events: seq<Event>, x: nat)
    requires Enabled(s, e) && WorkerIs(s, events, x)
    ensures WorkerIs(Next(s, e), events + [e], x)
  {
  }

  /** A record exists, is flagged, or its thread has exited, exactly when an event of that thread has made it so. */
  lemma {:induction false} WorkersFollowEvents(events: seq<Event>, states: seq<State>, k: nat, x: nat)
    requires IsRun(events, states) && k <= |events|
    ensures WorkerIs(states[k], events[..k], x)
  {
    if k > 0 {
      WorkersFollowEvents(events, states, k - 1, x);
      assert StepAt(events, states, k - 1);
      WorkerStep(states[k - 1], events[k - 1], events[..k - 1], x);
      assert events[..k] == events[..k - 1] + [events[k - 1]];
    }
  }

  /** A worker runs freely from its start to its exit, whatever the main thread does. */
  lemma WorkersRunFreely(events: seq<Event>, states: seq<State>, k: nat, x: nat)
    requires IsRun(events, states) && k <= |events|
    ensures Accept(x) in events[..k] && Exit(x) !in events[..k] <==> Enabled(states[k], Exit(x))
    ensures Enabled(states[k], Exit(x)) <==> Enabled(states[k], SetFlag(x))
    ensures Enabled(states[k], Exit(x)) <==> Enabled(states[k], Work(x))
  {
    WorkersFollowEvents(events, states, k, x);
  }

  /** The records that the main thread has joined. */
  ghost function Joined(events: seq<Event>, states: seq<State>, k: nat): set<nat>
    requires IsRun(events, states) && k <= |events|
  {
    set i | 0 <= i < k && events[i].JoinAndFree? && states[i].main.Joining? :: states[i].main.item
  }

  /** Exactly they are freed. */
  lemma {:induction false} FreedIsJoined(events: seq<Event>, states: seq<State>, k: nat)
    requires IsRun(events, states) && k <= |events|
    ensures states[k].freed == Joined(events, states, k)
  {
    if k > 0 {
      FreedIsJoined(events, states, k - 1);
      assert StepAt(events, states, k - 1);
      var e, main := events[k - 1], states[k - 1].main;
      assert Joined(events, states, k)
          == Joined(events, states, k - 1) + if e.JoinAndFree? && main.Joining? then {main.item} else {};
    }
  }

  /** The main thread can always go on, at worst once the thread that it joins has exited, which it can. */
  lemma MainGoesOn(s: State, id: nat) returns (e: Event)
    requires Inv(s) && id !in s.workers
    ensures Enabled(s, e)
    ensures s.main.Accepting? ==> e == Accept(id)
    ensures !s.main.Accepting? && e != Insert && e != Look && e != JoinAndFree ==>
              s.main.Joining? && e == Exit(s.main.item) && Enabled(Next(s, e), JoinAndFree)
  {
    match s.main
    case Accepting => e := Accept(id);
    case Spawned(_) => e := Insert;
    case At(_) => e := Look;
    case Joining(item, _) => e := if s.workers[item].exited then JoinAndFree else Exit(item);
  }

  // ---- exactly which records a pass frees ----

  /** The flag that an event reads. */
  function Reads(s: State, e: Event): seq<bool>
    requires Enabled(s, e)
  {
    if e.Look? then [s.workers[s.main.item].flagged] else []
  }

  /** The flags that the main thread has read from event `i` up to event `k`, in order. */
  ghost function Looks(events: seq<Event>, states: seq<State>, i: nat, k: nat): seq<bool>
    requires IsRun(events, states) && i <= k <= |events|
    decreases k
  {
    if k == i then []
    else
      assert StepAt(events, states, k - 1);
      Looks(events, states, i, k - 1) + Reads(states[k - 1], events[k - 1])
  }

  /**
   * The pass over the queue `q`, with what it has read so far: the records looked at have been
   * kept or taken out as their flags said, and those taken out, and no others, have been freed.
   */
  ghost predicate PassAt(s: State, q: seq<nat>, freed: set<nat>, looks: seq<bool>) {
    && |looks| <= |q|
    && match s.main
       case At(item) => |looks| < |q| && item == q[|looks|] && Dealt(s, q, freed, looks, |looks|)
       case Joining(item, tmp) =>
         && looks != [] && looks[|looks| - 1] && item == q[|looks| - 1]
         && tmp == (if |looks| < |q| then q[|looks|] else NONE)
         && Dealt(s, q, freed, looks, |looks| - 1)
       case Accepting => |looks| == |q| && Dealt(s, q, freed, looks, |q|)
       case Spawned(_) => false
  }

  ghost predicate Dealt(s: State, q: seq<nat>, freed: set<nat>, looks: seq<bool>, n: nat)
    requires n <= |looks| <= |q|
  {
    s.queue == After(q, looks, n) && s.freed == freed + Gone(q, looks, n)
  }

  ghost function Gone(q: seq<nat>, looks: seq<bool>, n: nat): set<nat>
    requires n <= |looks| && n <= |q|
  {
    set x | x in Select(q, looks, true, n)
  }

  /** One more flag is known; nothing has been dealt with yet. */
  lemma MoreLooks(s: State, q: seq<nat>, freed: set<nat>, looks: seq<bool>, b: bool)
    requires |looks| < |q| && Dealt(s, q, freed, looks, |looks|)
    ensures Dealt(s, q, freed, looks + [b], |looks|)
  {
    SelectMoreFlags(q, looks, [b], false, |looks|);
    SelectMoreFlags(q, looks, [b], true, |looks|);
  }

  /** Where the pass goes from position `n`. */
  lemma NextInPass(queue: seq<nat>, q: seq<nat>, looks: seq<bool>, n: nat)
    requires NoRepeats(queue) && n < |q| && n < |looks| && queue == After(q, looks, n)
    ensures Successor(queue, q[n]) == if n + 1 < |q| then q[n + 1] else NONE
    ensures After(q, looks, n + 1) == if looks[n] then Without(queue, q[n]) else queue
  {
    AfterStep(q, looks, n);
    IndexOfAt(queue, |Select(q, looks, false, n)|);
  }

  lemma LookStep(s: State, q: seq<nat>, freed: set<nat>, looks: seq<bool>)
    requires NoRepeats(s.queue) && Enabled(s, Look) && PassAt(s, q, freed, looks)
    ensures PassAt(Next(s, Look), q, freed, looks + [s.workers[s.main.item].flagged])
  {
    var n, flag := |looks|, s.workers[s.main.item].flagged;
    var looks' := looks + [flag];
    MoreLooks(s, q, freed, looks, flag);
    NextInPass(s.queue, q, looks', n);
    if flag {
      LookTakes(s, q, freed, looks', n);
    } else {
      LookKeeps(s, q, freed, looks', n);
    }
  }

  lemma LookTakes(s: State, q: seq<nat>, freed: set<nat>, looks: seq<bool>, n: nat)
    requires Enabled(s, Look) && s.workers[s.main.item].flagged
    requires |looks| == n + 1 <= |q| && looks[n] && s.main.item == q[n] && Dealt(s, q, freed, looks, n)
    requires Successor(s.queue, q[n]) == if n + 1 < |q| then q[n + 1] else NONE
    ensures PassAt(Next(s, Look), q, freed, looks)
  {
  }

  lemma LookKeeps(s: State, q: seq<nat>, freed: set<nat>, looks: seq<bool>, n: nat)
    requires Enabled(s, Look) && !s.workers[s.main.item].flagged
    requires |looks| == n + 1 <= |q| && !looks[n] && s.main.item == q[n] && Dealt(s, q, freed, looks, n)
    requires Successor(s.queue, q[n]) == if n + 1 < |q| then q[n + 1] else NONE
    requires After(q, looks, n + 1) == s.queue
    ensures PassAt(Next(s, Look), q, freed, looks)
  {
    assert Select(q, looks, true, n + 1) == Select(q, looks, true, n);
  }

  lemma JoinStep(s: State, q: seq<nat>, freed: set<nat>, looks: seq<bool>)
    requires NoRepeats(s.queue) && Enabled(s, JoinAndFree) && PassAt(s, q, freed, looks)
    ensures PassAt(Next(s, JoinAndFree), q, freed, looks)
  {
    var n := |looks| - 1;
    NextInPass(s.queue, q, looks, n);
    GoneStep(q, looks, n);
  }

  lemma GoneStep(q: seq<nat>, looks: seq<bool>, n: nat)
    requires n < |looks| && n < |q| && looks[n]
    ensures Gone(q, looks, n + 1) == Gone(q, looks, n) + {q[n]}
  {
    assert Select(q, looks, true, n + 1) == Select(q, looks, true, n) + [q[n]];
  }

  lemma PassStarts(s: State)
    requires Enabled(s, Insert)
    ensures PassAt(Next(s, Insert), s.queue + [s.main.id], s.freed, [])
  {
  }

  /** From the insertion of event `i` up to state `k`, without the main thread going back to accept in between. */
  ghost predicate InPass(events: seq<Event>, states: seq<State>, i: nat, k: nat) {
    && IsRun(events, states) && i < k <= |events| && events[i].Insert?
    && forall m :: i < m < k ==> !states[m].main.Accepting?
  }

  /** The queue that the pass goes over: the one before with the new record at its end. */
  ghost function Passed(events: seq<Event>, states: seq<State>, i: nat): seq<nat>
    requires IsRun(events, states) && i < |events| && events[i].Insert?
  {
    assert StepAt(events, states, i);
    states[i].queue + [states[i].main.id]
  }

  lemma {:induction false} PassHolds(events: seq<Event>, states: seq<State>, i: nat, k: nat)
    requires InPass(events, states, i, k)
    ensures PassAt(states[k], Passed(events, states, i), states[i].freed, Looks(events, states, i + 1, k))
  {
    var q := Passed(events, states, i);
    assert StepAt(events, states, k - 1);
    if k == i + 1 {
      PassStarts(states[i]);
    } else {
      PassHolds(events, states, i, k - 1);
      ReapingIsSafe(events, states, k - 1);
      PassStep(states[k - 1], events[k - 1], q, states[i].freed, Looks(events, states, i + 1, k - 1));
    }
  }

  /** Any event of a pass; those of the workers leave it where it is. */
  lemma PassStep(s: State, e: Event, q: seq<nat>, freed: set<nat>, looks: seq<bool>)
    requires NoRepeats(s.queue) && Enabled(s, e) && !s.main.Accepting? && PassAt(s, q, freed, looks)
    ensures PassAt(Next(s, e), q, freed, looks + Reads(s, e))
  {
    if e.Look? {
      LookStep(s, q, freed, looks);
    } else {
      assert looks + [] == looks;
      if e.JoinAndFree? {
        JoinStep(s, q, freed, looks);
      }
    }
  }

  /**
   * A whole pass: the queue keeps the records whose flag was not set when it was read, in order,
   * and those whose flag was set are freed. It is the pass of the tail queue's reaper, for the
   * flags that this interleaving let it read.
   */
  lemma PassResult(events: seq<Event>, states: seq<State>, i: nat, j: nat)
    requires InPass(events, states, i, j) && states[j].main.Accepting?
    ensures var q, looks := Passed(events, states, i), Looks(events, states, i + 1, j);
            && |looks| == |q|
            && states[j].queue == Select(q, looks, false, |q|)
            && states[j].freed == states[i].freed + Gone(q, looks, |q|)
  {
    PassHolds(events, states, i, j);
    AfterEnds(Passed(events, states, i), Looks(events, states, i + 1, j));
  }

  /** The event that read the flag of position `m`. */
  lemma {:induction false} LookOf(events: seq<Event>, states: seq<State>, i: nat, j: nat, m: nat) returns (k: nat)
    requires InPass(events, states, i, j) && m < |Looks(events, states, i + 1, j)| <= |Passed(events, states, i)|
    ensures i < k < j && events[k].Look? && states[k].main == At(Passed(events, states, i)[m])
    ensures Passed(events, states, i)[m] in states[k].workers
    ensures Looks(events, states, i + 1, j)[m] == states[k].workers[Passed(events, states, i)[m]].flagged
  {
    k := j - 1;
    assert StepAt(events, states, k);
    if m < |Looks(events, states, i + 1, k)| {
      k := LookOf(events, states, i, k, m);
    } else {
      LookIsNext(events, states, i, k);
    }
  }

  /** Every read is of the position that comes next, and makes it one further. */
  lemma LookIsNext(events: seq<Event>, states: seq<State>, i: nat, k: nat)
    requires InPass(events, states, i, k) && k < |events| && events[k].Look?
    ensures var n := |Looks(events, states, i + 1, k)|;
            && n < |Passed(events, states, i)| && states[k].main == At(Passed(events, states, i)[n])
            && |Looks(events, states, i + 1, k + 1)| == n + 1
  {
    PassHolds(events, states, i, k);
    assert StepAt(events, states, k);
  }

  lemma {:induction false} LooksGrow(events: seq<Event>, states: seq<State>, i: nat, k: nat, l: nat)
    requires IsRun(events, states) && i <= k <= l <= |events|
    ensures |Looks(events, states, i, k)| <= |Looks(events, states, i, l)|
    decreases l
  {
    if k < l {
      LooksGrow(events, states, i, k, l - 1);
    }
  }

  lemma PassedNoRepeats(events: seq<Event>, states: seq<State>, i: nat)
    requires IsRun(events, states) && i < |events| && events[i].Insert?
    ensures NoRepeats(Passed(events, states, i))
  {
    ReapingIsSafe(events, states, i);
    assert StepAt(events, states, i);
  }

  /** A pass reads the flag of each record once. */
  lemma LookOnce(events: seq<Event>, states: seq<State>, i: nat, k: nat, l: nat)
    requires InPass(events, states, i, l) && i < k < l < |events|
    requires events[k].Look? && events[l].Look?
    ensures states[k].main != states[l].main
  {
    LookIsNext(events, states, i, k);
    LookIsNext(events, states, i, l);
    LooksGrow(events, states, i + 1, k + 1, l);
    PassedNoRepeats(events, states, i);
  }

  lemma {:induction false} SelectedExactly(q: seq<nat>, flags: seq<bool>, want: bool, n: nat, m: nat)
    requires NoRepeats(q) && n <= |q| && n <= |flags| && m < |q|
    ensures q[m] in Select(q, flags, want, n) <==> m < n && flags[m] == want
  {
    if n > 0 {
      SelectedExactly(q, flags, want, n - 1, m);
    }
  }

  /**
   * From the insertion of event `i` to the next time the main thread accepts, each record in the
   * queue, and the one just accepted, has its flag read by exactly one event `k`; it is then freed
   * iff that flag was set, and still queued iff it was not.
   */
  lemma PassExact(events: seq<Event>, states: seq<State>, i: nat, j: nat, x: nat) returns (k: nat)
    requires InPass(events, states, i, j) && states[j].main.Accepting?
    requires x in states[i].queue || states[i].main == Spawned(x)
    ensures i < k < j && events[k].Look? && states[k].main == At(x) && x in states[k].workers
    ensures forall l :: i < l < j && events[l].Look? && states[l].main == At(x) ==> l == k
    ensures x in states[j].freed <==> states[k].workers[x].flagged
    ensures x in states[j].queue <==> !states[k].workers[x].flagged
  {
    var q, looks := Passed(events, states, i), Looks(events, states, i + 1, j);
    PassResult(events, states, i, j);
    PassedNoRepeats(events, states, i);
    ReapingIsSafe(events, states, i);
    var m := IndexOf(q, x);
    k := LookOf(events, states, i, j, m);
    SelectedExactly(q, looks, true, |q|, m);
    SelectedExactly(q, looks, false, |q|, m);
    forall l | i < l < j && events[l].Look? && states[l].main == At(x) ensures l == k {
      if l < k {
        LookOnce(events, states, i, l, k);
      } else if k < l {
        LookOnce(events, states, i, k, l);
      }
    }
  }

  lemma {:induction false} FlagStays(events: seq<Event>, states: seq<State>, x: nat, i: nat, k: nat)
    requires IsRun(events, states) && i <= k <= |events|
    requires x in states[i].workers && states[i].workers[x].flagged
    ensures x in states[k].workers && states[k].workers[x].flagged
  {
    if i < k {
      FlagStays(events, states, x, i, k - 1);
      assert StepAt(events, states, k - 1);
    }
  }

  /** So a record in the queue whose flag is set before the pass starts is freed by its end. */
  lemma FlaggedIsFreed(events: seq<Event>, states: seq<State>, i: nat, j: nat, x: nat)
    requires InPass(events, states, i, j) && states[j].main.Accepting?
    requires x in states[i].queue || states[i].main == Spawned(x)
    requires x in states[i].workers && states[i].workers[x].flagged
    ensures x in states[j].freed && x !in states[j].queue
  {
    var k := PassExact(events, states, i, j, x);
    FlagStays(events, states, x, i, k);
  }

  /** Between two connections nothing is freed, whatever flags are set: a finished record waits for the next one. */
  lemma {:induction false} FreedOnlyAfterAccept(events: seq<Event>, states: seq<State>, i: nat, j: nat)
    requires IsRun(events, states) && i <= j <= |events| && states[i].main.Accepting?
    requires forall k :: i <= k < j ==> !events[k].Accept?
    ensures states[j].main.Accepting? && states[j].freed == states[i].freed && states[j].queue == states[i].queue
  {
    if i < j {
      FreedOnlyAfterAccept(events, states, i, j - 1);
      assert StepAt(events, states, j - 1);
    }
  }

  /** A thread that has exited without setting its flag. */
  ghost predicate Silent(s: State, id: nat) {
    id in s.workers && s.workers[id] == Worker(false, true)
  }

  /** Such a thread's record, as that of a connection that never delivered a byte, is never freed. */
  lemma {:induction false} SilentNeverFreed(events: seq<Event>, states: seq<State>, id: nat, i: nat, j: nat)
    requires IsRun(events, states) && i <= j <= |events| && Silent(states[i], id)
    ensures Silent(states[j], id) && id !in states[j].freed
  {
    if i < j {
      SilentNeverFreed(events, states, id, i, j - 1);
      assert StepAt(events, states, j - 1);
    }
    ReapingIsSafe(events, states, j);
  }

  /** A run goes on with any event that can happen. */
  lemma GoOn(events: seq<Event>, states: seq<State>, e: Event) returns (events': seq<Event>, states': seq<State>)
    requires IsRun(events, states) && Enabled(states[|events|], e)
    ensures IsRun(events', states') && |events'| == |events| + 1
    ensures states'[|events'|] == Next(states[|events|], e)
  {
    events', states' := events + [e], states + [Next(states[|events|], e)];
    forall i | 0 <= i < |events'| ensures StepAt(events', states', i) {
      if i < |events| {
        assert StepAt(events, states, i);
      }
    }
  }

  /** Accepting and then inserting the first record starts a pass over it alone. */
  lemma FirstInsert(w: Worker)
    ensures Next(State(Spawned(0), [], map[0 := w], {}), Insert) == State(At(0), [0], map[0 := w], {})
  {
    assert [] + [0] == [0];
  }

  /** A connection that delivers nothing: the pass that follows its exit leaves its record in the queue. */
  lemma SilentRun() returns (events: seq<Event>, states: seq<State>)
    ensures IsRun(events, states) && states[|events|].main.Accepting?
    ensures Silent(states[|events|], 0) && states[|events|].queue == [0] && states[|events|].freed == {}
  {
    var w := Worker(false, true);
    events, states := GoOn([], [START], Accept(0));
    events, states := GoOn(events, states, Exit(0));
    FirstInsert(w);
    events, states := GoOn(events, states, Insert);
    events, states := GoOn(events, states, Look);
  }

  /** A connection that sets its flag first: the same pass frees its record. */
  lemma FlaggedRun() returns (events: seq<Event>, states: seq<State>)
    ensures IsRun(events, states) && states[|events|].main.Accepting?
    ensures states[|events|].queue == [] && states[|events|].freed == {0}
  {
    events, states := FlaggedStart();
    assert Without([0], 0) == [] && {} + {0} == {0};
    events, states := GoOn(events, states, Look);
    events, states := GoOn(events, states, JoinAndFree);
  }

  lemma FlaggedStart() returns (events: seq<Event>, states: seq<State>)
    ensures IsRun(events, states)
    ensures states[|events|] == State(At(0), [0], map[0 := Worker(true, true)], {})
  {
    events, states := GoOn([], [START], Accept(0));
    events, states := GoOn(events, states, SetFlag(0));
    events, states := GoOn(events, states, Exit(0));
    assert states[|events|] == State(Spawned(0), [], map[0 := Worker(true, true)], {});
    FirstInsert(Worker(true, true));
    events, states := GoOn(events, states, Insert);
  }
}
