/** The thread pool (src/arpc/executor.h, src/arpc/executor.cpp): functions wait in `pending`, or
    workers wait in `slots`.  Submitters and workers look at the queues without the lock, and act
    under the lock on what they saw, which may be stale. */
module ThreadPool {
  import opened Results
  import opened Queues

  type Id = nat
  type Worker = nat

  /** A submitted function.  `rvalue` says that run may move from it, rather than copy it;
      `hollow` that it was moved from and lost. */
  datatype Work = Work(id: Id, rvalue: bool, hollow: bool)

  /** What the submitter is left with after making a queue entry of a function. */
  function Spent(work: Work): Work {
    if work.rvalue then work.(hollow := true) else work
  }

  /** What one locked attempt of run does, and of request_work. */
  datatype Attempt = ToSlot | ToPending | Overflow | FromPending | WaitInSlot | Retry

  function RunAttempt(sawSlot: bool, sawSpace: bool, slots: nat, pending: nat, capacity: nat): Attempt {
    if sawSlot then if slots > 0 then ToSlot else Retry
    else if sawSpace then if pending < capacity then ToPending else Overflow
    else Retry
  }

  function RequestAttempt(sawWork: bool, sawSpace: bool, slots: nat, pending: nat, workers: nat): Attempt {
    if sawWork then if pending > 0 then FromPending else Retry
    else if sawSpace then if slots < workers then WaitInSlot else Retry
    else Retry
  }

  // ----- The pool object -----

  class Pool {
    const pending: Queue<Work>
    const slots: Queue<Promise<Work>>

    ghost predicate Valid()
      reads this, pending, slots, slots.data
    {
      && pending.Valid() && slots.Valid()
      && (forall i :: 0 <= i < |slots.data| ==> slots.data[i].Valid() && slots.data[i].open)
      && (forall i, j :: 0 <= i < j < |slots.data| ==> slots.data[i] != slots.data[j])
    }

    constructor (workers: nat, queueSize: nat)
      ensures Valid() && fresh(pending) && fresh(slots) && pending.data == [] && slots.data == []
      ensures pending.maxSize == (if queueSize == 0 then workers else queueSize) && slots.maxSize == workers
    {
      pending := new Queue(if queueSize == 0 then workers else queueSize);
      slots := new Queue(workers);
    }

    /** The locked part of run.  Building the queue entry moves from a function passed as an rvalue,
        so when the queue turns out full the submitter goes on with a hollow one. */
    method TryRun(work: Work, sawSlot: bool, sawSpace: bool) returns (done: bool, left: Work)
      requires Valid()
      modifies pending, slots, slots.data
      ensures Valid()
      ensures var a := RunAttempt(sawSlot, sawSpace, |old(slots.data)|, |old(pending.data)|, pending.maxSize);
        && done == (a.ToSlot? || a.ToPending?)
        && left == (if a.Overflow? then Spent(work) else work)
        && pending.data == (if a.ToPending? then old(pending.data) + [work] else old(pending.data))
        && slots.data == (if a.ToSlot? then old(slots.data)[1..] else old(slots.data))
        && (a.ToSlot? ==> old(slots.data)[0].result == Some(Ok(work)))
      // A slot was seen: the worker that waits longest gets the function, unless none waits any more.
      ensures sawSlot && old(slots.data) != [] ==>
        && done && left == work && slots.data == old(slots.data)[1..] && pending.data == old(pending.data)
        && old(slots.data)[0].result == Some(Ok(work))
      // Only room was seen: the function joins the queue, unless that is full by now.
      ensures !sawSlot && sawSpace && |old(pending.data)| < pending.maxSize ==>
        done && left == work && pending.data == old(pending.data) + [work] && slots.data == old(slots.data)
      ensures done <==> if sawSlot then old(slots.data) != [] else sawSpace && |old(pending.data)| < pending.maxSize
      ensures !done ==>
        && pending.data == old(pending.data) && slots.data == old(slots.data) && left.id == work.id && left.rvalue == work.rvalue
        && left.hollow == (work.hollow || (work.rvalue && !sawSlot && sawSpace))
    {
      left := work;
      if sawSlot {
        var slot := slots.MaybeGet();
        if slot.Err? {
          return false, left;
        }
        var r := slot.value.Set(Ok(work));
        return true, left;
      }
      if sawSpace {
        left := Spent(work);
        var r := pending.MaybePut(work);
        if r.Err? {
          return false, left;
        }
        return true, work;
      }
      return false, left;
    }

    /** The locked part of request_work: a pending function fulfils the worker's promise, or the
        promise waits in a slot. */
    method TryRequest(slot: Promise<Work>, sawWork: bool, sawSpace: bool) returns (done: bool)
      requires Valid() && slot.Valid() && slot.open && slot !in slots.data
      modifies pending, slots, slot
      ensures Valid()
      ensures var a := RequestAttempt(sawWork, sawSpace, |old(slots.data)|, |old(pending.data)|, slots.maxSize);
        && done == !a.Retry?
        && pending.data == (if a.FromPending? then old(pending.data)[1..] else old(pending.data))
        && slots.data == (if a.WaitInSlot? then old(slots.data) + [slot] else old(slots.data))
        && slot.result == (if a.FromPending? then Some(Ok(old(pending.data)[0])) else None)
      // Work was seen: the worker gets the function that waits longest, unless none waits any more.
      ensures sawWork && old(pending.data) != [] ==>
        && done && slot.result == Some(Ok(old(pending.data)[0]))
        && pending.data == old(pending.data)[1..] && slots.data == old(slots.data)
      // Only room was seen: the worker waits behind the others.
      ensures !sawWork && sawSpace && |old(slots.data)| < slots.maxSize ==>
        done && slot.open && slots.data == old(slots.data) + [slot] && pending.data == old(pending.data)
      ensures done <==> if sawWork then old(pending.data) != [] else sawSpace && |old(slots.data)| < slots.maxSize
      ensures !done ==> slot.open && pending.data == old(pending.data) && slots.data == old(slots.data)
    {
      if sawWork {
        var work := pending.MaybeGet();
        if work.Err? {
          return false;
        }
        var _ := slot.Set(Ok(work.value));
        return true;
      }
      if sawSpace {
        var r := slots.MaybePut(slot);
        return r.Ok?;
      }
      return false;
    }

    /** run: look, lock, try, until the function is placed.  `seen` lists what successive looks
        report; the result says whether they were enough. */
    method Run(work: Work, seen: seq<(bool, bool)>) returns (done: bool, left: Work)
      requires Valid()
      modifies pending, slots, slots.data
      ensures Valid() && left.id == work.id && left.rvalue == work.rvalue
      ensures !done ==> pending.data == old(pending.data) && slots.data == old(slots.data)
      ensures done && slots.data != old(slots.data) ==>
        && old(slots.data) != [] && slots.data == old(slots.data)[1..] && pending.data == old(pending.data)
        && old(slots.data)[0].result == Some(Ok(left))
      ensures done && slots.data == old(slots.data) ==> pending.data == old(pending.data) + [left]
      ensures left.hollow == (work.hollow || (work.rvalue && |old(pending.data)| == pending.maxSize
        && exists i: nat :: i < |seen| && seen[i] == (false, true) && Unplaced(|old(slots.data)|, seen[..i])))
    {
      left := work;
      done := false;
      ghost var slots0, pending0 := slots.data, pending.data;
      for i := 0 to |seen|
        invariant Valid() && !done && left.id == work.id && left.rvalue == work.rvalue
        invariant pending.data == pending0 && slots.data == slots0
        invariant Unplaced(|slots0|, seen[..i]) && (|pending0| < pending.maxSize ==> left == work)
        invariant left.hollow == (work.hollow || (work.rvalue && |pending0| == pending.maxSize
          && exists k: nat :: k < i && seen[k] == (false, true) && Unplaced(|slots0|, seen[..k])))
      {
        done, left := TryRun(left, seen[i].0, seen[i].1);
        assert seen[..i + 1][..i] == seen[..i];
        if done {
          return;
        }
      }
    }
  }

  /** None of these looks would have found a slot. */
  ghost predicate Unplaced(slots: nat, seen: seq<(bool, bool)>) {
    forall i :: 0 <= i < |seen| && seen[i].0 ==> slots == 0
  }

  // ----- All threads together -----

  /** What a worker is doing: asking for work, waiting in a slot, holding a fulfilled slot, or
      running a function. */
  datatype Job = Asking | Waiting | Given(work: Work) | Running(work: Work)

  /** Where a submitted function is. */
  datatype Place = InHand | Pending | WithWorker(w: Worker) | RunBy(w: Worker) | Finished

  /** `places` and `started` record what happened: where each function is, and which functions
      were started, in order. */
  datatype State = State(hands: map<Id, Work>, pending: seq<Work>, capacity: nat,
                         jobs: map<Worker, Job>, slots: seq<Worker>, finished: set<Id>,
                         places: map<Id, Place>, started: seq<Id>)

  datatype Step =
    | Submit(id: Id, rvalue: bool)
    | TryRun(id: Id, sawSlot: bool, sawSpace: bool)
    | TryRequest(w: Worker, sawWork: bool, sawSpace: bool)
    | Start(w: Worker)
    | Finish(w: Worker)

  ghost predicate Enabled(s: State, step: Step) {
    match step
    case Submit(id, _) => id !in s.places
    case TryRun(id, _, _) => id in s.hands
    case TryRequest(w, _, _) => w in s.jobs && s.jobs[w].Asking?
    case Start(w) => w in s.jobs && s.jobs[w].Given?
    case Finish(w) => w in s.jobs && s.jobs[w].Running?
  }

  function Next(s: State, step: Step): State
    requires Enabled(s, step)
  {
    match step
    case Submit(id, rvalue) => s.(hands := s.hands[id := Work(id, rvalue, false)], places := s.places[id := InHand])
    case TryRun(id, sawSlot, sawSpace) =>
      (match RunAttempt(sawSlot, sawSpace, |s.slots|, |s.pending|, s.capacity)
       case ToSlot =>
         if s.slots == [] then s
         else
           var w := s.slots[0];
           s.(hands := s.hands - {id}, slots := s.slots[1..], jobs := s.jobs[w := Given(s.hands[id])],
              places := s.places[id := WithWorker(w)])
       case ToPending => s.(hands := s.hands - {id}, pending := s.pending + [s.hands[id]], places := s.places[id := Pending])
       case Overflow => s.(hands := s.hands[id := Spent(s.hands[id])])
       case _ => s)
    case TryRequest(w, sawWork, sawSpace) =>
      (match RequestAttempt(sawWork, sawSpace, |s.slots|, |s.pending|, |s.jobs|)
       case FromPending =>
         if s.pending == [] then s
         else
           s.(jobs := s.jobs[w := Given(s.pending[0])], pending := s.pending[1..],
              places := s.places[s.pending[0].id := WithWorker(w)])
       case WaitInSlot => s.(jobs := s.jobs[w := Waiting], slots := s.slots + [w])
       case _ => s)
    case Start(w) =>
      var id := s.jobs[w].work.id;
      s.(jobs := s.jobs[w := Running(s.jobs[w].work)], places := s.places[id := RunBy(w)], started := s.started + [id])
    case Finish(w) =>
      var id := s.jobs[w].work.id;
      s.(jobs := s.jobs[w := Asking], places := s.places[id := Finished], finished := s.finished + {id})
  }

  ghost predicate Initial(s: State) {
    && s.hands == map[] && s.pending == [] && s.slots == [] && s.finished == {} && s.places == map[] && s.started == []
    && forall w :: w in s.jobs ==> s.jobs[w] == Asking
  }

  ghost function Run(s: State, steps: seq<Step>): Option<State>
    decreases |steps|
  {
    if steps == [] then Some(s)
    else if !Enabled(s, steps[0]) then None
    else Run(Next(s, steps[0]), steps[1..])
  }

  /** Function `id` is where `places` says, and nowhere else. */
  ghost predicate Placed(s: State, id: Id) {
    && (id in s.hands ==> s.hands[id].id == id)
    && (id in s.hands <==> id in s.places && s.places[id] == InHand)
    && (id in s.finished <==> id in s.places && s.places[id] == Finished)
    && (id in s.started <==> id in s.places && (s.places[id].RunBy? || s.places[id] == Finished))
    && (id in s.places && s.places[id].Pending? ==> exists i :: 0 <= i < |s.pending| && s.pending[i].id == id)
    && (id in s.places && s.places[id].WithWorker? ==>
          var w := s.places[id].w; w in s.jobs && s.jobs[w].Given? && s.jobs[w].work.id == id)
    && (id in s.places && s.places[id].RunBy? ==>
          var w := s.places[id].w; w in s.jobs && s.jobs[w].Running? && s.jobs[w].work.id == id)
  }

  /** What worker `w` has is recorded as being there; it waits exactly if it is in a slot. */
  ghost predicate WorkerOk(s: State, w: Worker)
    requires w in s.jobs
  {
    && (s.jobs[w].Given? ==> s.jobs[w].work.id in s.places && s.places[s.jobs[w].work.id] == WithWorker(w))
    && (s.jobs[w].Running? ==> s.jobs[w].work.id in s.places && s.places[s.jobs[w].work.id] == RunBy(w))
    && (w in s.slots <==> s.jobs[w].Waiting?)
  }

  ghost predicate PendingOk(s: State) {
    && |s.pending| <= s.capacity
    && (forall i :: 0 <= i < |s.pending| ==> s.pending[i].id in s.places && s.places[s.pending[i].id] == Pending)
    && (forall i, j :: 0 <= i < j < |s.pending| ==> s.pending[i].id != s.pending[j].id)
  }

  ghost predicate SlotsOk(s: State) {
    && (forall w :: w in s.slots ==> w in s.jobs)
    && (forall i, j :: 0 <= i < j < |s.slots| ==> s.slots[i] != s.slots[j])
  }

  ghost predicate StartedOnce(s: State) {
    forall i, j :: 0 <= i < j < |s.started| ==> s.started[i] != s.started[j]
  }

  ghost predicate Invariant(s: State) {
    && (forall id :: Placed(s, id))
    && (forall w :: w in s.jobs ==> WorkerOk(s, w))
    && PendingOk(s) && SlotsOk(s) && StartedOnce(s)
  }

  // ----- Each step keeps it -----

  lemma SubmitKeeps(s: State, id: Id, rvalue: bool)
    requires Invariant(s) && Enabled(s, Submit(id, rvalue))
    ensures Invariant(Next(s, Submit(id, rvalue)))
  {
    var s' := Next(s, Submit(id, rvalue));
    forall x ensures Placed(s', x) {
      assert Placed(s, x);
    }
    forall w | w in s'.jobs ensures WorkerOk(s', w) {
      assert WorkerOk(s, w);
    }
  }

  lemma ToSlotKeeps(s: State, id: Id, s': State)
    requires Invariant(s) && id in s.hands && s.slots != []
    requires s' == s.(hands := s.hands - {id}, slots := s.slots[1..], jobs := s.jobs[s.slots[0] := Given(s.hands[id])],
                      places := s.places[id := WithWorker(s.slots[0])])
    ensures Invariant(s')
  {
    var w := s.slots[0];
    assert w in s.slots;
    assert WorkerOk(s, w) && Placed(s, id);
    forall x ensures Placed(s', x) {
      assert Placed(s, x);
    }
    forall v | v in s'.jobs ensures WorkerOk(s', v) {
      assert WorkerOk(s, v);
      assert v in s.slots <==> v == w || v in s.slots[1..];
    }
  }

  lemma ToPendingKeeps(s: State, id: Id, s': State)
    requires Invariant(s) && id in s.hands && |s.pending| < s.capacity
    requires s' == s.(hands := s.hands - {id}, pending := s.pending + [s.hands[id]], places := s.places[id := Pending])
    ensures Invariant(s')
  {
    assert Placed(s, id);
    forall x ensures Placed(s', x) {
      assert Placed(s, x);
      if x == id {
        assert s'.pending[|s.pending|].id == id;
      } else if x in s.places && s.places[x].Pending? {
        var i :| 0 <= i < |s.pending| && s.pending[i].id == x;
        assert s'.pending[i].id == x;
      }
    }
    forall w | w in s'.jobs ensures WorkerOk(s', w) {
      assert WorkerOk(s, w);
    }
  }

  lemma OverflowKeeps(s: State, id: Id, s': State)
    requires Invariant(s) && id in s.hands && s' == s.(hands := s.hands[id := Spent(s.hands[id])])
    ensures Invariant(s')
  {
    forall x ensures Placed(s', x) {
      assert Placed(s, x) && Placed(s, id);
    }
    forall w | w in s'.jobs ensures WorkerOk(s', w) {
      assert WorkerOk(s, w);
    }
  }

  lemma FromPendingKeeps(s: State, w: Worker, s': State)
    requires Invariant(s) && w in s.jobs && s.jobs[w].Asking? && s.pending != []
    requires s' == s.(jobs := s.jobs[w := Given(s.pending[0])], pending := s.pending[1..],
                      places := s.places[s.pending[0].id := WithWorker(w)])
    ensures Invariant(s')
  {
    var id := s.pending[0].id;
    assert WorkerOk(s, w) && Placed(s, id);
    forall x ensures Placed(s', x) {
      assert Placed(s, x);
      if x != id && x in s.places && s.places[x].Pending? {
        var i :| 0 <= i < |s.pending| && s.pending[i].id == x;
        assert s'.pending[i - 1].id == x;
      }
    }
    forall v | v in s'.jobs ensures WorkerOk(s', v) {
      assert WorkerOk(s, v);
    }
  }

  lemma WaitKeeps(s: State, w: Worker, s': State)
    requires Invariant(s) && w in s.jobs && s.jobs[w].Asking?
    requires s' == s.(jobs := s.jobs[w := Waiting], slots := s.slots + [w])
    ensures Invariant(s')
  {
    assert WorkerOk(s, w);
    forall x ensures Placed(s', x) {
      assert Placed(s, x);
    }
    forall v | v in s'.jobs ensures WorkerOk(s', v) {
      assert WorkerOk(s, v);
    }
  }

  lemma StartKeeps(s: State, w: Worker)
    requires Invariant(s) && Enabled(s, Start(w))
    ensures Invariant(Next(s, Start(w)))
  {
    var s' := Next(s, Start(w));
    var id := s.jobs[w].work.id;
    assert WorkerOk(s, w) && Placed(s, id);
    forall x ensures Placed(s', x) {
      assert Placed(s, x);
      assert x in s'.started <==> x in s.started || x == id;
    }
    forall v | v in s'.jobs ensures WorkerOk(s', v) {
      assert WorkerOk(s, v);
    }
  }

  lemma FinishKeeps(s: State, w: Worker)
    requires Invariant(s) && Enabled(s, Finish(w))
    ensures Invariant(Next(s, Finish(w)))
  {
    var s' := Next(s, Finish(w));
    var id := s.jobs[w].work.id;
    assert WorkerOk(s, w) && Placed(s, id);
    forall x ensures Placed(s', x) {
      assert Placed(s, x);
    }
    forall v | v in s'.jobs ensures WorkerOk(s', v) {
      assert WorkerOk(s, v);
    }
  }

  lemma NextKeepsInvariant(s: State, step: Step)
    requires Invariant(s) && Enabled(s, step)
    ensures Invariant(Next(s, step))
  {
    hide Invariant;
    match step
    case Submit(id, rvalue) => SubmitKeeps(s, id, rvalue);
    case TryRun(id, sawSlot, sawSpace) =>
      match RunAttempt(sawSlot, sawSpace, |s.slots|, |s.pending|, s.capacity) {
        case ToSlot => if s.slots != [] { ToSlotKeeps(s, id, Next(s, step)); }
        case ToPending => ToPendingKeeps(s, id, Next(s, step));
        case Overflow => OverflowKeeps(s, id, Next(s, step));
        case _ =>
      }
    case TryRequest(w, sawWork, sawSpace) =>
      match RequestAttempt(sawWork, sawSpace, |s.slots|, |s.pending|, |s.jobs|) {
        case FromPending => if s.pending != [] { FromPendingKeeps(s, w, Next(s, step)); }
        case WaitInSlot => WaitKeeps(s, w, Next(s, step));
        case _ =>
      }
    case Start(w) => StartKeeps(s, w);
    case Finish(w) => FinishKeeps(s, w);
  }

  lemma {:induction false} RunKeepsInvariant(s: State, steps: seq<Step>)
    requires Invariant(s)
    ensures Run(s, steps).Some? ==> Invariant(Run(s, steps).value)
    decreases |steps|
  {
    hide Invariant, Enabled, Next;
    if steps != [] && Enabled(s, steps[0]) {
      NextKeepsInvariant(s, steps[0]);
      RunKeepsInvariant(Next(s, steps[0]), steps[1..]);
    }
  }

  lemma InitialInvariant(s: State)
    requires Initial(s)
    ensures Invariant(s)
  {
    forall id ensures Placed(s, id) {
    }
    forall w | w in s.jobs ensures WorkerOk(s, w) {
    }
  }

  // ----- What follows for all runs -----

  ghost predicate IsAt(s: State, id: Id, p: Place) {
    match p
    case InHand => id in s.hands
    case Pending => exists i :: 0 <= i < |s.pending| && s.pending[i].id == id
    case WithWorker(w) => w in s.jobs && s.jobs[w].Given? && s.jobs[w].work.id == id
    case RunBy(w) => w in s.jobs && s.jobs[w].Running? && s.jobs[w].work.id == id
    case Finished => id in s.finished
  }

  /** In every reachable state, whatever looks were stale: each submitted function is in exactly
      one place, once, and nothing else is anywhere; no function is started twice; no more workers
      wait in slots than there are. */
  lemma Conservation(s0: State, steps: seq<Step>, id: Id, p: Place)
    requires Initial(s0) && Run(s0, steps).Some?
    ensures var s := Run(s0, steps).value;
      && (IsAt(s, id, p) <==> id in s.places && p == s.places[id])
      && (forall i, j :: 0 <= i < j < |s.pending| ==> s.pending[i].id != s.pending[j].id)
      && (forall i, j :: 0 <= i < j < |s.started| ==> s.started[i] != s.started[j])
      && |s.slots| <= |s.jobs|
  {
    hide Run;
    InitialInvariant(s0);
    RunKeepsInvariant(s0, steps);
    var s := Run(s0, steps).value;
    assert Placed(s, id);
    assert p.WithWorker? && p.w in s.jobs ==> WorkerOk(s, p.w);
    assert p.RunBy? && p.w in s.jobs ==> WorkerOk(s, p.w);
    DistinctFit(s.slots, s.jobs.Keys);
    assert |s.jobs.Keys| == |s.jobs|;
  }

  lemma {:induction false} DistinctFit<T>(xs: seq<T>, all: set<T>)
    requires forall x :: x in xs ==> x in all
    requires forall i, j :: 0 <= i < j < |xs| ==> xs[i] != xs[j]
    ensures |xs| <= |all|
    decreases |xs|
  {
    if xs != [] {
      var n := |xs| - 1;
      forall x | x in xs[..n] ensures x in all - {xs[n]} {
        var i :| 0 <= i < n && xs[..n][i] == x;
        assert xs[i] != xs[n];
      }
      assert xs[n] in xs;
      DistinctFit(xs[..n], all - {xs[n]});
      assert |all - {xs[n]}| == |all| - 1;
    }
  }

  /** What a worker's locked attempt does in a reachable state.  If it saw work and there is some,
      it holds the function that waited longest; if it saw only room in the slots, it waits behind
      the others, for there always is room; otherwise nothing happens and it tries again. */
  lemma WorkerGets(s: State, w: Worker, sawWork: bool, sawSpace: bool)
    requires Invariant(s) && Enabled(s, TryRequest(w, sawWork, sawSpace))
    ensures var s' := Next(s, TryRequest(w, sawWork, sawSpace));
      && s'.hands == s.hands && s'.finished == s.finished && s'.started == s.started
      && (sawWork && s.pending != [] ==>
            s'.jobs == s.jobs[w := Given(s.pending[0])] && s'.pending == s.pending[1..] && s'.slots == s.slots)
      && (!sawWork && sawSpace ==>
            s'.jobs == s.jobs[w := Waiting] && s'.slots == s.slots + [w] && s'.pending == s.pending)
      && ((sawWork && s.pending == []) || (!sawWork && !sawSpace) ==> s' == s)
  {
    assert WorkerOk(s, w);
    DistinctFit(s.slots + [w], s.jobs.Keys);
    assert |s.jobs.Keys| == |s.jobs|;
  }

  /** What a submitter's locked attempt does: the worker that waited longest gets the function, or
      the function waits behind the others. */
  lemma SubmitterGives(s: State, id: Id, sawSlot: bool, sawSpace: bool)
    requires Enabled(s, TryRun(id, sawSlot, sawSpace))
    ensures var s' := Next(s, TryRun(id, sawSlot, sawSpace));
      && s'.finished == s.finished && s'.started == s.started
      && (sawSlot && s.slots != [] ==>
            && s'.jobs == s.jobs[s.slots[0] := Given(s.hands[id])] && s'.slots == s.slots[1..]
            && s'.hands == s.hands - {id} && s'.pending == s.pending)
      && (!sawSlot && sawSpace && |s.pending| < s.capacity ==>
            && s'.pending == s.pending + [s.hands[id]] && s'.hands == s.hands - {id}
            && s'.jobs == s.jobs && s'.slots == s.slots)
      && ((sawSlot && s.slots == []) || (!sawSlot && !sawSpace) ==> s' == s)
  {
  }

  // ----- Whether a pending function can still run -----

  predicate NoSubmit(steps: seq<Step>) {
    forall i :: 0 <= i < |steps| ==> !steps[i].Submit?
  }

  /** These steps, with no further submission among them, start the function. */
  ghost predicate Starts(s: State, steps: seq<Step>, id: Id) {
    NoSubmit(steps) && Run(s, steps).Some? && id in Run(s, steps).value.started
  }

  /** Some worker is not waiting in a slot, or some submitter still has a function in hand. */
  ghost predicate NotStranded(s: State) {
    || (exists w :: w in s.jobs && !s.jobs[w].Waiting?)
    || (s.jobs != map[] && s.hands != map[])
  }

  lemma StepFirst(s: State, step: Step, rest: seq<Step>, id: Id)
    requires Enabled(s, step) && !step.Submit? && Starts(Next(s, step), rest, id)
    ensures Starts(s, [step] + rest, id)
  {
    hide Enabled, Next;
    assert ([step] + rest)[1..] == rest;
  }

  /** A worker that runs something finishes it, takes the next pending function, and so on until
      it comes to this one. */
  lemma {:induction false} WorkerComesTo(s: State, w: Worker, id: Id, i: nat) returns (steps: seq<Step>)
    requires Invariant(s) && w in s.jobs && !s.jobs[w].Waiting? && i < |s.pending| && s.pending[i].id == id
    ensures Starts(s, steps, id)
    decreases i, if s.jobs[w].Given? then 2 else if s.jobs[w].Running? then 1 else 0
  {
    hide Invariant, Starts;
    var step := match s.jobs[w] case Given(_) => Start(w) case Running(_) => Finish(w) case _ => TryRequest(w, true, false);
    NextKeepsInvariant(s, step);
    var s1 := Next(s, step);
    if step.TryRequest? {
      NextKeepsInvariant(s1, Start(w));
      var s2 := Next(s1, Start(w));
      var more: seq<Step> := [];
      if i == 0 {
        StartsNow(s2, id);
      } else {
        more := WorkerComesTo(s2, w, id, i - 1);
      }
      StepFirst(s1, Start(w), more, id);
      StepFirst(s, step, [Start(w)] + more, id);
      steps := [step] + ([Start(w)] + more);
    } else {
      var more := WorkerComesTo(s1, w, id, i);
      StepFirst(s, step, more, id);
      steps := [step] + more;
    }
  }

  lemma StartsNow(s: State, id: Id)
    requires id in s.started
    ensures Starts(s, [], id)
  {
  }

  /** When all workers wait and no function is in hand, nothing but a submission can happen. */
  lemma StrandedStep(s: State, step: Step)
    requires Invariant(s) && !NotStranded(s) && Enabled(s, step) && !step.Submit?
    ensures !NotStranded(Next(s, step)) && Next(s, step).started == s.started
  {
    SlotHasWorker(s);
  }

  lemma SlotHasWorker(s: State)
    requires SlotsOk(s)
    ensures s.slots != [] ==> exists w :: w in s.jobs
  {
    if s.slots != [] {
      assert s.slots[0] in s.slots;
    }
  }

  lemma {:induction false} StrandedRun(s: State, steps: seq<Step>)
    requires Invariant(s) && !NotStranded(s) && NoSubmit(steps) && Run(s, steps).Some?
    ensures Run(s, steps).value.started == s.started
    decreases |steps|
  {
    hide Invariant, Enabled, Next, NotStranded;
    if steps != [] {
      StrandedStep(s, steps[0]);
      NextKeepsInvariant(s, steps[0]);
      StrandedRun(Next(s, steps[0]), steps[1..]);
    }
  }

  lemma PendingNotStarted(s: State, id: Id, i: nat)
    requires Invariant(s) && i < |s.pending| && s.pending[i].id == id
    ensures id !in s.started
  {
    assert Placed(s, id);
  }

  lemma SomeoneWaits(s: State)
    requires Invariant(s) && s.jobs != map[] && forall w :: w in s.jobs ==> s.jobs[w].Waiting?
    ensures s.slots != [] && s.slots[0] in s.jobs
  {
    var w :| w in s.jobs;
    assert WorkerOk(s, w);
    assert s.slots[0] in s.slots;
  }

  lemma StrandedStarts(s: State, steps: seq<Step>, id: Id)
    requires Invariant(s) && !NotStranded(s) && id !in s.started
    ensures !Starts(s, steps, id)
  {
    hide Invariant, NotStranded;
    if NoSubmit(steps) && Run(s, steps).Some? {
      StrandedRun(s, steps);
    }
  }

  /** A pending function can still be started without any further submission if and only if some
      worker is not waiting in a slot, or some submitter has a function in hand. */
  lemma PendingCanRun(s: State, id: Id, i: nat)
    requires Invariant(s) && i < |s.pending| && s.pending[i].id == id
    ensures (exists steps :: Starts(s, steps, id)) <==> NotStranded(s)
  {
    hide Invariant, Starts;
    if NotStranded(s) {
      var steps: seq<Step>;
      if w' :| w' in s.jobs && !s.jobs[w'].Waiting? {
        steps := WorkerComesTo(s, w', id, i);
      } else {
        var x :| x in s.hands;
        SomeoneWaits(s);
        NextKeepsInvariant(s, TryRun(x, true, false));
        var s1 := Next(s, TryRun(x, true, false));
        var more := WorkerComesTo(s1, s.slots[0], id, i);
        StepFirst(s, TryRun(x, true, false), more, id);
        steps := [TryRun(x, true, false)] + more;
      }
      assert Starts(s, steps, id);
    } else {
      PendingNotStarted(s, id, i);
      forall steps ensures !Starts(s, steps, id) {
        StrandedStarts(s, steps, id);
      }
    }
  }

  ghost predicate Gone(work: Work, id: Id) {
    work.id == id && work.hollow
  }

  ghost predicate Hollow(s: State, id: Id) {
    || (id in s.hands && s.hands[id].hollow)
    || (exists i :: 0 <= i < |s.pending| && Gone(s.pending[i], id))
    || (exists w :: w in s.jobs && (s.jobs[w].Given? || s.jobs[w].Running?) && Gone(s.jobs[w].work, id))
  }

  /** A function is lost exactly when it was passed as an rvalue and its submitter, having seen
      room in the queue but no slot, finds the queue full.  One that is copied is never lost. */
  lemma LostExactlyWhenFull(s: State, step: Step, id: Id)
    requires Invariant(s) && Enabled(s, step) && !Hollow(s, id)
    ensures Hollow(Next(s, step), id) <==>
      && step.TryRun? && step.id == id && !step.sawSlot && step.sawSpace
      && |s.pending| == s.capacity && s.hands[id].rvalue
  {
    assert Placed(s, id);
    var s' := Next(s, step);
    match step
    case Submit(_, _) =>
      assert s'.pending == s.pending && s'.jobs == s.jobs;
    case TryRun(x, _, _) =>
      assert Placed(s, x);
    case TryRequest(_, _, _) =>
    case Start(_) =>
    case Finish(_) =>
  }

  /** A function can be left behind.  A submitter and the only worker look at the same time: one
      sees room in the queue, the other room in the slots.  Both act on it, and the function stays
      in the queue while the worker waits, until something else is submitted. */
  lemma CrossedLooksStrandFunction() returns (s: State, steps: seq<Step>)
    ensures Initial(s) && |s.jobs| == 1 && Run(s, steps).Some?
    ensures var s' := Run(s, steps).value; s'.pending == [Work(1, false, false)] && !NotStranded(s')
  {
    s := State(map[], [], 1, map[0 := Asking], [], {}, map[], []);
    var a, b, c := Submit(1, false), TryRun(1, false, true), TryRequest(0, false, true);
    steps := [a, b, c];
    var s1 := Next(s, a);
    var s2 := Next(s1, b);
    var s3 := Next(s2, c);
    assert s3.pending == [Work(1, false, false)] && s3.jobs == map[0 := Waiting] && s3.hands == map[];
    assert Run(s3, []) == Some(s3);
    assert [c][1..] == [] && Run(s2, [c]) == Some(s3);
    assert [b, c][1..] == [c] && Run(s1, [b, c]) == Some(s3);
    assert steps[1..] == [b, c];
  }

  /** Such a loss can happen: two submitters see the one free place, and one comes too late. */
  lemma StaleLookLosesFunction() returns (s: State, steps: seq<Step>)
    ensures Initial(s) && s.capacity == 1
    ensures Run(s, steps).Some? && Hollow(Run(s, steps).value, 2)
  {
    s := State(map[], [], 1, map[], [], {}, map[], []);
    var a, b, c, d := Submit(1, true), Submit(2, true), TryRun(1, false, true), TryRun(2, false, true);
    steps := [a, b, c, d];
    var s1 := Next(s, a);
    var s2 := Next(s1, b);
    var s3 := Next(s2, c);
    var s4 := Next(s3, d);
    assert s4.hands[2] == Work(2, true, true);
    assert Run(s4, []) == Some(s4);
    assert [d][1..] == [] && Run(s3, [d]) == Some(s4);
    assert [c, d][1..] == [d] && Run(s2, [c, d]) == Some(s4);
    assert [b, c, d][1..] == [c, d] && Run(s1, [b, c, d]) == Some(s4);
    assert steps[1..] == [b, c, d];
  }
}
