/** No deadline is slept through.  The client's handler thread (src/arpc/client.h) takes a
    snapshot of the earliest pending deadline, then waits for it, or for a token in the bounded
    new_deadline_ queue.  Requests with other deadlines may be registered at any time in
    between, and their token is dropped when the queue is full. */
module Deadlines {
  import opened Results
  import opened Client

  /** Where the handler loop is: about to take a snapshot, or inside select. */
  datatype Handler = Top | Waiting(until: Option<Time>)

  datatype State = State(client: ClientState, tokens: nat, capacity: nat, handler: Handler)

  datatype Step =
    | Critical(e: Event)            // a critical section on the pending table, by any thread
    | IssueId
    | Snapshot(earliest: Option<Time>)
    | Wake(consume: bool)           // select returns, having taken a token or not

  ghost predicate Initial(s: State) {
    s.client == NewClient && s.tokens == 0 && s.handler == Top
  }

  ghost predicate Enabled(s: State, step: Step) {
    match step
    case Critical(e) => e.Register? ==> e.id !in s.client.Registered()
    case IssueId => true
    case Snapshot(earliest) => s.handler == Top && IsEarliest(s.client, earliest)
    case Wake(consume) => s.handler.Waiting? && (consume ==> s.tokens > 0)
  }

  function Next(s: State, step: Step): State
    requires Enabled(s, step)
  {
    match step
    case Critical(e) =>
      s.(client := After(s.client, e),
         tokens := if e.Register? && e.deadline.Some? && s.tokens < s.capacity then s.tokens + 1 else s.tokens)
    case IssueId => s.(client := s.client.Advanced())
    case Snapshot(earliest) => s.(handler := Waiting(earliest))
    case Wake(consume) => s.(handler := Top, tokens := if consume then s.tokens - 1 else s.tokens)
  }

  /** The state that `steps` leads to, if each of them is enabled when it is taken. */
  ghost function Run(s: State, steps: seq<Step>): Option<State>
    decreases |steps|
  {
    if steps == [] then Some(s)
    else if !Enabled(s, steps[0]) then None
    else Run(Next(s, steps[0]), steps[1..])
  }

  /** Timer `until` goes off no later than any pending deadline. */
  ghost predicate Covers(until: Option<Time>, c: ClientState) {
    forall id :: id in c.pending && c.pending[id].Some? ==> until.Some? && until.value <= c.pending[id].value
  }

  /** A waiting handler will be woken in time: by a token, or by its timer. */
  ghost predicate WakesInTime(s: State) {
    s.handler.Waiting? ==> s.tokens > 0 || Covers(s.handler.until, s.client)
  }

  ghost predicate Invariant(s: State) {
    s.capacity > 0 && s.tokens <= s.capacity && s.client.Consistent() && WakesInTime(s)
  }

  lemma NextKeepsInvariant(s: State, step: Step)
    requires Invariant(s) && Enabled(s, step)
    ensures Invariant(Next(s, step))
  {
    if step.Critical? {
      AfterKeeps(s.client, step.e);
      var c, c' := s.client, After(s.client, step.e);
      if s.handler.Waiting? && Next(s, step).tokens == 0 {
        forall id | id in c'.pending && c'.pending[id].Some?
          ensures s.handler.until.Some? && s.handler.until.value <= c'.pending[id].value {
          assert id in c.pending && c.pending[id] == c'.pending[id];
        }
      }
    }
  }

  lemma {:induction false} RunKeepsInvariant(s: State, steps: seq<Step>)
    requires Invariant(s)
    ensures Run(s, steps).Some? ==> Invariant(Run(s, steps).value)
    decreases |steps|
  {
    hide Invariant, Enabled, Next;
    if steps != [] && Enabled(s, steps[0]) {
      NextKeepsInvariant(s, steps[0]);
      RunKeepsInvariant(Next(s, steps[0]), steps[1..]);
    }
  }

  /** In every reachable state, whatever tokens were dropped, a waiting handler wakes in time;
      this needs a queue that can hold one token, and without one it fails. */
  lemma NoLostWakeup(capacity: nat)
    ensures capacity > 0 <==>
      forall s, steps :: Initial(s) && s.capacity == capacity && Run(s, steps).Some? ==> WakesInTime(Run(s, steps).value)
  {
    if capacity > 0 {
      forall s, steps | Initial(s) && s.capacity == capacity && Run(s, steps).Some?
        ensures WakesInTime(Run(s, steps).value) {
        RunKeepsInvariant(s, steps);
      }
    } else {
      var s, steps := WithoutCapacity();
    }
  }

  /** Without room for tokens: a request registered during a wait without timer goes unnoticed. */
  lemma WithoutCapacity() returns (s: State, steps: seq<Step>)
    ensures Initial(s) && s.capacity == 0
    ensures Run(s, steps).Some? && !WakesInTime(Run(s, steps).value)
  {
    s := State(NewClient, 0, 0, Top);
    var wait, register := Snapshot(None), Critical(Register(0, Some(7)));
    steps := [wait, register];
    assert steps[1..] == [register] && steps[1..][1..] == [];
    var s1 := Next(s, wait);
    var s2 := Next(s1, register);
    assert Run(s2, []) == Some(s2);
    assert Run(s1, [register]) == Some(s2) by {
      assert [register][1..] == [];
    }
    assert s2.client.pending[0] == Some(7);
  }
}
