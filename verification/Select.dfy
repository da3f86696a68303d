/** select (src/arpc/select.h): any mix of single awaitables and vectors of them is flattened
    into one array for poll, and what poll reports is read back through the same offsets. */
module Select {
  import opened Results

  /** An awaitable: a descriptor to watch, or a timeout in milliseconds (negative for none),
      perhaps a polling one that counts from the start of the select. */
  datatype Awaitable = Awaitable(fd: int, forWrite: bool, timeout: int, forPolling: bool)

  datatype Input = One(a: Awaitable) | Many(vs: seq<Awaitable>)

  datatype Pollfd = Pollfd(fd: int, forWrite: bool, revents: int)

  /** What an activated awaitable's function does. */
  datatype Reaction = Completes(value: int) | NotYet | Fails(error: Error)

  type Holder = Option<Result<int>>

  function Members(i: Input): seq<Awaitable> {
    match i case One(a) => [a] case Many(vs) => vs
  }

  function Flat(inputs: seq<Input>): seq<Awaitable> {
    if inputs == [] then [] else Members(inputs[0]) + Flat(inputs[1..])
  }

  /** pollfds_index: where the slice of input `k` begins. */
  function Index(inputs: seq<Input>, k: nat): nat
    requires k <= |inputs|
  {
    if k == 0 then 0 else |Members(inputs[0])| + Index(inputs[1..], k - 1)
  }

  lemma {:induction false} IndexStep(inputs: seq<Input>, k: nat)
    requires k < |inputs|
    ensures Index(inputs, k + 1) == Index(inputs, k) + |Members(inputs[k])|
  {
    if k > 0 {
      IndexStep(inputs[1..], k - 1);
    }
  }

  /** The slices lie side by side in order, without gap or overlap, and cover everything; slice
      `k` holds exactly the awaitables of input `k`. */
  lemma {:induction false} SlicesPartition(inputs: seq<Input>, k: nat)
    requires k < |inputs|
    ensures Index(inputs, 0) == 0 && Index(inputs, |inputs|) == |Flat(inputs)|
    ensures Index(inputs, k) <= Index(inputs, k + 1) <= |Flat(inputs)|
    ensures Flat(inputs)[Index(inputs, k)..Index(inputs, k + 1)] == Members(inputs[k])
    ensures Members(inputs[k]) == if inputs[k].One? then [inputs[k].a] else inputs[k].vs
  {
    var first, rest := Members(inputs[0]), Flat(inputs[1..]);
    FlatLength(inputs);
    FlatLength(inputs[1..]);
    hide Flat, Members;
    FlatFirst(inputs);
    if k > 0 {
      SlicesPartition(inputs[1..], k - 1);
      SliceBehind(first, rest, Index(inputs[1..], k - 1), Index(inputs[1..], k));
    } else {
      assert Index(inputs[1..], 0) == 0 && (first + rest)[0..|first|] == first;
    }
    MembersAre(inputs[k]);
  }

  lemma FlatFirst(inputs: seq<Input>)
    requires inputs != []
    ensures Flat(inputs) == Members(inputs[0]) + Flat(inputs[1..])
  {
  }

  lemma MembersAre(i: Input)
    ensures Members(i) == if i.One? then [i.a] else i.vs
  {
  }

  lemma SliceBehind<T>(first: seq<T>, rest: seq<T>, i: nat, j: nat)
    requires i <= j <= |rest|
    ensures (first + rest)[|first| + i..|first| + j] == rest[i..j]
  {
  }

  lemma {:induction false} FlatLength(inputs: seq<Input>)
    ensures Index(inputs, |inputs|) == |Flat(inputs)|
  {
    if inputs != [] {
      FlatLength(inputs[1..]);
    }
  }

  lemma {:induction false} FlatSnoc(inputs: seq<Input>, k: nat)
    requires k < |inputs|
    ensures Flat(inputs[..k + 1]) == Flat(inputs[..k]) + Members(inputs[k])
    ensures |Flat(inputs[..k])| == Index(inputs, k)
  {
    if k == 0 {
      assert inputs[..1][1..] == [] && Flat([]) == [];
      assert Flat(inputs[..1]) == Members(inputs[0]) + [];
    } else {
      assert inputs[..k][1..] == inputs[1..][..k - 1] && inputs[..k + 1][1..] == inputs[1..][..k];
      FlatSnoc(inputs[1..], k - 1);
      assert Members(inputs[0]) + (Flat(inputs[1..][..k - 1]) + Members(inputs[k]))
          == Members(inputs[0]) + Flat(inputs[1..][..k - 1]) + Members(inputs[k]);
    }
  }

  // ----- Timeouts -----

  datatype Timeout = Timeout(ms: int, polling: bool)

  const NoTimeout := Timeout(-1, false)

  /** What is left of an awaitable's timeout; only polling ones count what has elapsed. */
  function Left(a: Awaitable, elapsed: int): Timeout {
    Timeout(if a.timeout >= 0 && a.forPolling then (if a.timeout - elapsed > 0 then a.timeout - elapsed else 0) else a.timeout,
            a.forPolling)
  }

  function Sooner(m: Timeout, t: Timeout): Timeout {
    if t.ms >= 0 && (m.ms < 0 || t.ms < m.ms) then t else m
  }

  function MinFrom(m: Timeout, vs: seq<Awaitable>, elapsed: int): Timeout
    decreases |vs|
  {
    if vs == [] then m else MinFrom(Sooner(m, Left(vs[0], elapsed)), vs[1..], elapsed)
  }

  function InputTimeout(i: Input, elapsed: int): Timeout {
    match i case One(a) => Left(a, elapsed) case Many(vs) => MinFrom(NoTimeout, vs, elapsed)
  }

  /** The minimum over inputs of the minima within them. */
  function NestedMin(m: Timeout, inputs: seq<Input>, elapsed: int): Timeout
    decreases |inputs|
  {
    if inputs == [] then m else NestedMin(Sooner(m, InputTimeout(inputs[0], elapsed)), inputs[1..], elapsed)
  }

  lemma SoonerAssociative(a: Timeout, b: Timeout, c: Timeout)
    ensures Sooner(Sooner(a, b), c) == Sooner(a, Sooner(b, c))
  {
  }

  lemma {:induction false} MinFromAny(m: Timeout, t: Timeout, vs: seq<Awaitable>, elapsed: int)
    ensures MinFrom(Sooner(m, t), vs, elapsed) == Sooner(m, MinFrom(t, vs, elapsed))
    decreases |vs|
  {
    if vs != [] {
      SoonerAssociative(m, t, Left(vs[0], elapsed));
      MinFromAny(m, Sooner(t, Left(vs[0], elapsed)), vs[1..], elapsed);
    }
  }

  lemma {:induction false} MinFromConcat(m: Timeout, a: seq<Awaitable>, b: seq<Awaitable>, elapsed: int)
    ensures MinFrom(m, a + b, elapsed) == MinFrom(MinFrom(m, a, elapsed), b, elapsed)
    decreases |a|
  {
    if a == [] {
      assert a + b == b;
    } else {
      assert (a + b)[1..] == a[1..] + b;
      MinFromConcat(Sooner(m, Left(a[0], elapsed)), a[1..], b, elapsed);
    }
  }

  /** Nesting does not matter: the result is the minimum over all awaitables in order. */
  lemma {:induction false} NestedMinIsFlat(m: Timeout, inputs: seq<Input>, elapsed: int)
    ensures NestedMin(m, inputs, elapsed) == MinFrom(m, Flat(inputs), elapsed)
    decreases |inputs|
  {
    if inputs != [] {
      var i := inputs[0];
      MinFromAny(m, NoTimeout, Members(i), elapsed);
      assert Sooner(m, NoTimeout) == m;
      if i.One? {
        assert MinFrom(m, [i.a], elapsed) == MinFrom(Sooner(m, Left(i.a, elapsed)), [i.a][1..], elapsed);
        assert [i.a][1..] == [];
      }
      MinFromConcat(m, Members(i), Flat(inputs[1..]), elapsed);
      NestedMinIsFlat(Sooner(m, InputTimeout(i, elapsed)), inputs[1..], elapsed);
    }
  }

  /** `k` is the first awaitable with the least time left. */
  ghost predicate FirstSoonest(vs: seq<Awaitable>, elapsed: int, k: nat)
    requires k < |vs|
  {
    && Left(vs[k], elapsed).ms >= 0
    && (forall j :: 0 <= j < |vs| && Left(vs[j], elapsed).ms >= 0 ==> Left(vs[k], elapsed).ms <= Left(vs[j], elapsed).ms)
    && (forall j :: 0 <= j < k && Left(vs[j], elapsed).ms >= 0 ==> Left(vs[k], elapsed).ms < Left(vs[j], elapsed).ms)
  }

  /** The minimum is attained, first by some awaitable, unless there is no timeout at all. */
  lemma {:induction false} MinIsFirstSoonest(vs: seq<Awaitable>, elapsed: int) returns (k: nat)
    ensures var m := MinFrom(NoTimeout, vs, elapsed);
      if m.ms < 0 then m == NoTimeout && forall j :: 0 <= j < |vs| ==> Left(vs[j], elapsed).ms < 0
      else k < |vs| && m == Left(vs[k], elapsed) && FirstSoonest(vs, elapsed, k)
    decreases |vs|
  {
    k := 0;
    if vs != [] {
      var n := |vs| - 1;
      k := MinIsFirstSoonest(vs[..n], elapsed);
      MinFromConcat(NoTimeout, vs[..n], [vs[n]], elapsed);
      assert vs == vs[..n] + [vs[n]] && [vs[n]][1..] == [];
      var m, t := MinFrom(NoTimeout, vs[..n], elapsed), Left(vs[n], elapsed);
      assert MinFrom(m, [vs[n]], elapsed) == Sooner(m, t);
      forall j | 0 <= j < n ensures vs[..n][j] == vs[j] {
      }
      if Sooner(m, t) == t && (m.ms < 0 || t.ms < m.ms) {
        k := n;
      }
    }
  }

  /** Said of the awaitables' own timeouts: no timeout is left out, a polling one counts what has
      elapsed, and the minimum is what some awaitable has left. */
  lemma MinimumMeans(vs: seq<Awaitable>, elapsed: int, k: nat)
    requires var m := MinFrom(NoTimeout, vs, elapsed);
      if m.ms < 0 then m == NoTimeout && forall j :: 0 <= j < |vs| ==> Left(vs[j], elapsed).ms < 0
      else k < |vs| && m == Left(vs[k], elapsed) && FirstSoonest(vs, elapsed, k)
    ensures var m := MinFrom(NoTimeout, vs, elapsed);
      && (m.ms < 0 <==> forall j :: 0 <= j < |vs| ==> vs[j].timeout < 0)
      && (forall j :: 0 <= j < |vs| && vs[j].timeout >= 0 ==>
            if vs[j].forPolling then m.ms <= 0 || m.ms <= vs[j].timeout - elapsed else m.ms <= vs[j].timeout)
      && (m.ms >= 0 ==> exists j :: (
            0 <= j < |vs| && vs[j].timeout >= 0 && m.polling == vs[j].forPolling
            && if m.polling then m.ms == vs[j].timeout - elapsed || (m.ms == 0 && vs[j].timeout <= elapsed)
               else m.ms == vs[j].timeout))
  {
    forall j | 0 <= j < |vs| ensures vs[j].timeout >= 0 <==> Left(vs[j], elapsed).ms >= 0 {
    }
  }

  // ----- Activation -----

  predicate Active(a: Awaitable, revents: int, wasTimeout: bool, m: Timeout) {
    if wasTimeout then a.timeout >= 0 && (a.timeout <= m.ms || (m.polling && a.forPolling)) else revents != 0
  }

  function ResultOf(active: bool, r: Reaction): Holder {
    if !active then None
    else match r case Completes(v) => Some(Ok(v)) case NotYet => None case Fails(e) => Some(Err(e))
  }

  /** When poll times out: the awaitable that is soonest is activated, no plain timeout that is
      later is, and nothing without a timeout is. */
  lemma TimeoutActivatesSoonest(inputs: seq<Input>, elapsed: nat) returns (k: nat)
    requires NestedMin(NoTimeout, inputs, elapsed).ms >= 0
    ensures var m, vs := NestedMin(NoTimeout, inputs, elapsed), Flat(inputs);
      && k < |vs| && FirstSoonest(vs, elapsed, k) && Left(vs[k], elapsed) == m && Active(vs[k], 0, true, m)
      && (forall j :: 0 <= j < |vs| && !vs[j].forPolling ==> (Active(vs[j], 0, true, m) <==> vs[j].timeout == m.ms))
      && (forall j :: 0 <= j < |vs| && vs[j].forPolling ==>
            (Active(vs[j], 0, true, m) <==> vs[j].timeout >= 0 && (m.polling || vs[j].timeout == m.ms)))
  {
    NestedMinIsFlat(NoTimeout, inputs, elapsed);
    k := MinIsFirstSoonest(Flat(inputs), elapsed);
    var m, vs := NestedMin(NoTimeout, inputs, elapsed), Flat(inputs);
    forall j | 0 <= j < |vs| && vs[j].timeout >= 0 ensures m.ms <= vs[j].timeout {
      assert m.ms <= Left(vs[j], elapsed).ms <= vs[j].timeout;
    }
  }

  // ----- The loops of the source -----

  /** timeout_info of a vector. */
  method TimeoutInfo(vs: seq<Awaitable>, elapsed: int) returns (m: Timeout)
    ensures m == MinFrom(NoTimeout, vs, elapsed)
  {
    m := NoTimeout;
    for i := 0 to |vs|
      invariant MinFrom(NoTimeout, vs, elapsed) == MinFrom(m, vs[i..], elapsed)
    {
      var timeout := vs[i].timeout;
      if timeout >= 0 {
        if vs[i].forPolling {
          timeout := if timeout - elapsed > 0 then timeout - elapsed else 0;
        }
        if m.ms < 0 || timeout < m.ms {
          m := Timeout(timeout, vs[i].forPolling);
        }
      }
    }
  }

  /** The accumulation over all inputs at the top of the select loop. */
  method EarliestTimeout(inputs: seq<Input>, elapsed: int) returns (m: Timeout)
    ensures m == NestedMin(NoTimeout, inputs, elapsed)
    ensures m.ms < 0 <==> forall j :: 0 <= j < |Flat(inputs)| ==> Flat(inputs)[j].timeout < 0
    ensures forall j :: 0 <= j < |Flat(inputs)| && Flat(inputs)[j].timeout >= 0 ==>
      if Flat(inputs)[j].forPolling then m.ms <= 0 || m.ms <= Flat(inputs)[j].timeout - elapsed
      else m.ms <= Flat(inputs)[j].timeout
    ensures m.ms >= 0 ==> exists j :: (
      0 <= j < |Flat(inputs)| && Flat(inputs)[j].timeout >= 0 && m.polling == Flat(inputs)[j].forPolling
      && if m.polling then m.ms == Flat(inputs)[j].timeout - elapsed || (m.ms == 0 && Flat(inputs)[j].timeout <= elapsed)
         else m.ms == Flat(inputs)[j].timeout)
  {
    NestedMinIsFlat(NoTimeout, inputs, elapsed);
    var k := MinIsFirstSoonest(Flat(inputs), elapsed);
    MinimumMeans(Flat(inputs), elapsed, k);
    m := NoTimeout;
    for i := 0 to |inputs|
      invariant NestedMin(NoTimeout, inputs, elapsed) == NestedMin(m, inputs[i..], elapsed)
    {
      var t;
      match inputs[i] {
        case One(a) => t := Left(a, elapsed);
        case Many(vs) => t := TimeoutInfo(vs, elapsed);
      }
      if t.ms >= 0 {
        if m.ms < 0 || t.ms < m.ms {
          m := t;
        }
      }
    }
  }

  function MakePollfd(a: Awaitable): Pollfd {
    Pollfd(a.fd, a.forWrite, 0)
  }

  /** fill_fds: the slice of one input, starting at `at`. */
  method FillFds(i: Input, fds: array<Pollfd>, at: nat)
    requires at + |Members(i)| <= fds.Length
    modifies fds
    ensures forall k :: 0 <= k < |Members(i)| ==> fds[at + k] == MakePollfd(Members(i)[k])
    ensures forall k :: 0 <= k < fds.Length && !(at <= k < at + |Members(i)|) ==> fds[k] == old(fds[k])
  {
    match i
    case One(a) => fds[at] := MakePollfd(a);
    case Many(vs) =>
      for j := 0 to |vs|
        invariant forall k :: 0 <= k < j ==> fds[at + k] == MakePollfd(vs[k])
        invariant forall k :: 0 <= k < fds.Length && !(at <= k < at + j) ==> fds[k] == old(fds[k])
      {
        fds[at + j] := MakePollfd(vs[j]);
      }
  }

  lemma FlatNothing()
    ensures Flat([]) == []
  {
  }

  /** make_select_pollfds: all slices together are the flattened inputs. */
  method MakePollfds(inputs: seq<Input>) returns (fds: array<Pollfd>)
    ensures fresh(fds) && fds.Length == |Flat(inputs)|
    ensures forall k :: 0 <= k < fds.Length ==> fds[k] == MakePollfd(Flat(inputs)[k])
    ensures forall k :: 0 <= k < fds.Length ==>
      fds[k].fd == Flat(inputs)[k].fd && fds[k].forWrite == Flat(inputs)[k].forWrite && fds[k].revents == 0
  {
    hide Flat, Index, Members;
    FlatLength(inputs);
    fds := new Pollfd[Index(inputs, |inputs|)];
    FlatNothing();
    assert inputs[..0] == [];
    for i := 0 to |inputs|
      invariant |Flat(inputs[..i])| <= fds.Length && fds.Length == |Flat(inputs)|
      invariant forall k :: 0 <= k < |Flat(inputs[..i])| ==> fds[k] == MakePollfd(Flat(inputs[..i])[k])
    {
      SlicesPartition(inputs, i);
      FlatSnoc(inputs, i);
      IndexStep(inputs, i);
      ghost var before := fds[..];
      FillFds(inputs[i], fds, Index(inputs, i));
      forall k | 0 <= k < |Flat(inputs[..i + 1])| ensures fds[k] == MakePollfd(Flat(inputs[..i + 1])[k]) {
        if k < Index(inputs, i) {
          assert fds[k] == before[k];
        } else {
          assert fds[Index(inputs, i) + (k - Index(inputs, i))] == MakePollfd(Members(inputs[i])[k - Index(inputs, i)]);
        }
      }
    }
    assert inputs[..|inputs|] == inputs;
  }

  /** make_result of one input: reads the same slice that fill_fds wrote. */
  method MakeResult(i: Input, fds: seq<Pollfd>, at: nat, reactions: seq<Reaction>, wasTimeout: bool, m: Timeout)
    returns (res: seq<Holder>)
    requires at + |Members(i)| <= |fds| == |reactions|
    ensures |res| == |Members(i)|
    ensures forall k :: 0 <= k < |res| ==>
      res[k] == ResultOf(Active(Members(i)[k], fds[at + k].revents, wasTimeout, m), reactions[at + k])
  {
    res := [];
    var vs := Members(i);
    for j := 0 to |vs|
      invariant |res| == j
      invariant forall k :: 0 <= k < j ==> res[k] == ResultOf(Active(vs[k], fds[at + k].revents, wasTimeout, m), reactions[at + k])
    {
      res := res + [ResultOf(Active(vs[j], fds[at + j].revents, wasTimeout, m), reactions[at + j])];
    }
  }

  /** The results of all awaitables in flattened order. */
  function FlatResults(vs: seq<Awaitable>, revents: seq<int>, reactions: seq<Reaction>, m: Timeout): (rs: seq<Holder>)
    requires |revents| == |reactions| == |vs|
    ensures |rs| == |vs|
  {
    seq(|vs|, k requires 0 <= k < |vs| => ResultOf(Active(vs[k], revents[k], TimedOut(revents), m), reactions[k]))
  }

  /** poll returns 0 exactly when it reports nothing. */
  predicate TimedOut(revents: seq<int>) {
    forall k :: 0 <= k < |revents| ==> revents[k] == 0
  }

  predicate AnyResult(rs: seq<Holder>) {
    exists k :: 0 <= k < |rs| && rs[k].Some?
  }

  /** What an awaitable gets for its own events: nothing without any, and otherwise its value, its
      error, or nothing if it has to wait on. */
  ghost predicate Reports(h: Holder, events: int, reaction: Reaction) {
    match reaction
    case Completes(v) => h == if events != 0 then Some(Ok(v)) else None
    case Fails(e) => h == if events != 0 then Some(Err(e)) else None
    case NotYet => h == None
  }

  /** Member `j` of argument `i` has what its own events say, at the offset of its input. */
  ghost predicate OwnResults(inputs: seq<Input>, k: nat, revents: seq<int>, reactions: seq<Reaction>, res: seq<seq<Holder>>)
    requires k <= |inputs|
  {
    && |res| == k
    && (forall i :: 0 <= i < k ==> |res[i]| == |Members(inputs[i])| && Index(inputs, i) + |res[i]| <= |revents| == |reactions|)
    && forall i, j :: 0 <= i < k && 0 <= j < |res[i]| ==>
         Reports(res[i][j], revents[Index(inputs, i) + j], reactions[Index(inputs, i) + j])
  }

  lemma SlicesReport(inputs: seq<Input>, k: nat, n: nat, all: seq<Holder>, revents: seq<int>, reactions: seq<Reaction>,
                     res: seq<seq<Holder>>)
    requires |all| == |revents| == |reactions| >= n && |res| == k <= |inputs| && Index(inputs, k) == n
    requires forall i :: 0 <= i < k ==> SliceOf(inputs, all, i, res[i])
    requires forall i :: 0 <= i < |all| ==> Reports(all[i], revents[i], reactions[i])
    ensures OwnResults(inputs, k, revents, reactions, res)
  {
    hide Index, Reports, Members;
    forall i | 0 <= i < k
      ensures |res[i]| == |Members(inputs[i])| && Index(inputs, i) + |res[i]| <= n
      ensures forall j :: 0 <= j < |res[i]| ==> res[i][j] == all[Index(inputs, i) + j] {
      IndexStep(inputs, i);
      IndexUpTo(inputs, i + 1, k);
      assert SliceOf(inputs, all, i, res[i]);
    }
  }

  lemma {:induction false} IndexUpTo(inputs: seq<Input>, i: nat, k: nat)
    requires i <= k <= |inputs|
    ensures Index(inputs, i) <= Index(inputs, k)
    decreases k - i
  {
    if i < k {
      IndexStep(inputs, i);
      IndexUpTo(inputs, i + 1, k);
    }
  }

  /** make_select_result: what each input gets is its slice of the flat results. */
  method MakeResults(inputs: seq<Input>, revents: seq<int>, reactions: seq<Reaction>, m: Timeout)
    returns (res: seq<seq<Holder>>)
    requires |revents| == |reactions| == |Flat(inputs)|
    ensures |res| == |inputs|
    ensures forall i :: 0 <= i < |inputs| ==> SliceOf(inputs, FlatResults(Flat(inputs), revents, reactions, m), i, res[i])
    ensures (exists k :: 0 <= k < |revents| && revents[k] != 0) ==> OwnResults(inputs, |inputs|, revents, reactions, res)
  {
    hide OwnResults, Reports, FlatResults, Active, ResultOf, TimedOut, Flat, Index;
    var vs := Flat(inputs);
    var fds := seq(|vs|, k requires 0 <= k < |vs| => Pollfd(vs[k].fd, vs[k].forWrite, revents[k]));
    var wasTimeout := TimedOut(revents);
    ghost var all := FlatResults(vs, revents, reactions, m);
    res := [];
    for i := 0 to |inputs|
      invariant |res| == i
      invariant forall j :: 0 <= j < i ==> SliceOf(inputs, all, j, res[j])
    {
      SlicesPartition(inputs, i);
      IndexStep(inputs, i);
      var at := Index(inputs, i);
      var one := MakeResult(inputs[i], fds, at, reactions, wasTimeout, m);
      forall k | 0 <= k < |one| ensures one[k] == all[at + k] {
        MemberAt(inputs, i, k);
        FlatResultAt(vs, revents, reactions, m, at + k);
      }
      SliceIs(inputs, all, i, one);
      res := res + [one];
    }
    FlatLength(inputs);
    if exists k :: 0 <= k < |revents| && revents[k] != 0 {
      forall j | 0 <= j < |vs| ensures Reports(all[j], revents[j], reactions[j]) {
        ReportedResult(vs, revents, reactions, m, j);
      }
      SlicesReport(inputs, |inputs|, |all|, all, revents, reactions, res);
    }
  }

  /** A turn in which poll reports something: an awaitable has a result if and only if its own
      events are reported and it has not to wait on, and the result is its value or its error. */
  lemma ReportedResult(vs: seq<Awaitable>, revents: seq<int>, reactions: seq<Reaction>, m: Timeout, j: nat)
    requires |revents| == |reactions| == |vs| && j < |vs| && exists k :: 0 <= k < |revents| && revents[k] != 0
    ensures var h := FlatResults(vs, revents, reactions, m)[j];
      && (h.Some? <==> revents[j] != 0 && !reactions[j].NotYet?)
      && (h.Some? ==> h.value == if reactions[j].Fails? then Err(reactions[j].error) else Ok(reactions[j].value))
      && Reports(h, revents[j], reactions[j])
  {
  }

  /** A turn in which poll reports nothing: those that are due have a result, which are the ones
      with no more time than the soonest, and with a polling one as the soonest all polling ones. */
  lemma QuietResult(inputs: seq<Input>, elapsed: int, revents: seq<int>, reactions: seq<Reaction>, first: nat, j: nat)
    requires |revents| == |reactions| == |Flat(inputs)| && j < |Flat(inputs)|
    requires forall k :: 0 <= k < |revents| ==> revents[k] == 0
    requires first < |Flat(inputs)| && FirstSoonest(Flat(inputs), elapsed, first)
    ensures var vs := Flat(inputs);
      var h := FlatResults(vs, revents, reactions, NestedMin(NoTimeout, inputs, elapsed))[j];
      var left := vs[first].timeout - (if vs[first].forPolling then elapsed else 0);
      var due := vs[j].timeout >= 0
        && (vs[j].timeout <= left || (vs[j].timeout == 0 && left <= 0) || (vs[first].forPolling && vs[j].forPolling));
      && (h.Some? <==> due && !reactions[j].NotYet?)
      && (h.Some? ==> h.value == if reactions[j].Fails? then Err(reactions[j].error) else Ok(reactions[j].value))
  {
    NestedMinIsFlat(NoTimeout, inputs, elapsed);
    var k := MinIsFirstSoonest(Flat(inputs), elapsed);
    OneFirst(Flat(inputs), elapsed, first, k);
  }

  lemma OneFirst(vs: seq<Awaitable>, elapsed: int, first: nat, k: nat)
    requires first < |vs| && FirstSoonest(vs, elapsed, first)
    requires var m := MinFrom(NoTimeout, vs, elapsed);
      if m.ms < 0 then m == NoTimeout && forall j :: 0 <= j < |vs| ==> Left(vs[j], elapsed).ms < 0
      else k < |vs| && m == Left(vs[k], elapsed) && FirstSoonest(vs, elapsed, k)
    ensures MinFrom(NoTimeout, vs, elapsed) == Left(vs[first], elapsed)
  {
  }

  lemma MemberAt(inputs: seq<Input>, i: nat, k: nat)
    requires i < |inputs| && k < |Members(inputs[i])|
    ensures Index(inputs, i) + k < |Flat(inputs)| && Flat(inputs)[Index(inputs, i) + k] == Members(inputs[i])[k]
  {
    hide Flat, Index;
    SlicesPartition(inputs, i);
    IndexStep(inputs, i);
    assert Flat(inputs)[Index(inputs, i)..Index(inputs, i + 1)][k] == Flat(inputs)[Index(inputs, i) + k];
  }

  lemma FlatResultAt(vs: seq<Awaitable>, revents: seq<int>, reactions: seq<Reaction>, m: Timeout, k: nat)
    requires |revents| == |reactions| == |vs| && k < |vs|
    ensures FlatResults(vs, revents, reactions, m)[k] == ResultOf(Active(vs[k], revents[k], TimedOut(revents), m), reactions[k])
  {
  }

  lemma SliceIs(inputs: seq<Input>, all: seq<Holder>, i: nat, one: seq<Holder>)
    requires i < |inputs| && |one| == |Members(inputs[i])| && |all| == |Flat(inputs)|
    requires Index(inputs, i) + |one| <= |all| && forall k :: 0 <= k < |one| ==> one[k] == all[Index(inputs, i) + k]
    ensures SliceOf(inputs, all, i, one)
  {
    hide Flat, Index;
    IndexStep(inputs, i);
    assert one == all[Index(inputs, i)..Index(inputs, i) + |one|];
  }

  ghost predicate SliceOf(inputs: seq<Input>, all: seq<Holder>, i: nat, res: seq<Holder>)
    requires i < |inputs|
  {
    Index(inputs, i) <= Index(inputs, i + 1) <= |all| && res == all[Index(inputs, i)..Index(inputs, i + 1)]
  }

  // ----- Rounds of the select loop -----

  /** What one turn of the loop meets: what poll reports, how the awaitables react, and the clock
      afterwards, in nanoseconds. */
  datatype Round = Round(revents: seq<int>, reactions: seq<Reaction>, now: int)

  const NANOS := 1_000_000

  /** `elapsed` when turn `k` begins: whole milliseconds are added up turn by turn. */
  function Elapsed(start: int, rounds: seq<Round>, k: nat): int
    requires k <= |rounds|
  {
    if k == 0 then 0
    else Elapsed(start, rounds, k - 1) + (rounds[k - 1].now - (if k == 1 then start else rounds[k - 2].now)) / NANOS
  }

  ghost predicate ClockAdvances(start: int, rounds: seq<Round>) {
    && (rounds != [] ==> start <= rounds[0].now)
    && forall k :: 0 < k < |rounds| ==> rounds[k - 1].now <= rounds[k].now
  }

  /** What is counted as elapsed is never more than the time that passed, and lags behind by less
      than a millisecond a turn: polling timeouts are not cut short. */
  lemma {:induction false} ElapsedLags(start: int, rounds: seq<Round>, k: nat)
    requires 0 < k <= |rounds| && ClockAdvances(start, rounds)
    ensures 0 <= Elapsed(start, rounds, k)
    ensures NANOS * Elapsed(start, rounds, k) <= rounds[k - 1].now - start < NANOS * (Elapsed(start, rounds, k) + k)
  {
    if k > 1 {
      ElapsedLags(start, rounds, k - 1);
    }
    var t := rounds[k - 1].now - (if k == 1 then start else rounds[k - 2].now);
    assert t >= 0 && NANOS * (t / NANOS) <= t < NANOS * (t / NANOS) + NANOS;
  }

  ghost predicate RoundsFit(inputs: seq<Input>, rounds: seq<Round>) {
    forall k :: 0 <= k < |rounds| ==> |rounds[k].revents| == |rounds[k].reactions| == |Flat(inputs)|
  }

  ghost function RoundResults(inputs: seq<Input>, start: int, rounds: seq<Round>, k: nat): (rs: seq<Holder>)
    requires k < |rounds| && RoundsFit(inputs, rounds)
    ensures |rs| == |Flat(inputs)|
  {
    var m := NestedMin(NoTimeout, inputs, Elapsed(start, rounds, k));
    FlatResults(Flat(inputs), rounds[k].revents, rounds[k].reactions, m)
  }

  /** The loop of select, with the two last inputs, the context's cancellation and deadline,
      already appended: it goes on until a turn has a result. */
  method SelectLoop(inputs: seq<Input>, start: int, rounds: seq<Round>) returns (done: bool, turn: nat, res: seq<seq<Holder>>)
    requires RoundsFit(inputs, rounds)
    ensures !done ==> forall k :: 0 <= k < |rounds| ==> !AnyResult(RoundResults(inputs, start, rounds, k))
    ensures done ==> turn < |rounds| && AnyResult(RoundResults(inputs, start, rounds, turn)) && |res| == |inputs|
    ensures done ==> forall k :: 0 <= k < turn ==> !AnyResult(RoundResults(inputs, start, rounds, k))
    ensures done ==> forall i :: 0 <= i < |inputs| ==> SliceOf(inputs, RoundResults(inputs, start, rounds, turn), i, res[i])
  {
    var elapsed, last := 0, start;
    turn := 0;
    res := [];
    while turn < |rounds|
      invariant turn <= |rounds| && elapsed == Elapsed(start, rounds, turn)
      invariant last == if turn == 0 then start else rounds[turn - 1].now
      invariant forall k :: 0 <= k < turn ==> !AnyResult(RoundResults(inputs, start, rounds, k))
      decreases |rounds| - turn
    {
      var m := EarliestTimeout(inputs, elapsed);
      var round := rounds[turn];
      res := MakeResults(inputs, round.revents, round.reactions, m);
      var active := HasResult(res);
      ResultsSomewhere(inputs, RoundResults(inputs, start, rounds, turn), res);
      if active {
        return true, turn, res;
      }
      elapsed := elapsed + (round.now - last) / NANOS;
      last := round.now;
      turn := turn + 1;
    }
    done := false;
  }

  method HasResult(res: seq<seq<Holder>>) returns (active: bool)
    ensures active <==> exists i :: 0 <= i < |res| && AnyResult(res[i])
  {
    active := false;
    for i := 0 to |res|
      invariant !active && forall j :: 0 <= j < i ==> !AnyResult(res[j])
    {
      for k := 0 to |res[i]|
        invariant forall j :: 0 <= j < k ==> res[i][j].None?
      {
        if res[i][k].Some? {
          assert AnyResult(res[i]);
          return true;
        }
      }
    }
  }

  /** Some slice has a result exactly if there is one at all. */
  lemma ResultsSomewhere(inputs: seq<Input>, all: seq<Holder>, res: seq<seq<Holder>>)
    requires |res| == |inputs| && |all| == |Flat(inputs)|
    requires forall i :: 0 <= i < |inputs| ==> SliceOf(inputs, all, i, res[i])
    ensures AnyResult(all) <==> exists i :: 0 <= i < |res| && AnyResult(res[i])
  {
    if AnyResult(all) {
      var k :| 0 <= k < |all| && all[k].Some?;
      var i := SliceContaining(inputs, k);
      assert SliceOf(inputs, all, i, res[i]);
      assert res[i][k - Index(inputs, i)] == all[k];
      assert AnyResult(res[i]);
    }
    forall i | 0 <= i < |res| && AnyResult(res[i]) ensures AnyResult(all) {
      var k :| 0 <= k < |res[i]| && res[i][k].Some?;
      assert SliceOf(inputs, all, i, res[i]);
      assert all[Index(inputs, i) + k] == res[i][k];
    }
  }

  lemma {:induction false} SliceContaining(inputs: seq<Input>, k: nat) returns (i: nat)
    requires k < |Flat(inputs)|
    ensures i < |inputs| && Index(inputs, i) <= k < Index(inputs, i + 1)
  {
    var n := |Members(inputs[0])|;
    if k < n {
      i := 0;
      assert Index(inputs, 1) == n + Index(inputs[1..], 0);
    } else {
      i := SliceContaining(inputs[1..], k - n);
      i := i + 1;
    }
  }

  /** The context's two awaitables come last in the flattened order. */
  lemma LastTwo(args: seq<Input>, cancelled: Awaitable, deadline: Awaitable)
    ensures var inputs, n := args + [One(cancelled), One(deadline)], |Flat(args)|;
      && Flat(inputs) == Flat(args) + [cancelled, deadline]
      && Index(inputs, |args|) == n && Index(inputs, |args| + 1) == n + 1 && Index(inputs, |args| + 2) == n + 2
  {
    hide Flat, Index;
    var inputs := args + [One(cancelled), One(deadline)];
    assert inputs[..|args|] == args && inputs[..|inputs|] == inputs;
    FlatSnoc(inputs, |args|);
    FlatSnoc(inputs, |args| + 1);
    FlatLength(inputs);
    IndexStep(inputs, |args|);
    IndexStep(inputs, |args| + 1);
    assert Flat(args) + [cancelled] + [deadline] == Flat(args) + [cancelled, deadline];
  }

  /** Whether a turn in which poll reports something is the last one. */
  lemma ReportedTurn(vs: seq<Awaitable>, revents: seq<int>, reactions: seq<Reaction>, m: Timeout)
    requires |revents| == |reactions| == |vs| && exists k :: 0 <= k < |revents| && revents[k] != 0
    ensures AnyResult(FlatResults(vs, revents, reactions, m))
       <==> exists j :: 0 <= j < |vs| && revents[j] != 0 && !reactions[j].NotYet?
  {
    hide FlatResults;
    var rs := FlatResults(vs, revents, reactions, m);
    forall j | 0 <= j < |vs| ensures rs[j].Some? <==> revents[j] != 0 && !reactions[j].NotYet? {
      ReportedResult(vs, revents, reactions, m, j);
    }
  }

  /** Something is reported in turn `k`. */
  predicate Reported(rounds: seq<Round>, k: nat)
    requires k < |rounds|
  {
    exists j :: 0 <= j < |rounds[k].revents| && rounds[k].revents[j] != 0
  }

  /** What select comes to when awaitables `fired` in its last turn, `n` of them of its arguments:
      a cancelled or late context fails it if its own awaitable fired, and otherwise each
      awaitable of the arguments has its own result. */
  ghost predicate OwnEnd(args: seq<Input>, inputs: seq<Input>, n: nat, fired: seq<int>, reactions: seq<Reaction>,
                         r: Result<seq<seq<Holder>>>)
    requires |args| <= |inputs| && |fired| == |reactions| == n + 2
  {
    if fired[n] != 0 && reactions[n].Fails? then r == Err(reactions[n].error)
    else if fired[n + 1] != 0 && reactions[n + 1].Fails? then r == Err(reactions[n + 1].error)
    else r.Ok? && OwnResults(inputs, |args|, fired, reactions, r.value)
  }

  lemma EndsAsFired(args: seq<Input>, inputs: seq<Input>, n: nat, all: seq<Holder>, fired: seq<int>, reactions: seq<Reaction>,
                    r: Result<seq<seq<Holder>>>)
    requires |all| == |fired| == |reactions| == n + 2 && |args| <= |inputs| && Index(inputs, |args|) == n
    requires Ends(inputs, all, n, |args|, r)
    requires forall i :: 0 <= i < |all| ==> Reports(all[i], fired[i], reactions[i])
    ensures OwnEnd(args, inputs, n, fired, reactions, r)
  {
    hide Index, OwnResults;
    if r.Ok? {
      SlicesReport(inputs, |args|, n, all, fired, reactions, r.value);
    }
  }

  /** The last turn, if poll reports something in it. */
  lemma ReportedEnd(args: seq<Input>, cancelled: Awaitable, deadline: Awaitable, start: int, rounds: seq<Round>, turn: nat,
                    r: Result<seq<seq<Holder>>>)
    requires var inputs, n := args + [One(cancelled), One(deadline)], |Flat(args)|;
      && RoundsFit(inputs, rounds) && turn < |rounds| && Reported(rounds, turn)
      && |RoundResults(inputs, start, rounds, turn)| == n + 2 && Ends(inputs, RoundResults(inputs, start, rounds, turn), n, |args|, r)
    ensures var inputs, n := args + [One(cancelled), One(deadline)], |Flat(args)|;
      && |rounds[turn].revents| == |rounds[turn].reactions| == n + 2
      && OwnEnd(args, inputs, n, rounds[turn].revents, rounds[turn].reactions, r)
  {
    hide Flat, Index, FlatResults, NestedMin, OwnEnd, Ends;
    var inputs, n := args + [One(cancelled), One(deadline)], |Flat(args)|;
    LastTwo(args, cancelled, deadline);
    var all, rd := RoundResults(inputs, start, rounds, turn), rounds[turn];
    var m := NestedMin(NoTimeout, inputs, Elapsed(start, rounds, turn));
    forall k | 0 <= k < n + 2 ensures Reports(all[k], rd.revents[k], rd.reactions[k]) {
      ReportedResult(Flat(inputs), rd.revents, rd.reactions, m, k);
    }
    EndsAsFired(args, inputs, n, all, rd.revents, rd.reactions, r);
  }

  /** The last turn, if poll reports nothing in it and `first` is the awaitable that was due first:
      `fired` are those that have no more time left, and with a polling one all polling ones. */
  lemma QuietEnd(args: seq<Input>, cancelled: Awaitable, deadline: Awaitable, start: int, rounds: seq<Round>, turn: nat,
                 r: Result<seq<seq<Holder>>>, first: nat, fired: seq<int>)
    requires var inputs, n := args + [One(cancelled), One(deadline)], |Flat(args)|;
      && RoundsFit(inputs, rounds) && turn < |rounds| && !Reported(rounds, turn)
      && |RoundResults(inputs, start, rounds, turn)| == n + 2 && Ends(inputs, RoundResults(inputs, start, rounds, turn), n, |args|, r)
    requires var vs, elapsed := Flat(args + [One(cancelled), One(deadline)]), Elapsed(start, rounds, turn);
      && first < |vs| == |fired| && FirstSoonest(vs, elapsed, first)
      && var left := vs[first].timeout - (if vs[first].forPolling then elapsed else 0);
         forall j :: 0 <= j < |vs| ==>
           (fired[j] != 0 <==>
             vs[j].timeout >= 0
             && (vs[j].timeout <= left || (vs[j].timeout == 0 && left <= 0) || (vs[first].forPolling && vs[j].forPolling)))
    ensures var inputs, n := args + [One(cancelled), One(deadline)], |Flat(args)|;
      && |rounds[turn].reactions| == |fired| == n + 2
      && OwnEnd(args, inputs, n, fired, rounds[turn].reactions, r)
  {
    hide Flat, Index, FlatResults, NestedMin, OwnEnd, Ends, FirstSoonest;
    var inputs, n := args + [One(cancelled), One(deadline)], |Flat(args)|;
    LastTwo(args, cancelled, deadline);
    var all, rd := RoundResults(inputs, start, rounds, turn), rounds[turn];
    forall k | 0 <= k < n + 2 ensures Reports(all[k], fired[k], rd.reactions[k]) {
      QuietResult(inputs, Elapsed(start, rounds, turn), rd.revents, rd.reactions, first, k);
    }
    EndsAsFired(args, inputs, n, all, fired, rd.reactions, r);
  }

  lemma StopsAt(inputs: seq<Input>, start: int, rounds: seq<Round>, turn: nat)
    requires RoundsFit(inputs, rounds) && turn < |rounds| && AnyResult(RoundResults(inputs, start, rounds, turn))
    requires Reported(rounds, turn)
    ensures exists j :: 0 <= j < |rounds[turn].revents| && rounds[turn].revents[j] != 0 && !rounds[turn].reactions[j].NotYet?
  {
    hide Flat, FlatResults, NestedMin;
    var m := NestedMin(NoTimeout, inputs, Elapsed(start, rounds, turn));
    ReportedTurn(Flat(inputs), rounds[turn].revents, rounds[turn].reactions, m);
  }

  /** A turn in which some awaitable is reported and need not wait on is the last one. */
  lemma GoesOn(inputs: seq<Input>, start: int, rounds: seq<Round>, turn: nat, j: nat)
    requires RoundsFit(inputs, rounds) && turn < |rounds| && !AnyResult(RoundResults(inputs, start, rounds, turn))
    requires j < |rounds[turn].revents| && rounds[turn].revents[j] != 0
    ensures rounds[turn].reactions[j].NotYet?
  {
    hide Flat, FlatResults, NestedMin;
    var m := NestedMin(NoTimeout, inputs, Elapsed(start, rounds, turn));
    ReportedTurn(Flat(inputs), rounds[turn].revents, rounds[turn].reactions, m);
  }

  /** select: the arguments, and the current context's cancellation and deadline.  At the first
      turn with a result, a cancelled context is reported before an exceeded deadline, and both
      before the results of the arguments, which are otherwise returned slice by slice. */
  method SelectArguments(args: seq<Input>, cancelled: Awaitable, deadline: Awaitable, start: int, rounds: seq<Round>)
    returns (done: bool, turn: nat, r: Result<seq<seq<Holder>>>)
    requires RoundsFit(args + [One(cancelled), One(deadline)], rounds)
    ensures var inputs, n := args + [One(cancelled), One(deadline)], |Flat(args)|;
      if !done then forall k :: 0 <= k < |rounds| ==> !AnyResult(RoundResults(inputs, start, rounds, k))
      else
        && turn < |rounds| && AnyResult(RoundResults(inputs, start, rounds, turn))
        && (forall k :: 0 <= k < turn ==> !AnyResult(RoundResults(inputs, start, rounds, k)))
        && |RoundResults(inputs, start, rounds, turn)| == n + 2
        && Ends(inputs, RoundResults(inputs, start, rounds, turn), n, |args|, r)
    // In a turn in which poll reports something, each awaitable has what its own events say.
    ensures var inputs, n := args + [One(cancelled), One(deadline)], |Flat(args)|;
      done && Reported(rounds, turn) ==>
        && |rounds[turn].revents| == |rounds[turn].reactions| == n + 2
        && OwnEnd(args, inputs, n, rounds[turn].revents, rounds[turn].reactions, r)
        && exists j :: 0 <= j < n + 2 && rounds[turn].revents[j] != 0 && !rounds[turn].reactions[j].NotYet?
    // Before that turn, all that were reported had to wait on.
    ensures forall k, j :: 0 <= k < (if done then turn else |rounds|) && 0 <= j < |rounds[k].revents| ==>
      rounds[k].revents[j] == 0 || rounds[k].reactions[j].NotYet?
  {
    hide Flat, Index, RoundResults, OwnEnd;
    var inputs := args + [One(cancelled), One(deadline)];
    LastTwo(args, cancelled, deadline);
    var res;
    done, turn, res := SelectLoop(inputs, start, rounds);
    forall k, j | 0 <= k < (if done then turn else |rounds|) && 0 <= j < |rounds[k].revents| && rounds[k].revents[j] != 0
      ensures rounds[k].reactions[j].NotYet? {
      GoesOn(inputs, start, rounds, k, j);
    }
    if !done {
      return false, turn, Err(TryAgain);
    }
    ghost var all := RoundResults(inputs, start, rounds, turn);
    assert SliceOf(inputs, all, |args|, res[|args|]) && SliceOf(inputs, all, |args| + 1, res[|args| + 1]);
    var (first, second) := (res[|args|][0], res[|args| + 1][0]);
    if first.Some? && first.value.Err? {
      r := Err(first.value.error);
    } else if second.Some? && second.value.Err? {
      r := Err(second.value.error);
    } else {
      r := Ok(res[..|args|]);
    }
    if Reported(rounds, turn) {
      ReportedEnd(args, cancelled, deadline, start, rounds, turn, r);
      StopsAt(inputs, start, rounds, turn);
    }
  }

  /** How select ends when the results of all its awaitables are `all`, `n` of them of its `k`
      arguments. */
  ghost predicate Ends(inputs: seq<Input>, all: seq<Holder>, n: nat, k: nat, r: Result<seq<seq<Holder>>>)
    requires |all| == n + 2 && k <= |inputs|
  {
    if all[n].Some? && all[n].value.Err? then r == Err(all[n].value.error)
    else if all[n + 1].Some? && all[n + 1].value.Err? then r == Err(all[n + 1].value.error)
    else r.Ok? && |r.value| == k && forall i :: 0 <= i < k ==> SliceOf(inputs, all, i, r.value[i])
  }
}
