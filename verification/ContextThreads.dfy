/** Cancellation by many threads at once (src/arpc/context.cpp).  Every context has a lock on its
    children; cancel holds it while it cancels the children one by one, add_child while it
    cancels a late joiner.  A thread is a stack of such calls.

    At every moment, a cancelled context whose lock is free has only cancelled children; and some
    thread can always go on. */
module ContextThreads {
  import opened Results
  import opened Contexts

  type Thread = nat

  datatype Frame =
    | Enter(c: Id)                        // cancel, waiting for the lock of c
    | Loop(c: Id, todo: set<Id>)          // cancel, holding it, with these children still to do
    | Join(c: Id, child: Id)              // add_child, waiting for the lock of c
    | Joined(c: Id, child: Id)            // add_child, holding it; the child is registered

  predicate Holds(f: Frame) {
    f.Loop? || f.Joined?
  }

  datatype State = State(children: map<Id, set<Id>>, cancelled: set<Id>, next: Id, stacks: map<Thread, seq<Frame>>)

  ghost predicate HoldsAt(s: State, th: Thread, i: nat) {
    th in s.stacks && i < |s.stacks[th]| && Holds(s.stacks[th][i])
  }

  ghost predicate Held(s: State, c: Id) {
    exists th, i: nat :: HoldsAt(s, th, i) && s.stacks[th][i].c == c
  }

  function Top(s: State, th: Thread): Option<Frame> {
    if th in s.stacks && s.stacks[th] != [] then Some(s.stacks[th][|s.stacks[th]| - 1]) else None
  }

  datatype Step =
    | CallCancel(th: Thread, c: Id)
    | CallCreate(th: Thread, parent: Id, shield: bool)
    | LockCancel(th: Thread)              // Enter becomes Loop over the children
    | CancelChild(th: Thread, child: Id)  // the loop calls cancel on one of them
    | SetFlag(th: Thread)                 // no child left: set the flag, unlock, return
    | LockJoin(th: Thread)                // register the child; if cancelled, call cancel on it
    | EndJoin(th: Thread)                 // unlock, return
    | Remove(c: Id, child: Id)            // remove_child, one short critical section

  ghost predicate Enabled(s: State, step: Step) {
    match step
    case CallCancel(th, c) => th in s.stacks && s.stacks[th] == [] && c in s.children
    case CallCreate(th, parent, _) => th in s.stacks && s.stacks[th] == [] && parent in s.children
    case LockCancel(th) => Top(s, th).Some? && Top(s, th).value.Enter? && !Held(s, Top(s, th).value.c)
    case CancelChild(th, child) => Top(s, th).Some? && Top(s, th).value.Loop? && child in Top(s, th).value.todo
    case SetFlag(th) => Top(s, th).Some? && Top(s, th).value.Loop? && Top(s, th).value.todo == {}
    case LockJoin(th) => Top(s, th).Some? && Top(s, th).value.Join? && !Held(s, Top(s, th).value.c)
    case EndJoin(th) => Top(s, th).Some? && Top(s, th).value.Joined?
    case Remove(c, _) => c in s.children && !Held(s, c)
  }

  function Popped(stack: seq<Frame>): seq<Frame>
    requires stack != []
  {
    stack[..|stack| - 1]
  }

  function WithStack(s: State, th: Thread, stack: seq<Frame>): State {
    s.(stacks := s.stacks[th := stack])
  }

  function ChildrenOf(s: State, c: Id): set<Id> {
    if c in s.children then s.children[c] else {}
  }

  function Next(s: State, step: Step): State
    requires Enabled(s, step)
  {
    match step
    case CallCancel(th, c) => WithStack(s, th, [Enter(c)])
    case CallCreate(th, parent, shield) =>
      var t := s.(children := s.children[s.next := {}], next := s.next + 1);
      if shield then t else WithStack(t, th, [Join(parent, s.next)])
    case LockCancel(th) =>
      var c := Top(s, th).value.c;
      WithStack(s, th, Popped(s.stacks[th]) + [Loop(c, ChildrenOf(s, c))])
    case CancelChild(th, child) =>
      var f := Top(s, th).value;
      WithStack(s, th, Popped(s.stacks[th]) + [Loop(f.c, f.todo - {child}), Enter(child)])
    case SetFlag(th) =>
      WithStack(s, th, Popped(s.stacks[th])).(cancelled := s.cancelled + {Top(s, th).value.c})
    case LockJoin(th) =>
      var f := Top(s, th).value;
      WithStack(s, th, Popped(s.stacks[th]) + [Joined(f.c, f.child)]
                       + (if f.c in s.cancelled then [Enter(f.child)] else []))
        .(children := s.children[f.c := ChildrenOf(s, f.c) + {f.child}])
    case EndJoin(th) => WithStack(s, th, Popped(s.stacks[th]))
    case Remove(c, child) => s.(children := s.children[c := s.children[c] - {child}])
  }

  ghost predicate Initial(s: State) {
    && s.children == map[0 := {}] && s.cancelled == {} && s.next == 1
    && forall th :: th in s.stacks ==> s.stacks[th] == []
  }

  ghost function Run(s: State, steps: seq<Step>): Option<State>
    decreases |steps|
  {
    if steps == [] then Some(s)
    else if !Enabled(s, steps[0]) then None
    else Run(Next(s, steps[0]), steps[1..])
  }

  // ----- The invariant -----

  /** Contexts are numbered in order of creation; children are newer than their parents. */
  ghost predicate Numbered(s: State) {
    && s.cancelled <= s.children.Keys
    && forall c :: c in s.children ==> c < s.next && NewerChildren(s, c)
  }

  ghost predicate NewerChildren(s: State, c: Id)
    requires c in s.children
  {
    forall d :: d in s.children[c] ==> d in s.children && c < d
  }

  /** Child `d` is taken care of by the call that frame `i` of the stack made. */
  ghost predicate Calls(stack: seq<Frame>, i: nat, d: Id) {
    i + 1 < |stack| && stack[i + 1].c == d
  }

  ghost predicate FrameOk(s: State, stack: seq<Frame>, i: nat)
    requires i < |stack|
  {
    var f := stack[i];
    && f.c in s.children
    && (i + 1 < |stack| ==> Holds(f) && (stack[i + 1].Enter? || stack[i + 1].Loop?) && stack[i + 1].c in s.children[f.c])
    && (f.Loop? ==> f.todo <= s.children[f.c]
                    && forall d :: d in s.children[f.c] && d !in f.todo ==> d in s.cancelled || Calls(stack, i, d))
    && (f.Join? ==> f.c < f.child && f.child in s.children)
    && (f.Joined? ==> f.child in s.children[f.c]
                      && (f.c in s.cancelled ==> f.child in s.cancelled || Calls(stack, i, f.child)))
  }

  ghost predicate StacksOk(s: State) {
    forall th :: th in s.stacks ==> StackOk(s, s.stacks[th])
  }

  ghost predicate StackOk(s: State, stack: seq<Frame>) {
    forall i: nat :: i < |stack| ==> FrameOk(s, stack, i)
  }

  /** A lock has one holder. */
  ghost predicate Exclusive(s: State) {
    forall th, i: nat, th', i': nat ::
      HoldsAt(s, th, i) && HoldsAt(s, th', i') && s.stacks[th][i].c == s.stacks[th'][i'].c ==> th == th' && i == i'
  }

  /** A child of a cancelled context is cancelled, or has just joined and is being cancelled. */
  ghost predicate Settling(s: State) {
    forall c, d :: c in s.cancelled && c in s.children && d in s.children[c] ==> d in s.cancelled || Joining(s, c, d)
  }

  ghost predicate Joining(s: State, c: Id, d: Id) {
    exists th, i: nat :: th in s.stacks && i < |s.stacks[th]| && s.stacks[th][i] == Joined(c, d)
  }

  ghost predicate Invariant(s: State) {
    Numbered(s) && StacksOk(s) && Exclusive(s) && Settling(s)
  }

  /** What the invariant is for: a cancelled context whose lock is free has only cancelled
      children, late joiners included. */
  lemma FreeMeansSettled(s: State, c: Id)
    requires Invariant(s) && c in s.cancelled && c in s.children && !Held(s, c)
    ensures s.children[c] <= s.cancelled
  {
    hide FrameOk, Held, Joining;
    forall d | d in s.children[c] ensures d in s.cancelled {
      assert d in s.cancelled || Joining(s, c, d);
      JoiningHolds(s, c, d);
    }
  }

  lemma JoiningHolds(s: State, c: Id, d: Id)
    ensures Joining(s, c, d) ==> Held(s, c)
  {
    if Joining(s, c, d) {
      var th, i: nat :| th in s.stacks && i < |s.stacks[th]| && s.stacks[th][i] == Joined(c, d);
      assert HoldsAt(s, th, i);
    }
  }

  // ----- Each step keeps it -----

  /** For the calls in `stack`, the tree did not change: the contexts whose locks they hold have
      the children they had, and none of them was cancelled meanwhile. */
  ghost predicate SameFor(s: State, s': State, stack: seq<Frame>) {
    && s.children.Keys <= s'.children.Keys && s.cancelled <= s'.cancelled
    && forall i :: 0 <= i < |stack| && Holds(stack[i]) && stack[i].c in s.children ==>
         s'.children[stack[i].c] == s.children[stack[i].c] && (stack[i].c in s'.cancelled ==> stack[i].c in s.cancelled)
  }

  lemma StackKeeps(s: State, s': State, stack: seq<Frame>)
    requires StackOk(s, stack) && SameFor(s, s', stack)
    ensures StackOk(s', stack)
  {
    forall i: nat | i < |stack| ensures FrameOk(s', stack, i) {
      assert FrameOk(s, stack, i);
    }
  }

  /** The stacks of other threads, when only contexts that they do not hold change. */
  lemma OthersKeep(s: State, s': State, th: Thread)
    requires StacksOk(s) && s'.stacks.Keys == s.stacks.Keys
    requires forall x :: x in s.stacks && x != th ==> s'.stacks[x] == s.stacks[x] && SameFor(s, s', s.stacks[x])
    requires th in s'.stacks ==> StackOk(s', s'.stacks[th])
    ensures StacksOk(s')
  {
    hide StackOk, SameFor;
    forall x | x in s'.stacks ensures StackOk(s', s'.stacks[x]) {
      if x != th {
        StackKeeps(s, s', s.stacks[x]);
      }
    }
  }

  /** Nothing changed in the tree but that contexts that nobody holds were added or cancelled. */
  lemma SameForAll(s: State, s': State, stack: seq<Frame>)
    requires s'.children.Keys >= s.children.Keys && s'.cancelled == s.cancelled
    requires forall c :: c in s.children ==> s'.children[c] == s.children[c]
    ensures SameFor(s, s', stack)
  {
  }

  lemma ExclusiveKeeps(s: State, s': State)
    requires Exclusive(s)
    requires forall th, i: nat :: HoldsAt(s', th, i) ==> HoldsAt(s, th, i) && s.stacks[th][i].c == s'.stacks[th][i].c
    ensures Exclusive(s')
  {
  }

  /** Taking a free lock. */
  lemma ExclusiveTakes(s: State, s': State, th: Thread, at: nat)
    requires Exclusive(s) && HoldsAt(s', th, at) && !Held(s, s'.stacks[th][at].c)
    requires forall x, i: nat :: HoldsAt(s', x, i) && !(x == th && i == at) ==>
      HoldsAt(s, x, i) && s.stacks[x][i].c == s'.stacks[x][i].c
    ensures Exclusive(s')
  {
  }

  lemma SettlingKeeps(s: State, s': State)
    requires Settling(s) && s'.cancelled == s.cancelled
    requires forall c, d :: c in s.cancelled && c in s'.children && d in s'.children[c] ==> c in s.children && d in s.children[c]
    requires forall c, d :: Joining(s, c, d) ==> Joining(s', c, d)
    ensures Settling(s')
  {
    hide Joining;
  }

  /** Joining calls stay where they are when a stack changes above them. */
  lemma JoiningKeeps(s: State, s': State, th: Thread, c: Id, d: Id)
    requires th in s.stacks && s'.stacks.Keys == s.stacks.Keys
    requires forall x :: x in s.stacks && x != th ==> s'.stacks[x] == s.stacks[x]
    requires forall i: nat :: i < |s.stacks[th]| && s.stacks[th][i].Joined? ==>
      i < |s'.stacks[th]| && s'.stacks[th][i] == s.stacks[th][i]
    requires Joining(s, c, d)
    ensures Joining(s', c, d)
  {
    var x, i: nat :| x in s.stacks && i < |s.stacks[x]| && s.stacks[x][i] == Joined(c, d);
    assert s'.stacks[x][i] == Joined(c, d);
  }

  lemma CallCancelKeeps(s: State, th: Thread, c: Id)
    requires Invariant(s) && Enabled(s, CallCancel(th, c))
    ensures Invariant(Next(s, CallCancel(th, c)))
  {
    hide StackOk;
    var s' := Next(s, CallCancel(th, c));
    forall stack ensures SameFor(s, s', stack) {
      SameForAll(s, s', stack);
    }
    OneFrame(s', Enter(c));
    OthersKeep(s, s', th);
    ExclusiveKeeps(s, s');
    forall x, d | Joining(s, x, d) ensures Joining(s', x, d) {
      JoiningKeeps(s, s', th, x, d);
    }
    SettlingKeeps(s, s');
    NumberedKeeps(s, s');
  }

  lemma OneFrame(s: State, f: Frame)
    requires f.c in s.children && (f.Enter? || (f.Join? && f.c < f.child && f.child in s.children))
    ensures StackOk(s, [f])
  {
  }

  lemma NumberedKeeps(s: State, s': State)
    requires Numbered(s) && s'.children == s.children && s'.next == s.next && s'.cancelled <= s.children.Keys
    ensures Numbered(s')
  {
    forall c | c in s'.children ensures NewerChildren(s', c) {
      assert NewerChildren(s, c);
    }
  }

  lemma CallCreateKeeps(s: State, th: Thread, parent: Id, shield: bool)
    requires Invariant(s) && Enabled(s, CallCreate(th, parent, shield))
    ensures Invariant(Next(s, CallCreate(th, parent, shield)))
  {
    hide StackOk;
    var s' := Next(s, CallCreate(th, parent, shield));
    assert NewerChildren(s, parent);
    assert s.next !in s.children;
    forall c | c in s'.children ensures c < s'.next && NewerChildren(s', c) {
      assert c in s.children ==> NewerChildren(s, c);
    }
    forall stack ensures SameFor(s, s', stack) {
      SameForAll(s, s', stack);
    }
    if shield {
      StackKeeps(s, s', s.stacks[th]);
    } else {
      OneFrame(s', Join(parent, s.next));
    }
    OthersKeep(s, s', th);
    ExclusiveKeeps(s, s');
    forall x, d | Joining(s, x, d) ensures Joining(s', x, d) {
      JoiningKeeps(s, s', th, x, d);
    }
    SettlingKeeps(s, s');
  }

  /** Steps of thread `th` that replace the top of its stack: what is below stays in order if the
      call above it is still there. */
  lemma BelowKeeps(s: State, s': State, stack: seq<Frame>, stack': seq<Frame>, n: nat)
    requires StackOk(s, stack) && n < |stack| && n < |stack'| && stack'[..n] == stack[..n]
    requires stack'[n].c == stack[n].c && (n > 0 ==> stack'[n].Enter? || stack'[n].Loop?)
    requires SameFor(s, s', stack[..n])
    ensures forall i: nat :: i < n ==> FrameOk(s', stack', i)
  {
    forall i: nat | i < n ensures FrameOk(s', stack', i) {
      assert FrameOk(s, stack, i);
      assert stack'[..n][i] == stack'[i] && stack[..n][i] == stack[i];
      if i + 1 < n {
        assert stack'[..n][i + 1] == stack'[i + 1] && stack[..n][i + 1] == stack[i + 1];
      }
    }
  }

  lemma TopFrame(s: State, th: Thread)
    requires StacksOk(s) && Top(s, th).Some?
    ensures var stack := s.stacks[th]; var n: nat := |stack| - 1;
      && FrameOk(s, stack, n) && stack == stack[..n] + [stack[n]] && Popped(stack) == stack[..n]
      && (n > 0 ==> FrameOk(s, stack, n - 1) && (stack[n].Enter? || stack[n].Loop?))
  {
    hide FrameOk;
    var stack := s.stacks[th];
    assert StackOk(s, stack);
    var n: nat := |stack| - 1;
    if n > 0 {
      FrameAbove(s, stack, n - 1);
    }
  }

  lemma FrameAbove(s: State, stack: seq<Frame>, i: nat)
    requires i + 1 < |stack| && FrameOk(s, stack, i)
    ensures Holds(stack[i]) && (stack[i + 1].Enter? || stack[i + 1].Loop?) && stack[i + 1].c in ChildrenOf(s, stack[i].c)
  {
  }

  lemma LockCancelKeeps(s: State, th: Thread)
    requires Invariant(s) && Enabled(s, LockCancel(th))
    ensures Invariant(Next(s, LockCancel(th)))
  {
    hide StackOk, FrameOk;
    var s' := Next(s, LockCancel(th));
    var stack, stack' := s.stacks[th], s'.stacks[th];
    var n: nat := |stack| - 1;
    TopFrame(s, th);
    forall x ensures SameFor(s, s', x) {
      SameForAll(s, s', x);
    }
    BelowKeeps(s, s', stack, stack', n);
    LoopStarts(s, s', stack, stack', n);
    AllFrames(s', stack');
    OthersKeep(s, s', th);
    ExclusiveTakes(s, s', th, n);
    forall x, d | Joining(s, x, d) ensures Joining(s', x, d) {
      JoiningKeeps(s, s', th, x, d);
    }
    SettlingKeeps(s, s');
    NumberedKeeps(s, s');
  }

  lemma AllFrames(s: State, stack: seq<Frame>)
    requires forall i: nat :: i < |stack| ==> FrameOk(s, stack, i)
    ensures StackOk(s, stack)
  {
  }

  lemma LoopStarts(s: State, s': State, stack: seq<Frame>, stack': seq<Frame>, n: nat)
    requires n < |stack| && FrameOk(s, stack, n) && s'.children == s.children && s'.cancelled == s.cancelled
    requires |stack'| == n + 1 && stack'[n] == Loop(stack[n].c, ChildrenOf(s, stack[n].c))
    ensures FrameOk(s', stack', n)
  {
  }

  lemma CancelChildKeeps(s: State, th: Thread, child: Id)
    requires Invariant(s) && Enabled(s, CancelChild(th, child))
    ensures Invariant(Next(s, CancelChild(th, child)))
  {
    hide StackOk, FrameOk;
    var s' := Next(s, CancelChild(th, child));
    var stack, stack' := s.stacks[th], s'.stacks[th];
    var n: nat := |stack| - 1;
    TopFrame(s, th);
    forall x ensures SameFor(s, s', x) {
      SameForAll(s, s', x);
    }
    BelowKeeps(s, s', stack, stack', n);
    LoopCalls(s, s', stack, stack', n, child);
    AllFrames(s', stack');
    OthersKeep(s, s', th);
    ExclusiveKeeps(s, s');
    forall x, d | Joining(s, x, d) ensures Joining(s', x, d) {
      JoiningKeeps(s, s', th, x, d);
    }
    SettlingKeeps(s, s');
    NumberedKeeps(s, s');
  }

  lemma LoopCalls(s: State, s': State, stack: seq<Frame>, stack': seq<Frame>, n: nat, child: Id)
    requires n + 1 == |stack| && FrameOk(s, stack, n) && stack[n].Loop? && child in stack[n].todo && Numbered(s)
    requires s'.children == s.children && s'.cancelled == s.cancelled
    requires |stack'| == n + 2 && stack'[n] == Loop(stack[n].c, stack[n].todo - {child}) && stack'[n + 1] == Enter(child)
    ensures FrameOk(s', stack', n) && FrameOk(s', stack', n + 1)
  {
    assert NewerChildren(s, stack[n].c);
  }

  lemma SetFlagKeeps(s: State, th: Thread)
    requires Invariant(s) && Enabled(s, SetFlag(th))
    ensures Invariant(Next(s, SetFlag(th)))
  {
    hide StackOk, FrameOk;
    var s' := Next(s, SetFlag(th));
    var stack, stack' := s.stacks[th], s'.stacks[th];
    var n: nat := |stack| - 1;
    var c := stack[n].c;
    TopFrame(s, th);
    assert HoldsAt(s, th, n);
    LoopDone(s, stack, n);
    forall x | x in s.stacks && x != th ensures SameFor(s, s', s.stacks[x]) {
      forall i | 0 <= i < |s.stacks[x]| && Holds(s.stacks[x][i]) ensures s.stacks[x][i].c != c {
        assert HoldsAt(s, x, i);
      }
    }
    assert SameFor(s, s', stack[..n]) by {
      forall i: nat | i < n && Holds(stack[..n][i]) ensures stack[..n][i].c != c {
        assert HoldsAt(s, th, i);
      }
    }
    PopsCancelled(s, s', stack, n);
    OthersKeep(s, s', th);
    ExclusiveKeeps(s, s');
    forall x, d | Joining(s, x, d) ensures Joining(s', x, d) {
      JoiningKeeps(s, s', th, x, d);
    }
    NumberedKeeps(s, s');
  }

  /** The loop ends when every child is cancelled. */
  lemma LoopDone(s: State, stack: seq<Frame>, n: nat)
    requires n + 1 == |stack| && FrameOk(s, stack, n) && stack[n].Loop? && stack[n].todo == {}
    ensures stack[n].c in s.children && s.children[stack[n].c] <= s.cancelled
  {
  }

  lemma PopsCancelled(s: State, s': State, stack: seq<Frame>, n: nat)
    requires StackOk(s, stack) && n + 1 == |stack| && SameFor(s, s', stack[..n])
    requires s'.children == s.children && stack[n].c in s'.cancelled
    ensures StackOk(s', stack[..n])
  {
    forall i: nat | i < n ensures FrameOk(s', stack[..n], i) {
      assert FrameOk(s, stack, i);
      assert stack[..n][i] == stack[i];
    }
  }

  lemma EndJoinKeeps(s: State, th: Thread)
    requires Invariant(s) && Enabled(s, EndJoin(th))
    ensures Invariant(Next(s, EndJoin(th)))
  {
    hide StackOk, FrameOk;
    var s' := Next(s, EndJoin(th));
    var stack := s.stacks[th];
    var n: nat := |stack| - 1;
    TopFrame(s, th);
    assert n == 0 && s'.stacks[th] == [];
    JoinedDone(s, stack, n);
    forall x ensures SameFor(s, s', x) {
      SameForAll(s, s', x);
    }
    AllFrames(s', []);
    OthersKeep(s, s', th);
    ExclusiveKeeps(s, s');
    EndJoinSettles(s, s', th);
    NumberedKeeps(s, s');
  }

  lemma EndJoinSettles(s: State, s': State, th: Thread)
    requires Settling(s) && th in s.stacks && |s.stacks[th]| == 1 && s.stacks[th][0].Joined?
    requires s.stacks[th][0].c in s.cancelled ==> s.stacks[th][0].child in s.cancelled
    requires s'.cancelled == s.cancelled && s'.children == s.children && s'.stacks == s.stacks[th := []]
    ensures Settling(s')
  {
    var f := s.stacks[th][0];
    forall x, d | x in s.cancelled && x in s.children && d in s.children[x] && d !in s.cancelled
      ensures Joining(s', x, d) {
      assert Joining(s, x, d);
      var y, i: nat :| y in s.stacks && i < |s.stacks[y]| && s.stacks[y][i] == Joined(x, d);
      assert y != th;
      assert s'.stacks[y][i] == Joined(x, d);
    }
  }

  lemma JoinedDone(s: State, stack: seq<Frame>, n: nat)
    requires n + 1 == |stack| && FrameOk(s, stack, n) && stack[n].Joined?
    ensures stack[n].c in s.cancelled ==> stack[n].child in s.cancelled
  {
  }

  lemma LockJoinKeeps(s: State, th: Thread)
    requires Invariant(s) && Enabled(s, LockJoin(th))
    ensures Invariant(Next(s, LockJoin(th)))
  {
    hide StackOk, FrameOk;
    var s' := Next(s, LockJoin(th));
    var stack, stack' := s.stacks[th], s'.stacks[th];
    var n: nat := |stack| - 1;
    TopFrame(s, th);
    assert n == 0;
    var c, child := stack[0].c, stack[0].child;
    JoinStarts(s, s', stack, stack');
    AllFrames(s', stack');
    forall x | x in s.stacks && x != th ensures SameFor(s, s', s.stacks[x]) {
      UntouchedFor(s, s', x, c);
    }
    OthersKeep(s, s', th);
    ExclusiveTakes(s, s', th, 0);
    LockJoinSettles(s, s', th);
  }

  lemma LockJoinSettles(s: State, s': State, th: Thread)
    requires Settling(s) && th in s.stacks && |s.stacks[th]| == 1 && s.stacks[th][0].Join?
    requires s'.cancelled == s.cancelled && s'.stacks.Keys == s.stacks.Keys && s.stacks[th][0].c in s.children
    requires forall x :: x in s.stacks && x != th ==> s'.stacks[x] == s.stacks[x]
    requires |s'.stacks[th]| > 0 && s'.stacks[th][0] == Joined(s.stacks[th][0].c, s.stacks[th][0].child)
    requires var f := s.stacks[th][0]; s'.children == s.children[f.c := s.children[f.c] + {f.child}]
    ensures Settling(s')
  {
    var c, child := s.stacks[th][0].c, s.stacks[th][0].child;
    assert Joining(s', c, child);
    forall x, d | Joining(s, x, d) ensures Joining(s', x, d) {
      JoiningKeeps(s, s', th, x, d);
    }
    hide Joining;
    forall x, d | x in s'.cancelled && x in s'.children && d in s'.children[x] ensures d in s'.cancelled || Joining(s', x, d) {
      assert (x == c && d == child) || d in s.children[x];
    }
  }

  lemma JoinStarts(s: State, s': State, stack: seq<Frame>, stack': seq<Frame>)
    requires |stack| == 1 && stack[0].Join? && FrameOk(s, stack, 0) && Numbered(s)
    requires s'.cancelled == s.cancelled && s'.next == s.next
    requires var f := stack[0]; s'.children == s.children[f.c := ChildrenOf(s, f.c) + {f.child}]
    requires var f := stack[0]; stack' == [Joined(f.c, f.child)] + (if f.c in s.cancelled then [Enter(f.child)] else [])
    ensures stack[0].c in s.children && Numbered(s') && forall i: nat :: i < |stack'| ==> FrameOk(s', stack', i)
  {
    forall c | c in s'.children ensures c < s'.next && NewerChildren(s', c) {
      assert NewerChildren(s, c);
    }
  }

  /** Who does not hold `c` is not affected by a change of its children. */
  lemma UntouchedFor(s: State, s': State, x: Thread, c: Id)
    requires x in s.stacks && !Held(s, c) && s'.cancelled == s.cancelled && s'.children.Keys == s.children.Keys
    requires forall y :: y in s.children && y != c ==> s'.children[y] == s.children[y]
    ensures SameFor(s, s', s.stacks[x])
  {
    forall i | 0 <= i < |s.stacks[x]| && Holds(s.stacks[x][i]) ensures s.stacks[x][i].c != c {
      assert HoldsAt(s, x, i);
    }
  }

  lemma RemoveKeeps(s: State, c: Id, child: Id)
    requires Invariant(s) && Enabled(s, Remove(c, child))
    ensures Invariant(Next(s, Remove(c, child)))
  {
    hide StackOk;
    var s' := Next(s, Remove(c, child));
    forall x | x in s.stacks ensures StackOk(s', s.stacks[x]) {
      UntouchedFor(s, s', x, c);
      StackKeeps(s, s', s.stacks[x]);
    }
    ExclusiveKeeps(s, s');
    assert forall x, d :: Joining(s, x, d) ==> Joining(s', x, d);
    SettlingKeeps(s, s');
    forall x | x in s'.children ensures NewerChildren(s', x) {
      assert NewerChildren(s, x);
    }
  }

  lemma NextKeepsInvariant(s: State, step: Step)
    requires Invariant(s) && Enabled(s, step)
    ensures Invariant(Next(s, step))
  {
    hide Invariant, Enabled, Next;
    match step
    case CallCancel(th, c) => CallCancelKeeps(s, th, c);
    case CallCreate(th, parent, shield) => CallCreateKeeps(s, th, parent, shield);
    case LockCancel(th) => LockCancelKeeps(s, th);
    case CancelChild(th, child) => CancelChildKeeps(s, th, child);
    case SetFlag(th) => SetFlagKeeps(s, th);
    case LockJoin(th) => LockJoinKeeps(s, th);
    case EndJoin(th) => EndJoinKeeps(s, th);
    case Remove(c, child) => RemoveKeeps(s, c, child);
  }

  lemma {:induction false} RunKeepsInvariant(s: State, steps: seq<Step>)
    requires Invariant(s)
    ensures Run(s, steps).Some? ==> Invariant(Run(s, steps).value)
    decreases |steps|
  {
    hide Invariant, Enabled, Next;
    if steps != [] && Enabled(s, steps[0]) {
      NextKeepsInvariant(s, steps[0]);
      RunKeepsInvariant(Next(s, steps[0]), steps[1..]);
    }
  }

  /** In every reachable state: a cancelled context whose lock is free has only cancelled
      children, late joiners included. */
  lemma CancelledHasCancelledChildren(s0: State, steps: seq<Step>, c: Id)
    requires Initial(s0) && Run(s0, steps).Some?
    ensures var s := Run(s0, steps).value;
      c in s.children && c in s.cancelled && !Held(s, c) ==> s.children[c] <= s.cancelled
  {
    hide Held, FrameOk;
    InitialInvariant(s0);
    RunKeepsInvariant(s0, steps);
    var s := Run(s0, steps).value;
    if c in s.children && c in s.cancelled && !Held(s, c) {
      FreeMeansSettled(s, c);
    }
  }

  lemma InitialInvariant(s: State)
    requires Initial(s)
    ensures Invariant(s)
  {
    assert NewerChildren(s, 0);
  }

  // ----- No deadlock -----

  /** The calls of a stack are on ever newer contexts. */
  lemma {:induction false} StackClimbs(s: State, stack: seq<Frame>, i: nat, j: nat)
    requires Numbered(s) && StackOk(s, stack) && i < j < |stack|
    ensures stack[i].c < stack[j].c
    decreases j
  {
    assert FrameOk(s, stack, j - 1);
    assert NewerChildren(s, stack[j - 1].c);
    if i < j - 1 {
      StackClimbs(s, stack, i, j - 1);
    }
  }

  /** Steps of threads that are inside a call. */
  predicate GoesOn(step: Step) {
    step.LockCancel? || step.CancelChild? || step.SetFlag? || step.LockJoin? || step.EndJoin?
  }

  /** Whenever some thread is inside a call, some thread can take its next step: a thread that
      waits for a lock waits for one whose holder is at work on a newer context. */
  lemma {:induction false} SomeoneGoesOn(s: State, th: Thread) returns (step: Step)
    requires Invariant(s) && Top(s, th).Some?
    ensures GoesOn(step) && Enabled(s, step)
    decreases s.next - Top(s, th).value.c
  {
    hide FrameOk, StackOk, Exclusive, Settling;
    var f := Top(s, th).value;
    InStack(s, th, |s.stacks[th]| - 1);
    if Holds(f) {
      step := HolderStep(s, th);
    } else if Held(s, f.c) {
      var x, i: nat :| HoldsAt(s, x, i) && s.stacks[x][i].c == f.c;
      if i < |s.stacks[x]| - 1 {
        assert StackOk(s, s.stacks[x]);
        StackClimbs(s, s.stacks[x], i, |s.stacks[x]| - 1);
        InStack(s, x, |s.stacks[x]| - 1);
        step := SomeoneGoesOn(s, x);
      } else {
        step := HolderStep(s, x);
      }
    } else {
      step := if f.Enter? then LockCancel(th) else LockJoin(th);
    }
  }

  /** A thread whose innermost call has its lock is not waiting. */
  lemma HolderStep(s: State, th: Thread) returns (step: Step)
    requires Top(s, th).Some? && Holds(Top(s, th).value)
    ensures GoesOn(step) && Enabled(s, step)
  {
    var f := Top(s, th).value;
    if f.Joined? {
      step := EndJoin(th);
    } else if child :| child in f.todo {
      step := CancelChild(th, child);
    } else {
      step := SetFlag(th);
    }
  }

  lemma InStack(s: State, th: Thread, i: nat)
    requires Numbered(s) && StacksOk(s) && th in s.stacks && i < |s.stacks[th]|
    ensures s.stacks[th][i].c < s.next
  {
    assert StackOk(s, s.stacks[th]);
    assert FrameOk(s, s.stacks[th], i);
  }

  // ----- Nothing else is cancelled -----

  /** What happened so far: the contexts on which cancel was called from outside, the parent with
      which each context other than a shield was created, and the children that were removed. */
  datatype History = History(requested: set<Id>, parents: map<Id, Id>, removed: set<(Id, Id)>)

  const NoHistory := History({}, map[], {})

  function Recorded(s: State, h: History, step: Step): History {
    match step
    case CallCancel(_, c) => h.(requested := h.requested + {c})
    case CallCreate(_, parent, shield) => if shield then h else h.(parents := h.parents[s.next := parent])
    case Remove(c, child) => h.(removed := h.removed + {(c, child)})
    case _ => h
  }

  ghost function HistoryOf(s: State, steps: seq<Step>, h: History): History
    decreases |steps|
  {
    if steps == [] || !Enabled(s, steps[0]) then h
    else HistoryOf(Next(s, steps[0]), steps[1..], Recorded(s, h, steps[0]))
  }

  ghost predicate IsChild(h: History, c: Id, d: Id) {
    d in h.parents && h.parents[d] == c && c < d
  }

  /** Cancel was called on `c` or on one of the contexts it descends from; shields descend from
      none. */
  ghost predicate Beneath(h: History, c: Id)
    decreases c
  {
    c in h.requested || (c in h.parents && h.parents[c] < c && Beneath(h, h.parents[c]))
  }

  ghost predicate FrameFrom(h: History, f: Frame) {
    match f
    case Enter(c) => Beneath(h, c)
    case Loop(c, todo) => Beneath(h, c) && forall d :: d in todo ==> IsChild(h, c, d)
    case Join(c, child) => IsChild(h, c, child)
    case Joined(c, child) => IsChild(h, c, child)
  }

  ghost predicate StackFrom(h: History, stack: seq<Frame>) {
    forall i :: 0 <= i < |stack| ==> FrameFrom(h, stack[i])
  }

  ghost predicate Explained(s: State, h: History) {
    && (forall d :: d in h.parents ==> d < s.next)
    && (forall c, d :: c in s.children && d in s.children[c] ==> IsChild(h, c, d))
    && (forall th :: th in s.stacks ==> StackFrom(h, s.stacks[th]))
    && (forall c :: c in s.cancelled ==> Beneath(h, c))
  }

  ghost predicate MoreHistory(h: History, h': History) {
    h.requested <= h'.requested && forall d :: d in h.parents ==> d in h'.parents && h'.parents[d] == h.parents[d]
  }

  lemma {:induction false} BeneathStays(h: History, h': History, c: Id)
    requires MoreHistory(h, h') && Beneath(h, c)
    ensures Beneath(h', c)
    decreases c
  {
    if c !in h.requested {
      BeneathStays(h, h', h.parents[c]);
    }
  }

  lemma FrameStays(h: History, h': History, f: Frame)
    requires MoreHistory(h, h') && FrameFrom(h, f)
    ensures FrameFrom(h', f)
  {
    hide Beneath;
    if f.Enter? || f.Loop? {
      BeneathStays(h, h', f.c);
    }
  }

  lemma StackStays(h: History, h': History, stack: seq<Frame>)
    requires MoreHistory(h, h') && StackFrom(h, stack)
    ensures StackFrom(h', stack)
  {
    hide FrameFrom, MoreHistory;
    forall i | 0 <= i < |stack| ensures FrameFrom(h', stack[i]) {
      FrameStays(h, h', stack[i]);
    }
  }

  /** Everything but the stack of one thread is explained as before. */
  lemma ExplainedElsewhere(s: State, h: History, s': State, h': History, th: Thread)
    requires Explained(s, h) && MoreHistory(h, h') && s.next <= s'.next
    requires forall d :: d in h'.parents ==> d < s'.next
    requires forall c, d :: c in s'.children && d in s'.children[c] && !(c in s.children && d in s.children[c]) ==> IsChild(h', c, d)
    requires forall x :: x in s'.stacks && x != th ==> x in s.stacks && s'.stacks[x] == s.stacks[x]
    requires th in s'.stacks ==> StackFrom(h', s'.stacks[th])
    requires forall c :: c in s'.cancelled && c !in s.cancelled ==> Beneath(h', c)
    ensures Explained(s', h')
  {
    hide StackFrom, Beneath;
    forall x | x in s'.stacks ensures StackFrom(h', s'.stacks[x]) {
      if x != th {
        StackStays(h, h', s.stacks[x]);
      }
    }
    forall c | c in s'.cancelled ensures Beneath(h', c) {
      if c in s.cancelled {
        BeneathStays(h, h', c);
      }
    }
  }

  lemma TopFrom(s: State, h: History, th: Thread)
    requires Explained(s, h) && Top(s, th).Some?
    ensures FrameFrom(h, Top(s, th).value) && StackFrom(h, Popped(s.stacks[th]))
  {
    hide FrameFrom;
    assert StackFrom(h, s.stacks[th]);
  }

  lemma Pushed(h: History, stack: seq<Frame>, more: seq<Frame>)
    requires StackFrom(h, stack) && forall i :: 0 <= i < |more| ==> FrameFrom(h, more[i])
    ensures StackFrom(h, stack + more)
  {
    hide FrameFrom;
  }

  /** A child of a context beneath a request is beneath it too. */
  lemma ChildBeneath(h: History, c: Id, d: Id)
    requires IsChild(h, c, d) && Beneath(h, c)
    ensures Beneath(h, d)
  {
  }

  lemma NextExplained(s: State, h: History, step: Step)
    requires Invariant(s) && Explained(s, h) && Enabled(s, step)
    ensures Explained(Next(s, step), Recorded(s, h, step))
  {
    hide Explained, FrameFrom, StackFrom, Beneath, Invariant;
    match step
    case CallCancel(th, c) => CallCancelExplained(s, h, th, c);
    case CallCreate(th, parent, shield) => CallCreateExplained(s, h, th, parent, shield);
    case LockCancel(th) => LockCancelExplained(s, h, th);
    case CancelChild(th, child) => CancelChildExplained(s, h, th, child);
    case SetFlag(th) => SetFlagExplained(s, h, th);
    case LockJoin(th) => LockJoinExplained(s, h, th);
    case EndJoin(th) => EndJoinExplained(s, h, th);
    case Remove(c, child) => RemoveExplained(s, h, c, child);
  }

  lemma CallCancelExplained(s: State, h: History, th: Thread, c: Id)
    requires Explained(s, h) && Enabled(s, CallCancel(th, c))
    ensures Explained(Next(s, CallCancel(th, c)), Recorded(s, h, CallCancel(th, c)))
  {
    hide StackFrom, FrameFrom;
    var s', h' := Next(s, CallCancel(th, c)), Recorded(s, h, CallCancel(th, c));
    assert FrameFrom(h', Enter(c)) by {
      assert Beneath(h', c);
      Entered(h', c);
    }
    OneFrameFrom(h', Enter(c));
    hide Explained;
    ExplainedParts(s, h);
    ExplainedElsewhere(s, h, s', h', th);
  }

  lemma ExplainedParts(s: State, h: History)
    requires Explained(s, h)
    ensures forall d :: d in h.parents ==> d < s.next
  {
  }

  lemma Entered(h: History, c: Id)
    ensures FrameFrom(h, Enter(c)) == Beneath(h, c)
  {
  }

  lemma OneFrameFrom(h: History, f: Frame)
    requires FrameFrom(h, f)
    ensures StackFrom(h, [f])
  {
    hide FrameFrom;
  }

  lemma CallCreateExplained(s: State, h: History, th: Thread, parent: Id, shield: bool)
    requires Invariant(s) && Explained(s, h) && Enabled(s, CallCreate(th, parent, shield))
    ensures Explained(Next(s, CallCreate(th, parent, shield)), Recorded(s, h, CallCreate(th, parent, shield)))
  {
    hide StackFrom, FrameFrom, StacksOk, Exclusive, Settling;
    var s', h' := Next(s, CallCreate(th, parent, shield)), Recorded(s, h, CallCreate(th, parent, shield));
    ExplainedParts(s, h);
    assert MoreHistory(h, h');
    if shield {
      assert StackFrom(h, s.stacks[th]);
    } else {
      assert IsChild(h', parent, s.next);
      JoinFrom(h', parent, s.next);
      OneFrameFrom(h', Join(parent, s.next));
    }
    hide Explained;
    ExplainedElsewhere(s, h, s', h', th);
  }

  lemma JoinFrom(h: History, c: Id, child: Id)
    requires IsChild(h, c, child)
    ensures FrameFrom(h, Join(c, child)) && FrameFrom(h, Joined(c, child))
  {
  }

  lemma LockCancelExplained(s: State, h: History, th: Thread)
    requires Explained(s, h) && Enabled(s, LockCancel(th))
    ensures Explained(Next(s, LockCancel(th)), h)
  {
    hide StackFrom;
    var s', c := Next(s, LockCancel(th)), Top(s, th).value.c;
    TopFrom(s, h, th);
    assert FrameFrom(h, Loop(c, ChildrenOf(s, c)));
    hide FrameFrom;
    Pushed(h, Popped(s.stacks[th]), [Loop(c, ChildrenOf(s, c))]);
    hide Explained;
    ExplainedParts(s, h);
    ExplainedElsewhere(s, h, s', h, th);
  }

  lemma CancelChildExplained(s: State, h: History, th: Thread, child: Id)
    requires Explained(s, h) && Enabled(s, CancelChild(th, child))
    ensures Explained(Next(s, CancelChild(th, child)), h)
  {
    hide StackFrom;
    var s', f := Next(s, CancelChild(th, child)), Top(s, th).value;
    TopFrom(s, h, th);
    ChildBeneath(h, f.c, child);
    var more := [Loop(f.c, f.todo - {child}), Enter(child)];
    assert FrameFrom(h, more[0]) && FrameFrom(h, more[1]);
    hide FrameFrom;
    Pushed(h, Popped(s.stacks[th]), more);
    hide Explained;
    ExplainedParts(s, h);
    ExplainedElsewhere(s, h, s', h, th);
  }

  lemma SetFlagExplained(s: State, h: History, th: Thread)
    requires Explained(s, h) && Enabled(s, SetFlag(th))
    ensures Explained(Next(s, SetFlag(th)), h)
  {
    hide StackFrom;
    TopFrom(s, h, th);
    hide Explained;
    ExplainedParts(s, h);
    ExplainedElsewhere(s, h, Next(s, SetFlag(th)), h, th);
  }

  lemma LockJoinExplained(s: State, h: History, th: Thread)
    requires Explained(s, h) && Enabled(s, LockJoin(th))
    ensures Explained(Next(s, LockJoin(th)), h)
  {
    hide StackFrom;
    var s', f := Next(s, LockJoin(th)), Top(s, th).value;
    TopFrom(s, h, th);
    JoinFrom(h, f.c, f.child);
    if f.c in s.cancelled {
      ChildBeneath(h, f.c, f.child);
      assert FrameFrom(h, Enter(f.child));
    }
    assert IsChild(h, f.c, f.child);
    hide FrameFrom;
    Pushed(h, Popped(s.stacks[th]), [Joined(f.c, f.child)]);
    Pushed(h, Popped(s.stacks[th]) + [Joined(f.c, f.child)], if f.c in s.cancelled then [Enter(f.child)] else []);
    hide Explained;
    ExplainedParts(s, h);
    ExplainedElsewhere(s, h, s', h, th);
  }

  lemma EndJoinExplained(s: State, h: History, th: Thread)
    requires Explained(s, h) && Enabled(s, EndJoin(th))
    ensures Explained(Next(s, EndJoin(th)), h)
  {
    hide StackFrom, FrameFrom;
    TopFrom(s, h, th);
    hide Explained;
    ExplainedParts(s, h);
    ExplainedElsewhere(s, h, Next(s, EndJoin(th)), h, th);
  }

  lemma RemoveExplained(s: State, h: History, c: Id, child: Id)
    requires Explained(s, h) && Enabled(s, Remove(c, child))
    ensures Explained(Next(s, Remove(c, child)), Recorded(s, h, Remove(c, child)))
  {
    hide StackFrom, Held;
    var s', h' := Next(s, Remove(c, child)), Recorded(s, h, Remove(c, child));
    assert MoreHistory(h, h');
    hide FrameFrom;
    forall x | x in s.stacks ensures StackFrom(h', s.stacks[x]) {
      StackStays(h, h', s.stacks[x]);
    }
    forall x | x in s.cancelled ensures Beneath(h', x) {
      BeneathStays(h, h', x);
    }
  }

  lemma {:induction false} RunExplained(s: State, h: History, steps: seq<Step>)
    requires Invariant(s) && Explained(s, h) && Run(s, steps).Some?
    ensures Explained(Run(s, steps).value, HistoryOf(s, steps, h))
    decreases |steps|
  {
    hide Invariant, Enabled, Next, Explained, Recorded;
    if steps != [] {
      NextKeepsInvariant(s, steps[0]);
      NextExplained(s, h, steps[0]);
      RunExplained(Next(s, steps[0]), Recorded(s, h, steps[0]), steps[1..]);
    }
  }

  /** In every reachable state, a cancelled context is one on which cancel was called, or descends
      from one through contexts that are no shields: no interleaving cancels anything else, and
      cancellation never passes a shield. */
  lemma OnlyBeneathRequested(s0: State, steps: seq<Step>, c: Id)
    requires Initial(s0) && Run(s0, steps).Some?
    ensures c in Run(s0, steps).value.cancelled ==> Beneath(HistoryOf(s0, steps, NoHistory), c)
  {
    hide Beneath, FrameFrom, Run, HistoryOf;
    InitialInvariant(s0);
    assert Explained(s0, NoHistory);
    RunExplained(s0, NoHistory, steps);
  }

  // ----- Everything asked for is cancelled -----

  /** A call of cancel on `c` from outside is in progress. */
  ghost predicate Asked(s: State, c: Id) {
    exists th :: th in s.stacks && s.stacks[th] != [] && CancelOf(s.stacks[th][0], c)
  }

  predicate CancelOf(f: Frame, c: Id) {
    f == Enter(c) || (f.Loop? && f.c == c)
  }

  /** The constructor of `d` has yet to register it with `p`. */
  ghost predicate Arriving(s: State, p: Id, d: Id) {
    exists th :: th in s.stacks && s.stacks[th] != [] && s.stacks[th][0] == Join(p, d)
  }

  /** No request and no child was forgotten. */
  ghost predicate Kept(s: State, h: History) {
    && (forall c :: c in h.requested ==> c in s.cancelled || Asked(s, c))
    && (forall d :: d in h.parents ==> LinkKept(s, h, d))
  }

  ghost predicate LinkKept(s: State, h: History, d: Id)
    requires d in h.parents
  {
    var p := h.parents[d];
    d in ChildrenOf(s, p) || (p, d) in h.removed || Arriving(s, p, d)
  }

  /** A thread's outermost call goes on, or has done its work. */
  ghost predicate OutermostKept(s: State, s': State, th: Thread)
    requires th in s.stacks && th in s'.stacks
  {
    s.stacks[th] != [] ==>
      var f := s.stacks[th][0];
      && (f.Enter? || f.Loop? ==> f.c in s'.cancelled || (s'.stacks[th] != [] && CancelOf(s'.stacks[th][0], f.c)))
      && (f.Join? ==> f.child in ChildrenOf(s', f.c) || (s'.stacks[th] != [] && s'.stacks[th][0] == f))
  }

  lemma KeptAfter(s: State, h: History, s': State, h': History)
    requires Kept(s, h) && s.cancelled <= s'.cancelled && h.removed <= h'.removed && s'.stacks.Keys == s.stacks.Keys
    requires forall th :: th in s.stacks ==> OutermostKept(s, s', th)
    requires forall p: Id, d: Id :: d in ChildrenOf(s, p) ==> d in ChildrenOf(s', p) || (p, d) in h'.removed
    requires forall c :: c in h'.requested && c !in h.requested ==> Asked(s', c)
    requires forall d :: d in h'.parents && d !in h.parents ==> LinkKept(s', h', d)
    requires forall d :: d in h.parents && d in h'.parents ==> h'.parents[d] == h.parents[d]
    ensures Kept(s', h')
  {
    hide ChildrenOf;
    forall c | c in h'.requested ensures c in s'.cancelled || Asked(s', c) {
      if c in h.requested && c !in s.cancelled {
        var th :| th in s.stacks && s.stacks[th] != [] && CancelOf(s.stacks[th][0], c);
        assert OutermostKept(s, s', th);
      }
    }
    forall d | d in h'.parents ensures LinkKept(s', h', d) {
      if d in h.parents {
        assert LinkKept(s, h, d);
        if Arriving(s, h.parents[d], d) {
          var th :| th in s.stacks && s.stacks[th] != [] && s.stacks[th][0] == Join(h.parents[d], d);
          assert OutermostKept(s, s', th);
        }
      }
    }
  }

  /** Steps inside a call leave the outermost one in place, unless it returns. */
  lemma InsideKeeps(s: State, h: History, step: Step)
    requires Invariant(s) && Kept(s, h) && Enabled(s, step) && GoesOn(step)
    ensures Kept(Next(s, step), Recorded(s, h, step))
  {
    hide Kept, Held, Exclusive, Settling, Numbered, FrameOk, StackOk;
    var s', th := Next(s, step), step.th;
    JoinOutermost(s, th);
    forall x | x in s.stacks ensures OutermostKept(s, s', x) {
      if x == th {
        StepOutermost(s, step);
      }
    }
    KeptAfter(s, h, s', h);
  }

  /** A call of add_child waits only as the outermost call of its thread. */
  lemma JoinOutermost(s: State, th: Thread)
    requires StacksOk(s)
    ensures Top(s, th).Some? && (Top(s, th).value.Join? || Top(s, th).value.Joined?) ==> |s.stacks[th]| == 1
  {
    if Top(s, th).Some? && |s.stacks[th]| > 1 {
      assert StackOk(s, s.stacks[th]);
      assert FrameOk(s, s.stacks[th], |s.stacks[th]| - 2);
    }
  }

  lemma StepOutermost(s: State, step: Step)
    requires Enabled(s, step) && GoesOn(step)
    requires Top(s, step.th).Some? && (Top(s, step.th).value.Join? || Top(s, step.th).value.Joined?) ==> |s.stacks[step.th]| == 1
    ensures OutermostKept(s, Next(s, step), step.th)
  {
    hide Held;
  }

  lemma CallKeeps(s: State, h: History, step: Step)
    requires Invariant(s) && Explained(s, h) && Kept(s, h) && Enabled(s, step) && (step.CallCancel? || step.CallCreate?)
    ensures Kept(Next(s, step), Recorded(s, h, step))
  {
    hide Kept, Exclusive, Settling, StacksOk, StackFrom, Beneath, FrameFrom, IsChild;
    var s', h', th := Next(s, step), Recorded(s, h, step), step.th;
    ExplainedParts(s, h);
    hide Explained;
    if step.CallCancel? {
      assert s'.stacks[th][0] == Enter(step.c);
    } else if !step.shield {
      assert s'.stacks[th][0] == Join(step.parent, s.next);
      assert LinkKept(s', h', s.next);
    }
    KeptAfter(s, h, s', h');
  }

  lemma RemoveKept(s: State, h: History, c: Id, child: Id)
    requires Kept(s, h) && Enabled(s, Remove(c, child))
    ensures Kept(Next(s, Remove(c, child)), Recorded(s, h, Remove(c, child)))
  {
    hide Kept, Held;
    KeptAfter(s, h, Next(s, Remove(c, child)), Recorded(s, h, Remove(c, child)));
  }

  lemma {:induction false} RunKept(s: State, h: History, steps: seq<Step>)
    requires Invariant(s) && Explained(s, h) && Kept(s, h) && Run(s, steps).Some?
    ensures Kept(Run(s, steps).value, HistoryOf(s, steps, h))
    decreases |steps|
  {
    hide Invariant, Enabled, Next, Explained, Recorded, Kept;
    if steps != [] {
      NextKeepsInvariant(s, steps[0]);
      NextExplained(s, h, steps[0]);
      if GoesOn(steps[0]) {
        InsideKeeps(s, h, steps[0]);
      } else if steps[0].Remove? {
        RemoveKept(s, h, steps[0].c, steps[0].child);
      } else {
        CallKeeps(s, h, steps[0]);
      }
      RunKept(Next(s, steps[0]), Recorded(s, h, steps[0]), steps[1..]);
    }
  }

  /** Cancel was called on `c`, or on one of the contexts it descends from by links that are still
      there. */
  ghost predicate BeneathStill(h: History, c: Id)
    decreases c
  {
    || c in h.requested
    || (c in h.parents && h.parents[c] < c && (h.parents[c], c) !in h.removed && BeneathStill(h, h.parents[c]))
  }

  /** No thread is inside a call. */
  ghost predicate Idle(s: State) {
    forall th :: th in s.stacks ==> s.stacks[th] == []
  }

  lemma {:induction false} StillCancelled(s: State, h: History, c: Id)
    requires Invariant(s) && Kept(s, h) && Idle(s) && BeneathStill(h, c)
    ensures c in s.cancelled
    decreases c
  {
    if c !in h.requested {
      var p := h.parents[c];
      StillCancelled(s, h, p);
      assert LinkKept(s, h, c);
      FreeMeansSettled(s, p);
    }
  }

  lemma {:induction false} NothingRemoved(h: History, c: Id)
    requires h.removed == {} && Beneath(h, c)
    ensures BeneathStill(h, c)
    decreases c
  {
    if c !in h.requested {
      NothingRemoved(h, h.parents[c]);
    }
  }

  /** Whatever the interleaving was, when all calls have returned: every context on which cancel
      was called is cancelled, and so is everything that descends from one, whether it was there
      before or joined later, by links that were not removed.  Without removals, the cancelled
      contexts are exactly those. */
  lemma CancelledExactly(s0: State, steps: seq<Step>, c: Id)
    requires Initial(s0) && Run(s0, steps).Some? && Idle(Run(s0, steps).value)
    ensures var s, h := Run(s0, steps).value, HistoryOf(s0, steps, NoHistory);
      && (BeneathStill(h, c) ==> c in s.cancelled)
      && (h.removed == {} ==> (c in s.cancelled <==> Beneath(h, c)))
  {
    hide Beneath, FrameFrom, Run, HistoryOf, Invariant, Kept, Explained, BeneathStill;
    InitialInvariant(s0);
    NothingYet(s0);
    RunKeepsInvariant(s0, steps);
    RunKept(s0, NoHistory, steps);
    OnlyBeneathRequested(s0, steps, c);
    var s, h := Run(s0, steps).value, HistoryOf(s0, steps, NoHistory);
    if h.removed == {} && Beneath(h, c) {
      NothingRemoved(h, c);
    }
    if BeneathStill(h, c) {
      StillCancelled(s, h, c);
    }
  }

  lemma NothingYet(s: State)
    requires Initial(s)
    ensures Explained(s, NoHistory) && Kept(s, NoHistory)
  {
  }

  // ----- What the history says -----

  /** New contexts have new numbers. */
  ghost predicate OlderThan(h: History, next: Id) {
    forall d :: d in h.parents ==> d < next
  }

  lemma RecordedGrows(s: State, h: History, step: Step)
    requires OlderThan(h, s.next) && Enabled(s, step)
    ensures var h' := Recorded(s, h, step);
      MoreHistory(h, h') && h.removed <= h'.removed && OlderThan(h', Next(s, step).next) && s.next <= Next(s, step).next
  {
    hide Held;
  }

  lemma {:induction false} HistoryGrows(s: State, steps: seq<Step>, h: History)
    requires OlderThan(h, s.next)
    ensures var h' := HistoryOf(s, steps, h); MoreHistory(h, h') && h.removed <= h'.removed
    decreases |steps|
  {
    hide OlderThan, Enabled, Next, Recorded;
    if steps != [] && Enabled(s, steps[0]) {
      RecordedGrows(s, h, steps[0]);
      HistoryGrows(Next(s, steps[0]), steps[1..], Recorded(s, h, steps[0]));
    }
  }

  /** What step `i` of a run did is in the history: the context on which cancel was called, the
      parent of the context that was created, which got the next number, or the child removed. */
  ghost predicate Tells(h: History, step: Step, next: Id) {
    match step
    case CallCancel(_, c) => c in h.requested
    case CallCreate(_, parent, shield) => !shield ==> next in h.parents && h.parents[next] == parent
    case Remove(c, child) => (c, child) in h.removed
    case _ => true
  }

  lemma TellsStill(h: History, h': History, step: Step, next: Id)
    requires Tells(h, step, next) && MoreHistory(h, h') && h.removed <= h'.removed
    ensures Tells(h', step, next)
  {
  }

  lemma {:induction false} HistoryTells(s: State, steps: seq<Step>, h: History, i: nat)
    requires OlderThan(h, s.next) && Run(s, steps).Some? && i < |steps|
    ensures Run(s, steps[..i]).Some? && Tells(HistoryOf(s, steps, h), steps[i], Run(s, steps[..i]).value.next)
    decreases |steps|
  {
    hide OlderThan, Enabled, Next, Recorded, Tells;
    RecordedGrows(s, h, steps[0]);
    var s1, h1 := Next(s, steps[0]), Recorded(s, h, steps[0]);
    if i == 0 {
      RecordedTells(s, h, steps[0]);
      HistoryGrows(s1, steps[1..], h1);
      TellsStill(h1, HistoryOf(s1, steps[1..], h1), steps[0], s.next);
      assert steps[..0] == [];
    } else {
      HistoryTells(s1, steps[1..], h1, i - 1);
      assert steps[..i][0] == steps[0] && steps[..i][1..] == steps[1..][..i - 1];
    }
  }

  lemma RecordedTells(s: State, h: History, step: Step)
    ensures Tells(Recorded(s, h, step), step, s.next)
  {
  }

  /** In terms of the calls alone: when all calls have returned, a context on which some thread
      called cancel is cancelled, and so is a context that was created, not as a shield, under one
      that is cancelled, whenever that was, unless it was removed from it. */
  lemma CallsTakeEffect(s0: State, steps: seq<Step>, i: nat)
    requires Initial(s0) && Run(s0, steps).Some? && Idle(Run(s0, steps).value) && i < |steps|
    ensures Run(s0, steps[..i]).Some?
    ensures var s, d := Run(s0, steps).value, Run(s0, steps[..i]).value.next;
      match steps[i]
      case CallCancel(_, c) => c in s.cancelled
      case CallCreate(_, p, shield) =>
        !shield && p in s.cancelled && (forall j :: 0 <= j < |steps| ==> steps[j] != Remove(p, d)) ==> d in s.cancelled
      case _ => true
  {
    hide Beneath, BeneathStill, Run, HistoryOf, Invariant, Kept, Explained, FrameFrom;
    InitialInvariant(s0);
    NothingYet(s0);
    RunKeepsInvariant(s0, steps);
    RunKept(s0, NoHistory, steps);
    HistoryTells(s0, steps, NoHistory, i);
    var s, h, d := Run(s0, steps).value, HistoryOf(s0, steps, NoHistory), Run(s0, steps[..i]).value.next;
    match steps[i]
    case CallCancel(_, c) =>
      assert BeneathStill(h, c) by { Requested(h, c); }
      StillCancelled(s, h, c);
    case CallCreate(_, p, shield) =>
      if !shield && p in s.cancelled && forall j :: 0 <= j < |steps| ==> steps[j] != Remove(p, d) {
        OnlyRemoved(s0, steps, NoHistory, p, d);
        ChildCancelled(s, h, p, d);
      }
    case _ =>
  }

  lemma Requested(h: History, c: Id)
    requires c in h.requested
    ensures BeneathStill(h, c)
  {
  }

  lemma {:induction false} OnlyRemoved(s: State, steps: seq<Step>, h: History, p: Id, d: Id)
    requires (p, d) !in h.removed && forall j :: 0 <= j < |steps| ==> steps[j] != Remove(p, d)
    ensures (p, d) !in HistoryOf(s, steps, h).removed
    decreases |steps|
  {
    hide Enabled, Next;
    if steps != [] && Enabled(s, steps[0]) {
      assert steps[0] != Remove(p, d);
      assert forall j :: 0 <= j < |steps| - 1 ==> steps[1..][j] == steps[j + 1];
      OnlyRemoved(Next(s, steps[0]), steps[1..], Recorded(s, h, steps[0]), p, d);
    }
  }

  lemma ChildCancelled(s: State, h: History, p: Id, d: Id)
    requires Invariant(s) && Kept(s, h) && Idle(s) && p in s.cancelled
    requires d in h.parents && h.parents[d] == p && (p, d) !in h.removed
    ensures d in s.cancelled
  {
    assert LinkKept(s, h, d);
    FreeMeansSettled(s, p);
  }
}
