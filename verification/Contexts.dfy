/** Contexts (src/arpc/context.cpp): a tree along which cancellation spreads.

    The tree is also given as a value, with contexts numbered in order of creation: a context's
    parent existed before it, so children have larger numbers and the recursion of cancel ends. */
module Contexts {
  import opened Results

  type Id = nat
  type Time = int

  /** Registered children of every context, and the contexts that are cancelled. */
  datatype Tree = Tree(children: map<Id, set<Id>>, cancelled: set<Id>, limit: Id)
  {
    ghost predicate Valid() {
      && cancelled <= children.Keys
      && (forall c :: c in children ==> c < limit && Below(c))
    }

    ghost predicate Below(c: Id)
      requires c in children
    {
      forall d :: d in children[c] ==> d in children && c < d < limit
    }

    /** Between critical sections: what is cancelled has only cancelled children. */
    ghost predicate Settled() {
      forall c :: c in children && c in cancelled ==> children[c] <= cancelled
    }

    /** `a` and everything registered beneath it. */
    ghost function Reach(a: Id): set<Id>
      requires Valid() && a in children
      decreases limit - a
    {
      assert Below(a);
      {a} + set d, e | d in children[a] && e in Reach(d) :: e
    }

    ghost function Cancel(a: Id): Tree
      requires Valid() && a in children
    {
      this.(cancelled := cancelled + Reach(a))
    }

    function Insert(parent: Id, child: Id): Tree
      requires parent in children
    {
      this.(children := children[parent := children[parent] + {child}])
    }

    /** add_child: a late joiner of a cancelled parent is cancelled at once. */
    ghost function Join(parent: Id, child: Id): Tree
      requires Valid() && parent in children && child in children && parent < child
    {
      var t := Insert(parent, child);
      InsertValid(this, parent, child);
      if parent in cancelled then t.Cancel(child) else t
    }

    function Extended(): Tree {
      Tree(children[limit := {}], cancelled, limit + 1)
    }

    /** A new context; unless it is a shield it joins its parent. */
    ghost function Create(parent: Id, shield: bool): Tree
      requires Valid() && parent in children
    {
      ExtendedValid(this);
      if shield then Extended() else Extended().Join(parent, limit)
    }

    function Detach(parent: Id, child: Id): Tree
      requires parent in children
    {
      this.(children := children[parent := children[parent] - {child}])
    }
  }

  ghost predicate Closed(t: Tree, s: set<Id>) {
    forall c :: c in s ==> c in t.children && t.children[c] <= s
  }

  /** Reach is the least set that contains `a` and with every context its children. */
  lemma {:induction false} ReachIsLeast(t: Tree, a: Id, s: set<Id>)
    requires t.Valid() && a in t.children && Closed(t, s) && a in s
    ensures t.Reach(a) <= s
    decreases t.limit - a
  {
    assert t.Below(a);
    forall d | d in t.children[a] ensures t.Reach(d) <= s {
      ReachIsLeast(t, d, s);
    }
  }

  lemma {:induction false} ReachIsClosed(t: Tree, a: Id)
    requires t.Valid() && a in t.children
    ensures a in t.Reach(a) && Closed(t, t.Reach(a))
    decreases t.limit - a
  {
    assert t.Below(a);
    forall c | c in t.Reach(a) ensures c in t.children && t.children[c] <= t.Reach(a) {
      if c == a {
        forall d | d in t.children[a] ensures d in t.Reach(a) {
          ReachIsClosed(t, d);
        }
      } else {
        var d :| d in t.children[a] && c in t.Reach(d);
        ReachIsClosed(t, d);
      }
    }
  }

  /** Cancelling marks the context and its children, children of what is marked included, marks
      nothing that is not reached that way, keeps the tree settled and changes nothing else. */
  lemma CancelSettles(t: Tree, a: Id)
    requires t.Valid() && t.Settled() && a in t.children
    ensures t.Cancel(a).Valid() && t.Cancel(a).Settled()
    ensures a in t.Cancel(a).cancelled && t.cancelled <= t.Cancel(a).cancelled
    ensures t.Cancel(a).children == t.children && t.Cancel(a).limit == t.limit
    ensures forall s :: Closed(t, s) && a in s ==> t.Cancel(a).cancelled <= t.cancelled + s
  {
    ReachIsClosed(t, a);
    forall s | Closed(t, s) && a in s ensures t.Reach(a) <= s {
      ReachIsLeast(t, a, s);
    }
    assert forall c :: c in t.children ==> t.Below(c) ==> t.Cancel(a).Below(c);
  }

  lemma InsertValid(t: Tree, parent: Id, child: Id)
    requires t.Valid() && parent in t.children && child in t.children && parent < child
    ensures t.Insert(parent, child).Valid()
  {
    forall c | c in t.children ensures t.Insert(parent, child).Below(c) {
      assert t.Below(c);
    }
  }

  lemma InLimit(t: Tree, c: Id)
    requires t.Valid() && c in t.children
    ensures c < t.limit
  {
  }

  lemma ExtendedValid(t: Tree)
    requires t.Valid()
    ensures t.Extended().Valid() && t.limit !in t.children && t.limit !in t.cancelled
  {
    forall c | c in t.Extended().children ensures t.Extended().Below(c) {
      assert c in t.children ==> t.Below(c);
    }
  }

  /** A new context is cancelled exactly if its parent is, unless it is a shield; nothing else
      changes, and the tree stays settled. */
  lemma CreateSettles(t: Tree, parent: Id, shield: bool)
    requires t.Valid() && t.Settled() && parent in t.children
    ensures var t' := t.Create(parent, shield);
      && t'.Valid() && t'.Settled() && t'.limit == t.limit + 1
      && t'.cancelled == t.cancelled + (if !shield && parent in t.cancelled then {t.limit} else {})
      && t'.children == t.children[t.limit := {}][parent := t.children[parent] + (if shield then {} else {t.limit})]
  {
    ExtendedValid(t);
    if shield {
      assert t.children[parent] + {} == t.children[parent];
    } else {
      var u := t.Extended().Insert(parent, t.limit);
      InsertValid(t.Extended(), parent, t.limit);
      LeafReach(u, t.limit);
      ValidAnyway(u, t.cancelled + {t.limit});
    }
  }

  /** Creating a context before or after a cancellation comes to the same: however late it joins,
      it is cancelled exactly if it is reachable from the cancelled context. */
  lemma CreateCommutes(t: Tree, parent: Id, shield: bool, a: Id)
    requires t.Valid() && t.Settled() && parent in t.children && a in t.children
    ensures t.Cancel(a).Valid() && t.Create(parent, shield).Valid() && a in t.Create(parent, shield).children
    ensures t.Cancel(a).Create(parent, shield) == t.Create(parent, shield).Cancel(a)
  {
    hide Tree.Reach, Tree.Create;
    CancelSettles(t, a);
    CreateSettles(t, parent, shield);
    CreateSettles(t.Cancel(a), parent, shield);
    CreateReach(t, parent, shield, a);
    var l, r := t.Cancel(a).Create(parent, shield), t.Create(parent, shield).Cancel(a);
    assert l.cancelled == r.cancelled;
  }

  lemma CreateReach(t: Tree, parent: Id, shield: bool, a: Id)
    requires t.Valid() && t.Settled() && parent in t.children && a in t.children && t.Create(parent, shield).Valid()
    requires a in t.Create(parent, shield).children
    ensures t.Create(parent, shield).Reach(a)
         == t.Reach(a) + (if !shield && parent in t.Reach(a) then {t.limit} else {})
  {
    hide Tree.Reach, Tree.Create;
    CreateSettles(t, parent, shield);
    var t', c := t.Create(parent, shield), t.limit;
    var R, R' := t.Reach(a), t'.Reach(a);
    ReachIsClosed(t, a);
    ReachIsClosed(t', a);
    assert forall x :: x in t.children ==> t.Below(x);
    var S := R + (if !shield && parent in R then {c} else {});
    assert Closed(t', S);
    ReachIsLeast(t', a, S);
    assert Closed(t, R' - {c});
    ReachIsLeast(t, a, R' - {c});
  }

  lemma DetachSettles(t: Tree, parent: Id, child: Id)
    requires t.Valid() && t.Settled() && parent in t.children
    ensures t.Detach(parent, child).Valid() && t.Detach(parent, child).Settled()
  {
    DetachValid(t, parent, child);
  }

  lemma DetachValid(t: Tree, parent: Id, child: Id)
    requires t.Valid() && parent in t.children
    ensures t.Detach(parent, child).Valid()
  {
    forall c | c in t.children ensures t.Detach(parent, child).Below(c) {
      assert t.Below(c);
    }
  }

  // ----- Context objects -----

  class Context {
    ghost const id: Id
    const parent: Context?
    var children: set<Context>
    var cancelled: bool
    var deadline: Option<Time>
    var data: map<string, seq<int>>

    /** A context before it is registered with its parent. */
    constructor (ghost id: Id, parent: Context?)
      ensures this.id == id && this.parent == parent && children == {} && !cancelled
      ensures parent != null ==> deadline == parent.deadline && data == parent.data
      ensures parent == null ==> deadline == None && data == map[]
    {
      this.id, this.parent := id, parent;
      children, cancelled := {}, false;
      if parent != null {
        deadline, data := parent.deadline, parent.data;
      } else {
        deadline, data := None, map[];
      }
    }

    /** cancel: the children first, then this context. */
    method Cancel(ghost all: map<Id, Context>, ghost limit: Id)
      requires Registered(all, limit) && id in all && all[id] == this
      modifies all.Values`cancelled
      ensures Registered(all, limit)
      ensures Abs(all, limit) == old(Abs(all, limit).Cancel(id))
      ensures cancelled
      decreases limit - id
    {
      hide Tree.Reach, Tree.Valid, Registered, Abs, Ids;
      IsValid(all, limit);
      ghost var t := Abs(all, limit);
      AbsAt(all, limit, id);
      var rest := children;
      ghost var done: set<Id> := {};
      ReachNothing(t);
      while rest != {}
        invariant Registered(all, limit) && rest <= children
        invariant done <= t.children.Keys && done + Ids(rest) == t.children[id]
        invariant Abs(all, limit) == t.(cancelled := t.cancelled + ReachAll(t, done))
        decreases |rest|
      {
        var child :| child in rest;
        ChildRegistered(all, limit, id, child);
        IsValid(all, limit);
        ReachSame(t, Abs(all, limit), child.id);
        child.Cancel(all, limit);
        IdsWithout(rest, child);
        rest := rest - {child};
        ReachAllAdd(t, done, child.id);
        done := done + {child.id};
      }
      NoIds();
      ReachFrom(t, id);
      SetFlag(all, limit);
      CancelDone(t, Abs(all, limit), id);
    }

    /** cancelled_.set(). */
    method SetFlag(ghost all: map<Id, Context>, ghost limit: Id)
      requires Registered(all, limit) && id in all && all[id] == this
      modifies this`cancelled
      ensures Registered(all, limit)
      ensures Abs(all, limit) == old(Abs(all, limit)).(cancelled := old(Abs(all, limit)).cancelled + {id})
      ensures cancelled
    {
      ghost var before := Abs(all, limit);
      cancelled := true;
      assert Abs(all, limit).children == before.children;
      assert Abs(all, limit).cancelled == before.cancelled + {id};
      ValidAnyway(before, before.cancelled + {id});
      forall c | c in all ensures ChildrenIn(all, c) {
        assert old(ChildrenIn(all, c));
      }
    }

    /** add_child: a late joiner of a cancelled context is cancelled at once. */
    method AddChild(child: Context, ghost all: map<Id, Context>, ghost limit: Id)
      requires Registered(all, limit) && id in all && all[id] == this
      requires child.id in all && all[child.id] == child && id < child.id
      modifies this`children, all.Values`cancelled
      ensures Registered(all, limit)
      ensures Abs(all, limit) == old(Abs(all, limit).Join(id, child.id))
      ensures children == old(children) + {child}
      ensures old(cancelled) ==> child.cancelled
      ensures !old(cancelled) ==> forall c :: c in all ==> all[c].cancelled == old(all[c].cancelled)
    {
      hide Tree.Reach, Tree.Valid, Registered, Abs;
      IsValid(all, limit);
      AbsAt(all, limit, id);
      Insert(child, all, limit);
      if cancelled {
        child.Cancel(all, limit);
      }
    }

    method Insert(child: Context, ghost all: map<Id, Context>, ghost limit: Id)
      requires Registered(all, limit) && id in all && all[id] == this
      requires child.id in all && all[child.id] == child && id < child.id
      modifies this`children
      ensures Registered(all, limit)
      ensures Abs(all, limit) == old(Abs(all, limit).Insert(id, child.id))
      ensures children == old(children) + {child}
    {
      hide Tree.Valid;
      ghost var before := Abs(all, limit);
      InsertValid(before, id, child.id);
      forall c | c in all ensures ChildrenIn(all, c) {
      }
      children := children + {child};
      assert Ids(children) == before.children[id] + {child.id};
      assert Abs(all, limit).cancelled == before.cancelled;
      assert Abs(all, limit).children == before.Insert(id, child.id).children;
      forall c | c in all ensures ChildrenIn(all, c) {
        assert old(ChildrenIn(all, c));
      }
    }

    method RemoveChild(child: Context, ghost all: map<Id, Context>, ghost limit: Id)
      requires Registered(all, limit) && id in all && all[id] == this && child.id in all && all[child.id] == child
      modifies this`children
      ensures Registered(all, limit)
      ensures Abs(all, limit) == old(Abs(all, limit)).Detach(id, child.id)
      ensures children == old(children) - {child}
    {
      hide Tree.Valid;
      ghost var before := Abs(all, limit);
      DetachValid(before, id, child.id);
      forall c | c in all ensures ChildrenIn(all, c) {
      }
      children := children - {child};
      assert Ids(children) == before.children[id] - {child.id};
      assert Abs(all, limit).cancelled == before.cancelled;
      assert Abs(all, limit).children == before.Detach(id, child.id).children;
      forall c | c in all ensures ChildrenIn(all, c) {
        assert old(ChildrenIn(all, c));
      }
    }

    /** set_deadline only ever brings the deadline forward. */
    method SetDeadline(when: Time)
      modifies this`deadline
      ensures deadline == Some(if old(deadline).Some? && old(deadline).value < when then old(deadline).value else when)
    {
      if deadline.None? || deadline.value > when {
        deadline := Some(when);
      }
    }
  }

  /** The public constructor: a child takes its parent's deadline and data, and registers with it
      unless it is a shield. */
  method NewContext(parent: Context, shield: bool, ghost all: map<Id, Context>, ghost limit: Id)
    returns (c: Context, ghost all': map<Id, Context>)
    requires Registered(all, limit) && parent.id in all && all[parent.id] == parent
    modifies parent`children, all.Values`cancelled
    ensures fresh(c) && c.id == limit && all' == all[limit := c] && Registered(all', limit + 1)
    ensures Abs(all', limit + 1) == old(Abs(all, limit).Create(parent.id, shield))
    ensures c.deadline == parent.deadline && c.data == parent.data
    ensures parent.children == if shield then old(parent.children) else old(parent.children) + {c}
    ensures !shield && old(parent.cancelled) ==> c.cancelled
    ensures shield || !old(parent.cancelled) ==>
      !c.cancelled && forall x :: x in all ==> all[x].cancelled == old(all[x].cancelled)
  {
    hide Registered, Abs, Tree.Valid, Tree.Join, Tree.Extended;
    ghost var t := Abs(all, limit);
    IsValid(all, limit);
    AbsAt(all, limit, parent.id);
    InLimit(t, parent.id);
    c := new Context(limit, parent);
    all' := all[limit := c];
    Extend(all, limit, c, t);
    if !shield {
      parent.AddChild(c, all', limit + 1);
    }
  }

  lemma Extend(all: map<Id, Context>, limit: Id, c: Context, t: Tree)
    requires Registered(all, limit) && t == Abs(all, limit) && c.id == limit && c.children == {} && !c.cancelled
    ensures Registered(all[limit := c], limit + 1) && Abs(all[limit := c], limit + 1) == t.Extended()
  {
    ExtendedValid(t);
    var all' := all[limit := c];
    NoIds();
    assert Abs(all', limit + 1).children == t.Extended().children;
    assert Abs(all', limit + 1).cancelled == t.cancelled;
    forall x | x in all' ensures ChildrenIn(all', x) {
      assert x in all ==> ChildrenIn(all, x) && t.Below(x);
    }
  }

  ghost function Ids(cs: set<Context>): set<Id> {
    set c | c in cs :: c.id
  }

  /** `all` numbers the live contexts; children are numbered after their parents. */
  ghost predicate Registered(all: map<Id, Context>, limit: Id)
    reads all.Values`children, all.Values`cancelled
  {
    && Abs(all, limit).Valid()
    && forall c :: c in all ==> all[c].id == c && ChildrenIn(all, c)
  }

  ghost predicate ChildrenIn(all: map<Id, Context>, c: Id)
    requires c in all
    reads all.Values`children
  {
    forall d :: d in all[c].children ==> d.id in all && all[d.id] == d
  }

  ghost function Abs(all: map<Id, Context>, limit: Id): Tree
    reads all.Values`children, all.Values`cancelled
  {
    Tree(map c | c in all :: Ids(all[c].children), (set c | c in all && all[c].cancelled), limit)
  }

  lemma IsValid(all: map<Id, Context>, limit: Id)
    requires Registered(all, limit)
    ensures Abs(all, limit).Valid()
  {
  }

  lemma AbsAt(all: map<Id, Context>, limit: Id, c: Id)
    requires c in all
    ensures all[c].cancelled <==> c in Abs(all, limit).cancelled
    ensures Abs(all, limit).children.Keys == all.Keys && Abs(all, limit).children[c] == Ids(all[c].children)
    ensures Abs(all, limit).limit == limit
  {
  }

  lemma ChildRegistered(all: map<Id, Context>, limit: Id, c: Id, child: Context)
    requires Registered(all, limit) && c in all && child in all[c].children
    ensures child.id in all && all[child.id] == child && c < child.id < limit
  {
    assert ChildrenIn(all, c) && Abs(all, limit).Below(c);
    assert child.id in Abs(all, limit).children[c];
  }

  lemma IdsWithout(cs: set<Context>, c: Context)
    requires c in cs
    ensures Ids(cs) == Ids(cs - {c}) + {c.id}
  {
  }

  lemma NoIds()
    ensures Ids({}) == {}
  {
  }

  ghost function ReachAll(t: Tree, cs: set<Id>): set<Id>
    requires t.Valid() && cs <= t.children.Keys
  {
    set d, e | d in cs && e in t.Reach(d) :: e
  }

  lemma ReachNothing(t: Tree)
    requires t.Valid()
    ensures t.(cancelled := t.cancelled + ReachAll(t, {})) == t
  {
  }

  lemma ReachAllAdd(t: Tree, cs: set<Id>, d: Id)
    requires t.Valid() && cs <= t.children.Keys && d in t.children
    ensures ReachAll(t, cs + {d}) == ReachAll(t, cs) + t.Reach(d)
  {
    hide Tree.Reach, Tree.Valid;
  }

  lemma ReachFrom(t: Tree, a: Id)
    requires t.Valid() && a in t.children
    ensures t.children[a] <= t.children.Keys && t.Reach(a) == {a} + ReachAll(t, t.children[a])
  {
    assert t.Below(a);
  }

  lemma {:induction false} ReachSame(t: Tree, u: Tree, a: Id)
    requires t.Valid() && u.Valid() && a in t.children && u.children == t.children && u.limit == t.limit
    ensures u.Reach(a) == t.Reach(a)
    decreases t.limit - a
  {
    assert t.Below(a) && u.Below(a);
    forall d | d in t.children[a] ensures u.Reach(d) == t.Reach(d) {
      ReachSame(t, u, d);
    }
  }

  lemma CancelDone(t: Tree, u: Tree, a: Id)
    requires t.Valid() && a in t.children && u == t.(cancelled := u.cancelled)
    requires u.cancelled == t.cancelled + t.Reach(a)
    ensures u == t.Cancel(a)
  {
  }

  lemma ValidAnyway(t: Tree, cancelled: set<Id>)
    requires t.Valid() && cancelled <= t.children.Keys
    ensures t.(cancelled := cancelled).Valid()
  {
    forall c | c in t.children ensures t.(cancelled := cancelled).Below(c) {
      assert t.Below(c);
    }
  }

  lemma LeafReach(t: Tree, a: Id)
    requires t.Valid() && a in t.children && t.children[a] == {}
    ensures t.Reach(a) == {a}
  {
  }
}
