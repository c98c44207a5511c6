/** `clear()`: deleting a whole tree with an explicit stack, so that no destructor ever recurses. */
module WmlClear {
  import opened Sequences

  type Id = nat

  /** A subtree as it was before the deletion: the child vectors of a node, in map order. */
  datatype Shape = Shape(id: Id, vecs: seq<Vector>)

  datatype Vector = Vector(list: seq<Shape>)

  /** The ids below a node, children before parents. */
  function Below(s: Shape): seq<Id> {
    BelowVecs(s.vecs)
  }

  function BelowVecs(vecs: seq<Vector>): seq<Id> {
    if vecs == [] then [] else Post(vecs[0].list) + BelowVecs(vecs[1..])
  }

  function Post(l: seq<Shape>): seq<Id> {
    if l == [] then [] else Below(l[0]) + [l[0].id] + Post(l[1..])
  }

  function Ids(l: seq<Shape>): (r: seq<Id>)
    ensures |r| == |l| && forall i :: 0 <= i < |l| ==> r[i] == l[i].id
  {
    seq(|l|, i requires 0 <= i < |l| => l[i].id)
  }

  function VecIds(vecs: seq<Vector>): (r: seq<seq<Id>>)
    ensures |r| == |vecs| && forall i :: 0 <= i < |vecs| ==> r[i] == Ids(vecs[i].list)
  {
    seq(|vecs|, i requires 0 <= i < |vecs| => Ids(vecs[i].list))
  }

  /** The child vectors of the nodes that still exist. */
  type Store = map<Id, seq<seq<Id>>>

  ghost predicate Stored(live: Store, s: Shape) {
    s.id in live && live[s.id] == VecIds(s.vecs) && StoredVecs(live, s.vecs)
  }

  ghost predicate StoredVecs(live: Store, vecs: seq<Vector>) {
    vecs != [] ==> StoredList(live, vecs[0].list) && StoredVecs(live, vecs[1..])
  }

  ghost predicate StoredList(live: Store, l: seq<Shape>) {
    l != [] ==> Stored(live, l[0]) && StoredList(live, l[1..])
  }

  /** Two stores hold the same trees if they agree on the nodes of these trees. */
  ghost predicate Agree(a: Store, b: Store, ids: seq<Id>) {
    forall k :: k in ids ==> k in a && k in b && a[k] == b[k]
  }

  lemma {:induction false} AgreeStored(a: Store, b: Store, s: Shape)
    requires Stored(a, s) && Agree(a, b, Below(s) + [s.id])
    ensures Stored(b, s)
    decreases s, 0
  {
    assert s.id in Below(s) + [s.id];
    AgreeVecs(a, b, s.vecs);
  }

  lemma {:induction false} AgreeVecs(a: Store, b: Store, vecs: seq<Vector>)
    requires StoredVecs(a, vecs) && Agree(a, b, BelowVecs(vecs))
    ensures StoredVecs(b, vecs)
    decreases vecs, 0
  {
    if vecs != [] {
      AgreeList(a, b, vecs[0].list);
      AgreeVecs(a, b, vecs[1..]);
    }
  }

  lemma {:induction false} AgreeList(a: Store, b: Store, l: seq<Shape>)
    requires StoredList(a, l) && Agree(a, b, Post(l))
    ensures StoredList(b, l)
    decreases l, 0
  {
    if l != [] {
      AgreeStored(a, b, l[0]);
      AgreeList(a, b, l[1..]);
    }
  }

  /** One entry of the stack: a node, the vector being walked and the position in it. */
  datatype State = State(c: Id, mi: nat, vi: nat)

  /** The node of an entry, and where its walk stands. */
  ghost predicate Walking(live: Store, st: State, s: Shape) {
    st.c == s.id && s.id in live && live[s.id] == VecIds(s.vecs) &&
    st.mi <= |s.vecs| && st.vi <= (if st.mi < |s.vecs| then |s.vecs[st.mi].list| else 0) &&
    StoredList(live, Current(st, s)) && StoredVecs(live, Later(st, s))
  }

  ghost function Current(st: State, s: Shape): seq<Shape> {
    if st.mi < |s.vecs| && st.vi <= |s.vecs[st.mi].list| then s.vecs[st.mi].list[st.vi..] else []
  }

  ghost function Later(st: State, s: Shape): seq<Vector> {
    if st.mi < |s.vecs| then s.vecs[st.mi + 1..] else []
  }

  /** What is still to be freed below a node on the stack. */
  ghost function Rest(st: State, s: Shape): seq<Id> {
    Post(Current(st, s)) + BelowVecs(Later(st, s))
  }

  /** The stack with the node that each entry walks, top first. */
  datatype Frames = Bottom | Frame(st: State, s: Shape, below: Frames)

  ghost function States(f: Frames): seq<State> {
    match f
    case Bottom => []
    case Frame(st, _, below) => States(below) + [st]
  }

  /** What is still to be freed in all; the node at the bottom is the root, which stays. */
  ghost function Pending(f: Frames): seq<Id> {
    match f
    case Bottom => []
    case Frame(st, s, below) => Rest(st, s) + (if below.Bottom? then [] else [s.id]) + Pending(below)
  }

  ghost predicate Rooted(f: Frames, t: Shape) {
    match f
    case Bottom => true
    case Frame(_, s, below) => if below.Bottom? then s == t else Rooted(below, t)
  }

  // ----- A measure for the loop -----

  ghost function Work(s: Shape): nat {
    1 + WorkVecs(s.vecs)
  }

  ghost function WorkVecs(vecs: seq<Vector>): nat {
    if vecs == [] then 0 else 1 + WorkList(vecs[0].list) + WorkVecs(vecs[1..])
  }

  ghost function WorkList(l: seq<Shape>): nat {
    if l == [] then 0 else 1 + Work(l[0]) + WorkList(l[1..])
  }

  ghost function WorkState(st: State, s: Shape): nat {
    1 + (if st.mi < |s.vecs| then 1 + WorkList(Current(st, s)) else 0) + WorkVecs(Later(st, s))
  }

  ghost function WorkStack(f: Frames): nat {
    match f
    case Bottom => 0
    case Frame(st, s, below) => WorkState(st, s) + WorkStack(below)
  }

  lemma NextInVector(st: State, s: Shape)
    requires st.mi < |s.vecs| && st.vi < |s.vecs[st.mi].list|
    ensures var e, st' := s.vecs[st.mi].list[st.vi], st.(vi := st.vi + 1);
            Rest(st, s) == Below(e) + [e.id] + Rest(st', s) &&
            Current(st, s) == [e] + Current(st', s) && Later(st', s) == Later(st, s) &&
            WorkState(st, s) == 1 + Work(e) + WorkState(st', s)
  {
    var e, st' := s.vecs[st.mi].list[st.vi], st.(vi := st.vi + 1);
    assert Current(st, s)[1..] == Current(st', s);
  }

  lemma NextVector(st: State, s: Shape)
    requires st.mi < |s.vecs| && st.vi == |s.vecs[st.mi].list|
    ensures var st' := st.(mi := st.mi + 1, vi := 0);
            Rest(st, s) == Rest(st', s) && WorkState(st', s) < WorkState(st, s) &&
            (Later(st, s) == if Later(st, s) == [] then [] else [Vector(Current(st', s))] + Later(st', s))
  {
    var st' := st.(mi := st.mi + 1, vi := 0);
    assert Current(st, s) == [];
    if st.mi + 1 < |s.vecs| {
      assert Later(st, s)[0] == s.vecs[st.mi + 1] == Vector(Current(st', s));
      assert Later(st, s)[1..] == Later(st', s);
    } else {
      assert Later(st, s) == [];
    }
  }

  ghost predicate AllWalking(live: Store, f: Frames) {
    match f
    case Bottom => true
    case Frame(st, s, below) => Walking(live, st, s) && AllWalking(live, below)
  }

  lemma StillWalking(live: Store, after: Store, st: State, s: Shape, x: Id)
    requires Walking(live, st, s) && x != s.id && x !in Rest(st, s)
    requires forall k :: k in live && k != x ==> k in after && after[k] == live[k]
    ensures Walking(after, st, s)
  {
    Known(live, Current(st, s));
    KnownVecs(live, Later(st, s));
    AgreeList(live, after, Current(st, s));
    AgreeVecs(live, after, Later(st, s));
  }

  lemma {:induction false} Known(live: Store, l: seq<Shape>)
    requires StoredList(live, l)
    ensures forall k :: k in Post(l) ==> k in live
    decreases l, 0
  {
    if l != [] {
      KnownVecs(live, l[0].vecs);
      Known(live, l[1..]);
    }
  }

  lemma {:induction false} KnownVecs(live: Store, vecs: seq<Vector>)
    requires StoredVecs(live, vecs)
    ensures forall k :: k in BelowVecs(vecs) ==> k in live
    decreases vecs, 0
  {
    if vecs != [] {
      Known(live, vecs[0].list);
      KnownVecs(live, vecs[1..]);
    }
  }

  /** Freeing a node that no walk will come to again disturbs no walk. */
  lemma {:induction false} AllStillWalking(live: Store, after: Store, f: Frames, t: Shape, x: Id)
    requires AllWalking(live, f) && Rooted(f, t) && x !in Pending(f) && x != t.id
    requires forall k :: k in live && k != x ==> k in after && after[k] == live[k]
    ensures AllWalking(after, f)
  {
    match f
    case Bottom =>
    case Frame(st, s, below) =>
      var own := if below.Bottom? then [] else [s.id];
      InOneOf(Rest(st, s), own, Pending(below), x);
      assert !below.Bottom? ==> s.id in own;
      StillWalking(live, after, st, s, x);
      AllStillWalking(live, after, below, t, x);
  }

  lemma InOneOf(a: seq<Id>, b: seq<Id>, c: seq<Id>, id: Id)
    ensures id in a + b + c <==> id in a || id in b || id in c
  {
  }

  // ----- The invariant of the loop, and its four turns -----

  /** `done` are the deletions so far, `was` and `live` the nodes before and now. */
  ghost predicate Ok(was: Store, live: Store, t: Shape, f: Frames, done: seq<Id>) {
    AllWalking(live, f) && Rooted(f, t) &&
    done + Pending(f) == Below(t) && NoDup(Below(t) + [t.id]) &&
    (forall k :: k in live <==> k in was && k !in done) &&
    forall k :: k in live ==> live[k] == if f.Bottom? && k == t.id then [] else was[k]
  }

  lemma Whole(s: Shape)
    ensures Rest(State(s.id, 0, 0), s) == Below(s)
    ensures WorkState(State(s.id, 0, 0), s) == Work(s)
  {
    if s.vecs != [] {
      assert s.vecs[0].list[0..] == s.vecs[0].list;
    }
  }

  lemma StoredWalks(live: Store, s: Shape)
    requires Stored(live, s)
    ensures Walking(live, State(s.id, 0, 0), s)
  {
    if s.vecs != [] {
      assert s.vecs[0].list[0..] == s.vecs[0].list;
    }
  }

  lemma Start(live: Store, t: Shape)
    requires Stored(live, t) && NoDup(Below(t) + [t.id])
    ensures Ok(live, live, t, Frame(State(t.id, 0, 0), t, Bottom), [])
  {
    Whole(t);
    StoredWalks(live, t);
    assert [] + (Below(t) + [] + []) == Below(t);
  }

  /** An id about to be freed does not occur later, is not the root, and was not freed before. */
  lemma Unique(done: seq<Id>, c: Id, rest: seq<Id>, t: Shape)
    requires done + [c] + rest == Below(t) && NoDup(Below(t) + [t.id])
    ensures c !in done && c !in rest && c != t.id
  {
    var all := Below(t) + [t.id];
    assert all[|done|] == c && all[|all| - 1] == t.id;
    assert forall i :: 0 <= i < |done| ==> all[i] == done[i];
    assert forall i :: 0 <= i < |rest| ==> all[|done| + 1 + i] == rest[i];
  }

  function Next(st: State): State {
    st.(vi := st.vi + 1)
  }

  /** The walk at the top moves on past a child. */
  lemma Past(live: Store, f: Frames, done: seq<Id>)
    requires f.Frame? && AllWalking(live, f)
    requires f.st.mi < |f.s.vecs| && f.st.vi < |f.s.vecs[f.st.mi].list|
    ensures var e, g := f.s.vecs[f.st.mi].list[f.st.vi], f.(st := Next(f.st));
            Stored(live, e) && AllWalking(live, g) && WorkStack(f) == 1 + Work(e) + WorkStack(g) &&
            done + Pending(f) == done + (Below(e) + [e.id]) + Pending(g)
  {
    PastWalks(live, f.st, f.s);
    PastWork(f);
    PastPending(f, done);
  }

  lemma PastWork(f: Frames)
    requires f.Frame? && f.st.mi < |f.s.vecs| && f.st.vi < |f.s.vecs[f.st.mi].list|
    ensures WorkStack(f) == 1 + Work(f.s.vecs[f.st.mi].list[f.st.vi]) + WorkStack(f.(st := Next(f.st)))
  {
    NextInVector(f.st, f.s);
  }

  lemma PastWalks(live: Store, st: State, s: Shape)
    requires Walking(live, st, s) && st.mi < |s.vecs| && st.vi < |s.vecs[st.mi].list|
    ensures Stored(live, s.vecs[st.mi].list[st.vi]) && Walking(live, Next(st), s)
  {
    NextInVector(st, s);
    assert Current(st, s)[1..] == Current(Next(st), s);
  }

  lemma PastPending(f: Frames, done: seq<Id>)
    requires f.Frame? && f.st.mi < |f.s.vecs| && f.st.vi < |f.s.vecs[f.st.mi].list|
    ensures var e := f.s.vecs[f.st.mi].list[f.st.vi];
            done + Pending(f) == done + (Below(e) + [e.id]) + Pending(f.(st := Next(f.st)))
  {
    NextInVector(f.st, f.s);
    var e := f.s.vecs[f.st.mi].list[f.st.vi];
    Regroup(done, Below(e) + [e.id], Rest(Next(f.st), f.s), if f.below.Bottom? then [] else [f.s.id], Pending(f.below));
  }

  lemma Regroup(a: seq<Id>, b: seq<Id>, c: seq<Id>, d: seq<Id>, e: seq<Id>)
    ensures a + (b + c + d + e) == a + b + (c + d + e)
  {
  }

  /** First turn: a child without children is deleted on the spot. */
  lemma FreeLeaf(was: Store, live: Store, t: Shape, f: Frames, done: seq<Id>, e: Shape)
    requires f.Frame? && Ok(was, live, t, f, done)
    requires f.st.mi < |f.s.vecs| && f.st.vi < |f.s.vecs[f.st.mi].list|
    requires e == f.s.vecs[f.st.mi].list[f.st.vi] && (e.id in live ==> live[e.id] == [])
    ensures var g := f.(st := Next(f.st));
            e.id in live && Ok(was, live - {e.id}, t, g, done + [e.id]) && WorkStack(g) < WorkStack(f)
  {
    var g := f.(st := Next(f.st));
    Past(live, f, done);
    Childless(e);
    Unique(done, e.id, Pending(g), t);
    AllStillWalking(live, live - {e.id}, g, t, e.id);
    FreedOk(was, live, t, g, done, e.id);
  }

  lemma FreedOk(was: Store, live: Store, t: Shape, g: Frames, done: seq<Id>, x: Id)
    requires g.Frame? && AllWalking(live - {x}, g) && Rooted(g, t)
    requires done + [x] + Pending(g) == Below(t) && NoDup(Below(t) + [t.id])
    requires forall k :: k in live <==> k in was && k !in done
    requires forall k :: k in live ==> live[k] == was[k]
    ensures Ok(was, live - {x}, t, g, done + [x])
  {
    OneLess(was, live, done, x);
  }

  lemma Childless(e: Shape)
    requires VecIds(e.vecs) == []
    ensures Below(e) + [e.id] == [e.id]
  {
    assert |VecIds(e.vecs)| == 0;
  }

  lemma OneLess(was: Store, live: Store, done: seq<Id>, x: Id)
    requires forall k :: k in live <==> k in was && k !in done
    ensures forall k :: k in live - {x} <==> k in was && k !in done + [x]
  {
  }

  /** Second turn: a child with children goes on the stack. */
  lemma Descend(was: Store, live: Store, t: Shape, f: Frames, done: seq<Id>, e: Shape)
    requires f.Frame? && Ok(was, live, t, f, done)
    requires f.st.mi < |f.s.vecs| && f.st.vi < |f.s.vecs[f.st.mi].list|
    requires e == f.s.vecs[f.st.mi].list[f.st.vi]
    ensures var g := Frame(State(e.id, 0, 0), e, f.(st := Next(f.st)));
            e.id in live && Ok(was, live, t, g, done) && WorkStack(g) < WorkStack(f)
  {
    var g := f.(st := Next(f.st));
    Past(live, f, done);
    Whole(e);
    StoredWalks(live, e);
    Associate(done, Below(e) + [e.id], Pending(g));
  }

  /** Third turn: on to the next vector. */
  lemma Onward(was: Store, live: Store, t: Shape, f: Frames, done: seq<Id>)
    requires f.Frame? && Ok(was, live, t, f, done)
    requires f.st.mi < |f.s.vecs| && f.st.vi == |f.s.vecs[f.st.mi].list|
    ensures var g := f.(st := f.st.(mi := f.st.mi + 1, vi := 0));
            Ok(was, live, t, g, done) && WorkStack(g) < WorkStack(f)
  {
    var st' := f.st.(mi := f.st.mi + 1, vi := 0);
    NextVector(f.st, f.s);
    if Later(f.st, f.s) != [] {
      var later := [Vector(Current(st', f.s))] + Later(st', f.s);
      assert later[0].list == Current(st', f.s) && later[1..] == Later(st', f.s);
    }
  }

  /** Fourth turn: a node whose children are all gone is deleted itself, unless it is the root. */
  lemma Ascend(was: Store, live: Store, t: Shape, f: Frames, done: seq<Id>)
    requires f.Frame? && Ok(was, live, t, f, done) && f.st.mi == |f.s.vecs|
    ensures f.st.c in live && (f.st.c == t.id <==> f.below.Bottom?) && WorkStack(f.below) < WorkStack(f)
    ensures var after := live[f.st.c := []];
            if f.below.Bottom? then Ok(was, after, t, f.below, done)
            else Ok(was, after - {f.st.c}, t, f.below, done + [f.st.c])
  {
    assert Rest(f.st, f.s) == [];
    if !f.below.Bottom? {
      var x := f.s.id;
      NothingInFront([x] + Pending(f.below));
      Associate([], [x], Pending(f.below));
      Associate(done, [x], Pending(f.below));
      Unique(done, x, Pending(f.below), t);
      AllStillWalking(live, live[x := []] - {x}, f.below, t, x);
      OneLess(was, live, done, x);
    }
  }

  lemma Finished(was: Store, live: Store, t: Shape, done: seq<Id>)
    requires Ok(was, live, t, Bottom, done) && t.id in was
    ensures done == Below(t) && live == (was - (set k | k in Below(t)))[t.id := []]
  {
    assert done + [] == done;
    var all := Below(t) + [t.id];
    assert all[|all| - 1] == t.id;
    assert t.id !in done by {
      assert forall i :: 0 <= i < |done| ==> all[i] == done[i];
    }
  }

  lemma NothingBelow(live: Store, t: Shape)
    requires Stored(live, t) && live[t.id] == []
    ensures Below(t) == [] && (live - {})[t.id := []] == live
  {
    assert |VecIds(t.vecs)| == 0;
  }

  /** The nodes in memory, and a record of the deletions. */
  class Arena {
    var live: Store
    var freed: seq<Id>

    /** The destructor of a node runs `clear()` itself, which has nothing to do only because the
        children map of the node is already empty. */
    method Delete(c: Id)
      requires c in live && live[c] == []
      modifies this
      ensures live == old(live) - {c} && freed == old(freed) + [c]
    {
      live := live - {c};
      freed := freed + [c];
    }

    /** Frees the proper descendants of the root, each once and children before parents; every access
        on the way is to a node that still exists. */
    method Clear(root: Id, ghost t: Shape)
      requires Stored(live, t) && t.id == root && NoDup(Below(t) + [root])
      modifies this
      ensures freed == old(freed) + Below(t)
      ensures live == (old(live) - (set k | k in Below(t)))[root := []]
    {
      if live[root] == [] {
        NothingBelow(live, t);
      } else {
        var l := [State(root, 0, 0)];
        ghost var f, done, added := Frame(l[0], t, Bottom), [], [];
        Start(live, t);
        while l != []
          invariant l == States(f) && Ok(old(live), live, t, f, done) && freed == old(freed) + done
          decreases WorkStack(f)
        {
          ghost var before := done;
          l, f, done, added := Turn(root, l, t, old(live), f, done);
          Associate(old(freed), before, added);
        }
        Finished(old(live), live, t, done);
      }
    }

    /** The walk at the top comes to a child, which is deleted or put on the stack. */
    method TurnToChild(root: Id, rest: seq<State>, state: State, c: Id, ghost t: Shape, ghost was: Store,
                       ghost f: Frames, ghost done: seq<Id>)
      returns (l: seq<State>, ghost g: Frames, ghost done': seq<Id>, ghost added: seq<Id>)
      requires f.Frame? && rest == States(f.below) && state == f.st && t.id == root && Ok(was, live, t, f, done)
      requires state.mi < |f.s.vecs| && state.vi < |f.s.vecs[state.mi].list|
      requires c == f.s.vecs[state.mi].list[state.vi].id
      modifies this
      ensures l == States(g) && Ok(was, live, t, g, done') && WorkStack(g) < WorkStack(f)
      ensures done' == done + added && freed == old(freed) + added
    {
      ghost var e := f.s.vecs[state.mi].list[state.vi];
      done', added := done, [];
      l, g := rest + [Next(state)], f.(st := Next(state));
      Past(live, f, done);
      if live[c] == [] {
        FreeLeaf(was, live, t, f, done, e);
        Delete(c);
        done', added := done + [c], [c];
      } else {
        Descend(was, live, t, f, done, e);
        l, g := l + [State(c, 0, 0)], Frame(State(c, 0, 0), e, g);
      }
    }

    /** The walk at the top goes on to the next vector. */
    method TurnToNext(rest: seq<State>, state: State, ghost t: Shape, ghost was: Store, ghost f: Frames,
                      ghost done: seq<Id>)
      returns (l: seq<State>, ghost g: Frames)
      requires f.Frame? && rest == States(f.below) && state == f.st && Ok(was, live, t, f, done)
      requires state.mi < |f.s.vecs| && state.vi == |f.s.vecs[state.mi].list|
      ensures l == States(g) && Ok(was, live, t, g, done) && WorkStack(g) < WorkStack(f)
    {
      Onward(was, live, t, f, done);
      l, g := rest + [State(state.c, state.mi + 1, 0)], f.(st := State(state.c, state.mi + 1, 0));
    }

    /** The walk at the top is at its end: the node's map is emptied, and the node deleted if it is not the root. */
    method TurnUp(root: Id, state: State, ghost t: Shape, ghost was: Store, ghost f: Frames, ghost done: seq<Id>)
      returns (ghost g: Frames, ghost done': seq<Id>, ghost added: seq<Id>)
      requires f.Frame? && state == f.st && t.id == root && Ok(was, live, t, f, done) && state.mi == |f.s.vecs|
      modifies this
      ensures g == f.below && Ok(was, live, t, g, done') && WorkStack(g) < WorkStack(f)
      ensures done' == done + added && freed == old(freed) + added
    {
      Ascend(was, live, t, f, done);
      g, done', added := f.below, done, [];
      live := live[state.c := []];
      if state.c != root {
        Delete(state.c);
        done', added := done + [state.c], [state.c];
      }
    }

    /** One turn of the loop, at the top of the stack. */
    method Turn(root: Id, stack: seq<State>, ghost t: Shape, ghost was: Store, ghost f: Frames, ghost done: seq<Id>)
      returns (l: seq<State>, ghost g: Frames, ghost done': seq<Id>, ghost added: seq<Id>)
      requires f.Frame? && stack == States(f) && t.id == root && Ok(was, live, t, f, done)
      modifies this
      ensures l == States(g) && Ok(was, live, t, g, done') && WorkStack(g) < WorkStack(f)
      ensures done' == done + added && freed == old(freed) + added
    {
      var n := |stack| - 1;
      var state := stack[n];
      l, done', added := stack[..n], done, [];
      if state.mi != |live[state.c]| {
        var v := live[state.c][state.mi];
        if state.vi < |v| {
          l, g, done', added := TurnToChild(root, l, state, v[state.vi], t, was, f, done);
        } else {
          l, g := TurnToNext(l, state, t, was, f, done);
        }
      } else {
        g, done', added := TurnUp(root, state, t, was, f, done);
      }
    }
  }
}
