/** A node keeps its children twice: in one vector per tag, and as a list of (tag, index) pairs in
    document order.  This module says when the two agree, and that each edit of both of them is one
    edit of the children they stand for. */
module WmlOrder {
  import opened Sequences
  import opened WmlTree

  datatype Pos = Pos(tag: string, index: nat)

  type Vecs = map<string, seq<Tree>>

  function Vec(v: Vecs, tag: string): seq<Tree> {
    if tag in v then v[tag] else []
  }

  /** The indices listed for one tag, in the order of the list. */
  function Indices(order: seq<Pos>, tag: string): seq<nat> {
    if order == [] then []
    else if order[0].tag == tag then [order[0].index] + Indices(order[1..], tag)
    else Indices(order[1..], tag)
  }

  function Range(lo: nat, hi: nat): (r: seq<nat>)
    requires lo <= hi
    ensures |r| == hi - lo && forall i :: 0 <= i < |r| ==> r[i] == lo + i
    decreases hi - lo
  {
    if lo == hi then [] else [lo] + Range(lo + 1, hi)
  }

  /** The pairs of every tag are 0, 1, ..., n-1 in this order, n being the length of its vector. */
  ghost predicate InStep(order: seq<Pos>, v: Vecs) {
    forall tag :: Indices(order, tag) == Range(0, |Vec(v, tag)|)
  }

  ghost predicate Located(order: seq<Pos>, v: Vecs) {
    forall i :: 0 <= i < |order| ==> order[i].index < |Vec(v, order[i].tag)|
  }

  /** The children in document order, as a traversal of the pairs meets them. */
  function KidsOf(order: seq<Pos>, v: Vecs): (r: seq<Kid>)
    requires Located(order, v)
    ensures |r| == |order|
  {
    if order == [] then []
    else [Kid(order[0].tag, Vec(v, order[0].tag)[order[0].index])] + KidsOf(order[1..], v)
  }

  lemma KidsOfCons(p: Pos, order: seq<Pos>, v: Vecs)
    requires p.index < |Vec(v, p.tag)| && Located(order, v)
    ensures Located([p] + order, v)
    ensures KidsOf([p] + order, v) == [Kid(p.tag, Vec(v, p.tag)[p.index])] + KidsOf(order, v)
  {
    assert ([p] + order)[1..] == order;
  }

  lemma {:induction false} IndicesConcat(x: seq<Pos>, y: seq<Pos>, tag: string)
    ensures Indices(x + y, tag) == Indices(x, tag) + Indices(y, tag)
  {
    if x == [] {
      assert x + y == y;
    } else {
      assert (x + y)[1..] == x[1..] + y;
      IndicesConcat(x[1..], y, tag);
    }
  }

  lemma {:induction false} KidsOfConcat(x: seq<Pos>, y: seq<Pos>, v: Vecs)
    requires Located(x, v) && Located(y, v)
    ensures Located(x + y, v) && KidsOf(x + y, v) == KidsOf(x, v) + KidsOf(y, v)
  {
    if x == [] {
      assert x + y == y;
    } else {
      KidsOfConcat(x[1..], y, v);
      KidsOfCons(x[0], x[1..] + y, v);
      HeadTail(x, y);
      HeadTail(KidsOf(x, v), KidsOf(y, v));
    }
  }

  lemma {:induction false} IndexListed(order: seq<Pos>, i: nat)
    requires i < |order|
    ensures order[i].index in Indices(order, order[i].tag)
  {
    if i > 0 {
      IndexListed(order[1..], i - 1);
    }
  }

  lemma InStepLocated(order: seq<Pos>, v: Vecs)
    requires InStep(order, v)
    ensures Located(order, v)
  {
    forall i | 0 <= i < |order|
      ensures order[i].index < |Vec(v, order[i].tag)|
    {
      IndexListed(order, i);
      var l := Indices(order, order[i].tag);
      var j :| 0 <= j < |l| && l[j] == order[i].index;
    }
  }

  /** A traversal finds under each tag exactly that tag's vector: every child once, in order. */
  lemma {:induction false} TraversalFrom(order: seq<Pos>, v: Vecs, tag: string, from: nat)
    requires Located(order, v)
    requires from <= |Vec(v, tag)| && Indices(order, tag) == Range(from, |Vec(v, tag)|)
    ensures Tagged(KidsOf(order, v), tag) == Vec(v, tag)[from..]
  {
    if order != [] {
      if order[0].tag == tag {
        assert Indices(order, tag)[0] == from;
        assert Indices(order[1..], tag) == Indices(order, tag)[1..] == Range(from + 1, |Vec(v, tag)|);
        TraversalFrom(order[1..], v, tag, from + 1);
      } else {
        TraversalFrom(order[1..], v, tag, from);
      }
    }
  }

  lemma Traversal(order: seq<Pos>, v: Vecs, tag: string)
    requires InStep(order, v)
    ensures Located(order, v)
    ensures Tagged(KidsOf(order, v), tag) == Vec(v, tag)
  {
    InStepLocated(order, v);
    TraversalFrom(order, v, tag, 0);
  }

  /** Creating the empty vector of a tag, as `children[key]` does, changes nothing else. */
  lemma Created(order: seq<Pos>, v: Vecs, tag: string)
    requires InStep(order, v) && tag !in v
    ensures InStep(order, v[tag := []]) && Located(order, v) && Located(order, v[tag := []])
    ensures KidsOf(order, v[tag := []]) == KidsOf(order, v)
  {
    var w := v[tag := []];
    assert forall u :: Vec(v, u) == Vec(w, u);
    assert forall u :: Indices(order, u) == Range(0, |Vec(v, u)|);
    InStepLocated(order, v);
    KidsOfGrow(order, v, w);
  }

  // ----- add_child -----

  lemma Appended(order: seq<Pos>, v: Vecs, tag: string, node: Tree)
    requires InStep(order, v)
    ensures var order', v' := order + [Pos(tag, |Vec(v, tag)|)], v[tag := Vec(v, tag) + [node]];
            InStep(order', v') && Located(order, v) && Located(order', v') &&
            KidsOf(order', v') == KidsOf(order, v) + [Kid(tag, node)]
  {
    var last := Pos(tag, |Vec(v, tag)|);
    var v' := v[tag := Vec(v, tag) + [node]];
    AppendedInStep(order, v, v', tag);
    InStepLocated(order, v);
    KidsOfGrow(order, v, v');
    KidsOfConcat(order, [last], v');
  }

  lemma AppendedInStep(order: seq<Pos>, v: Vecs, w: Vecs, tag: string)
    requires InStep(order, v) && forall u :: |Vec(w, u)| == |Vec(v, u)| + if u == tag then 1 else 0
    ensures InStep(order + [Pos(tag, |Vec(v, tag)|)], w)
  {
    var last := Pos(tag, |Vec(v, tag)|);
    forall u
      ensures Indices(order + [last], u) == Range(0, |Vec(w, u)|)
    {
      IndicesConcat(order, [last], u);
      assert Indices(order, u) == Range(0, |Vec(v, u)|);
    }
  }

  lemma {:induction false} KidsOfGrow(order: seq<Pos>, v: Vecs, w: Vecs)
    requires Located(order, v)
    requires forall u :: Vec(v, u) <= Vec(w, u)
    ensures Located(order, w) && KidsOf(order, v) == KidsOf(order, w)
  {
    if order != [] {
      KidsOfGrow(order[1..], v, w);
      forall i | 0 <= i < |order|
        ensures order[i].index < |Vec(w, order[i].tag)|
      {
        assert Vec(v, order[i].tag) <= Vec(w, order[i].tag);
      }
    }
  }

  // ----- add_child_at -----

  /** The loop over the pairs: the new pair goes in front of the one with its index, or last. */
  function InsertPos(order: seq<Pos>, tag: string, index: nat, inserted: bool): seq<Pos> {
    if order == [] then (if inserted then [] else [Pos(tag, index)])
    else if order[0].tag != tag then [order[0]] + InsertPos(order[1..], tag, index, inserted)
    else if !inserted && order[0].index == index then
      [Pos(tag, index)] + ([Pos(tag, index + 1)] + InsertPos(order[1..], tag, index, true))
    else if order[0].index >= index then
      [Pos(tag, order[0].index + 1)] + InsertPos(order[1..], tag, index, inserted)
    else [order[0]] + InsertPos(order[1..], tag, index, inserted)
  }

  function Opened(vec: seq<Tree>, index: nat, node: Tree): seq<Tree>
    requires index <= |vec|
  {
    vec[..index] + [node] + vec[index..]
  }

  lemma {:induction false} InsertedOthers(order: seq<Pos>, tag: string, index: nat, inserted: bool, u: string)
    requires u != tag
    ensures Indices(InsertPos(order, tag, index, inserted), u) == Indices(order, u)
  {
    if order != [] {
      InsertedOthers(order[1..], tag, index, inserted, u);
      InsertedOthers(order[1..], tag, index, true, u);
    }
  }

  /** What the loop does to the indices of its own tag. */
  function Bumped(s: seq<nat>, index: nat, inserted: bool): seq<nat> {
    if s == [] then (if inserted then [] else [index])
    else if !inserted && s[0] == index then [index] + ([index + 1] + Bumped(s[1..], index, true))
    else if s[0] >= index then [s[0] + 1] + Bumped(s[1..], index, inserted)
    else [s[0]] + Bumped(s[1..], index, inserted)
  }

  lemma IndicesCons(p: Pos, rest: seq<Pos>, tag: string)
    ensures Indices([p] + rest, tag) == if p.tag == tag then [p.index] + Indices(rest, tag) else Indices(rest, tag)
  {
    assert ([p] + rest)[1..] == rest;
  }

  lemma {:induction false} InsertedBumps(order: seq<Pos>, tag: string, index: nat, inserted: bool)
    ensures Indices(InsertPos(order, tag, index, inserted), tag) == Bumped(Indices(order, tag), index, inserted)
  {
    if order != [] {
      var p, rest := order[0], order[1..];
      var here := p.tag == tag && !inserted && p.index == index;
      var next := InsertPos(rest, tag, index, inserted || here);
      InsertedBumps(rest, tag, index, inserted || here);
      if p.tag != tag {
        IndicesCons(p, next, tag);
      } else {
        assert Indices(order, tag)[1..] == Indices(rest, tag);
        var q := if p.index >= index then Pos(tag, p.index + 1) else p;
        IndicesCons(q, next, tag);
        if here {
          IndicesCons(Pos(tag, index), [q] + next, tag);
        }
      }
    }
  }

  lemma {:induction false} BumpedRange(index: nat, from: nat, n: nat, inserted: bool)
    requires from <= n && if inserted then index < from else from <= index <= n
    ensures Bumped(Range(from, n), index, inserted) == Range(if inserted then from + 1 else from, n + 1)
    decreases n - from
  {
    if from < n {
      assert Range(from, n)[1..] == Range(from + 1, n);
      BumpedRange(index, from + 1, n, inserted || from == index);
    }
  }

  lemma NextIndex(order: seq<Pos>, from: nat, n: nat)
    requires order != [] && from <= n && Indices(order, order[0].tag) == Range(from, n)
    ensures from < n && order[0].index == from && Indices(order[1..], order[0].tag) == Range(from + 1, n)
  {
    assert Indices(order, order[0].tag)[0] == from;
    assert Indices(order[1..], order[0].tag) == Indices(order, order[0].tag)[1..];
  }

  ghost predicate SameBut(v: Vecs, w: Vecs, tag: string) {
    forall u :: u != tag ==> Vec(v, u) == Vec(w, u)
  }

  /** Element `i` is the same in the longer vector, though one further on if it comes behind the new one. */
  ghost predicate Carried(v: Vecs, w: Vecs, tag: string, index: nat, i: nat)
    requires |Vec(w, tag)| == |Vec(v, tag)| + 1 && i < |Vec(v, tag)|
  {
    Vec(w, tag)[if i < index then i else i + 1] == Vec(v, tag)[i]
  }

  /** `w` has one more element than `v` under `tag`, in place `index`. */
  ghost predicate OpenedAt(v: Vecs, w: Vecs, tag: string, index: nat, node: Tree) {
    SameBut(v, w, tag) && index <= |Vec(v, tag)| && |Vec(w, tag)| == |Vec(v, tag)| + 1 &&
    Vec(w, tag)[index] == node &&
    forall i: nat {:trigger Carried(v, w, tag, index, i)} :: i < |Vec(v, tag)| ==> Carried(v, w, tag, index, i)
  }

  /** Another pair for the same child, in front of pairs for the same children. */
  lemma SameKidInFront(order: seq<Pos>, v: Vecs, p: Pos, next: seq<Pos>, w: Vecs)
    requires Located(order, v) && order != [] && Located(next, w) && KidsOf(next, w) == KidsOf(order[1..], v)
    requires p.tag == order[0].tag && p.index < |Vec(w, p.tag)|
    requires Vec(w, p.tag)[p.index] == Vec(v, p.tag)[order[0].index]
    ensures Located([p] + next, w) && KidsOf([p] + next, w) == KidsOf(order, v)
  {
    KidsOfCons(p, next, w);
  }

  lemma {:induction false} BumpedKids(order: seq<Pos>, v: Vecs, w: Vecs, tag: string, index: nat, node: Tree, from: nat)
    requires Located(order, v) && OpenedAt(v, w, tag, index, node)
    requires index < from <= |Vec(v, tag)| && Indices(order, tag) == Range(from, |Vec(v, tag)|)
    ensures var order' := InsertPos(order, tag, index, true);
            Located(order', w) && KidsOf(order', w) == KidsOf(order, v)
  {
    if order != [] {
      var p, rest := order[0], order[1..];
      if p.tag == tag {
        NextIndex(order, from, |Vec(v, tag)|);
        assert Carried(v, w, tag, index, from);
      }
      BumpedKids(rest, v, w, tag, index, node, if p.tag == tag then from + 1 else from);
      var q := if p.tag == tag then Pos(tag, from + 1) else p;
      SameKidInFront(order, v, q, InsertPos(rest, tag, index, true), w);
      assert InsertPos(order, tag, index, true) == [q] + InsertPos(rest, tag, index, true);
    }
  }

  lemma {:induction false} InsertedKids(order: seq<Pos>, v: Vecs, w: Vecs, tag: string, index: nat, node: Tree,
                                        from: nat)
    requires Located(order, v) && OpenedAt(v, w, tag, index, node)
    requires from <= index && Indices(order, tag) == Range(from, |Vec(v, tag)|)
    ensures var order' := InsertPos(order, tag, index, false);
            Located(order', w) && KidsOf(order', w) == InsertAt(KidsOf(order, v), tag, index - from, node)
  {
    if order == [] {
      InsertedLast(w, tag, index, node);
    } else if order[0].tag != tag {
      InsertedKids(order[1..], v, w, tag, index, node, from);
      InsertedBehind(order, v, w, tag, node, InsertPos(order[1..], tag, index, false), index - from);
    } else {
      NextIndex(order, from, |Vec(v, tag)|);
      assert Carried(v, w, tag, index, from);
      if from == index {
        InsertedHere(order, v, w, tag, index, node);
      } else {
        InsertedKids(order[1..], v, w, tag, index, node, from + 1);
        InsertedBehind(order, v, w, tag, node, InsertPos(order[1..], tag, index, false), index - from - 1);
      }
    }
  }

  /** A pair in front of the insertion stays as it is. */
  lemma InsertedBehind(order: seq<Pos>, v: Vecs, w: Vecs, tag: string, node: Tree, next: seq<Pos>, i: nat)
    requires Located(order, v) && order != [] && Located(next, w)
    requires KidsOf(next, w) == InsertAt(KidsOf(order[1..], v), tag, i, node)
    requires var p := order[0]; p.index < |Vec(w, p.tag)| && Vec(w, p.tag)[p.index] == Vec(v, p.tag)[p.index]
    ensures Located([order[0]] + next, w)
    ensures KidsOf([order[0]] + next, w) ==
            InsertAt(KidsOf(order, v), tag, if order[0].tag == tag then i + 1 else i, node)
  {
    KidsOfCons(order[0], next, w);
    InsertAtCons(Kid(order[0].tag, Vec(v, order[0].tag)[order[0].index]), KidsOf(order[1..], v), tag, i, node);
  }

  lemma InsertAtCons(k: Kid, rest: seq<Kid>, tag: string, i: nat, node: Tree)
    ensures InsertAt([k] + rest, tag, if k.tag == tag then i + 1 else i, node) == [k] + InsertAt(rest, tag, i, node)
  {
    assert ([k] + rest)[1..] == rest;
  }

  lemma InsertedHere(order: seq<Pos>, v: Vecs, w: Vecs, tag: string, index: nat, node: Tree)
    requires Located(order, v) && OpenedAt(v, w, tag, index, node)
    requires index < |Vec(v, tag)| && Indices(order, tag) == Range(index, |Vec(v, tag)|)
    requires order != [] && order[0] == Pos(tag, index)
    ensures var order' := InsertPos(order, tag, index, false);
            Located(order', w) && KidsOf(order', w) == [Kid(tag, node)] + KidsOf(order, v)
  {
    NextIndex(order, index, |Vec(v, tag)|);
    assert Carried(v, w, tag, index, index);
    BumpedKids(order[1..], v, w, tag, index, node, index + 1);
    var rest := InsertPos(order[1..], tag, index, true);
    TwoInFront(order, v, w, tag, index, node, rest);
  }

  lemma InsertedLast(w: Vecs, tag: string, index: nat, node: Tree)
    requires index < |Vec(w, tag)| && Vec(w, tag)[index] == node
    ensures Located([Pos(tag, index)], w) && KidsOf([Pos(tag, index)], w) == [Kid(tag, node)]
  {
    KidsOfCons(Pos(tag, index), [], w);
    assert [Pos(tag, index)] + [] == [Pos(tag, index)];
  }

  lemma TwoInFront(order: seq<Pos>, v: Vecs, w: Vecs, tag: string, index: nat, node: Tree, rest: seq<Pos>)
    requires Located(order, v) && order != [] && order[0] == Pos(tag, index)
    requires Located(rest, w) && KidsOf(rest, w) == KidsOf(order[1..], v)
    requires index + 1 < |Vec(w, tag)| && Vec(w, tag)[index] == node && Vec(w, tag)[index + 1] == Vec(v, tag)[index]
    ensures var order' := [Pos(tag, index)] + ([Pos(tag, index + 1)] + rest);
            Located(order', w) && KidsOf(order', w) == [Kid(tag, node)] + KidsOf(order, v)
  {
    KidsOfCons(Pos(tag, index + 1), rest, w);
    KidsOfCons(Pos(tag, index), [Pos(tag, index + 1)] + rest, w);
  }

  lemma OpenedBy(v: Vecs, tag: string, index: nat, node: Tree)
    requires index <= |Vec(v, tag)|
    ensures OpenedAt(v, v[tag := Opened(Vec(v, tag), index, node)], tag, index, node)
  {
    var w := v[tag := Opened(Vec(v, tag), index, node)];
    forall i: nat | i < |Vec(v, tag)|
      ensures Carried(v, w, tag, index, i)
    {
      assert Vec(w, tag)[if i < index then i else i + 1] == Vec(v, tag)[i];
    }
  }

  lemma Inserted(order: seq<Pos>, v: Vecs, tag: string, index: nat, node: Tree)
    requires InStep(order, v) && index <= |Vec(v, tag)|
    ensures var order', v' := InsertPos(order, tag, index, false), v[tag := Opened(Vec(v, tag), index, node)];
            InStep(order', v') && Located(order, v) && Located(order', v') &&
            KidsOf(order', v') == InsertAt(KidsOf(order, v), tag, index, node)
  {
    var order', v' := InsertPos(order, tag, index, false), v[tag := Opened(Vec(v, tag), index, node)];
    InStepLocated(order, v);
    OpenedBy(v, tag, index, node);
    InsertedKids(order, v, v', tag, index, node, 0);
    InsertedBumps(order, tag, index, false);
    BumpedRange(index, 0, |Vec(v, tag)|, false);
    forall u
      ensures Indices(order', u) == Range(0, |Vec(v', u)|)
    {
      if u != tag {
        InsertedOthers(order, tag, index, false, u);
        assert Indices(order, u) == Range(0, |Vec(v, u)|);
      }
    }
  }

  // ----- remove_child -----

  function RemovePos(order: seq<Pos>, tag: string, index: nat): seq<Pos> {
    if order == [] then []
    else if order[0].tag != tag then [order[0]] + RemovePos(order[1..], tag, index)
    else if order[0].index == index then RemovePos(order[1..], tag, index)
    else if order[0].index > index then [Pos(tag, order[0].index - 1)] + RemovePos(order[1..], tag, index)
    else [order[0]] + RemovePos(order[1..], tag, index)
  }

  /** The first loop of `remove_child`: indices above the removed one go down. */
  function Lowered(order: seq<Pos>, tag: string, index: nat): (r: seq<Pos>)
    ensures |r| == |order|
    ensures forall i :: 0 <= i < |r| ==>
              r[i] == if order[i].tag == tag && order[i].index > index then Pos(tag, order[i].index - 1) else order[i]
  {
    if order == [] then []
    else [if order[0].tag == tag && order[0].index > index then Pos(tag, order[0].index - 1) else order[0]] +
         Lowered(order[1..], tag, index)
  }

  lemma {:induction false} NothingToErase(order: seq<Pos>, tag: string, index: nat, from: nat, n: nat)
    requires index < from <= n && Indices(order, tag) == Range(from, n)
    ensures RemovePos(order, tag, index) == Lowered(order, tag, index)
  {
    if order != [] {
      if order[0].tag != tag {
        NothingToErase(order[1..], tag, index, from, n);
      } else {
        NextIndex(order, from, n);
        NothingToErase(order[1..], tag, index, from + 1, n);
      }
    }
  }

  lemma IndexInRange(order: seq<Pos>, tag: string, from: nat, n: nat, i: nat)
    requires from <= n && Indices(order, tag) == Range(from, n) && i < |order| && order[i].tag == tag
    ensures from <= order[i].index < n
  {
    IndexListed(order, i);
    var j :| 0 <= j < |Range(from, n)| && Range(from, n)[j] == order[i].index;
  }

  /** Erasing the one pair that was found gives the same as removing it on the way. */
  lemma {:induction false} EraseFound(order: seq<Pos>, tag: string, index: nat, from: nat, n: nat, found: nat)
    requires from <= n && Indices(order, tag) == Range(from, n)
    requires found < |order| && order[found] == Pos(tag, index)
    ensures Without(Lowered(order, tag, index), found) == RemovePos(order, tag, index)
  {
    var rest := order[1..];
    if order[0].tag == tag {
      NextIndex(order, from, n);
    }
    if found == 0 {
      NothingToErase(rest, tag, index, from + 1, n);
      assert Without(Lowered(order, tag, index), 0) == Lowered(rest, tag, index);
    } else {
      var from' := if order[0].tag == tag then from + 1 else from;
      IndexInRange(rest, tag, from', n, found - 1);
      EraseFound(rest, tag, index, from', n, found - 1);
      WithoutCons(Lowered(order, tag, index)[0], Lowered(rest, tag, index), found - 1);
    }
  }

  lemma WithoutCons<T>(e: T, s: seq<T>, i: nat)
    requires i < |s|
    ensures Without([e] + s, i + 1) == [e] + Without(s, i)
  {
  }

  lemma {:induction false} IndexPresent(order: seq<Pos>, tag: string, index: nat, from: nat, n: nat)
    requires from <= index < n && Indices(order, tag) == Range(from, n)
    ensures Pos(tag, index) in order
  {
    if order[0].tag != tag {
      IndexPresent(order[1..], tag, index, from, n);
    } else {
      NextIndex(order, from, n);
      if index > from {
        IndexPresent(order[1..], tag, index, from + 1, n);
      }
    }
  }

  lemma {:induction false} RemovedOthers(order: seq<Pos>, tag: string, index: nat, u: string)
    requires u != tag
    ensures Indices(RemovePos(order, tag, index), u) == Indices(order, u)
  {
    if order != [] {
      RemovedOthers(order[1..], tag, index, u);
    }
  }

  lemma {:induction false} RemovedIndices(order: seq<Pos>, tag: string, index: nat, from: nat, n: nat)
    requires from <= n && index < n && Indices(order, tag) == Range(from, n)
    ensures Indices(RemovePos(order, tag, index), tag) == Range(if from > index then from - 1 else from, n - 1)
  {
    if order != [] {
      if order[0].tag != tag {
        RemovedIndices(order[1..], tag, index, from, n);
      } else {
        NextIndex(order, from, n);
        RemovedIndices(order[1..], tag, index, from + 1, n);
      }
    }
  }

  /** `w` lacks the element `index` that `v` has under `tag`. */
  ghost predicate ClosedAt(v: Vecs, w: Vecs, tag: string, index: nat) {
    SameBut(v, w, tag) && index < |Vec(v, tag)| == |Vec(w, tag)| + 1 &&
    forall i: nat {:trigger Carried(w, v, tag, index, i)} :: i < |Vec(w, tag)| ==> Carried(w, v, tag, index, i)
  }

  lemma {:induction false} ShiftedKids(order: seq<Pos>, v: Vecs, w: Vecs, tag: string, index: nat, from: nat)
    requires Located(order, v) && ClosedAt(v, w, tag, index)
    requires index < from <= |Vec(v, tag)| && Indices(order, tag) == Range(from, |Vec(v, tag)|)
    ensures var order' := RemovePos(order, tag, index);
            Located(order', w) && KidsOf(order', w) == KidsOf(order, v)
  {
    if order != [] {
      var p, rest := order[0], order[1..];
      if p.tag == tag {
        NextIndex(order, from, |Vec(v, tag)|);
        assert Carried(w, v, tag, index, from - 1);
      }
      ShiftedKids(rest, v, w, tag, index, if p.tag == tag then from + 1 else from);
      var q := if p.tag == tag then Pos(tag, from - 1) else p;
      SameKidInFront(order, v, q, RemovePos(rest, tag, index), w);
      assert RemovePos(order, tag, index) == [q] + RemovePos(rest, tag, index);
    }
  }

  lemma {:induction false} RemovedKids(order: seq<Pos>, v: Vecs, w: Vecs, tag: string, index: nat, from: nat)
    requires Located(order, v) && ClosedAt(v, w, tag, index)
    requires from <= index && Indices(order, tag) == Range(from, |Vec(v, tag)|)
    ensures var order' := RemovePos(order, tag, index);
            Located(order', w) && KidsOf(order', w) == RemoveAt(KidsOf(order, v), tag, index - from)
  {
    if order != [] {
      var next := RemovePos(order[1..], tag, index);
      if order[0].tag != tag {
        RemovedKids(order[1..], v, w, tag, index, from);
        RemovedBehind(order, v, w, tag, next, index - from);
      } else {
        NextIndex(order, from, |Vec(v, tag)|);
        if from == index {
          ShiftedKids(order[1..], v, w, tag, index, from + 1);
        } else {
          RemovedKids(order[1..], v, w, tag, index, from + 1);
          assert Carried(w, v, tag, index, from);
          RemovedBehind(order, v, w, tag, next, index - from - 1);
        }
      }
    }
  }

  /** A pair in front of the removal stays as it is. */
  lemma RemovedBehind(order: seq<Pos>, v: Vecs, w: Vecs, tag: string, next: seq<Pos>, i: nat)
    requires Located(order, v) && order != [] && Located(next, w)
    requires KidsOf(next, w) == RemoveAt(KidsOf(order[1..], v), tag, i)
    requires var p := order[0]; p.index < |Vec(w, p.tag)| && Vec(w, p.tag)[p.index] == Vec(v, p.tag)[p.index]
    ensures Located([order[0]] + next, w)
    ensures KidsOf([order[0]] + next, w) == RemoveAt(KidsOf(order, v), tag, if order[0].tag == tag then i + 1 else i)
  {
    KidsOfCons(order[0], next, w);
    RemoveAtCons(Kid(order[0].tag, Vec(v, order[0].tag)[order[0].index]), KidsOf(order[1..], v), tag, i);
  }

  lemma RemoveAtCons(k: Kid, kids: seq<Kid>, tag: string, i: nat)
    ensures RemoveAt([k] + kids, tag, if k.tag == tag then i + 1 else i) == [k] + RemoveAt(kids, tag, i)
  {
    assert ([k] + kids)[1..] == kids;
  }

  lemma Removed(order: seq<Pos>, v: Vecs, tag: string, index: nat)
    requires InStep(order, v) && index < |Vec(v, tag)|
    ensures var order', v' := RemovePos(order, tag, index), v[tag := Without(Vec(v, tag), index)];
            InStep(order', v') && Located(order, v) && Located(order', v') &&
            KidsOf(order', v') == RemoveAt(KidsOf(order, v), tag, index)
  {
    var v' := v[tag := Without(Vec(v, tag), index)];
    InStepLocated(order, v);
    ClosedBy(v, tag, index);
    RemovedKids(order, v, v', tag, index, 0);
    RemovedInStep(order, v, v', tag, index);
  }

  lemma ClosedBy(v: Vecs, tag: string, index: nat)
    requires index < |Vec(v, tag)|
    ensures ClosedAt(v, v[tag := Without(Vec(v, tag), index)], tag, index)
  {
    var w := v[tag := Without(Vec(v, tag), index)];
    forall i: nat | i < |Vec(w, tag)|
      ensures Carried(w, v, tag, index, i)
    {
      assert Vec(w, tag)[i] == Vec(v, tag)[if i < index then i else i + 1];
    }
  }

  lemma RemovedInStep(order: seq<Pos>, v: Vecs, w: Vecs, tag: string, index: nat)
    requires InStep(order, v) && ClosedAt(v, w, tag, index)
    ensures InStep(RemovePos(order, tag, index), w)
  {
    RemovedIndices(order, tag, index, 0, |Vec(v, tag)|);
    forall u
      ensures Indices(RemovePos(order, tag, index), u) == Range(0, |Vec(w, u)|)
    {
      if u != tag {
        RemovedOthers(order, tag, index, u);
        assert Indices(order, u) == Range(0, |Vec(v, u)|);
      }
    }
  }

  // ----- clear_children and splice_children -----

  function DropPos(order: seq<Pos>, tag: string): seq<Pos> {
    if order == [] then []
    else if order[0].tag == tag then DropPos(order[1..], tag)
    else [order[0]] + DropPos(order[1..], tag)
  }

  function DropTag(kids: seq<Kid>, tag: string): seq<Kid> {
    if kids == [] then []
    else if kids[0].tag == tag then DropTag(kids[1..], tag)
    else [kids[0]] + DropTag(kids[1..], tag)
  }

  lemma {:induction false} DroppedAt(order: seq<Pos>, v: Vecs, tag: string, u: string)
    requires Located(order, v)
    ensures Indices(DropPos(order, tag), u) == if u == tag then [] else Indices(order, u)
    ensures Located(DropPos(order, tag), v - {tag})
    ensures KidsOf(DropPos(order, tag), v - {tag}) == DropTag(KidsOf(order, v), tag)
  {
    if order != [] {
      DroppedAt(order[1..], v, tag, u);
    }
  }

  lemma Dropped(order: seq<Pos>, v: Vecs, tag: string)
    requires InStep(order, v)
    ensures var order', v' := DropPos(order, tag), v - {tag};
            InStep(order', v') && Located(order, v) && Located(order', v') &&
            KidsOf(order', v') == DropTag(KidsOf(order, v), tag)
  {
    InStepLocated(order, v);
    forall u
      ensures Indices(DropPos(order, tag), u) == Range(0, |Vec(v - {tag}, u)|)
    {
      DroppedAt(order, v, tag, u);
      assert Indices(order, u) == Range(0, |Vec(v, u)|);
    }
    DroppedAt(order, v, tag, tag);
  }

  lemma {:induction false} DropMissing(kids: seq<Kid>, tag: string)
    requires Tagged(kids, tag) == []
    ensures DropTag(kids, tag) == kids
  {
    if kids != [] {
      DropMissing(kids[1..], tag);
    }
  }

  lemma {:induction false} DropTagTagged(kids: seq<Kid>, tag: string, u: string)
    ensures Tagged(DropTag(kids, tag), u) == if u == tag then [] else Tagged(kids, u)
  {
    if kids != [] {
      DropTagTagged(kids[1..], tag, u);
    }
  }

  /** The pairs that a splice appends for the indices `lo` to `hi`. */
  function PosRange(tag: string, lo: nat, hi: nat): seq<Pos>
    requires lo <= hi
    decreases hi - lo
  {
    if lo == hi then [] else [Pos(tag, lo)] + PosRange(tag, lo + 1, hi)
  }

  lemma {:induction false} PosRangeSnoc(tag: string, lo: nat, hi: nat)
    requires lo <= hi
    ensures PosRange(tag, lo, hi + 1) == PosRange(tag, lo, hi) + [Pos(tag, hi)]
    decreases hi - lo
  {
    if lo < hi {
      PosRangeSnoc(tag, lo + 1, hi);
    }
  }

  lemma {:induction false} PosRangeIndices(tag: string, lo: nat, hi: nat, u: string)
    requires lo <= hi
    ensures Indices(PosRange(tag, lo, hi), u) == if u == tag then Range(lo, hi) else []
    decreases hi - lo
  {
    if lo < hi {
      PosRangeIndices(tag, lo + 1, hi, u);
    }
  }

  lemma {:induction false} PosRangeKids(v: Vecs, tag: string, lo: nat, hi: nat)
    requires lo <= hi <= |Vec(v, tag)|
    ensures Located(PosRange(tag, lo, hi), v) && KidsOf(PosRange(tag, lo, hi), v) == Under(tag, Vec(v, tag)[lo..hi])
    decreases hi - lo
  {
    if lo < hi {
      PosRangeKids(v, tag, lo + 1, hi);
      assert Vec(v, tag)[lo..hi][1..] == Vec(v, tag)[lo + 1..hi];
    }
  }

  lemma {:induction false} RangeConcat(lo: nat, mid: nat, hi: nat)
    requires lo <= mid <= hi
    ensures Range(lo, mid) + Range(mid, hi) == Range(lo, hi)
  {
  }

  /** A splice appends the pairs of the new elements. */
  lemma SplicedInStep(order: seq<Pos>, v: Vecs, w: Vecs, tag: string)
    requires InStep(order, v) && SameBut(v, w, tag) && |Vec(v, tag)| <= |Vec(w, tag)|
    ensures InStep(order + PosRange(tag, |Vec(v, tag)|, |Vec(w, tag)|), w)
  {
    var lo, hi := |Vec(v, tag)|, |Vec(w, tag)|;
    forall u
      ensures Indices(order + PosRange(tag, lo, hi), u) == Range(0, |Vec(w, u)|)
    {
      IndicesConcat(order, PosRange(tag, lo, hi), u);
      PosRangeIndices(tag, lo, hi, u);
      assert Indices(order, u) == Range(0, |Vec(v, u)|);
      if u == tag {
        RangeConcat(0, lo, hi);
      }
    }
  }

  lemma SplicedKids(order: seq<Pos>, v: Vecs, w: Vecs, tag: string)
    requires InStep(order, v) && SameBut(v, w, tag) && Vec(v, tag) <= Vec(w, tag)
    ensures var lo, hi := |Vec(v, tag)|, |Vec(w, tag)|;
            var order' := order + PosRange(tag, lo, hi);
            Located(order, v) && Located(order', w) &&
            KidsOf(order', w) == KidsOf(order, v) + Under(tag, Vec(w, tag)[lo..hi])
  {
    var lo, hi := |Vec(v, tag)|, |Vec(w, tag)|;
    SplicedInStep(order, v, w, tag);
    InStepLocated(order, v);
    KidsOfGrow(order, v, w);
    PosRangeKids(w, tag, lo, hi);
    KidsOfConcat(order, PosRange(tag, lo, hi), w);
  }

  // ----- A child edited where it is -----

  lemma {:induction false} UpdatedFrom(order: seq<Pos>, v: Vecs, tag: string, index: nat, node: Tree, from: nat)
    requires Located(order, v) && index < |Vec(v, tag)|
    requires from <= |Vec(v, tag)| && Indices(order, tag) == Range(from, |Vec(v, tag)|)
    ensures var v' := v[tag := Vec(v, tag)[index := node]];
            Located(order, v') &&
            KidsOf(order, v') == if from > index then KidsOf(order, v)
                                 else UpdateAt(KidsOf(order, v), tag, index - from, node)
  {
    if order != [] {
      var rest, n := order[1..], |Vec(v, tag)|;
      if order[0].tag != tag {
        UpdatedFrom(rest, v, tag, index, node, from);
      } else {
        assert Indices(order, tag)[0] == from;
        assert Indices(rest, tag) == Indices(order, tag)[1..] == Range(from + 1, n);
        UpdatedFrom(rest, v, tag, index, node, from + 1);
      }
    }
  }

  lemma Updated(order: seq<Pos>, v: Vecs, tag: string, index: nat, node: Tree)
    requires InStep(order, v) && index < |Vec(v, tag)|
    ensures var v' := v[tag := Vec(v, tag)[index := node]];
            InStep(order, v') && Located(order, v) && Located(order, v') &&
            KidsOf(order, v') == UpdateAt(KidsOf(order, v), tag, index, node)
  {
    var v' := v[tag := Vec(v, tag)[index := node]];
    InStepLocated(order, v);
    UpdatedFrom(order, v, tag, index, node, 0);
    forall u
      ensures Indices(order, u) == Range(0, |Vec(v', u)|)
    {
      assert |Vec(v', u)| == |Vec(v, u)|;
    }
  }

  lemma {:induction false} PairsDiffer(order: seq<Pos>, tag: string, from: nat, n: nat, i: nat, j: nat)
    requires from <= n && Indices(order, tag) == Range(from, n)
    requires i < j < |order| && order[i].tag == tag
    ensures order[i] != order[j]
  {
    if order[0].tag == tag {
      NextIndex(order, from, n);
    }
    var from' := if order[0].tag == tag then from + 1 else from;
    if i > 0 {
      PairsDiffer(order[1..], tag, from', n, i - 1, j - 1);
    } else if order[j].tag == tag {
      IndexInRange(order[1..], tag, from', n, j - 1);
    }
  }

  lemma {:induction false} KidAt(order: seq<Pos>, v: Vecs, i: nat)
    requires Located(order, v) && i < |order|
    ensures KidsOf(order, v)[i] == Kid(order[i].tag, Vec(v, order[i].tag)[order[i].index])
  {
    if i > 0 {
      KidAt(order[1..], v, i - 1);
    }
  }

  /** A child edited through its pair is edited at that place of the traversal and nowhere else. */
  lemma UpdatedAt(order: seq<Pos>, v: Vecs, i: nat, node: Tree)
    requires InStep(order, v) && i < |order|
    ensures Located(order, v)
    ensures var p := order[i];
            var v' := v[p.tag := Vec(v, p.tag)[p.index := node]];
            InStep(order, v') && Located(order, v') && KidsOf(order, v') == KidsOf(order, v)[i := Kid(p.tag, node)]
  {
    var p := order[i];
    InStepLocated(order, v);
    Updated(order, v, p.tag, p.index, node);
    var v' := v[p.tag := Vec(v, p.tag)[p.index := node]];
    var k, k' := KidsOf(order, v), KidsOf(order, v');
    forall j | 0 <= j < |order|
      ensures k'[j] == if j == i then Kid(p.tag, node) else k[j]
    {
      KidAt(order, v, j);
      KidAt(order, v', j);
      if j != i {
        PairsApart(order, v, i, j);
      }
    }
    assert k' == k[i := Kid(p.tag, node)];
  }

  lemma PairsApart(order: seq<Pos>, v: Vecs, i: nat, j: nat)
    requires InStep(order, v) && i < |order| && j < |order| && i != j
    ensures order[i] != order[j]
  {
    var tag := order[i].tag;
    assert Indices(order, tag) == Range(0, |Vec(v, tag)|);
    if i < j {
      PairsDiffer(order, tag, 0, |Vec(v, tag)|, i, j);
    } else if order[j].tag == tag {
      PairsDiffer(order, tag, 0, |Vec(v, tag)|, j, i);
    }
  }

  /** A pair's index is the number of children of its tag before it. */
  lemma {:induction false} PairIndexFrom(order: seq<Pos>, v: Vecs, i: nat, from: nat)
    requires Located(order, v) && i < |order|
    requires from <= |Vec(v, order[i].tag)| && Indices(order, order[i].tag) == Range(from, |Vec(v, order[i].tag)|)
    ensures order[i].index == from + |Tagged(KidsOf(order, v)[..i], order[i].tag)|
  {
    var tag, kids := order[i].tag, KidsOf(order, v);
    if order[0].tag == tag {
      NextIndex(order, from, |Vec(v, tag)|);
    }
    if i == 0 {
      assert Tagged(kids[..i], tag) == [];
    } else {
      var rest := KidsOf(order[1..], v)[..i - 1];
      PairIndexFrom(order[1..], v, i - 1, if order[0].tag == tag then from + 1 else from);
      assert kids[..i] == [kids[0]] + rest && ([kids[0]] + rest)[1..] == rest;
      assert |Tagged(kids[..i], tag)| == |Tagged(rest, tag)| + if order[0].tag == tag then 1 else 0;
    }
  }

  lemma PairIndex(order: seq<Pos>, v: Vecs, i: nat)
    requires InStep(order, v) && i < |order|
    ensures Located(order, v) && order[i].index == |Tagged(KidsOf(order, v)[..i], order[i].tag)|
  {
    InStepLocated(order, v);
    assert Indices(order, order[i].tag) == Range(0, |Vec(v, order[i].tag)|);
    PairIndexFrom(order, v, i, 0);
  }
}
