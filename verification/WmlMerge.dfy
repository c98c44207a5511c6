/** `merge_with` and `inherit_from`: one node laid over another, position by position. */
module WmlMerge {
  import opened Sequences
  import opened WmlTree

  /** The attribute that `values[k] = values[k].to_int() + v.to_int()` stores. */
  type Sum = (string, string) -> string

  const ADD_TO := "add_to_"

  predicate IsAddTo(key: string) {
    |key| >= 7 && key[..7] == ADD_TO
  }

  predicate Removes(node: Tree) {
    var v := Read(node.attrs, "__remove");
    v == "yes" || v == "true"
  }

  // ----- Attributes -----

  /** One attribute of the merged node.  Attributes are merged in the order of their keys, so an
      addition counts on top of an assignment made by the same node only if the key itself
      comes before its add_to_ form. */
  function MergedAttr(sum: Sum, a: Attrs, c: Attrs, k: string): string {
    if ADD_TO + k in c then
      if k !in c || IsAddTo(k) then sum(Read(a, k), c[ADD_TO + k])
      else if Less(k, ADD_TO + k) then sum(c[k], c[ADD_TO + k])
      else c[k]
    else if k in c && !IsAddTo(k) then c[k]
    else Read(a, k)
  }

  function MergedKeys(a: Attrs, c: Attrs): set<string> {
    a.Keys + (set k | k in c && !IsAddTo(k)) + (set k | k in c && IsAddTo(k) :: k[7..])
  }

  function MergeAttrs(sum: Sum, a: Attrs, c: Attrs): Attrs {
    map k | k in MergedKeys(a, c) :: MergedAttr(sum, a, c, k)
  }

  // ----- Nodes -----

  function Merge(sum: Sum, t: Tree, c: Tree): Tree
    decreases t, |t.kids| + 1
  {
    Tree(MergeAttrs(sum, t.attrs, c.attrs),
         MergeKids(sum, t, c, 0) + Extra(t.kids, c.kids, TagsOf(c.kids)))
  }

  /** The children of `t` from position `i` on: merged with the child of `c` in the same place,
      dropped if that child asks for it, or kept if there is none. */
  function MergeKids(sum: Sum, t: Tree, c: Tree, i: nat): seq<Kid>
    requires i <= |t.kids|
    decreases t, |t.kids| - i
  {
    if i == |t.kids| then [] else MergedKid(sum, t, c, i) + MergeKids(sum, t, c, i + 1)
  }

  function MergedKid(sum: Sum, t: Tree, c: Tree, i: nat): seq<Kid>
    requires i < |t.kids|
    decreases t, 0
  {
    var k := t.kids[i];
    var visits, over := |Tagged(t.kids[..i], k.tag)|, Tagged(c.kids, k.tag);
    if visits >= |over| then [k]
    else if Removes(over[visits]) then []
    else [Kid(k.tag, Merge(sum, k.node, over[visits]))]
  }

  /** What `c` has beyond the children of `t`, tag after tag. */
  function Extra(kids: seq<Kid>, more: seq<Kid>, tags: seq<string>): seq<Kid> {
    if tags == [] then []
    else
      var x, y := Tagged(kids, tags[0]), Tagged(more, tags[0]);
      (if |x| < |y| then Under(tags[0], y[|x|..]) else []) + Extra(kids, more, tags[1..])
  }

  /** The positional overlay of one child vector over another. */
  function Overlay(sum: Sum, x: seq<Tree>, y: seq<Tree>): seq<Tree> {
    if x == [] then y
    else if y == [] then x
    else (if Removes(y[0]) then [] else [Merge(sum, x[0], y[0])]) + Overlay(sum, x[1..], y[1..])
  }

  lemma {:induction false} ExtraTagged(kids: seq<Kid>, more: seq<Kid>, tags: seq<string>, u: string)
    requires NoDup(tags)
    ensures Tagged(Extra(kids, more, tags), u) ==
            if u in tags && |Tagged(kids, u)| < |Tagged(more, u)| then Tagged(more, u)[|Tagged(kids, u)|..] else []
  {
    if tags != [] {
      ExtraTagged(kids, more, tags[1..], u);
      ExtraFirst(kids, more, tags, u);
      assert tags[0] !in tags[1..];
    }
  }

  lemma ExtraFirst(kids: seq<Kid>, more: seq<Kid>, tags: seq<string>, u: string)
    requires tags != []
    ensures var x, y := Tagged(kids, tags[0]), Tagged(more, tags[0]);
            Tagged(Extra(kids, more, tags), u) ==
            (if u == tags[0] && |x| < |y| then y[|x|..] else []) + Tagged(Extra(kids, more, tags[1..]), u)
  {
    var x, y := Tagged(kids, tags[0]), Tagged(more, tags[0]);
    var own := if |x| < |y| then Under(tags[0], y[|x|..]) else [];
    TaggedConcat(own, Extra(kids, more, tags[1..]), u);
    if |x| < |y| {
      UnderTagged(tags[0], y[|x|..], u);
    }
  }

  lemma {:induction false} OverlayTail(sum: Sum, x: seq<Tree>, y: seq<Tree>)
    requires |x| <= |y|
    ensures Overlay(sum, x, y) == Overlay(sum, x, y[..|x|]) + y[|x|..]
  {
    if x != [] {
      OverlayTail(sum, x[1..], y[1..]);
      var mid := Overlay(sum, x[1..], y[1..][..|x| - 1]);
      assert y[..|x|][1..] == y[1..][..|x| - 1] && y[1..][|x| - 1..] == y[|x|..];
      OverlayFirst(sum, x, y);
      OverlayFirst(sum, x, y[..|x|]);
      Associate(FirstOver(sum, x[0], y[0]), mid, y[|x|..]);
    }
  }

  function FirstOver(sum: Sum, e: Tree, f: Tree): seq<Tree> {
    if Removes(f) then [] else [Merge(sum, e, f)]
  }

  lemma OverlayFirst(sum: Sum, x: seq<Tree>, y: seq<Tree>)
    requires x != [] && y != []
    ensures Overlay(sum, x, y) == FirstOver(sum, x[0], y[0]) + Overlay(sum, x[1..], y[1..])
  {
  }

  /** The part of `y` that lies over `n` children after the first `v`. */
  function Window(y: seq<Tree>, v: nat, n: nat): seq<Tree> {
    if v >= |y| then [] else if v + n < |y| then y[v..v + n] else y[v..]
  }

  lemma OverlayWindow(sum: Sum, e: Tree, x: seq<Tree>, y: seq<Tree>, v: nat)
    ensures Overlay(sum, [e] + x, Window(y, v, 1 + |x|)) ==
            (if v >= |y| then [e] else if Removes(y[v]) then [] else [Merge(sum, e, y[v])]) +
            Overlay(sum, x, Window(y, v + 1, |x|))
  {
    assert ([e] + x)[1..] == x;
    if v < |y| {
      assert Window(y, v, 1 + |x|)[1..] == Window(y, v + 1, |x|);
    } else {
      assert Overlay(sum, x, []) == x;
    }
  }

  lemma {:induction false} MergeKidsTagged(sum: Sum, t: Tree, c: Tree, i: nat, u: string)
    requires i <= |t.kids|
    ensures var x, y := Tagged(t.kids[i..], u), Tagged(c.kids, u);
            Tagged(MergeKids(sum, t, c, i), u) == Overlay(sum, x, Window(y, |Tagged(t.kids[..i], u)|, |x|))
    decreases |t.kids| - i
  {
    if i < |t.kids| {
      MergeKidsTagged(sum, t, c, i + 1, u);
      MergedTurn(sum, t, c, i, u, Tagged(t.kids[i + 1..], u), |Tagged(t.kids[..i], u)|);
    }
  }

  lemma MergedTurn(sum: Sum, t: Tree, c: Tree, i: nat, u: string, x: seq<Tree>, v: nat)
    requires i < |t.kids| && x == Tagged(t.kids[i + 1..], u) && v == |Tagged(t.kids[..i], u)|
    requires Tagged(MergeKids(sum, t, c, i + 1), u) ==
             Overlay(sum, x, Window(Tagged(c.kids, u), |Tagged(t.kids[..i + 1], u)|, |x|))
    ensures var x', y := Tagged(t.kids[i..], u), Tagged(c.kids, u);
            Tagged(MergeKids(sum, t, c, i), u) == Overlay(sum, x', Window(y, v, |x'|))
  {
    TaggedNext(t.kids, i, u);
    MergedNext(sum, t, c, i, u);
    if u == t.kids[i].tag {
      OverlayWindow(sum, t.kids[i].node, x, Tagged(c.kids, u), v);
    } else {
      NothingInFront(Tagged(MergeKids(sum, t, c, i + 1), u));
      NothingInFront(x);
    }
  }

  lemma MergedNext(sum: Sum, t: Tree, c: Tree, i: nat, u: string)
    requires i < |t.kids|
    ensures var k, y, v := t.kids[i], Tagged(c.kids, t.kids[i].tag), |Tagged(t.kids[..i], t.kids[i].tag)|;
            Tagged(MergeKids(sum, t, c, i), u) ==
            (if u != k.tag then []
             else if v >= |y| then [k.node] else if Removes(y[v]) then [] else [Merge(sum, k.node, y[v])]) +
            Tagged(MergeKids(sum, t, c, i + 1), u)
  {
    TaggedConcat(MergedKid(sum, t, c, i), MergeKids(sum, t, c, i + 1), u);
    MergedKidTagged(sum, t, c, i, u);
  }

  lemma MergedKidTagged(sum: Sum, t: Tree, c: Tree, i: nat, u: string)
    requires i < |t.kids|
    ensures var k, y, v := t.kids[i], Tagged(c.kids, t.kids[i].tag), |Tagged(t.kids[..i], t.kids[i].tag)|;
            Tagged(MergedKid(sum, t, c, i), u) ==
            if u != k.tag then []
            else if v >= |y| then [k.node] else if Removes(y[v]) then [] else [Merge(sum, k.node, y[v])]
  {
  }

  /** One child further. */
  lemma TaggedNext(kids: seq<Kid>, i: nat, u: string)
    requires i < |kids|
    ensures Tagged(kids[i..], u) == (if kids[i].tag == u then [kids[i].node] else []) + Tagged(kids[i + 1..], u)
    ensures |Tagged(kids[..i + 1], u)| == |Tagged(kids[..i], u)| + if kids[i].tag == u then 1 else 0
  {
    assert kids[i..][1..] == kids[i + 1..];
    assert kids[..i + 1] == kids[..i] + [kids[i]];
    TaggedConcat(kids[..i], [kids[i]], u);
  }

  /** Seen from one tag, merging is the positional overlay of the child vectors. */
  lemma MergeIsOverlay(sum: Sum, t: Tree, c: Tree, u: string)
    ensures Tagged(Merge(sum, t, c).kids, u) == Overlay(sum, Tagged(t.kids, u), Tagged(c.kids, u))
  {
    var x, y := Tagged(t.kids, u), Tagged(c.kids, u);
    var tags := TagsOf(c.kids);
    TagsOfNoDup(c.kids);
    TaggedConcat(MergeKids(sum, t, c, 0), Extra(t.kids, c.kids, tags), u);
    assert t.kids[0..] == t.kids;
    MergeKidsTagged(sum, t, c, 0, u);
    ExtraTagged(t.kids, c.kids, tags, u);
    if |x| <= |y| {
      OverlayTail(sum, x, y);
    }
  }

  // ----- Merging by a node that neither adds to attributes nor removes children -----

  ghost predicate Plain(c: Tree)
    decreases c
  {
    (forall k :: k in c.attrs ==> !IsAddTo(k)) &&
    forall i :: 0 <= i < |c.kids| ==> !Removes(c.kids[i].node) && Plain(c.kids[i].node)
  }

  ghost predicate PlainList(y: seq<Tree>) {
    forall i :: 0 <= i < |y| ==> !Removes(y[i]) && Plain(y[i])
  }

  lemma PlainTagged(c: Tree, tag: string)
    requires Plain(c)
    ensures PlainList(Tagged(c.kids, tag))
  {
    forall i: nat | i < |Tagged(c.kids, tag)|
      ensures !Removes(Tagged(c.kids, tag)[i]) && Plain(Tagged(c.kids, tag)[i])
    {
      TaggedSmaller(c.kids, tag, i);
      var j :| 0 <= j < |c.kids| && c.kids[j] == Kid(tag, Tagged(c.kids, tag)[i]);
      assert Plain(c.kids[j].node);
    }
  }

  lemma PlainAttrs(sum: Sum, t: Tree, c: Tree)
    requires Plain(c)
    ensures MergeAttrs(sum, t.attrs, c.attrs) == t.attrs + c.attrs
  {
    forall k
      ensures ADD_TO + k !in c.attrs
    {
      assert (ADD_TO + k)[..7] == ADD_TO;
    }
  }

  lemma {:induction false} OverlayAt(sum: Sum, x: seq<Tree>, y: seq<Tree>)
    requires forall i :: 0 <= i < |y| ==> !Removes(y[i])
    ensures var r := Overlay(sum, x, y);
            |r| == (if |x| < |y| then |y| else |x|) &&
            forall i :: 0 <= i < |r| ==>
              r[i] == if i >= |y| then x[i] else if i >= |x| then y[i] else Merge(sum, x[i], y[i])
  {
    if x != [] && y != [] {
      OverlayAt(sum, x[1..], y[1..]);
    }
  }

  /** What a reader finds at the end of a path: no node, a node without the attribute, or its text. */
  datatype View = NoNode | NoKey | Text(text: string)

  function Find(t: Tree, path: seq<Step>, key: string): View
    decreases |path|
  {
    if path == [] then (if key in t.attrs then Text(t.attrs[key]) else NoKey)
    else if path[0].index < |Tagged(t.kids, path[0].tag)|
    then Find(Tagged(t.kids, path[0].tag)[path[0].index], path[1..], key)
    else NoNode
  }

  function Over(below: View, above: View): View {
    if above.Text? || below.NoNode? then above else below
  }

  /** Every attribute of the merged tree is the one of `c`, or else the one of `t`. */
  lemma {:induction false} MergeFinds(sum: Sum, t: Tree, c: Tree, path: seq<Step>, key: string)
    requires Plain(c)
    ensures Find(Merge(sum, t, c), path, key) == Over(Find(t, path, key), Find(c, path, key))
    decreases |path|
  {
    if path == [] {
      PlainAttrs(sum, t, c);
    } else {
      var tag, i := path[0].tag, path[0].index;
      var x, y := Tagged(t.kids, tag), Tagged(c.kids, tag);
      MergeIsOverlay(sum, t, c, tag);
      PlainTagged(c, tag);
      OverlayAt(sum, x, y);
      if i < |x| && i < |y| {
        MergeFinds(sum, x[i], y[i], path[1..], key);
      }
    }
  }

  ghost predicate SameFinds(a: Tree, b: Tree) {
    forall path, key :: Find(a, path, key) == Find(b, path, key)
  }

  lemma {:induction false} MergeKidsPlain(sum: Sum, b: Tree, c: Tree, i: nat)
    requires Plain(b) && Plain(c) && i <= |b.kids|
    ensures forall j :: 0 <= j < |MergeKids(sum, b, c, i)| ==>
              !Removes(MergeKids(sum, b, c, i)[j].node) && Plain(MergeKids(sum, b, c, i)[j].node)
    decreases b, |b.kids| - i
  {
    if i < |b.kids| {
      var k := b.kids[i];
      MergeKidsPlain(sum, b, c, i + 1);
      var v, over := |Tagged(b.kids[..i], k.tag)|, Tagged(c.kids, k.tag);
      PlainTagged(c, k.tag);
      if v < |over| {
        MergePlain(sum, k.node, over[v]);
      }
    }
  }

  lemma {:induction false} ExtraPlain(kids: seq<Kid>, c: Tree, tags: seq<string>)
    requires Plain(c)
    ensures forall j :: 0 <= j < |Extra(kids, c.kids, tags)| ==>
              !Removes(Extra(kids, c.kids, tags)[j].node) && Plain(Extra(kids, c.kids, tags)[j].node)
  {
    if tags != [] {
      ExtraPlain(kids, c, tags[1..]);
      PlainTagged(c, tags[0]);
      var x, y := Tagged(kids, tags[0]), Tagged(c.kids, tags[0]);
      if |x| < |y| {
        UnderPlain(tags[0], y[|x|..]);
      }
    }
  }

  lemma {:induction false} UnderPlain(tag: string, nodes: seq<Tree>)
    requires PlainList(nodes)
    ensures forall j :: 0 <= j < |Under(tag, nodes)| ==>
              !Removes(Under(tag, nodes)[j].node) && Plain(Under(tag, nodes)[j].node)
  {
    if nodes != [] {
      UnderPlain(tag, nodes[1..]);
    }
  }

  lemma {:induction false} MergePlain(sum: Sum, b: Tree, c: Tree)
    requires Plain(b) && Plain(c)
    ensures Plain(Merge(sum, b, c))
    ensures !Removes(b) && !Removes(c) ==> !Removes(Merge(sum, b, c))
    decreases b, |b.kids| + 1
  {
    PlainAttrs(sum, b, c);
    MergeKidsPlain(sum, b, c, 0);
    ExtraPlain(b.kids, c, TagsOf(c.kids));
  }

  /** Merging is associative up to the interleaving of different tags. */
  lemma MergeAssociative(sum: Sum, a: Tree, b: Tree, c: Tree)
    requires Plain(b) && Plain(c)
    ensures SameFinds(Merge(sum, Merge(sum, a, b), c), Merge(sum, a, Merge(sum, b, c)))
  {
    MergePlain(sum, b, c);
    forall path, key
      ensures Find(Merge(sum, Merge(sum, a, b), c), path, key) == Find(Merge(sum, a, Merge(sum, b, c)), path, key)
    {
      MergeFinds(sum, Merge(sum, a, b), c, path, key);
      MergeFinds(sum, a, b, path, key);
      MergeFinds(sum, a, Merge(sum, b, c), path, key);
      MergeFinds(sum, b, c, path, key);
    }
  }

  lemma {:induction false} MergeKidsOrder(sum: Sum, t: Tree, c: Tree, i: nat)
    requires Plain(c) && i <= |t.kids|
    ensures TagOrder(MergeKids(sum, t, c, i)) == TagOrder(t.kids[i..])
    decreases |t.kids| - i
  {
    if i < |t.kids| {
      assert t.kids[i..] == [t.kids[i]] + t.kids[i + 1..];
      PlainTagged(c, t.kids[i].tag);
      MergeKidsOrder(sum, t, c, i + 1);
    }
  }

  lemma {:induction false} NoExtra(kids: seq<Kid>, more: seq<Kid>, tags: seq<string>)
    requires forall u :: |Tagged(more, u)| <= |Tagged(kids, u)|
    ensures Extra(kids, more, tags) == []
  {
    if tags != [] {
      NoExtra(kids, more, tags[1..]);
    }
  }

  lemma MergeOrder(sum: Sum, m: Tree, c: Tree)
    requires Plain(c)
    requires forall u :: |Tagged(c.kids, u)| <= |Tagged(m.kids, u)|
    ensures TagOrder(Merge(sum, m, c).kids) == TagOrder(m.kids)
  {
    NoExtra(m.kids, c.kids, TagsOf(c.kids));
    MergeKidsOrder(sum, m, c, 0);
    assert m.kids[0..] == m.kids;
    assert MergeKids(sum, m, c, 0) + [] == MergeKids(sum, m, c, 0);
  }

  lemma MergeTagged(sum: Sum, m: Tree, c: Tree)
    requires forall u :: Overlay(sum, Tagged(m.kids, u), Tagged(c.kids, u)) == Tagged(m.kids, u)
    ensures forall u :: Tagged(Merge(sum, m, c).kids, u) == Tagged(m.kids, u)
  {
    forall u
      ensures Tagged(Merge(sum, m, c).kids, u) == Tagged(m.kids, u)
    {
      MergeIsOverlay(sum, m, c, u);
    }
  }

  /** If `c` has nothing to add to `m`, and no vector changes, the whole node stays as it is. */
  lemma MergeUnchanged(sum: Sum, m: Tree, c: Tree)
    requires Plain(c) && m.attrs + c.attrs == m.attrs
    requires forall u :: |Tagged(c.kids, u)| <= |Tagged(m.kids, u)|
    requires forall u :: Overlay(sum, Tagged(m.kids, u), Tagged(c.kids, u)) == Tagged(m.kids, u)
    ensures Merge(sum, m, c) == m
  {
    MergeOrder(sum, m, c);
    MergeTagged(sum, m, c);
    Rebuild(Merge(sum, m, c).kids, m.kids);
    PlainAttrs(sum, m, c);
  }

  lemma {:induction false} MergeSelf(sum: Sum, c: Tree)
    requires Plain(c)
    ensures Merge(sum, c, c) == c
    decreases c
  {
    forall u
      ensures Overlay(sum, Tagged(c.kids, u), Tagged(c.kids, u)) == Tagged(c.kids, u)
    {
      var y := Tagged(c.kids, u);
      PlainTagged(c, u);
      OverlayAt(sum, y, y);
      forall i: nat | i < |y|
        ensures Merge(sum, y[i], y[i]) == y[i]
      {
        ChildSmaller(c, u, i);
        MergeSelf(sum, y[i]);
      }
    }
    MergeUnchanged(sum, c, c);
  }

  /** Merging the same node a second time changes nothing at all. */
  lemma {:induction false} MergeIdempotent(sum: Sum, t: Tree, c: Tree)
    requires Plain(c)
    ensures Merge(sum, Merge(sum, t, c), c) == Merge(sum, t, c)
    decreases t
  {
    var m := Merge(sum, t, c);
    PlainAttrs(sum, t, c);
    forall u
      ensures |Tagged(c.kids, u)| <= |Tagged(m.kids, u)|
      ensures Overlay(sum, Tagged(m.kids, u), Tagged(c.kids, u)) == Tagged(m.kids, u)
    {
      var x, y, z := Tagged(t.kids, u), Tagged(c.kids, u), Tagged(m.kids, u);
      MergeIsOverlay(sum, t, c, u);
      PlainTagged(c, u);
      OverlayAt(sum, x, y);
      OverlayAt(sum, z, y);
      forall i: nat | i < |y|
        ensures Merge(sum, z[i], y[i]) == z[i]
      {
        if i < |x| {
          ChildSmaller(t, u, i);
          MergeIdempotent(sum, x[i], y[i]);
        } else {
          MergeSelf(sum, y[i]);
        }
      }
    }
    MergeUnchanged(sum, m, c);
  }

  /** `inherit_from` is the same overlay with `t` on top. */
  function Inherit(sum: Sum, t: Tree, c: Tree): Tree {
    Merge(sum, c, t)
  }

  lemma InheritKeepsOwn(sum: Sum, t: Tree, c: Tree, path: seq<Step>, key: string)
    requires Plain(t)
    ensures Find(Inherit(sum, t, c), path, key) == Over(Find(c, path, key), Find(t, path, key))
  {
    MergeFinds(sum, c, t, path, key);
  }

  // ----- The source's order of work: merge in place, append, then remove what was marked -----

  function Visits(t: Tree, i: nat): nat
    requires i < |t.kids|
  {
    |Tagged(t.kids[..i], t.kids[i].tag)|
  }

  predicate GoesAway(t: Tree, c: Tree, i: nat)
    requires i < |t.kids|
  {
    var over := Tagged(c.kids, t.kids[i].tag);
    Visits(t, i) < |over| && Removes(over[Visits(t, i)])
  }

  /** Child `i` after the first loop, whether or not it is to be removed. */
  function Staged(sum: Sum, t: Tree, c: Tree, i: nat): Kid
    requires i < |t.kids|
  {
    if GoesAway(t, c, i) then t.kids[i] else MergedKid(sum, t, c, i)[0]
  }

  ghost predicate StagedTo(sum: Sum, t: Tree, c: Tree, i: nat, kids: seq<Kid>) {
    |kids| == |t.kids| &&
    forall j :: 0 <= j < |kids| ==> kids[j] == if j < i then Staged(sum, t, c, j) else t.kids[j]
  }

  lemma StagedNext(sum: Sum, t: Tree, c: Tree, i: nat, kids: seq<Kid>, next: seq<Kid>)
    requires i < |t.kids| && StagedTo(sum, t, c, i, kids) && next == kids[i := Staged(sum, t, c, i)]
    ensures StagedTo(sum, t, c, i + 1, next)
  {
  }

  function ToRemove(t: Tree, c: Tree, i: nat): seq<Step>
    requires i <= |t.kids|
    decreases |t.kids| - i
  {
    if i == |t.kids| then []
    else (if GoesAway(t, c, i) then [Step(t.kids[i].tag, Visits(t, i))] else []) + ToRemove(t, c, i + 1)
  }

  lemma ToRemoveNext(marks: seq<Step>, t: Tree, c: Tree, i: nat)
    requires i < |t.kids|
    ensures (if GoesAway(t, c, i) then marks + [Step(t.kids[i].tag, Visits(t, i))] else marks) +
            ToRemove(t, c, i + 1) ==
            marks + ToRemove(t, c, i)
  {
  }

  function Got(m: map<string, nat>, tag: string): nat {
    if tag in m then m[tag] else 0
  }

  /** How far the children of `c` have been visited once `kids` were gone through. */
  ghost predicate Visited(visits: map<string, nat>, kids: seq<Kid>, c: Tree) {
    forall u :: Got(visits, u) == Min(|Tagged(kids, u)|, |Tagged(c.kids, u)|)
  }

  function Min(x: nat, y: nat): nat {
    if x < y then x else y
  }

  lemma VisitedNext(visits: map<string, nat>, kids: seq<Kid>, c: Tree, i: nat)
    requires i < |kids| && Visited(visits, kids[..i], c)
    ensures var tag := kids[i].tag;
            var n := Got(visits, tag);
            Visited(if n < |Tagged(c.kids, tag)| then visits[tag := n + 1] else visits, kids[..i + 1], c)
  {
    forall u
      ensures Got(visits, u) == Min(|Tagged(kids[..i], u)|, |Tagged(c.kids, u)|)
      ensures |Tagged(kids[..i + 1], u)| == |Tagged(kids[..i], u)| + if u == kids[i].tag then 1 else 0
    {
      assert kids[..i + 1] == kids[..i] + [kids[i]];
      TaggedConcat(kids[..i], [kids[i]], u);
    }
  }

  /** No mark is at an index that the earlier removals under its tag exceed, so the difference, which the
      source takes of unsigned numbers, does not wrap around. */
  predicate Correctable(marks: seq<Step>, removals: map<string, nat>)
    decreases marks
  {
    marks == [] ||
    (Got(removals, marks[0].tag) <= marks[0].index &&
     Correctable(marks[1..], removals[marks[0].tag := Got(removals, marks[0].tag) + 1]))
  }

  /** The last loop: each removal makes up for the earlier ones under its tag. */
  function RemoveMarked(kids: seq<Kid>, marks: seq<Step>, removals: map<string, nat>): seq<Kid>
    requires Correctable(marks, removals)
    decreases marks
  {
    if marks == [] then kids
    else
      var tag, removes := marks[0].tag, Got(removals, marks[0].tag);
      RemoveMarked(RemoveAt(kids, tag, marks[0].index - removes), marks[1..], removals[tag := removes + 1])
  }

  lemma {:induction false} MarksCorrectable(t: Tree, c: Tree, i: nat, kept: seq<Kid>, removals: map<string, nat>)
    requires i <= |t.kids| && AllCounted(t, i, kept, removals)
    ensures Correctable(ToRemove(t, c, i), removals)
    decreases |t.kids| - i
  {
    if i < |t.kids| {
      var k := t.kids[i];
      CountNext(t, i, kept, removals, k);
      if GoesAway(t, c, i) {
        var rest := removals[k.tag := Got(removals, k.tag) + 1];
        MarksCorrectable(t, c, i + 1, kept, rest);
        assert ToRemove(t, c, i) == [Step(k.tag, Visits(t, i))] + ToRemove(t, c, i + 1);
      } else {
        MarksCorrectable(t, c, i + 1, kept + [k], removals);
        assert ToRemove(t, c, i) == ToRemove(t, c, i + 1);
      }
    }
  }

  lemma {:induction false} RemoveBetween(pre: seq<Kid>, k: Kid, post: seq<Kid>)
    ensures RemoveAt(pre + [k] + post, k.tag, |Tagged(pre, k.tag)|) == pre + post
  {
    if pre == [] {
      assert pre + [k] + post == [k] + post;
      assert pre + post == post;
    } else {
      assert (pre + [k] + post)[1..] == pre[1..] + [k] + post;
      RemoveBetween(pre[1..], k, post);
      assert [pre[0]] + (pre[1..] + post) == pre + post;
    }
  }

  /** The deferred removals hit exactly the children that were to go: with `kept` left of the children
      before `i`, and the later ones still staged, they leave what `MergeKids` keeps. */
  lemma {:induction false} RemovalsHit(sum: Sum, t: Tree, c: Tree, i: nat, kept: seq<Kid>, staged: seq<Kid>,
                                       extra: seq<Kid>, removals: map<string, nat>)
    requires i <= |t.kids| == |staged|
    requires forall j :: 0 <= j < |staged| ==> staged[j] == Staged(sum, t, c, j)
    requires AllCounted(t, i, kept, removals) && Correctable(ToRemove(t, c, i), removals)
    ensures RemoveMarked(kept + (staged[i..] + extra), ToRemove(t, c, i), removals) ==
            kept + (MergeKids(sum, t, c, i) + extra)
    decreases |t.kids| - i
  {
    if i == |t.kids| {
      NothingInFront(extra);
    } else {
      var k, rest := staged[i], staged[i + 1..] + extra;
      NextStaged(staged, extra, i);
      CountNext(t, i, kept, removals, k);
      if GoesAway(t, c, i) {
        RemovalStep(sum, t, c, i, kept, k, rest, removals);
        RemovalsHit(sum, t, c, i + 1, kept, staged, extra, removals[k.tag := Got(removals, k.tag) + 1]);
      } else {
        KeepStep(sum, t, c, i, kept, k, rest, extra);
        RemovalsHit(sum, t, c, i + 1, kept + [k], staged, extra, removals);
      }
    }
  }

  lemma NextStaged(staged: seq<Kid>, extra: seq<Kid>, i: nat)
    requires i < |staged|
    ensures staged[i..] + extra == [staged[i]] + (staged[i + 1..] + extra)
  {
  }

  ghost predicate AllCounted(t: Tree, i: nat, kept: seq<Kid>, removals: map<string, nat>)
    requires i <= |t.kids|
  {
    forall u :: Got(removals, u) + |Tagged(kept, u)| == |Tagged(t.kids[..i], u)|
  }

  lemma CountNext(t: Tree, i: nat, kept: seq<Kid>, removals: map<string, nat>, k: Kid)
    requires i < |t.kids| && k.tag == t.kids[i].tag && AllCounted(t, i, kept, removals)
    ensures AllCounted(t, i + 1, kept + [k], removals)
    ensures AllCounted(t, i + 1, kept, removals[k.tag := Got(removals, k.tag) + 1])
    ensures Got(removals, k.tag) + |Tagged(kept, k.tag)| == Visits(t, i)
  {
    forall u
      ensures Got(removals, u) + |Tagged(kept, u)| == |Tagged(t.kids[..i], u)|
      ensures |Tagged(t.kids[..i + 1], u)| == |Tagged(t.kids[..i], u)| + if u == k.tag then 1 else 0
      ensures |Tagged(kept + [k], u)| == |Tagged(kept, u)| + if u == k.tag then 1 else 0
    {
      assert t.kids[..i + 1] == t.kids[..i] + [t.kids[i]];
      TaggedConcat(t.kids[..i], [t.kids[i]], u);
      TaggedConcat(kept, [k], u);
    }
  }

  lemma KeepStep(sum: Sum, t: Tree, c: Tree, i: nat, kept: seq<Kid>, k: Kid, rest: seq<Kid>, extra: seq<Kid>)
    requires i < |t.kids| && !GoesAway(t, c, i) && k == Staged(sum, t, c, i)
    ensures ToRemove(t, c, i) == ToRemove(t, c, i + 1)
    ensures kept + [k] + rest == kept + ([k] + rest)
    ensures kept + [k] + (MergeKids(sum, t, c, i + 1) + extra) == kept + (MergeKids(sum, t, c, i) + extra)
  {
    assert MergedKid(sum, t, c, i) == [k];
  }

  lemma RemovalStep(sum: Sum, t: Tree, c: Tree, i: nat, kept: seq<Kid>, k: Kid, rest: seq<Kid>,
                    removals: map<string, nat>)
    requires i < |t.kids| && GoesAway(t, c, i) && k.tag == t.kids[i].tag
    requires Got(removals, k.tag) + |Tagged(kept, k.tag)| == Visits(t, i)
    requires Correctable(ToRemove(t, c, i), removals)
    ensures Correctable(ToRemove(t, c, i + 1), removals[k.tag := Got(removals, k.tag) + 1])
    ensures RemoveMarked(kept + ([k] + rest), ToRemove(t, c, i), removals) ==
            RemoveMarked(kept + rest, ToRemove(t, c, i + 1), removals[k.tag := Got(removals, k.tag) + 1])
    ensures MergeKids(sum, t, c, i) == MergeKids(sum, t, c, i + 1)
  {
    var marks := ToRemove(t, c, i);
    assert marks == [Step(k.tag, Visits(t, i))] + ToRemove(t, c, i + 1);
    FirstMark(marks, kept, k, rest, removals);
    NoneMerged(sum, t, c, i);
  }

  lemma FirstMark(marks: seq<Step>, kept: seq<Kid>, k: Kid, rest: seq<Kid>, removals: map<string, nat>)
    requires marks != [] && marks[0] == Step(k.tag, Got(removals, k.tag) + |Tagged(kept, k.tag)|)
    requires Correctable(marks, removals)
    ensures Correctable(marks[1..], removals[k.tag := Got(removals, k.tag) + 1])
    ensures RemoveMarked(kept + ([k] + rest), marks, removals) ==
            RemoveMarked(kept + rest, marks[1..], removals[k.tag := Got(removals, k.tag) + 1])
  {
    RemoveBetween(kept, k, rest);
    Associate(kept, [k], rest);
  }

  lemma NoneMerged(sum: Sum, t: Tree, c: Tree, i: nat)
    requires i < |t.kids| && GoesAway(t, c, i)
    ensures MergeKids(sum, t, c, i) == MergeKids(sum, t, c, i + 1)
  {
    assert MergedKid(sum, t, c, i) == [];
  }

  // ----- merge_attributes, key by key in ascending order -----

  ghost predicate Ascending(keys: seq<string>) {
    forall i, j :: 0 <= i < j < |keys| ==> Less(keys[i], keys[j])
  }

  lemma {:induction false} AddTagAscends(tags: seq<string>, tag: string)
    requires Ascending(tags) && tag !in tags
    ensures Ascending(AddTag(tags, tag))
  {
    if tags == [] {
    } else if Less(tag, tags[0]) {
      forall j | 0 <= j < |tags|
        ensures Less(tag, tags[j])
      {
        if j > 0 {
          LessTransitive(tag, tags[0], tags[j]);
        }
      }
    } else {
      LessTotal(tag, tags[0]);
      AddTagAscends(tags[1..], tag);
      var r := AddTag(tags[1..], tag);
      forall j | 0 <= j < |r|
        ensures Less(tags[0], r[j])
      {
        assert r[j] in r;
        if r[j] != tag {
          var m :| 0 <= m < |tags[1..]| && tags[1..][m] == r[j];
          assert Less(tags[0], tags[m + 1]);
        }
      }
    }
  }

  method SortedKeys(keys: set<string>) returns (r: seq<string>)
    ensures Ascending(r) && forall k :: k in r <==> k in keys
  {
    r := [];
    var rest := keys;
    while rest != {}
      invariant rest <= keys && Ascending(r) && forall k :: k in r <==> k in keys && k !in rest
      decreases |rest|
    {
      var k :| k in rest;
      rest := rest - {k};
      AddTagAscends(r, k);
      r := AddTag(r, k);
    }
  }

  // One more attribute, whose key comes after all the ones merged so far.

  lemma AssignedAttr(sum: Sum, a: Attrs, before: Attrs, key: string, v: string, k: string)
    requires !IsAddTo(key) && forall q :: q in before ==> Less(q, key)
    ensures MergedAttr(sum, a, before[key := v], k) == if k == key then v else MergedAttr(sum, a, before, k)
  {
    LessTotal(key, ADD_TO + key);
    assert (ADD_TO + k)[..7] == ADD_TO;
  }

  lemma AssignedKeys(a: Attrs, before: Attrs, key: string, v: string)
    requires !IsAddTo(key)
    ensures MergedKeys(a, before[key := v]) == MergedKeys(a, before) + {key}
  {
    var l, r := MergedKeys(a, before[key := v]), MergedKeys(a, before) + {key};
    forall k
      ensures k in l <==> k in r
    {
      if k in r && k !in a && k != key && !(k in before && !IsAddTo(k)) {
        var q :| q in before && IsAddTo(q) && q[7..] == k;
        assert q in before[key := v];
      }
      if k in l && k !in a && k != key && !(k in before && !IsAddTo(k)) {
        var q :| q in before[key := v] && IsAddTo(q) && q[7..] == k;
      }
    }
  }

  lemma Assigned(sum: Sum, a: Attrs, before: Attrs, key: string, v: string)
    requires !IsAddTo(key) && forall q :: q in before ==> Less(q, key)
    ensures MergeAttrs(sum, a, before[key := v]) == MergeAttrs(sum, a, before)[key := v]
  {
    AssignedKeys(a, before, key, v);
    var m, n := MergeAttrs(sum, a, before[key := v]), MergeAttrs(sum, a, before)[key := v];
    forall k | k in m
      ensures m[k] == n[k]
    {
      AssignedAttr(sum, a, before, key, v, k);
      assert k == key || k in MergedKeys(a, before);
    }
    assert m.Keys == n.Keys;
  }

  lemma AddedAttr(sum: Sum, a: Attrs, before: Attrs, x: string, v: string, k: string)
    requires forall q :: q in before ==> Less(q, ADD_TO + x)
    ensures MergedAttr(sum, a, before[ADD_TO + x := v], k) ==
            if k == x then sum(MergedAttr(sum, a, before, k), v) else MergedAttr(sum, a, before, k)
  {
    LessTotal(x, ADD_TO + x);
    assert (ADD_TO + x)[..7] == ADD_TO && (ADD_TO + x)[7..] == x && (ADD_TO + k)[7..] == k;
    if ADD_TO + x in before {
      LessTotal(ADD_TO + x, ADD_TO + x);
    }
  }

  lemma Added(sum: Sum, a: Attrs, before: Attrs, x: string, v: string)
    requires forall q :: q in before ==> Less(q, ADD_TO + x)
    ensures var m := MergeAttrs(sum, a, before);
            MergeAttrs(sum, a, before[ADD_TO + x := v]) == m[x := sum(Read(m, x), v)]
  {
    assert (ADD_TO + x)[..7] == ADD_TO && (ADD_TO + x)[7..] == x;
    AddedKeys(a, before, ADD_TO + x, v);
    MissingReadsEmpty(sum, a, before, x);
    forall k | k in MergedKeys(a, before) + {x}
      ensures MergedAttr(sum, a, before[ADD_TO + x := v], k) ==
              if k == x then sum(MergedAttr(sum, a, before, x), v) else MergedAttr(sum, a, before, k)
    {
      AddedAttr(sum, a, before, x, v, k);
    }
    SameAttrMaps(MergeAttrs(sum, a, before[ADD_TO + x := v]),
                 MergeAttrs(sum, a, before)[x := sum(MergedAttr(sum, a, before, x), v)]);
  }

  lemma SameAttrMaps(m: Attrs, n: Attrs)
    requires m.Keys == n.Keys && forall k :: k in m ==> m[k] == n[k]
    ensures m == n
  {
  }

  lemma AddedKey(sum: Sum, a: Attrs, before: Attrs, key: string, v: string)
    requires IsAddTo(key) && forall q :: q in before ==> Less(q, key)
    ensures var m := MergeAttrs(sum, a, before);
            MergeAttrs(sum, a, before[key := v]) == m[key[7..] := sum(Read(m, key[7..]), v)]
  {
    assert key == ADD_TO + key[7..];
    Added(sum, a, before, key[7..], v);
  }

  lemma MergeNothing(sum: Sum, a: Attrs)
    ensures MergeAttrs(sum, a, map[]) == a
  {
  }

  lemma MissingReadsEmpty(sum: Sum, a: Attrs, c: Attrs, x: string)
    ensures Read(MergeAttrs(sum, a, c), x) == MergedAttr(sum, a, c, x)
  {
  }

  lemma AddedKeys(a: Attrs, before: Attrs, key: string, v: string)
    requires IsAddTo(key)
    ensures MergedKeys(a, before[key := v]) == MergedKeys(a, before) + {key[7..]}
  {
    var l, r := MergedKeys(a, before[key := v]), MergedKeys(a, before) + {key[7..]};
    forall k
      ensures k in l <==> k in r
    {
      if k in r && k !in a && k != key[7..] && !(k in before && !IsAddTo(k)) {
        var q :| q in before && IsAddTo(q) && q[7..] == k;
        assert q in before[key := v];
      }
      if k in l && k !in a && !(k in before && !IsAddTo(k)) {
        var q :| q in before[key := v] && IsAddTo(q) && q[7..] == k;
      }
      if k == key[7..] {
        assert key in before[key := v];
      }
    }
  }

  // ----- In what order, and by which names -----

  /** The order of strings goes by the first character in which they differ; a front comes before the whole. */
  lemma {:induction false} LessIsLexicographic(s: string, t: string)
    ensures Less(s, t) <==> exists i :: DiffersAt(s, t, i)
  {
    if s != "" && t != "" && s[0] == t[0] {
      LessIsLexicographic(s[1..], t[1..]);
      forall i
        ensures DiffersAt(s, t, i) <==> i > 0 && DiffersAt(s[1..], t[1..], i - 1)
      {
        DiffersLater(s, t, i);
      }
      if Less(s, t) {
        var i :| DiffersAt(s[1..], t[1..], i);
        assert DiffersAt(s, t, i + 1);
      }
    } else {
      assert t != "" && (s == "" || s[0] < t[0]) ==> DiffersAt(s, t, 0);
      forall i | DiffersAt(s, t, i)
        ensures i == 0
      {
        if i > 0 {
          FrontsAgree(s, t, i);
        }
      }
    }
  }

  predicate DiffersAt(s: string, t: string, i: int) {
    0 <= i <= |s| && i < |t| && s[..i] == t[..i] && (i == |s| || s[i] < t[i])
  }

  lemma DiffersLater(s: string, t: string, i: int)
    requires s != "" && t != "" && s[0] == t[0]
    ensures DiffersAt(s, t, i) <==> i > 0 && DiffersAt(s[1..], t[1..], i - 1)
  {
    if 0 < i <= |s| && i < |t| {
      assert s[..i] == [s[0]] + s[1..][..i - 1] && t[..i] == [t[0]] + t[1..][..i - 1];
      assert s[..i][1..] == s[1..][..i - 1] && t[..i][1..] == t[1..][..i - 1];
    }
  }

  lemma FrontsAgree(s: string, t: string, i: int)
    requires 0 < i <= |s| && i < |t| && s[..i] == t[..i]
    ensures s[0] == t[0]
  {
    assert s[..i][0] == s[0] && t[..i][0] == t[0];
  }

  /** No child comes before one with a lesser tag. */
  ghost predicate ByTag(kids: seq<Kid>) {
    forall i, j :: 0 <= i < j < |kids| ==> !Less(kids[j].tag, kids[i].tag)
  }

  lemma UnderByTag(tag: string, nodes: seq<Tree>, kids: seq<Kid>)
    requires ByTag(kids) && forall k :: k in kids ==> Less(tag, k.tag)
    ensures ByTag(Under(tag, nodes) + kids) && forall k :: k in Under(tag, nodes) + kids ==> k.tag == tag || k in kids
  {
    UnderTags(tag, nodes);
    LessIrreflexive(tag);
    var all := Under(tag, nodes) + kids;
    forall i, j | 0 <= i < j < |all|
      ensures !Less(all[j].tag, all[i].tag)
    {
      if all[i].tag == tag && j >= |Under(tag, nodes)| {
        assert all[j] in kids;
        LessTotal(tag, all[j].tag);
      }
    }
  }

  lemma {:induction false} UnderTags(tag: string, nodes: seq<Tree>)
    ensures forall i :: 0 <= i < |Under(tag, nodes)| ==> Under(tag, nodes)[i].tag == tag
  {
    if nodes != [] {
      UnderTags(tag, nodes[1..]);
    }
  }

  /** What a merge appends comes in the order of the tags. */
  lemma {:induction false} ExtraByTag(kids: seq<Kid>, more: seq<Kid>, tags: seq<string>)
    requires Ascending(tags)
    ensures ByTag(Extra(kids, more, tags)) && forall k :: k in Extra(kids, more, tags) ==> k.tag in tags
  {
    if tags != [] {
      ExtraByTag(kids, more, tags[1..]);
      forall k | k in Extra(kids, more, tags[1..])
        ensures Less(tags[0], k.tag)
      {
        var i :| 0 <= i < |tags[1..]| && tags[1..][i] == k.tag;
        assert tags[i + 1] == k.tag;
      }
      var x, y := Tagged(kids, tags[0]), Tagged(more, tags[0]);
      UnderByTag(tags[0], if |x| < |y| then y[|x|..] else [], Extra(kids, more, tags[1..]));
    }
  }

  lemma {:induction false} TagsAscend(kids: seq<Kid>)
    ensures Ascending(TagsOf(kids))
  {
    if kids != [] {
      TagsAscend(kids[1..]);
      if kids[0].tag !in TagsOf(kids[1..]) {
        AddTagAscends(TagsOf(kids[1..]), kids[0].tag);
      }
    }
  }

  /** A merged node: first what became of the own children, then the new ones, tag by tag in ascending order. */
  lemma MergeAppendsByTag(sum: Sum, t: Tree, c: Tree)
    ensures var own, all := MergeKids(sum, t, c, 0), Merge(sum, t, c).kids; own <= all && ByTag(all[|own|..])
  {
    TagsAscend(c.kids);
    ExtraByTag(t.kids, c.kids, TagsOf(c.kids));
    BehindOwn(MergeKids(sum, t, c, 0), Extra(t.kids, c.kids, TagsOf(c.kids)));
  }

  lemma BehindOwn(own: seq<Kid>, extra: seq<Kid>)
    ensures own <= own + extra && (own + extra)[|own|..] == extra
  {
  }

  /** The names that a merge gives a meaning to. */
  lemma MergeNames(sum: Sum, x: string, y: string)
    ensures MergeAttrs(sum, map["gold" := x], map["add_to_gold" := y]) == map["gold" := sum(x, y)]
    ensures forall yes :: yes == "yes" || yes == "true" ==> Removes(Tree(map["__remove" := yes], []))
    ensures forall no :: no != "yes" && no != "true" ==> !Removes(Tree(map["__remove" := no], []))
    ensures !Removes(EMPTY)
  {
    var a: Attrs := map["gold" := x];
    assert ADD_TO + "gold" == "add_to_gold";
    MergeNothing(sum, a);
    Added(sum, a, map[], "gold", y);
    assert a["gold" := sum(x, y)] == map["gold" := sum(x, y)];
  }

  /** A child is gone after the merge if the one laid over it asks for that, and is there otherwise. */
  lemma OneChildMerged(sum: Sum, tag: string, e: Tree, f: Tree)
    ensures Tagged(Merge(sum, Tree(map[], [Kid(tag, e)]), Tree(map[], [Kid(tag, f)])).kids, tag) ==
            if Read(f.attrs, "__remove") == "yes" || Read(f.attrs, "__remove") == "true" then [] else [Merge(sum, e, f)]
  {
    var t, c := Tree(map[], [Kid(tag, e)]), Tree(map[], [Kid(tag, f)]);
    MergeIsOverlay(sum, t, c, tag);
    OneTagged(tag, e);
    OneTagged(tag, f);
  }

  lemma OneTagged(tag: string, e: Tree)
    ensures Tagged([Kid(tag, e)], tag) == [e]
  {
    assert [Kid(tag, e)][1..] == [];
  }

  /** As long as no child goes, the own children keep their places. */
  lemma {:induction false} MergeKeepsPlaces(sum: Sum, t: Tree, c: Tree, i: nat)
    requires i <= |t.kids| && forall j :: i <= j < |t.kids| ==> !GoesAway(t, c, j)
    ensures TagOrder(MergeKids(sum, t, c, i)) == TagOrder(t.kids[i..])
    decreases |t.kids| - i
  {
    if i < |t.kids| {
      MergeKeepsPlaces(sum, t, c, i + 1);
      assert t.kids[i..] == [t.kids[i]] + t.kids[i + 1..] && t.kids[i..][1..] == t.kids[i + 1..];
      var m := MergedKid(sum, t, c, i);
      assert !GoesAway(t, c, i);
      assert |m| == 1 && m[0].tag == t.kids[i].tag;
      assert (m + MergeKids(sum, t, c, i + 1))[1..] == MergeKids(sum, t, c, i + 1);
    }
  }
}
