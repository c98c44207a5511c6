/** The value of a WML node as the rest of the program sees it: its attributes
    and its children in document order.  Two nodes are equal in the sense of
    the source's `operator==` exactly when these values are equal. */
module WmlTree {
  import opened Sequences

  type Attrs = map<string, string>

  datatype Tree = Tree(attrs: Attrs, kids: seq<Kid>)

  datatype Kid = Kid(tag: string, node: Tree)

  const EMPTY := Tree(map[], [])

  /** The child vector of one tag. */
  function Tagged(kids: seq<Kid>, tag: string): seq<Tree> {
    if kids == [] then []
    else if kids[0].tag == tag then [kids[0].node] + Tagged(kids[1..], tag)
    else Tagged(kids[1..], tag)
  }

  /** The attribute as `operator[] const` followed by `str()` reads it: missing reads as empty. */
  function Read(attrs: Attrs, key: string): string {
    if key in attrs then attrs[key] else ""
  }

  // ----- Edits of one child, addressed by tag and index within the tag -----

  /** Out of range, nothing is removed. */
  function RemoveAt(kids: seq<Kid>, tag: string, i: nat): seq<Kid> {
    if kids == [] then []
    else if kids[0].tag != tag then [kids[0]] + RemoveAt(kids[1..], tag, i)
    else if i == 0 then kids[1..]
    else [kids[0]] + RemoveAt(kids[1..], tag, i - 1)
  }

  /** The new child goes in front of the child that had its index, or last. */
  function InsertAt(kids: seq<Kid>, tag: string, i: nat, node: Tree): seq<Kid> {
    if kids == [] then [Kid(tag, node)]
    else if kids[0].tag != tag then [kids[0]] + InsertAt(kids[1..], tag, i, node)
    else if i == 0 then [Kid(tag, node)] + kids
    else [kids[0]] + InsertAt(kids[1..], tag, i - 1, node)
  }

  function UpdateAt(kids: seq<Kid>, tag: string, i: nat, node: Tree): seq<Kid> {
    if kids == [] then []
    else if kids[0].tag != tag then [kids[0]] + UpdateAt(kids[1..], tag, i, node)
    else if i == 0 then [Kid(tag, node)] + kids[1..]
    else [kids[0]] + UpdateAt(kids[1..], tag, i - 1, node)
  }

  lemma {:induction false} TaggedConcat(x: seq<Kid>, y: seq<Kid>, tag: string)
    ensures Tagged(x + y, tag) == Tagged(x, tag) + Tagged(y, tag)
  {
    if x == [] {
      assert x + y == y;
    } else {
      assert (x + y)[1..] == x[1..] + y;
      TaggedConcat(x[1..], y, tag);
    }
  }

  lemma {:induction false} TaggedSmaller(kids: seq<Kid>, tag: string, i: nat)
    requires i < |Tagged(kids, tag)|
    ensures exists j :: 0 <= j < |kids| && kids[j] == Kid(tag, Tagged(kids, tag)[i])
  {
    var rest := kids[1..];
    if kids[0].tag == tag && i == 0 {
      assert kids[0] == Kid(tag, Tagged(kids, tag)[0]);
    } else {
      var k := if kids[0].tag == tag then i - 1 else i;
      TaggedSmaller(rest, tag, k);
      var j :| 0 <= j < |rest| && rest[j] == Kid(tag, Tagged(rest, tag)[k]);
      assert kids[j + 1] == rest[j];
    }
  }

  /** Every child found under a tag is a proper part of its node. */
  lemma ChildSmaller(t: Tree, tag: string, i: nat)
    requires i < |Tagged(t.kids, tag)|
    ensures Tagged(t.kids, tag)[i] < t
  {
    TaggedSmaller(t.kids, tag, i);
    var j :| 0 <= j < |t.kids| && t.kids[j] == Kid(tag, Tagged(t.kids, tag)[i]);
    assert t.kids[j] < t;
  }

  ghost predicate Below(x: seq<Tree>, t: Tree) {
    forall i :: 0 <= i < |x| ==> x[i] < t
  }

  lemma ChildrenSmaller(t: Tree, tag: string)
    ensures Below(Tagged(t.kids, tag), t)
  {
    forall i: nat | i < |Tagged(t.kids, tag)|
      ensures Tagged(t.kids, tag)[i] < t
    {
      ChildSmaller(t, tag, i);
    }
  }

  /** Removing one child shifts the indices of its own tag and no other. */
  lemma {:induction false} RemoveAtTagged(kids: seq<Kid>, tag: string, i: nat, u: string)
    ensures Tagged(RemoveAt(kids, tag, i), u) ==
            if u == tag then Without(Tagged(kids, u), i) else Tagged(kids, u)
  {
    if kids != [] {
      var rest := kids[1..];
      if kids[0].tag != tag {
        RemoveAtTagged(rest, tag, i, u);
      } else if i > 0 {
        RemoveAtTagged(rest, tag, i - 1, u);
      }
    }
  }

  lemma {:induction false} RemoveMissing(kids: seq<Kid>, tag: string, i: nat)
    requires i >= |Tagged(kids, tag)|
    ensures RemoveAt(kids, tag, i) == kids
  {
    if kids != [] {
      RemoveMissing(kids[1..], tag, if kids[0].tag == tag then i - 1 else i);
    }
  }

  lemma {:induction false} InsertAtTagged(kids: seq<Kid>, tag: string, i: nat, node: Tree, u: string)
    requires i <= |Tagged(kids, tag)|
    ensures Tagged(InsertAt(kids, tag, i, node), u) ==
            if u == tag then Tagged(kids, u)[..i] + [node] + Tagged(kids, u)[i..] else Tagged(kids, u)
  {
    if kids != [] {
      var rest := kids[1..];
      if kids[0].tag != tag {
        InsertAtTagged(rest, tag, i, node, u);
      } else if i > 0 {
        InsertAtTagged(rest, tag, i - 1, node, u);
      }
    }
  }

  lemma {:induction false} UpdateAtTagged(kids: seq<Kid>, tag: string, i: nat, node: Tree, u: string)
    requires i < |Tagged(kids, tag)|
    ensures Tagged(UpdateAt(kids, tag, i, node), u) ==
            if u == tag then Tagged(kids, u)[i := node] else Tagged(kids, u)
  {
    var rest := kids[1..];
    if kids[0].tag != tag {
      UpdateAtTagged(rest, tag, i, node, u);
    } else if i > 0 {
      UpdateAtTagged(rest, tag, i - 1, node, u);
    }
  }

  // ----- The tags in the order in which the children map lists them -----

  predicate Less(s: string, t: string) {
    t != [] && (s == [] || s[0] < t[0] || (s[0] == t[0] && Less(s[1..], t[1..])))
  }

  lemma {:induction false} LessTotal(s: string, t: string)
    ensures s == t || Less(s, t) || Less(t, s)
    ensures !(Less(s, t) && Less(t, s)) && !Less(s, s)
  {
    if s != [] && t != [] && s[0] == t[0] {
      LessTotal(s[1..], t[1..]);
      assert s == [s[0]] + s[1..] && t == [t[0]] + t[1..];
      assert !Less(s, s) by { LessIrreflexive(s); }
    } else {
      LessIrreflexive(s);
    }
  }

  lemma {:induction false} LessIrreflexive(s: string)
    ensures !Less(s, s)
  {
    if s != [] {
      LessIrreflexive(s[1..]);
    }
  }

  lemma {:induction false} LessTransitive(r: string, s: string, t: string)
    requires Less(r, s) && Less(s, t)
    ensures Less(r, t)
  {
    if r != [] && s != [] && r[0] == s[0] && s[0] == t[0] {
      LessTransitive(r[1..], s[1..], t[1..]);
    }
  }

  function AddTag(tags: seq<string>, tag: string): (r: seq<string>)
    ensures forall t :: t in r <==> t in tags || t == tag
    ensures |r| == |tags| + 1
  {
    if tags == [] || Less(tag, tags[0]) then [tag] + tags
    else [tags[0]] + AddTag(tags[1..], tag)
  }

  function TagsOf(kids: seq<Kid>): (r: seq<string>)
    ensures forall t :: t in r <==> Tagged(kids, t) != []
  {
    if kids == [] then []
    else
      var rest := TagsOf(kids[1..]);
      if kids[0].tag in rest then rest else AddTag(rest, kids[0].tag)
  }

  lemma {:induction false} AddTagNoDup(tags: seq<string>, tag: string)
    requires NoDup(tags) && tag !in tags
    ensures NoDup(AddTag(tags, tag))
  {
    if tags != [] && !Less(tag, tags[0]) {
      AddTagNoDup(tags[1..], tag);
      assert tags[0] !in tags[1..];
    }
  }

  lemma {:induction false} TagsOfNoDup(kids: seq<Kid>)
    ensures NoDup(TagsOf(kids))
  {
    if kids != [] {
      TagsOfNoDup(kids[1..]);
      if kids[0].tag !in TagsOf(kids[1..]) {
        AddTagNoDup(TagsOf(kids[1..]), kids[0].tag);
      }
    }
  }

  /** The tags of a node's children in document order. */
  function TagOrder(kids: seq<Kid>): seq<string> {
    if kids == [] then [] else [kids[0].tag] + TagOrder(kids[1..])
  }

  /** Children are determined by the order of their tags and the child vectors. */
  lemma {:induction false} Rebuild(x: seq<Kid>, y: seq<Kid>)
    requires TagOrder(x) == TagOrder(y)
    requires forall u :: Tagged(x, u) == Tagged(y, u)
    ensures x == y
  {
    if x != [] && y != [] {
      assert TagOrder(x)[0] == TagOrder(y)[0] && TagOrder(x)[1..] == TagOrder(y)[1..];
      var t := x[0].tag;
      assert Tagged(x, t)[0] == Tagged(y, t)[0];
      forall u
        ensures Tagged(x[1..], u) == Tagged(y[1..], u)
      {
        assert Tagged(x, u) == Tagged(y, u);
        if u == t {
          assert Tagged(x[1..], u) == Tagged(x, u)[1..];
          assert Tagged(y[1..], u) == Tagged(y, u)[1..];
        }
      }
      Rebuild(x[1..], y[1..]);
      assert x == [x[0]] + x[1..] && y == [y[0]] + y[1..];
    }
  }

  function Under(tag: string, nodes: seq<Tree>): seq<Kid> {
    if nodes == [] then [] else [Kid(tag, nodes[0])] + Under(tag, nodes[1..])
  }

  lemma {:induction false} UnderTagged(tag: string, nodes: seq<Tree>, u: string)
    ensures Tagged(Under(tag, nodes), u) == if u == tag then nodes else []
  {
    if nodes != [] {
      UnderTagged(tag, nodes[1..], u);
    }
  }

  // ----- Equality up to empty attributes and the interleaving of different tags -----

  ghost predicate SameAttrs(a: Attrs, b: Attrs) {
    forall k :: Read(a, k) == Read(b, k)
  }

  ghost predicate Equiv(a: Tree, b: Tree)
    decreases a, 1
  {
    SameAttrs(a.attrs, b.attrs) && forall tag: string :: EquivTag(a, b, tag)
  }

  ghost predicate EquivTag(a: Tree, b: Tree, tag: string)
    decreases a, 0
  {
    |Tagged(a.kids, tag)| == |Tagged(b.kids, tag)| &&
    forall i: nat :: i < |Tagged(a.kids, tag)| ==>
      (ChildSmaller(a, tag, i); Equiv(Tagged(a.kids, tag)[i], Tagged(b.kids, tag)[i]))
  }

  lemma {:induction false} EquivRefl(a: Tree)
    ensures Equiv(a, a)
    decreases a
  {
    forall tag: string
      ensures EquivTag(a, a, tag)
    {
      forall i: nat | i < |Tagged(a.kids, tag)|
        ensures Equiv(Tagged(a.kids, tag)[i], Tagged(a.kids, tag)[i])
      {
        ChildSmaller(a, tag, i);
        EquivRefl(Tagged(a.kids, tag)[i]);
      }
    }
  }

  // ----- The same equality, seen by a reader that follows paths -----

  datatype Step = Step(tag: string, index: nat)

  /** The attribute `key` at the end of a path of `child(tag, index)` calls, if the path exists. */
  datatype Seen = Absent | Present(text: string)

  function Look(t: Tree, path: seq<Step>, key: string): Seen
    decreases |path|
  {
    if path == [] then Present(Read(t.attrs, key))
    else if path[0].index < |Tagged(t.kids, path[0].tag)|
    then Look(Tagged(t.kids, path[0].tag)[path[0].index], path[1..], key)
    else Absent
  }

  ghost predicate Indistinguishable(a: Tree, b: Tree) {
    forall path, key :: Look(a, path, key) == Look(b, path, key)
  }

  lemma {:induction false} EquivLooks(a: Tree, b: Tree, path: seq<Step>, key: string)
    requires Equiv(a, b)
    ensures Look(a, path, key) == Look(b, path, key)
    decreases |path|
  {
    if path != [] {
      var tag, i := path[0].tag, path[0].index;
      assert EquivTag(a, b, tag);
      if i < |Tagged(a.kids, tag)| {
        EquivLooks(Tagged(a.kids, tag)[i], Tagged(b.kids, tag)[i], path[1..], key);
      }
    }
  }

  lemma OneStep(t: Tree, tag: string, i: nat)
    ensures Look(t, [Step(tag, i)], "").Present? <==> i < |Tagged(t.kids, tag)|
  {
    assert [Step(tag, i)][1..] == [];
  }

  lemma {:induction false} LooksEquiv(a: Tree, b: Tree)
    requires Indistinguishable(a, b)
    ensures Equiv(a, b)
    decreases a
  {
    forall key
      ensures Read(a.attrs, key) == Read(b.attrs, key)
    {
      assert Look(a, [], key) == Look(b, [], key);
    }
    forall tag: string
      ensures EquivTag(a, b, tag)
    {
      var x, y := Tagged(a.kids, tag), Tagged(b.kids, tag);
      assert |x| == |y| by {
        OneStep(a, tag, |x|);
        OneStep(b, tag, |x|);
        OneStep(a, tag, |y|);
        OneStep(b, tag, |y|);
      }
      forall i: nat | i < |x|
        ensures Equiv(x[i], y[i])
      {
        forall path, key
          ensures Look(x[i], path, key) == Look(y[i], path, key)
        {
          var longer := [Step(tag, i)] + path;
          assert longer[1..] == path;
          assert Look(a, longer, key) == Look(b, longer, key);
        }
        ChildSmaller(a, tag, i);
        LooksEquiv(x[i], y[i]);
      }
    }
  }

  /** Equivalent trees are exactly those no sequence of reads can tell apart. */
  lemma EquivIsObservational(a: Tree, b: Tree)
    ensures Equiv(a, b) <==> Indistinguishable(a, b)
  {
    if Equiv(a, b) {
      forall path, key
        ensures Look(a, path, key) == Look(b, path, key)
      {
        EquivLooks(a, b, path, key);
      }
    } else if Indistinguishable(a, b) {
      LooksEquiv(a, b);
    }
  }

  // ----- Where an edit takes place in the document order -----

  /** The child with an index stands behind `pre`; or there is none, and `pre` is all. */
  ghost predicate StandsAt(kids: seq<Kid>, tag: string, i: nat, pre: seq<Kid>, post: seq<Kid>) {
    kids == pre + post && if post == [] then |Tagged(pre, tag)| <= i else |Tagged(pre, tag)| == i && post[0].tag == tag
  }

  lemma {:induction false} Place(kids: seq<Kid>, tag: string, i: nat) returns (pre: seq<Kid>, post: seq<Kid>)
    ensures StandsAt(kids, tag, i, pre, post)
  {
    if kids == [] || (kids[0].tag == tag && i == 0) {
      pre, post := [], kids;
      assert [] + kids == kids;
    } else {
      pre, post := Place(kids[1..], tag, if kids[0].tag == tag then i - 1 else i);
      pre := [kids[0]] + pre;
      assert pre[1..] + post == kids[1..] && kids == [kids[0]] + kids[1..];
      assert Tagged(pre, tag) == (if kids[0].tag == tag then [kids[0].node] else []) + Tagged(pre[1..], tag);
    }
  }

  lemma StandsBehind(kids: seq<Kid>, tag: string, i: nat, pre: seq<Kid>, post: seq<Kid>)
    requires StandsAt(kids, tag, i, pre, post) && pre != []
    ensures kids != [] && kids[0] == pre[0] && kids[1..] == pre[1..] + post
    ensures (kids[0].tag == tag ==> i > 0) &&
            StandsAt(kids[1..], tag, if kids[0].tag == tag then i - 1 else i, pre[1..], post)
  {
  }

  /** An edit leaves the other children where they are.  A new child comes directly in front of the one with its
      index, or last. */
  lemma {:induction false} InsertsAt(kids: seq<Kid>, tag: string, i: nat, node: Tree, pre: seq<Kid>, post: seq<Kid>)
    requires StandsAt(kids, tag, i, pre, post)
    ensures InsertAt(kids, tag, i, node) == pre + ([Kid(tag, node)] + post)
    decreases |pre|
  {
    if pre == [] {
      NothingInFront(post);
      NothingInFront([Kid(tag, node)] + post);
    } else {
      StandsBehind(kids, tag, i, pre, post);
      InsertsAt(kids[1..], tag, if kids[0].tag == tag then i - 1 else i, node, pre[1..], post);
      HeadTail(pre, [Kid(tag, node)] + post);
    }
  }

  /** A child that goes is the one at its place. */
  lemma {:induction false} RemovesAt(kids: seq<Kid>, tag: string, i: nat, pre: seq<Kid>, post: seq<Kid>)
    requires StandsAt(kids, tag, i, pre, post)
    ensures RemoveAt(kids, tag, i) == if post == [] then kids else pre + post[1..]
    decreases |pre|
  {
    if pre == [] {
      NothingInFront(post);
      if post != [] {
        NothingInFront(post[1..]);
      }
    } else {
      StandsBehind(kids, tag, i, pre, post);
      RemovesAt(kids[1..], tag, if kids[0].tag == tag then i - 1 else i, pre[1..], post);
      if post != [] {
        HeadTail(pre, post[1..]);
      } else {
        assert kids == [kids[0]] + kids[1..];
      }
    }
  }

  /** And so is a child that is edited. */
  lemma {:induction false} UpdatesAt(kids: seq<Kid>, tag: string, i: nat, node: Tree, pre: seq<Kid>, post: seq<Kid>)
    requires StandsAt(kids, tag, i, pre, post)
    ensures UpdateAt(kids, tag, i, node) == if post == [] then kids else pre + ([Kid(tag, node)] + post[1..])
    decreases |pre|
  {
    if pre == [] {
      NothingInFront(post);
      if post != [] {
        NothingInFront([Kid(tag, node)] + post[1..]);
      }
    } else {
      StandsBehind(kids, tag, i, pre, post);
      UpdatesAt(kids[1..], tag, if kids[0].tag == tag then i - 1 else i, node, pre[1..], post);
      if post != [] {
        HeadTail(pre, [Kid(tag, node)] + post[1..]);
      } else {
        assert kids == [kids[0]] + kids[1..];
      }
    }
  }
}
