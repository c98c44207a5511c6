/** What applying a diff with tracking leaves behind. */
module WmlTrack {
  import opened Sequences
  import opened WmlTree
  import opened WmlDiff

  // ----- The steps that only tracking has, tag by tag -----

  function MarkList(l: seq<Tree>, dels: seq<Del>): PatchedList
    decreases dels
  {
    if dels == [] then PatchedList(l, true)
    else if dels[0].index >= |l| then PatchedList(l, false)
    else MarkList(l[dels[0].index := Mark(l[dels[0].index], "deleted")], dels[1..])
  }

  function StripList(l: seq<Tree>): (r: seq<Tree>)
    ensures |r| == |l| && forall i :: 0 <= i < |l| ==> r[i] == Strip(l[i])
  {
    if l == [] then [] else [Strip(l[0])] + StripList(l[1..])
  }

  lemma {:induction false} MarkDelsByTag(kids: seq<Kid>, dels: seq<Del>)
    requires forall u :: MarkList(Tagged(kids, u), DelsOf(dels, u)).ok
    ensures MarkDels(kids, dels).ok
    ensures forall u :: Tagged(MarkDels(kids, dels).kids, u) == MarkList(Tagged(kids, u), DelsOf(dels, u)).list
    ensures TagOrder(MarkDels(kids, dels).kids) == TagOrder(kids)
    decreases |dels|
  {
    if dels != [] {
      var c := dels[0];
      assert DelsOf(dels, c.tag) == [c] + DelsOf(dels[1..], c.tag);
      assert MarkList(Tagged(kids, c.tag), DelsOf(dels, c.tag)).ok;
      var node := Mark(Tagged(kids, c.tag)[c.index], "deleted");
      var next := UpdateAt(kids, c.tag, c.index, node);
      forall u
        ensures MarkList(Tagged(kids, u), DelsOf(dels, u)) == MarkList(Tagged(next, u), DelsOf(dels[1..], u))
      {
        UpdateAtTagged(kids, c.tag, c.index, node, u);
        if u != c.tag {
          assert DelsOf(dels, u) == DelsOf(dels[1..], u);
        }
      }
      MarkDelsByTag(next, dels[1..]);
      OrderUpdated(kids, c.tag, c.index, node);
    }
  }

  lemma {:induction false} MarkedNewOf(adds: seq<Add>, u: string)
    ensures AddsOf(MarkedNew(adds), u) == MarkedNew(AddsOf(adds, u))
  {
    if adds != [] {
      MarkedNewOf(adds[1..], u);
      if adds[0].tag != u {
        assert AddsOf(adds, u) == AddsOf(adds[1..], u);
      } else {
        assert AddsOf(adds, u)[1..] == AddsOf(adds[1..], u);
      }
    }
  }

  lemma {:induction false} MarkedNewOrder(order: seq<string>, adds: seq<Add>)
    ensures OrderAdds(order, MarkedNew(adds)) == OrderAdds(order, adds)
    decreases |adds|
  {
    if adds != [] {
      MarkedNewOrder(OrderInsert(order, adds[0].tag, adds[0].index), adds[1..]);
    }
  }

  lemma {:induction false} StripKidsTagged(kids: seq<Kid>, u: string)
    ensures Tagged(StripKids(kids), u) == StripList(Tagged(kids, u))
  {
    if kids != [] {
      StripKidsTagged(kids[1..], u);
    }
  }

  lemma {:induction false} StripKidsOrder(kids: seq<Kid>)
    ensures TagOrder(StripKids(kids)) == TagOrder(kids)
  {
    if kids != [] {
      StripKidsOrder(kids[1..]);
    }
  }

  // ----- Insertions and deletions leave the same list once the marks are gone -----

  lemma StripConcat(x: seq<Tree>, y: seq<Tree>)
    ensures StripList(x + y) == StripList(x) + StripList(y)
  {
  }

  lemma {:induction false} MarkedDelList(l: seq<Tree>, dels: seq<Del>)
    requires forall i :: 0 <= i < |dels| ==> dels[i].index < |l|
    ensures var p := MarkList(l, dels); p.ok && StripList(p.list) == StripList(l)
    decreases |dels|
  {
    if dels != [] {
      var i := dels[0].index;
      assert Strip(Mark(l[i], "deleted")) == Strip(l[i]);
      MarkedDelList(l[i := Mark(l[i], "deleted")], dels[1..]);
    }
  }

  lemma StripWithout(l: seq<Tree>, i: nat)
    ensures StripList(Without(l, i)) == Without(StripList(l), i)
  {
    if i < |l| {
      StripConcat(l[..i], l[i + 1..]);
      StripSlices(l, i);
      StripSlices(l, i + 1);
    }
  }

  lemma StripSlices(l: seq<Tree>, i: nat)
    requires i <= |l|
    ensures StripList(l[..i]) == StripList(l)[..i] && StripList(l[i..]) == StripList(l)[i..]
  {
    StripConcat(l[..i], l[i..]);
    assert l[..i] + l[i..] == l;
    Parted(StripList(l[..i]), StripList(l[i..]), StripList(l), i);
  }

  lemma Parted(x: seq<Tree>, y: seq<Tree>, l: seq<Tree>, i: nat)
    requires l == x + y && |x| == i
    ensures l[..i] == x && l[i..] == y
  {
  }

  lemma {:induction false} StripDelList(l: seq<Tree>, dels: seq<Del>)
    ensures StripList(DelList(l, dels)) == DelList(StripList(l), dels)
    decreases |dels|
  {
    if dels != [] {
      StripWithout(l, dels[0].index);
      StripDelList(Without(l, dels[0].index), dels[1..]);
    }
  }

  lemma {:induction false} EarlyDels(a: Tree, x: seq<Tree>, y: seq<Tree>, tag: string, ai: nat, bi: nat, nd: nat)
    requires Below(x, a) && ai <= |x| && nd <= bi <= |y|
    ensures forall c :: c in DiffTag(a, x, y, tag, ai, bi, nd).dels ==> c.index < |y|
    decreases |x| - ai + |y| - bi
  {
    if ai == |x| && bi == |y| {
    } else if ai < |x| && bi < |y| && x[ai] == y[bi] {
      EarlyDels(a, x, y, tag, ai + 1, bi + 1, nd);
    } else if |y| - bi > |x| - ai {
      EarlyDels(a, x, y, tag, ai, bi + 1, nd + 1);
    } else if |y| - bi < |x| - ai {
      EarlyDels(a, x, y, tag, ai + 1, bi, nd);
    } else {
      EarlyDels(a, x, y, tag, ai + 1, bi + 1, nd);
    }
  }

  // ----- What tracking leaves of one tag -----

  /** The list of one tag after tracking. */
  function Tracked(y: seq<Tree>, ops: TagOps): seq<Tree> {
    MarkList(AddList(ChangeList(Track, y, ops.changes).list, MarkedNew(ops.adds)).list, ops.dels).list
  }

  /** All steps succeed.  With the deletions made up for, the list has the given children but for their
      marks; without deletions, it has just these. */
  ghost predicate Tracks(y: seq<Tree>, ops: TagOps, shaped: seq<Tree>) {
    var t := ChangeList(Track, y, ops.changes);
    t.ok &&
    var i := AddList(t.list, MarkedNew(ops.adds));
    i.ok && MarkList(i.list, ops.dels).ok &&
    StripList(DelList(Tracked(y, ops), ops.dels)) == StripList(shaped) &&
    |Tracked(y, ops)| == |y| + |ops.adds| && (ops.dels == [] ==> Tracked(y, ops) == shaped)
  }

  lemma {:induction false} GrowingAdds(l: seq<Tree>, adds: seq<Add>)
    requires AddList(l, adds).ok
    ensures |AddList(l, adds).list| == |l| + |adds|
    decreases |adds|
  {
    if adds != [] {
      GrowingAdds(l[..adds[0].index] + [adds[0].node] + l[adds[0].index..], adds[1..]);
    }
  }

  lemma TagTracked(a: Tree, x: seq<Tree>, y: seq<Tree>, tag: string)
    requires Below(x, a) && AllRun(Track, x, y)
    ensures Tracks(y, DiffTag(a, x, y, tag, 0, 0, 0), Shaped(Track, a, x, y, tag, 0, 0))
  {
    TagWhole(Track, a, x, y, tag);
    EarlyDels(a, x, y, tag, 0, 0, 0);
    TracksFrom(y, DiffTag(a, x, y, tag, 0, 0, 0), Shaped(Track, a, x, y, tag, 0, 0));
  }

  lemma TracksFrom(y: seq<Tree>, ops: TagOps, shaped: seq<Tree>)
    requires var c := ChangeList(Track, y, ops.changes);
             var i := AddList(c.list, MarkedNew(ops.adds));
             c.ok && |c.list| == |y| && i.ok && DelList(i.list, ops.dels) == shaped
    requires forall c :: c in ops.dels ==> c.index < |y|
    ensures Tracks(y, ops, shaped)
  {
    var c := ChangeList(Track, y, ops.changes).list;
    var i := AddList(c, MarkedNew(ops.adds)).list;
    GrowingAdds(c, MarkedNew(ops.adds));
    forall k | 0 <= k < |ops.dels|
      ensures ops.dels[k].index < |i|
    {
      assert ops.dels[k] in ops.dels;
    }
    MarksAside(i, ops.dels);
  }

  /** Marking first makes no difference to what the deletions leave, but for the marks. */
  lemma MarksAside(l: seq<Tree>, dels: seq<Del>)
    requires forall i :: 0 <= i < |dels| ==> dels[i].index < |l|
    ensures var p := MarkList(l, dels);
            p.ok && |p.list| == |l| && StripList(DelList(p.list, dels)) == StripList(DelList(l, dels))
  {
    MarkedDelList(l, dels);
    StripDelList(l, dels);
    StripDelList(MarkList(l, dels).list, dels);
    assert |MarkList(l, dels).list| == |StripList(MarkList(l, dels).list)| == |StripList(l)|;
  }

  function OpsFor(d: Diff, u: string): TagOps {
    OpsOf(TagOps(d.changes, d.adds, d.dels), u)
  }

  /** The children that tracking leaves, tag by tag. */
  lemma TrackByTag(a: Tree, b: Tree)
    requires forall u :: AllRun(Track, Tagged(a.kids, u), Tagged(b.kids, u))
    ensures var d := GetDiff(a, b);
            var p := PatchTracked(b, d);
            p.ok && TagOrder(p.tree.kids) == OrderAdds(TagOrder(b.kids), d.adds) &&
            forall u :: Tagged(p.tree.kids, u) == Tracked(Tagged(b.kids, u), TagDiff(a, b, u))
  {
    var d := GetDiff(a, b);
    var marked := MarkedNew(d.adds);
    assert d.changes[0..] == d.changes;
    forall u
      ensures OpsFor(d, u) == TagDiff(a, b, u) && AddsOf(marked, u) == MarkedNew(AddsOf(d.adds, u))
      ensures var ops := TagDiff(a, b, u);
              var t := ChangeList(Track, Tagged(b.kids, u), ops.changes);
              t.ok && var i := AddList(t.list, MarkedNew(ops.adds)); i.ok && MarkList(i.list, ops.dels).ok
    {
      GetDiffOps(a, b, u);
      MarkedNewOf(d.adds, u);
      ChildrenSmaller(a, u);
      assert AllRun(Track, Tagged(a.kids, u), Tagged(b.kids, u));
      TagTracked(a, Tagged(a.kids, u), Tagged(b.kids, u), u);
    }
    TrackKids(b.kids, d);
  }

  lemma TrackKids(kids: seq<Kid>, d: Diff)
    requires forall u :: ChangeList(Track, Tagged(kids, u), ChangesOf(d.changes, u)).ok
    requires forall u :: AddsOf(MarkedNew(d.adds), u) == MarkedNew(AddsOf(d.adds, u))
    requires forall u :: AddList(ChangeList(Track, Tagged(kids, u), ChangesOf(d.changes, u)).list,
                                 MarkedNew(AddsOf(d.adds, u))).ok
    requires forall u :: MarkList(AddList(ChangeList(Track, Tagged(kids, u), ChangesOf(d.changes, u)).list,
                                          MarkedNew(AddsOf(d.adds, u))).list, DelsOf(d.dels, u)).ok
    ensures var c := RunChanges(Track, kids, d, 0);
            c.ok && var r := RunRest(Track, c.kids, d);
            r.ok && TagOrder(r.kids) == OrderAdds(TagOrder(kids), d.adds) &&
            forall u :: Tagged(r.kids, u) == Tracked(Tagged(kids, u), OpsFor(d, u))
  {
    assert d.changes[0..] == d.changes;
    ChangesByTag(Track, kids, d, 0);
    var c, marked := RunChanges(Track, kids, d, 0).kids, MarkedNew(d.adds);
    AddsByTag(c, marked);
    var i := PatchAdds(c, marked).kids;
    MarkDelsByTag(i, d.dels);
    OrderChanges(Track, kids, d, 0);
    OrderAdded(c, marked);
    MarkedNewOrder(TagOrder(kids), d.adds);
  }

  lemma {:induction false} TrackRuns(a: Tree, b: Tree, u: string)
    ensures AllRun(Track, Tagged(a.kids, u), Tagged(b.kids, u))
    decreases a, 0
  {
    var x, y := Tagged(a.kids, u), Tagged(b.kids, u);
    ChildrenSmaller(a, u);
    forall i, j | 0 <= i < |x| && 0 <= j < |y|
      ensures Runs(Track, x, y, i, j)
    {
      TrackNeverThrows(x[i], y[j]);
    }
  }

  lemma {:induction false} TrackNeverThrows(a: Tree, b: Tree)
    ensures var p := PatchTracked(b, GetDiff(a, b));
            p.ok && forall u :: |Tagged(PatchDels(p.tree.kids, GetDiff(a, b).dels), u)| == |Tagged(a.kids, u)|
    decreases a, 1
  {
    forall u
      ensures AllRun(Track, Tagged(a.kids, u), Tagged(b.kids, u))
    {
      TrackRuns(a, b, u);
    }
    TrackByTag(a, b);
    var t, dels := PatchTracked(b, GetDiff(a, b)).tree.kids, GetDiff(a, b).dels;
    forall u
      ensures |Tagged(PatchDels(t, dels), u)| == |Tagged(a.kids, u)|
    {
      AfterDeletions(a, b, u);
    }
  }

  /** One tag of a tracked node, once the deletions are made. */
  lemma AfterDeletions(a: Tree, b: Tree, u: string)
    requires AllRun(Track, Tagged(a.kids, u), Tagged(b.kids, u))
    requires Tagged(PatchTracked(b, GetDiff(a, b)).tree.kids, u) == Tracked(Tagged(b.kids, u), TagDiff(a, b, u))
    ensures Below(Tagged(a.kids, u), a)
    ensures var m := Tagged(PatchDels(PatchTracked(b, GetDiff(a, b)).tree.kids, GetDiff(a, b).dels), u);
            |m| == |Tagged(a.kids, u)| &&
            StripList(m) == StripList(Shaped(Track, a, Tagged(a.kids, u), Tagged(b.kids, u), u, 0, 0))
  {
    GetDiffOps(a, b, u);
    ChildrenSmaller(a, u);
    TagTracked(a, Tagged(a.kids, u), Tagged(b.kids, u), u);
    DelsByTag(PatchTracked(b, GetDiff(a, b)).tree.kids, GetDiff(a, b).dels, u);
    var m := DelList(Tracked(Tagged(b.kids, u), TagDiff(a, b, u)), TagDiff(a, b, u).dels);
    assert |m| == |StripList(m)|;
  }

  // ----- Nodes that do not carry the tracking attribute -----

  /** No node carries the tracking attribute. */
  ghost predicate Free(t: Tree)
    decreases t
  {
    TRACK !in t.attrs && forall i :: 0 <= i < |t.kids| ==> Free(t.kids[i].node)
  }

  ghost predicate FreeList(l: seq<Tree>) {
    forall i :: 0 <= i < |l| ==> Free(l[i])
  }

  lemma FreeTagged(t: Tree, tag: string)
    requires Free(t)
    ensures FreeList(Tagged(t.kids, tag))
  {
    forall i: nat | i < |Tagged(t.kids, tag)|
      ensures Free(Tagged(t.kids, tag)[i])
    {
      TaggedSmaller(t.kids, tag, i);
      var j :| 0 <= j < |t.kids| && t.kids[j] == Kid(tag, Tagged(t.kids, tag)[i]);
      assert Free(t.kids[j].node);
    }
  }
}
