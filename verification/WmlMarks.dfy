/** Which children tracking marks as deleted, and which children a patch removes. */
module WmlMarks {
  import opened Sequences
  import opened WmlTree
  import opened WmlDiff
  import opened WmlTrack
  import opened WmlClearTrack

  /** The positions in `b` of the children that a diff deletes. */
  function Doomed(a: Tree, x: seq<Tree>, y: seq<Tree>, tag: string, ai: nat, bi: nat, nd: nat): (r: seq<nat>)
    requires Below(x, a) && ai <= |x| && nd <= bi <= |y|
    ensures forall k :: 0 <= k < |r| ==> bi <= r[k] < |y|
    ensures forall j, k :: 0 <= j < k < |r| ==> r[j] < r[k]
    decreases |x| - ai + |y| - bi
  {
    if ai == |x| && bi == |y| then []
    else if ai < |x| && bi < |y| && x[ai] == y[bi] then Doomed(a, x, y, tag, ai + 1, bi + 1, nd)
    else if |y| - bi > |x| - ai then [bi] + Doomed(a, x, y, tag, ai, bi + 1, nd + 1)
    else if |y| - bi < |x| - ai then Doomed(a, x, y, tag, ai + 1, bi, nd)
    else Doomed(a, x, y, tag, ai + 1, bi + 1, nd)
  }

  function DoomedSet(a: Tree, b: Tree, tag: string): set<nat> {
    ChildrenSmaller(a, tag);
    set i | i in Doomed(a, Tagged(a.kids, tag), Tagged(b.kids, tag), tag, 0, 0, 0)
  }

  /** The indices recorded for the deletions: each counts the ones before it out. */
  ghost predicate Counted(dels: seq<Del>, doomed: seq<nat>, nd: nat) {
    |dels| == |doomed| && forall k :: 0 <= k < |dels| ==> dels[k].index == doomed[k] - nd - k
  }

  lemma CountedOne(dels: seq<Del>, doomed: seq<nat>, tag: string, bi: nat, nd: nat)
    requires nd <= bi && Counted(dels, doomed, nd + 1)
    ensures Counted([Del(tag, bi - nd)] + dels, [bi] + doomed, nd)
  {
  }

  lemma {:induction false} MarkedIndices(a: Tree, x: seq<Tree>, y: seq<Tree>, tag: string, ai: nat, bi: nat, nd: nat)
    requires Below(x, a) && ai <= |x| && nd <= bi <= |y|
    ensures Counted(DiffTag(a, x, y, tag, ai, bi, nd).dels, Doomed(a, x, y, tag, ai, bi, nd), nd)
    decreases |x| - ai + |y| - bi
  {
    if ai == |x| && bi == |y| {
    } else if ai < |x| && bi < |y| && x[ai] == y[bi] {
      MarkedIndices(a, x, y, tag, ai + 1, bi + 1, nd);
    } else if |y| - bi > |x| - ai {
      MarkedIndices(a, x, y, tag, ai, bi + 1, nd + 1);
      CountedOne(DiffTag(a, x, y, tag, ai, bi + 1, nd + 1).dels, Doomed(a, x, y, tag, ai, bi + 1, nd + 1), tag, bi, nd);
    } else if |y| - bi < |x| - ai {
      MarkedIndices(a, x, y, tag, ai + 1, bi, nd);
    } else {
      MarkedIndices(a, x, y, tag, ai + 1, bi + 1, nd);
    }
  }

  // ----- The deletions remove just these children -----

  /** The children whose positions, counted from `base`, are not among those that go. */
  function Kept(l: seq<Tree>, gone: set<nat>, base: nat): seq<Tree> {
    if l == [] then []
    else (if base in gone then [] else [l[0]]) + Kept(l[1..], gone, base + 1)
  }

  lemma {:induction false} KeptAll(l: seq<Tree>, gone: set<nat>, base: nat)
    requires forall g :: g in gone ==> g < base
    ensures Kept(l, gone, base) == l
  {
    if l != [] {
      KeptAll(l[1..], gone, base + 1);
    }
  }

  /** From `base` on, up to `end`, the deletions are those of the positions that go; `nd` of the positions
      before are gone. */
  predicate Takes(dels: seq<Del>, gone: set<nat>, base: nat, nd: nat, end: nat)
    requires nd <= base <= end
    decreases end - base
  {
    if base == end then dels == []
    else if base in gone then
      dels != [] && dels[0].index == base - nd && Takes(dels[1..], gone, base + 1, nd + 1, end)
    else Takes(dels, gone, base + 1, nd, end)
  }

  /** `pre` is what is left of the children before `base`. */
  lemma {:induction false} DelsKeep(pre: seq<Tree>, l: seq<Tree>, dels: seq<Del>, gone: set<nat>,
                                    base: nat, nd: nat, end: nat)
    requires nd <= base <= end <= base + |l| && |pre| == base - nd
    requires Takes(dels, gone, base, nd, end) && forall g :: g in gone ==> g < end
    ensures DelList(pre + l, dels) == pre + Kept(l, gone, base)
    decreases end - base
  {
    if base == end {
      KeptAll(l, gone, base);
    } else if base in gone {
      FirstGoes(pre, l, dels);
      KeptNext(l, gone, base);
      DelsKeep(pre, l[1..], dels[1..], gone, base + 1, nd + 1, end);
    } else {
      var next := pre + [l[0]];
      MovedOver(pre, l, next);
      KeptNext(l, gone, base);
      Associate(pre, [l[0]], Kept(l[1..], gone, base + 1));
      DelsKeep(next, l[1..], dels, gone, base + 1, nd, end);
    }
  }

  lemma KeptNext(l: seq<Tree>, gone: set<nat>, base: nat)
    requires l != []
    ensures base in gone ==> Kept(l, gone, base) == Kept(l[1..], gone, base + 1)
    ensures base !in gone ==> Kept(l, gone, base) == [l[0]] + Kept(l[1..], gone, base + 1)
  {
  }

  lemma FirstGoes(pre: seq<Tree>, l: seq<Tree>, dels: seq<Del>)
    requires dels != [] && l != [] && dels[0].index == |pre|
    ensures DelList(pre + l, dels) == DelList(pre + l[1..], dels[1..])
  {
    assert Without(pre + l, |pre|) == pre + l[1..];
  }

  lemma MovedOver(pre: seq<Tree>, l: seq<Tree>, next: seq<Tree>)
    requires l != [] && next == pre + [l[0]]
    ensures next + l[1..] == pre + l && |next| == |pre| + 1
  {
  }

  lemma {:induction false} DiffTakes(a: Tree, x: seq<Tree>, y: seq<Tree>, tag: string, ai: nat, bi: nat, nd: nat,
                                     gone: set<nat>)
    requires Below(x, a) && ai <= |x| && nd <= bi <= |y|
    requires forall g :: bi <= g ==> (g in gone <==> g in Doomed(a, x, y, tag, ai, bi, nd))
    ensures Takes(DiffTag(a, x, y, tag, ai, bi, nd).dels, gone, bi, nd, |y|)
    decreases |x| - ai + |y| - bi
  {
    if ai == |x| && bi == |y| {
    } else if ai < |x| && bi < |y| && x[ai] == y[bi] {
      DiffTakes(a, x, y, tag, ai + 1, bi + 1, nd, gone);
    } else if |y| - bi > |x| - ai {
      DiffTakes(a, x, y, tag, ai, bi + 1, nd + 1, gone);
    } else if |y| - bi < |x| - ai {
      DiffTakes(a, x, y, tag, ai + 1, bi, nd, gone);
    } else {
      DiffTakes(a, x, y, tag, ai + 1, bi + 1, nd, gone);
    }
  }

  /** The deletions of a diff take out just the doomed children. */
  lemma DoomedGo(a: Tree, b: Tree, tag: string, l: seq<Tree>)
    requires |l| >= |Tagged(b.kids, tag)|
    ensures DelList(l, TagDiff(a, b, tag).dels) == Kept(l, DoomedSet(a, b, tag), 0)
  {
    var x, y, gone := Tagged(a.kids, tag), Tagged(b.kids, tag), DoomedSet(a, b, tag);
    ChildrenSmaller(a, tag);
    DiffTakes(a, x, y, tag, 0, 0, 0, gone);
    DelsKeep([], l, TagDiff(a, b, tag).dels, gone, 0, 0, |y|);
    assert [] + l == l && [] + Kept(l, gone, 0) == Kept(l, gone, 0);
  }

  /** Applied at once or after tracking, the deletions remove the children that the diff means. */
  lemma RemovedAreDoomed(a: Tree, b: Tree, tag: string)
    ensures var d, ops := GetDiff(a, b), TagDiff(a, b, tag);
            var l := AddList(ChangeList(Apply, Tagged(b.kids, tag), ops.changes).list, ops.adds).list;
            Tagged(Patch(b, d).tree.kids, tag) == Kept(l, DoomedSet(a, b, tag), 0)
    ensures var d := GetDiff(a, b);
            var t := PatchTracked(b, d).tree.kids;
            Tagged(PatchDels(t, d.dels), tag) == Kept(Tagged(t, tag), DoomedSet(a, b, tag), 0)
  {
    var x, y, ops := Tagged(a.kids, tag), Tagged(b.kids, tag), TagDiff(a, b, tag);
    BothRun(a, b);
    ChildrenSmaller(a, tag);
    PatchRuns(a, b, tag);
    TrackRuns(a, b, tag);
    TagApplied(a, x, y, tag);
    TagTracked(a, x, y, tag);
    AppliedLength(a, x, y, tag);
    DoomedGo(a, b, tag, AddList(ChangeList(Apply, y, ops.changes).list, ops.adds).list);
    DoomedGo(a, b, tag, Tracked(y, ops));
    GetDiffOps(a, b, tag);
    DelsByTag(PatchTracked(b, GetDiff(a, b)).tree.kids, GetDiff(a, b).dels, tag);
  }

  lemma AppliedLength(a: Tree, x: seq<Tree>, y: seq<Tree>, tag: string)
    requires Below(x, a) && AllRun(Apply, x, y)
    ensures var ops := DiffTag(a, x, y, tag, 0, 0, 0);
            |AddList(ChangeList(Apply, y, ops.changes).list, ops.adds).list| >= |y|
  {
    TagWhole(Apply, a, x, y, tag);
    var ops := DiffTag(a, x, y, tag, 0, 0, 0);
    GrowingAdds(ChangeList(Apply, y, ops.changes).list, ops.adds);
  }

  // ----- The marks -----

  predicate IsMarked(t: Tree) {
    TRACK in t.attrs && t.attrs[TRACK] == "deleted"
  }

  /** The positions of the children that carry the mark of a deletion. */
  function Marked(l: seq<Tree>): set<nat> {
    set i: nat | i < |l| && IsMarked(l[i])
  }

  lemma {:induction false} NoneMarked(l: seq<Tree>, changes: seq<Change>)
    requires Marked(l) == {} && forall c :: c in changes ==> TRACK !in c.sub.ins
    ensures Marked(ChangeList(Track, l, changes).list) == {}
    decreases |changes|
  {
    if changes != [] {
      var c, rest := changes[0], changes[1..];
      if c.tag == "" {
        NoneMarked(l, rest);
      } else if c.index < |l| {
        var p := Run(Track, l[c.index], c.sub);
        TrackedUnmarked(l[c.index], c.sub);
        UnmarkedUpdate(l, c.index, p.tree);
        if p.ok {
          NoneMarked(l[c.index := p.tree], rest);
        }
      }
    }
  }

  lemma TrackedUnmarked(t: Tree, d: Diff)
    requires TRACK !in d.ins
    ensures !IsMarked(Run(Track, t, d).tree)
  {
  }

  lemma UnmarkedUpdate(l: seq<Tree>, i: nat, t: Tree)
    requires i < |l| && Marked(l) == {} && !IsMarked(t)
    ensures Marked(l[i := t]) == {}
  {
    var m := l[i := t];
    forall k: nat | k < |m|
      ensures !IsMarked(m[k])
    {
      assert k !in Marked(l);
    }
  }

  lemma {:induction false} NewUnmarked(l: seq<Tree>, adds: seq<Add>)
    requires Marked(l) == {}
    ensures Marked(AddList(l, MarkedNew(adds)).list) == {}
    decreases |adds|
  {
    if adds != [] && adds[0].index <= |l| {
      var i, e := adds[0].index, Mark(adds[0].node, "new");
      UnmarkedInsert(l, i, e);
      NewUnmarked(l[..i] + [e] + l[i..], adds[1..]);
      assert MarkedNew(adds)[1..] == MarkedNew(adds[1..]);
    }
  }

  lemma UnmarkedInsert(l: seq<Tree>, i: nat, e: Tree)
    requires i <= |l| && Marked(l) == {} && !IsMarked(e)
    ensures Marked(l[..i] + [e] + l[i..]) == {}
  {
    var m := l[..i] + [e] + l[i..];
    forall k: nat | k < |m|
      ensures !IsMarked(m[k])
    {
      assert m[k] == if k < i then l[k] else if k == i then e else l[k - 1];
      assert k < i ==> k !in Marked(l);
      assert k > i ==> k - 1 !in Marked(l);
    }
  }

  function Indices(dels: seq<Del>): set<nat> {
    set c | c in dels :: c.index
  }

  lemma {:induction false} MarkListMarks(l: seq<Tree>, dels: seq<Del>)
    requires MarkList(l, dels).ok
    ensures Marked(MarkList(l, dels).list) == Marked(l) + Indices(dels)
    decreases |dels|
  {
    if dels == [] {
      assert Indices(dels) == {};
    } else {
      var i := dels[0].index;
      MarkListMarks(l[i := Mark(l[i], "deleted")], dels[1..]);
      assert dels == [dels[0]] + dels[1..];
      assert Indices(dels) == {i} + Indices(dels[1..]);
      assert Marked(l[i := Mark(l[i], "deleted")]) == Marked(l) + {i};
    }
  }

  /** Tracking marks as deleted just the children at the indices recorded for the deletions. */
  lemma MarksAreIndices(a: Tree, b: Tree, tag: string)
    requires Free(a) && Free(b)
    ensures Marked(Tagged(PatchTracked(b, GetDiff(a, b)).tree.kids, tag)) == Indices(TagDiff(a, b, tag).dels)
  {
    var x, y, ops := Tagged(a.kids, tag), Tagged(b.kids, tag), TagDiff(a, b, tag);
    BothRun(a, b);
    ChildrenSmaller(a, tag);
    TrackRuns(a, b, tag);
    TagTracked(a, x, y, tag);
    FreeTagged(a, tag);
    FreeTagged(b, tag);
    FreeUnmarked(y);
    SubsFree(a, x, y, tag);
    var c := ChangeList(Track, y, ops.changes).list;
    NoneMarked(y, ops.changes);
    NewUnmarked(c, ops.adds);
    MarkListMarks(AddList(c, MarkedNew(ops.adds)).list, ops.dels);
  }

  lemma FreeUnmarked(l: seq<Tree>)
    requires FreeList(l)
    ensures Marked(l) == {}
  {
    forall i: nat | i < |l|
      ensures !IsMarked(l[i])
    {
      assert Free(l[i]);
    }
  }

  lemma SubsFree(a: Tree, x: seq<Tree>, y: seq<Tree>, tag: string)
    requires Below(x, a) && FreeList(x)
    ensures forall c :: c in DiffTag(a, x, y, tag, 0, 0, 0).changes ==> TRACK !in c.sub.ins
  {
    forall c | c in DiffTag(a, x, y, tag, 0, 0, 0).changes
      ensures TRACK !in c.sub.ins
    {
      PairedChange(a, x, y, tag, c);
      assert Free(x[c.index + |x| - |y|]);
    }
  }

  /** The header says that the deleted children are the ones marked.  They are exactly if at most one
      child of the tag is deleted: later deletions are counted from the shortened list, but nothing
      is removed while tracking. */
  lemma MarksAreRight(a: Tree, b: Tree, tag: string)
    requires Free(a) && Free(b)
    ensures Marked(Tagged(PatchTracked(b, GetDiff(a, b)).tree.kids, tag)) == DoomedSet(a, b, tag) <==>
            |Tagged(b.kids, tag)| <= |Tagged(a.kids, tag)| + 1
  {
    MarksAreIndices(a, b, tag);
    ChildrenSmaller(a, tag);
    var x, y := Tagged(a.kids, tag), Tagged(b.kids, tag);
    MarkedIndices(a, x, y, tag, 0, 0, 0);
    NeverBothWays(a, x, y, tag, 0, 0, 0);
    IndicesAreRight(TagDiff(a, b, tag).dels, Doomed(a, x, y, tag, 0, 0, 0));
  }

  lemma IndicesAreRight(dels: seq<Del>, doomed: seq<nat>)
    requires Counted(dels, doomed, 0) && forall j, k :: 0 <= j < k < |doomed| ==> doomed[j] < doomed[k]
    ensures Indices(dels) == (set i | i in doomed) <==> |dels| <= 1
  {
    var n := |dels|;
    if n >= 2 {
      var last := doomed[n - 1];
      forall c | c in dels
        ensures c.index != last
      {
        var k :| 0 <= k < n && dels[k] == c;
      }
      assert last in doomed && last !in Indices(dels);
    } else if n == 1 {
      assert dels == [dels[0]] && dels[0].index == doomed[0] && doomed == [doomed[0]];
      assert dels[0] in dels;
    } else {
      assert dels == [] && doomed == [];
    }
  }

  /** Two children go, at 0 and at 1; both deletions are recorded at 0, so that the first is marked twice
      and the second not at all. */
  lemma OneMarkForTwo()
    ensures var b := Parent("t", [EMPTY, EMPTY, PLAIN]);
            var d := GetDiff(Parent("t", [PLAIN]), b);
            Tagged(PatchTracked(b, d).tree.kids, "t") == [Mark(EMPTY, "deleted"), EMPTY, PLAIN] &&
            Tagged(Patch(b, d).tree.kids, "t") == [PLAIN]
  {
    var a, b, x, y := Parent("t", [PLAIN]), Parent("t", [EMPTY, EMPTY, PLAIN]), [PLAIN], [EMPTY, EMPTY, PLAIN];
    UnderTagged("t", x, "t");
    UnderTagged("t", y, "t");
    ChildrenSmaller(a, "t");
    assert "k" in PLAIN.attrs && "k" !in EMPTY.attrs;
    TwoGo(a, PLAIN, EMPTY);
    BothRun(a, b);
    MarkTwice(EMPTY, PLAIN);
  }

  lemma TwoGo(a: Tree, e: Tree, f: Tree)
    requires Below([e], a) && e != f
    ensures DiffTag(a, [e], [f, f, e], "t", 0, 0, 0) == TagOps([], [], [Del("t", 0), Del("t", 0)])
  {
    var x, y := [e], [f, f, e];
    assert x[0] == y[2] && x[0] != y[0] && x[0] != y[1];
    assert DiffTag(a, x, y, "t", 1, 3, 2) == NO_OPS;
    DiffTagSame(a, x, y, "t", 0, 2, 2);
    DiffTagTurn(a, x, y, "t", 0, 1, 1);
    DiffTagTurn(a, x, y, "t", 0, 0, 0);
  }

  lemma MarkTwice(f: Tree, e: Tree)
    ensures var ops := TagOps([], [], [Del("t", 0), Del("t", 0)]);
            Tracked([f, f, e], ops) == [Mark(f, "deleted"), f, e] && Applied([f, f, e], ops) == [e]
  {
    var one, two := [Del("t", 0)], [Del("t", 0), Del("t", 0)];
    assert two[1..] == one && one[1..] == [];
    var g := Mark(f, "deleted");
    assert g.attrs[TRACK := "deleted"] == g.attrs;
    assert [f, f, e][0 := g] == [g, f, e] && [g, f, e][0 := Mark(g, "deleted")] == [g, f, e];
    assert MarkList([g, f, e], one) == PatchedList([g, f, e], true);
    assert Without([f, f, e], 0) == [f, e] && Without([f, e], 0) == [e];
    assert DelList([f, e], one) == [e];
  }

  /** A tracked node itself carries the attribute that says so. */
  lemma TrackedNodeSaysSo(a: Tree, b: Tree)
    requires Free(a) && Free(b)
    ensures var attrs := PatchTracked(b, GetDiff(a, b)).tree.attrs;
            "__diff_track" in attrs && attrs["__diff_track"] == "modified"
  {
    AttrsAgree(a, b);
  }
}
