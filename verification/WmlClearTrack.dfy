/** Applying a diff with tracking and then clearing the tracking, against applying it plainly: exactly
    when the two come to the same. */
module WmlClearTrack {
  import opened WmlTree
  import opened WmlDiff
  import opened WmlTrack

  // ----- The condition -----

  /** The change that a list of changes records for an index; those under an empty tag are passed over. */
  datatype Found = Nothing | Found(sub: Diff)

  function At(changes: seq<Change>, i: int): Found {
    if changes == [] then Nothing
    else if changes[0].tag != "" && changes[0].index == i then Found(changes[0].sub)
    else At(changes[1..], i)
  }

  /** A diff that leaves the children alone. */
  predicate Flat(d: Diff) {
    d.adds == [] && d.dels == [] && forall k :: 0 <= k < |d.changes| ==> d.changes[k].tag == ""
  }

  /** Clearing with `e` a node that was tracked with another diff, `s`, undoes the marks below it:
      nothing is to be deleted, and each child changed by `s` ends where `e` records a change that
      does the same for it, or else needs nothing below it undone. */
  predicate Washes(e: Diff, s: Diff)
    decreases s, 0
  {
    s.dels == [] &&
    forall c {:trigger Landing(e, s, c)} :: c in s.changes && c.tag != "" ==> Hit(Landing(e, s, c), c.sub)
  }

  /** The change that `e` records for the place where a child changed by `s` ends. */
  function Landing(e: Diff, s: Diff, c: Change): Found {
    At(ChangesOf(e.changes, c.tag), c.index + |AddsOf(s.adds, c.tag)|)
  }

  predicate Hit(o: Found, s: Diff)
    decreases s, 1
  {
    match o
    case Nothing => Flat(s)
    case Found(e) => Washes(e, s)
  }

  /** Every change of `e`, at any depth, finds a child of `t` to work on. */
  predicate Fits(e: Diff, t: Tree)
    decreases e
  {
    forall c :: c in e.changes && c.tag != "" ==>
      c.index < |Tagged(t.kids, c.tag)| && Fits(c.sub, Tagged(t.kids, c.tag)[c.index])
  }

  /** A diff to `a` can be applied with tracking and cleared.  Under a tag that it only changes, every
      change can.  Under a tag that it also adds to or deletes from, the changes are looked up at
      indices which by then may belong to other children: these must bear it, and the children meant
      must not need it, or get it from the change recorded for the index they have moved to. */
  predicate Clears(a: Tree, d: Diff)
    decreases d, 0
  {
    forall c :: c in d.changes && c.tag != "" ==>
      ClearsChange(Tagged(a.kids, c.tag), OpsFor(d, c.tag), c.index, c.sub)
  }

  predicate ClearsChange(x: seq<Tree>, ops: TagOps, index: nat, sub: Diff)
    decreases sub, 1
  {
    index < |x| &&
    if ops.adds == [] && ops.dels == [] then Clears(x[index], sub)
    else Fits(sub, x[index]) && Hit(At(ops.changes, index + |ops.adds| - |ops.dels|), sub)
  }

  // ----- The changes that a diff holds -----

  predicate Ascending(changes: seq<Change>) {
    forall j, k :: 0 <= j < k < |changes| ==> changes[j].index < changes[k].index
  }

  /** The changes of every tag go upwards, at every depth. */
  ghost predicate Ordered(d: Diff)
    decreases d
  {
    (forall u :: Ascending(ChangesOf(d.changes, u))) &&
    forall k :: 0 <= k < |d.changes| ==> Ordered(d.changes[k].sub)
  }

  /** Nothing is deleted at any depth. */
  predicate NoDels(d: Diff)
    decreases d
  {
    d.dels == [] && forall c :: c in d.changes && c.tag != "" ==> NoDels(c.sub)
  }

  lemma {:induction false} AtFound(changes: seq<Change>, i: int) returns (k: nat)
    requires At(changes, i).Found?
    ensures k < |changes| && changes[k].tag != "" && changes[k].index == i && changes[k].sub == At(changes, i).sub
  {
    k := 0;
    if changes[0].tag == "" || changes[0].index != i {
      k := AtFound(changes[1..], i);
      k := k + 1;
    }
  }

  /** Where indices go upwards, each change is found. */
  lemma {:induction false} FoundAt(changes: seq<Change>, k: nat)
    requires Ascending(changes) && k < |changes| && changes[k].tag != ""
    ensures At(changes, changes[k].index) == Found(changes[k].sub)
  {
    if k > 0 {
      FoundAt(changes[1..], k - 1);
    }
  }

  lemma {:induction false} ChangesOfMember(s: seq<Change>, u: string, c: Change)
    ensures c in ChangesOf(s, u) <==> c in s && c.tag == u
  {
    if s != [] {
      ChangesOfMember(s[1..], u, c);
    }
  }

  /** A change pairs the child it is recorded for with the one in its final place, none of them before
      `ai` and `bi`. */
  ghost predicate Paired(x: seq<Tree>, y: seq<Tree>, tag: string, ai: nat, bi: nat, c: Change) {
    c.tag == tag && bi <= c.index < |y| && ai <= c.index + |x| - |y| < |x| &&
    x[c.index + |x| - |y|] != y[c.index] && c.sub == GetDiff(x[c.index + |x| - |y|], y[c.index])
  }

  ghost predicate Pairs(x: seq<Tree>, y: seq<Tree>, tag: string, ai: nat, bi: nat, changes: seq<Change>) {
    Ascending(changes) &&
    forall k {:trigger Paired(x, y, tag, ai, bi, changes[k])} :: 0 <= k < |changes| ==>
      Paired(x, y, tag, ai, bi, changes[k])
  }

  lemma {:induction false} DiffPairs(a: Tree, x: seq<Tree>, y: seq<Tree>, tag: string, ai: nat, bi: nat, nd: nat)
    requires Below(x, a) && ai <= |x| && nd <= bi <= |y|
    ensures Pairs(x, y, tag, ai, bi, DiffTag(a, x, y, tag, ai, bi, nd).changes)
    decreases |x| - ai + |y| - bi
  {
    if ai == |x| && bi == |y| {
    } else if ai < |x| && bi < |y| && x[ai] == y[bi] {
      DiffPairs(a, x, y, tag, ai + 1, bi + 1, nd);
      PairsEarlier(x, y, tag, ai, bi, ai + 1, bi + 1, DiffTag(a, x, y, tag, ai, bi, nd).changes);
    } else if |y| - bi > |x| - ai {
      DiffPairs(a, x, y, tag, ai, bi + 1, nd + 1);
      PairsEarlier(x, y, tag, ai, bi, ai, bi + 1, DiffTag(a, x, y, tag, ai, bi, nd).changes);
    } else if |y| - bi < |x| - ai {
      DiffPairs(a, x, y, tag, ai + 1, bi, nd);
      PairsEarlier(x, y, tag, ai, bi, ai + 1, bi, DiffTag(a, x, y, tag, ai, bi, nd).changes);
    } else {
      DiffPairs(a, x, y, tag, ai + 1, bi + 1, nd);
      PairsHead(x, y, tag, ai, bi, DiffTag(a, x, y, tag, ai + 1, bi + 1, nd).changes);
    }
  }

  lemma PairsEarlier(x: seq<Tree>, y: seq<Tree>, tag: string, ai: nat, bi: nat, ai': nat, bi': nat,
                     changes: seq<Change>)
    requires ai <= ai' && bi <= bi' && Pairs(x, y, tag, ai', bi', changes)
    ensures Pairs(x, y, tag, ai, bi, changes)
  {
    forall k | 0 <= k < |changes|
      ensures Paired(x, y, tag, ai, bi, changes[k])
    {
      assert Paired(x, y, tag, ai', bi', changes[k]);
    }
  }

  lemma PairsHead(x: seq<Tree>, y: seq<Tree>, tag: string, ai: nat, bi: nat, rest: seq<Change>)
    requires ai < |x| && bi < |y| && |y| - bi == |x| - ai && x[ai] != y[bi] && Pairs(x, y, tag, ai + 1, bi + 1, rest)
    ensures Pairs(x, y, tag, ai, bi, [Change(tag, bi, GetDiff(x[ai], y[bi]))] + rest)
  {
    var all := [Change(tag, bi, GetDiff(x[ai], y[bi]))] + rest;
    forall k | 0 <= k < |all|
      ensures Paired(x, y, tag, ai, bi, all[k]) && (0 < k ==> all[k] == rest[k - 1] && bi < all[k].index)
    {
      if k > 0 {
        assert all[k] == rest[k - 1];
        assert Paired(x, y, tag, ai + 1, bi + 1, rest[k - 1]);
      }
    }
  }

  lemma {:induction false} GetDiffOrdered(a: Tree, b: Tree)
    ensures Ordered(GetDiff(a, b))
    decreases a
  {
    var d := GetDiff(a, b);
    forall u
      ensures Ascending(ChangesOf(d.changes, u))
    {
      GetDiffOps(a, b, u);
      ChildrenSmaller(a, u);
      DiffPairs(a, Tagged(a.kids, u), Tagged(b.kids, u), u, 0, 0, 0);
    }
    forall k | 0 <= k < |d.changes|
      ensures Ordered(d.changes[k].sub)
    {
      var i, j := SubOfDiff(a, b, d.changes[k]);
      ChildSmaller(a, d.changes[k].tag, i);
      GetDiffOrdered(Tagged(a.kids, d.changes[k].tag)[i], Tagged(b.kids, d.changes[k].tag)[j]);
    }
  }

  lemma SubOfDiff(a: Tree, b: Tree, c: Change) returns (i: nat, j: nat)
    requires c in GetDiff(a, b).changes
    ensures i < |Tagged(a.kids, c.tag)| && j < |Tagged(b.kids, c.tag)|
    ensures c.sub == GetDiff(Tagged(a.kids, c.tag)[i], Tagged(b.kids, c.tag)[j])
  {
    ChangesOfMember(GetDiff(a, b).changes, c.tag, c);
    GetDiffOps(a, b, c.tag);
    ChildrenSmaller(a, c.tag);
    DiffPairs(a, Tagged(a.kids, c.tag), Tagged(b.kids, c.tag), c.tag, 0, 0, 0);
    i, j := PairOf(Tagged(a.kids, c.tag), Tagged(b.kids, c.tag), c.tag, TagDiff(a, b, c.tag).changes, c);
  }

  lemma PairOf(x: seq<Tree>, y: seq<Tree>, tag: string, changes: seq<Change>, c: Change) returns (i: nat, j: nat)
    requires Pairs(x, y, tag, 0, 0, changes) && c in changes
    ensures i < |x| && j < |y| && c.sub == GetDiff(x[i], y[j])
  {
    var k :| 0 <= k < |changes| && changes[k] == c;
    assert Paired(x, y, tag, 0, 0, changes[k]);
    i, j := c.index + |x| - |y|, c.index;
  }

  lemma AtPaired(x: seq<Tree>, y: seq<Tree>, tag: string, ai: nat, bi: nat, changes: seq<Change>, j: int)
    requires Pairs(x, y, tag, ai, bi, changes)
    ensures At(changes, j).Found? ==> bi <= j < |y| && ai <= j + |x| - |y| < |x| &&
                                      At(changes, j).sub == GetDiff(x[j + |x| - |y|], y[j])
  {
    if At(changes, j).Found? {
      var k := AtFound(changes, j);
      assert Paired(x, y, tag, ai, bi, changes[k]);
    }
  }

  /** What a final place `i` holds. */
  ghost predicate Holds(mode: Mode, x: seq<Tree>, y: seq<Tree>, i: nat, e: Tree, o: Found)
    requires i < |x|
  {
    match o
    case Nothing => Strip(e) == Strip(x[i]) && (mode.Apply? ==> e == x[i])
    case Found(s) => 0 <= i + |y| - |x| < |y| && s == GetDiff(x[i], y[i + |y| - |x|]) &&
                     e == Run(mode, y[i + |y| - |x|], s).tree
  }

  /** The child in a final place: changed, if the diff records a change for where it was. */
  lemma ShapedAt(mode: Mode, a: Tree, x: seq<Tree>, y: seq<Tree>, tag: string, i: nat)
    requires Below(x, a) && i < |x| && tag != ""
    ensures Holds(mode, x, y, i, Shaped(mode, a, x, y, tag, 0, 0)[i],
                  At(DiffTag(a, x, y, tag, 0, 0, 0).changes, i + |y| - |x|))
  {
    var bi, nd := Reached(mode, a, x, y, tag, 0, 0, 0, i);
    ShapedHere(mode, a, x, y, tag, bi, nd, i);
  }

  /** Going on from the one state of the comparison, `x[i]` is dealt with as from the other. */
  ghost predicate SameThere(mode: Mode, a: Tree, x: seq<Tree>, y: seq<Tree>, tag: string, ai: nat, bi: nat, nd: nat,
                            ai': nat, bi': nat, nd': nat, i: nat)
    requires Below(x, a) && nd <= bi <= |y| && ai <= i < |x| && nd' <= bi' <= |y| && ai' <= i
  {
    Shaped(mode, a, x, y, tag, ai, bi)[i - ai] == Shaped(mode, a, x, y, tag, ai', bi')[i - ai'] &&
    At(DiffTag(a, x, y, tag, ai, bi, nd).changes, i + |y| - |x|) ==
    At(DiffTag(a, x, y, tag, ai', bi', nd').changes, i + |y| - |x|)
  }

  /** Where in the other list the comparison is when it deals with `x[i]`. */
  lemma {:induction false} Reached(mode: Mode, a: Tree, x: seq<Tree>, y: seq<Tree>, tag: string, ai: nat, bi: nat,
                                   nd: nat, i: nat)
    returns (bi': nat, nd': nat)
    requires Below(x, a) && nd <= bi <= |y| && ai <= i < |x|
    ensures nd' <= bi' <= |y| && (|y| - bi' <= |x| - i || x[i] == y[bi'])
    ensures SameThere(mode, a, x, y, tag, ai, bi, nd, i, bi', nd', i)
    decreases |x| - ai + |y| - bi
  {
    bi', nd' := bi, nd;
    if |y| - bi > |x| - ai && x[ai] != y[bi] {
      bi', nd' := Reached(mode, a, x, y, tag, ai, bi + 1, nd + 1, i);
      ShapedDeleted(mode, a, x, y, tag, ai, bi, nd, i);
      ThereTransitive(mode, a, x, y, tag, ai, bi, nd, ai, bi + 1, nd + 1, bi', nd', i);
    } else if ai < i {
      var next := if bi < |y| && (x[ai] == y[bi] || |y| - bi == |x| - ai) then bi + 1 else bi;
      bi', nd' := Reached(mode, a, x, y, tag, ai + 1, next, nd, i);
      ShapedLater(mode, a, x, y, tag, ai, bi, nd, next, i);
      ThereTransitive(mode, a, x, y, tag, ai, bi, nd, ai + 1, next, nd, bi', nd', i);
    }
  }

  lemma ThereTransitive(mode: Mode, a: Tree, x: seq<Tree>, y: seq<Tree>, tag: string, ai: nat, bi: nat, nd: nat,
                        ai': nat, bi': nat, nd': nat, bi'': nat, nd'': nat, i: nat)
    requires Below(x, a) && nd <= bi <= |y| && ai <= i < |x| && nd' <= bi' <= |y| && ai' <= i && nd'' <= bi'' <= |y|
    requires SameThere(mode, a, x, y, tag, ai, bi, nd, ai', bi', nd', i)
    requires SameThere(mode, a, x, y, tag, ai', bi', nd', i, bi'', nd'', i)
    ensures SameThere(mode, a, x, y, tag, ai, bi, nd, i, bi'', nd'', i)
  {
  }

  lemma ShapedLater(mode: Mode, a: Tree, x: seq<Tree>, y: seq<Tree>, tag: string, ai: nat, bi: nat, nd: nat,
                    next: nat, i: nat)
    requires Below(x, a) && nd <= bi <= |y| && ai < i < |x|
    requires |y| - bi <= |x| - ai || x[ai] == y[bi]
    requires next == if bi < |y| && (x[ai] == y[bi] || |y| - bi == |x| - ai) then bi + 1 else bi
    ensures SameThere(mode, a, x, y, tag, ai, bi, nd, ai + 1, next, nd, i)
  {
    ShapedTail(mode, a, x, y, tag, ai, bi, next);
    assert Shaped(mode, a, x, y, tag, ai, bi)[1..][i - (ai + 1)] == Shaped(mode, a, x, y, tag, ai, bi)[i - ai];
    if bi < |y| && x[ai] != y[bi] && |y| - bi == |x| - ai {
      ChangeRecorded(a, x, y, tag, ai, bi, nd);
      AtLater(Change(tag, bi, GetDiff(x[ai], y[bi])), DiffTag(a, x, y, tag, ai + 1, next, nd).changes, i + |y| - |x|);
    }
  }

  lemma ShapedDeleted(mode: Mode, a: Tree, x: seq<Tree>, y: seq<Tree>, tag: string, ai: nat, bi: nat, nd: nat, i: nat)
    requires Below(x, a) && nd <= bi < |y| && ai <= i < |x| && |y| - bi > |x| - ai && x[ai] != y[bi]
    ensures SameThere(mode, a, x, y, tag, ai, bi, nd, ai, bi + 1, nd + 1, i)
  {
  }

  lemma ShapedTail(mode: Mode, a: Tree, x: seq<Tree>, y: seq<Tree>, tag: string, ai: nat, bi: nat, next: nat)
    requires Below(x, a) && bi <= |y| && ai < |x|
    requires |y| - bi <= |x| - ai || x[ai] == y[bi]
    requires next == if bi < |y| && (x[ai] == y[bi] || |y| - bi == |x| - ai) then bi + 1 else bi
    ensures Shaped(mode, a, x, y, tag, ai, bi)[1..] == Shaped(mode, a, x, y, tag, ai + 1, next)
  {
  }

  lemma ChangeRecorded(a: Tree, x: seq<Tree>, y: seq<Tree>, tag: string, ai: nat, bi: nat, nd: nat)
    requires Below(x, a) && nd <= bi < |y| && ai < |x| && |y| - bi == |x| - ai && x[ai] != y[bi]
    ensures DiffTag(a, x, y, tag, ai, bi, nd).changes ==
            [Change(tag, bi, GetDiff(x[ai], y[bi]))] + DiffTag(a, x, y, tag, ai + 1, bi + 1, nd).changes
  {
  }

  lemma AtLater(c: Change, rest: seq<Change>, j: int)
    requires c.index != j
    ensures At([c] + rest, j) == At(rest, j)
  {
    assert ([c] + rest)[1..] == rest;
  }

  lemma ShapedHere(mode: Mode, a: Tree, x: seq<Tree>, y: seq<Tree>, tag: string, bi: nat, nd: nat, i: nat)
    requires Below(x, a) && nd <= bi <= |y| && i < |x| && tag != ""
    requires |y| - bi <= |x| - i || x[i] == y[bi]
    ensures Holds(mode, x, y, i, Shaped(mode, a, x, y, tag, i, bi)[0],
                  At(DiffTag(a, x, y, tag, i, bi, nd).changes, i + |y| - |x|))
  {
    if bi < |y| && x[i] != y[bi] && |y| - bi == |x| - i {
      HereChanged(mode, a, x, y, tag, bi, nd, i);
    } else {
      var next := if bi < |y| && x[i] == y[bi] then bi + 1 else bi;
      HereKept(mode, a, x, y, tag, bi, nd, next, i);
      NoneRecorded(a, x, y, tag, i + 1, next, nd, i);
    }
  }

  lemma NoneRecorded(a: Tree, x: seq<Tree>, y: seq<Tree>, tag: string, ai: nat, bi: nat, nd: nat, i: nat)
    requires Below(x, a) && nd <= bi <= |y| && i < ai <= |x|
    ensures At(DiffTag(a, x, y, tag, ai, bi, nd).changes, i + |y| - |x|) == Nothing
  {
    DiffPairs(a, x, y, tag, ai, bi, nd);
    AtPaired(x, y, tag, ai, bi, DiffTag(a, x, y, tag, ai, bi, nd).changes, i + |y| - |x|);
  }

  lemma HereKept(mode: Mode, a: Tree, x: seq<Tree>, y: seq<Tree>, tag: string, bi: nat, nd: nat, next: nat, i: nat)
    requires Below(x, a) && nd <= bi <= |y| && i < |x|
    requires |y| - bi < |x| - i || (bi < |y| && x[i] == y[bi])
    requires next == if bi < |y| && x[i] == y[bi] then bi + 1 else bi
    ensures DiffTag(a, x, y, tag, i, bi, nd).changes == DiffTag(a, x, y, tag, i + 1, next, nd).changes
    ensures var e := Shaped(mode, a, x, y, tag, i, bi)[0]; Strip(e) == Strip(x[i]) && (mode.Apply? ==> e == x[i])
  {
  }

  lemma HereChanged(mode: Mode, a: Tree, x: seq<Tree>, y: seq<Tree>, tag: string, bi: nat, nd: nat, i: nat)
    requires Below(x, a) && nd <= bi < |y| && i < |x| && tag != ""
    requires |y| - bi == |x| - i && x[i] != y[bi]
    ensures At(DiffTag(a, x, y, tag, i, bi, nd).changes, bi) == Found(GetDiff(x[i], y[bi]))
    ensures Shaped(mode, a, x, y, tag, i, bi)[0] == Run(mode, y[bi], GetDiff(x[i], y[bi])).tree
  {
    assert DiffTag(a, x, y, tag, i, bi, nd).changes[0] == Change(tag, bi, GetDiff(x[i], y[bi]));
  }

  // ----- Clearing one list of children -----

  /** What clearing must make of one child: `p`, with the change found for it or without one. */
  ghost predicate Cleans(n: Tree, o: Found, p: Tree) {
    match o
    case Nothing => Strip(n) == p
    case Found(e) => Run(Clear, n, e).ok && Strip(Run(Clear, n, e).tree) == p
  }

  ghost predicate AllClean(m: seq<Tree>, changes: seq<Change>, p: seq<Tree>) {
    |m| == |p| && forall i {:trigger Cleans(m[i], At(changes, i), p[i])} :: 0 <= i < |m| ==>
      Cleans(m[i], At(changes, i), p[i])
  }

  predicate Within(changes: seq<Change>, n: nat) {
    forall k :: 0 <= k < |changes| && changes[k].tag != "" ==> changes[k].index < n
  }

  ghost predicate ListClears(m: seq<Tree>, changes: seq<Change>, p: seq<Tree>) {
    var c := ChangeList(Clear, m, changes);
    c.ok && StripList(c.list) == p
  }

  lemma {:induction false} NotBefore(changes: seq<Change>, i: int)
    requires forall k :: 0 <= k < |changes| ==> changes[k].index > i
    ensures At(changes, i) == Nothing
  {
    if changes != [] {
      NotBefore(changes[1..], i);
    }
  }

  /** A list is cleared when each child is, by itself. */
  lemma {:induction false} ListByChild(m: seq<Tree>, changes: seq<Change>, p: seq<Tree>)
    requires Ascending(changes)
    ensures ListClears(m, changes, p) <==> Within(changes, |m|) && AllClean(m, changes, p)
    decreases |changes|
  {
    if changes == [] {
      NoChangesClean(m, p);
    } else {
      var c, rest := changes[0], changes[1..];
      assert changes == [c] + rest;
      if c.tag == "" {
        ListByChild(m, rest, p);
        SkippedChange(m, c, rest, p);
      } else if c.index < |m| {
        var r := Run(Clear, m[c.index], c.sub);
        if r.ok {
          var next := m[c.index := r.tree];
          ListByChild(next, rest, p);
          FirstChange(m, c, rest, next, p);
        } else if |m| == |p| {
          assert !Cleans(m[c.index], At(changes, c.index), p[c.index]);
        }
      }
    }
  }

  lemma NoChangesClean(m: seq<Tree>, p: seq<Tree>)
    ensures StripList(m) == p <==> AllClean(m, [], p)
  {
    if AllClean(m, [], p) {
      forall i | 0 <= i < |m|
        ensures StripList(m)[i] == p[i]
      {
        assert Cleans(m[i], At([], i), p[i]);
      }
    }
  }

  lemma SkippedChange(m: seq<Tree>, c: Change, rest: seq<Change>, p: seq<Tree>)
    requires c.tag == ""
    ensures Within([c] + rest, |m|) <==> Within(rest, |m|)
    ensures AllClean(m, [c] + rest, p) <==> AllClean(m, rest, p)
  {
    var all := [c] + rest;
    assert all[1..] == rest && forall k :: 0 <= k < |rest| ==> all[k + 1] == rest[k];
    if |m| == |p| {
      forall i | 0 <= i < |m|
        ensures Cleans(m[i], At(all, i), p[i]) <==> Cleans(m[i], At(rest, i), p[i])
      {
        assert At(all, i) == At(rest, i);
      }
    }
  }

  lemma FirstChange(m: seq<Tree>, c: Change, rest: seq<Change>, next: seq<Tree>, p: seq<Tree>)
    requires c.tag != "" && c.index < |m| && Ascending([c] + rest)
    requires Run(Clear, m[c.index], c.sub).ok && next == m[c.index := Run(Clear, m[c.index], c.sub).tree]
    ensures Within([c] + rest, |m|) <==> Within(rest, |m|)
    ensures AllClean(m, [c] + rest, p) <==> AllClean(next, rest, p)
  {
    var all := [c] + rest;
    assert all[0] == c && all[1..] == rest && forall k :: 0 <= k < |rest| ==> all[k + 1] == rest[k];
    NotBefore(rest, c.index);
    if |m| == |p| {
      forall i | 0 <= i < |m|
        ensures Cleans(m[i], At(all, i), p[i]) <==> Cleans(next[i], At(rest, i), p[i])
      {
        assert At(all, i) == if i == c.index then Found(c.sub) else At(rest, i);
      }
    }
  }

  /** Marks at the top of a child do not matter. */
  lemma CleansStripped(n: Tree, n': Tree, o: Found, p: Tree)
    requires Strip(n) == Strip(n')
    ensures Cleans(n, o, p) <==> Cleans(n', o, p)
  {
    assert n.kids == n'.kids && n.attrs - {TRACK} == n'.attrs - {TRACK};
  }

  // ----- Clearing the children of all tags -----

  lemma {:induction false} EachTagRuns(mode: Mode, kids: seq<Kid>, d: Diff, n: nat, u: string)
    requires n <= |d.changes| && RunChanges(mode, kids, d, n).ok
    ensures ChangeList(mode, Tagged(kids, u), ChangesOf(d.changes[n..], u)).ok
    decreases |d.changes| - n
  {
    if n < |d.changes| {
      var c, rest := d.changes[n], d.changes[n + 1..];
      assert d.changes[n..] == [c] + rest;
      if c.tag == "" {
        EachTagRuns(mode, kids, d, n + 1, u);
      } else {
        var node := Run(mode, Tagged(kids, c.tag)[c.index], c.sub).tree;
        EachTagRuns(mode, UpdateAt(kids, c.tag, c.index, node), d, n + 1, u);
        UpdateAtTagged(kids, c.tag, c.index, node, u);
      }
      if u == c.tag {
        assert ChangesOf([c] + rest, u) == [c] + ChangesOf(rest, u);
      } else {
        assert ChangesOf([c] + rest, u) == ChangesOf(rest, u);
      }
    }
  }

  ghost predicate TagsClear(kids: seq<Kid>, d: Diff, p: seq<Kid>) {
    forall u :: ListClears(Tagged(kids, u), ChangesOf(d.changes, u), Tagged(p, u))
  }

  /** The children are cleared when those of each tag are. */
  lemma KidsByTag(kids: seq<Kid>, d: Diff, p: seq<Kid>)
    requires TagOrder(kids) == TagOrder(p)
    ensures var c := RunChanges(Clear, kids, d, 0);
            c.ok && StripKids(c.kids) == p <==> TagsClear(kids, d, p)
  {
    var c := RunChanges(Clear, kids, d, 0);
    assert d.changes[0..] == d.changes;
    if c.ok {
      forall u
        ensures ChangeList(Clear, Tagged(kids, u), ChangesOf(d.changes, u)).ok
      {
        EachTagRuns(Clear, kids, d, 0, u);
      }
    } else if TagsClear(kids, d, p) {
      assert forall u :: ListClears(Tagged(kids, u), ChangesOf(d.changes, u), Tagged(p, u));
      ChangesByTag(Clear, kids, d, 0);
      assert false;
    }
    if c.ok {
      ChangesByTag(Clear, kids, d, 0);
      forall u
        ensures Tagged(StripKids(c.kids), u) ==
                StripList(ChangeList(Clear, Tagged(kids, u), ChangesOf(d.changes, u)).list)
      {
        StripKidsTagged(c.kids, u);
      }
      OrderChanges(Clear, kids, d, 0);
      StripKidsOrder(c.kids);
      if TagsClear(kids, d, p) {
        forall u
          ensures Tagged(StripKids(c.kids), u) == Tagged(p, u)
        {
          assert ListClears(Tagged(kids, u), ChangesOf(d.changes, u), Tagged(p, u));
        }
        Rebuild(StripKids(c.kids), p);
      }
    }
  }

  // ----- A child that was not tracked -----

  lemma {:induction false} InnocentChanges(kids: seq<Kid>, e: Diff, n: nat)
    requires n <= |e.changes| && NoDels(e)
    requires forall k :: 0 <= k < |kids| ==> Free(kids[k].node)
    ensures var c := RunChanges(Clear, kids, e, n);
            (c.ok <==> FitsFrom(e, kids, n)) && (c.ok ==> c.kids == kids)
    decreases e, 0, |e.changes| - n
  {
    if n < |e.changes| {
      var c := e.changes[n];
      if c.tag != "" && c.index < |Tagged(kids, c.tag)| {
        var t := Tagged(kids, c.tag)[c.index];
        TaggedSmaller(kids, c.tag, c.index);
        Innocent(t, c.sub);
        UpdateSame(kids, c.tag, c.index);
      }
      InnocentChanges(kids, e, n + 1);
    }
  }

  /** `Fits`, for the changes from `n` on. */
  predicate FitsFrom(e: Diff, kids: seq<Kid>, n: nat) {
    forall k :: n <= k < |e.changes| && e.changes[k].tag != "" ==>
      e.changes[k].index < |Tagged(kids, e.changes[k].tag)| &&
      Fits(e.changes[k].sub, Tagged(kids, e.changes[k].tag)[e.changes[k].index])
  }

  lemma {:induction false} UpdateSame(kids: seq<Kid>, tag: string, i: nat)
    requires i < |Tagged(kids, tag)|
    ensures UpdateAt(kids, tag, i, Tagged(kids, tag)[i]) == kids
  {
    var rest := kids[1..];
    if kids[0].tag != tag {
      UpdateSame(rest, tag, i);
    } else if i > 0 {
      UpdateSame(rest, tag, i - 1);
    }
  }

  /** Clearing a node that was never tracked leaves it alone, and throws unless the diff fits. */
  lemma {:induction false} Innocent(t: Tree, e: Diff)
    requires Free(t) && NoDels(e)
    ensures Run(Clear, t, e).ok <==> Fits(e, t)
    ensures Run(Clear, t, e).ok ==> Run(Clear, t, e).tree == t
    decreases e, 1, 0
  {
    InnocentChanges(t.kids, e, 0);
    assert StripKids(t.kids) == t.kids by {
      forall k | 0 <= k < |t.kids|
        ensures StripKids(t.kids)[k] == t.kids[k]
      {
        StripFree(t.kids[k].node);
      }
    }
    StripFree(t);
  }

  lemma StripFree(t: Tree)
    requires Free(t)
    ensures Strip(t) == t
  {
    assert t.attrs - {TRACK} == t.attrs;
  }

  // ----- A node after tracking, and after applying -----

  lemma PatchRuns(a: Tree, b: Tree, u: string)
    ensures AllRun(Apply, Tagged(a.kids, u), Tagged(b.kids, u))
  {
    TagsRestore(false, a, b, u);
  }

  lemma BothRun(a: Tree, b: Tree)
    ensures var d := GetDiff(a, b);
            var t, p := PatchTracked(b, d), Patch(b, d);
            t.ok && p.ok && TagOrder(PatchDels(t.tree.kids, d.dels)) == TagOrder(p.tree.kids)
    ensures forall u :: Tagged(PatchTracked(b, GetDiff(a, b)).tree.kids, u) ==
                        Tracked(Tagged(b.kids, u), TagDiff(a, b, u))
    ensures forall u :: Tagged(Patch(b, GetDiff(a, b)).tree.kids, u) == Applied(Tagged(b.kids, u), TagDiff(a, b, u))
  {
    forall u
      ensures AllRun(Apply, Tagged(a.kids, u), Tagged(b.kids, u)) && AllRun(Track, Tagged(a.kids, u), Tagged(b.kids, u))
    {
      PatchRuns(a, b, u);
      TrackRuns(a, b, u);
    }
    PatchByTag(a, b);
    TrackByTag(a, b);
    OrderDeleted(PatchTracked(b, GetDiff(a, b)).tree.kids, GetDiff(a, b).dels);
    DiffOrders(a, b);
  }

  lemma AttrsAgree(a: Tree, b: Tree)
    requires Free(a) && Free(b)
    ensures var t, p := PatchTracked(b, GetDiff(a, b)).tree.attrs, Patch(b, GetDiff(a, b)).tree.attrs;
            t - {TRACK} == p && TRACK in t && TRACK !in p
  {
  }

  /** The two lists of one tag: `m` is the tracked one less the deletions, `p` the applied one. */
  ghost predicate Settled(a: Tree, x: seq<Tree>, y: seq<Tree>, u: string, m: seq<Tree>, p: seq<Tree>) {
    Below(x, a) && FreeList(x) && FreeList(y) &&
    StripList(m) == StripList(Shaped(Track, a, x, y, u, 0, 0)) && p == Shaped(Apply, a, x, y, u, 0, 0)
  }

  lemma TagSettled(a: Tree, b: Tree, u: string)
    requires Free(a) && Free(b)
    ensures var d := GetDiff(a, b);
            var t, p := PatchTracked(b, d).tree.kids, Patch(b, d).tree.kids;
            Settled(a, Tagged(a.kids, u), Tagged(b.kids, u), u, Tagged(PatchDels(t, d.dels), u), Tagged(p, u)) &&
            |Tagged(t, u)| == |Tagged(b.kids, u)| + |TagDiff(a, b, u).adds|
  {
    BothRun(a, b);
    PatchRuns(a, b, u);
    TrackRuns(a, b, u);
    FreeTagged(a, u);
    FreeTagged(b, u);
    AfterDeletions(a, b, u);
    TagApplied(a, Tagged(a.kids, u), Tagged(b.kids, u), u);
    TagTracked(a, Tagged(a.kids, u), Tagged(b.kids, u), u);
  }

  /** One place of the two lists. */
  ghost predicate SettledAt(x: seq<Tree>, y: seq<Tree>, i: nat, e: Tree, f: Tree, o: Found)
    requires i < |x|
  {
    match o
    case Nothing => Strip(e) == x[i] == f
    case Found(s) => 0 <= i + |y| - |x| < |y| && s == GetDiff(x[i], y[i + |y| - |x|]) &&
                     Strip(e) == Strip(PatchTracked(y[i + |y| - |x|], s).tree) && f == Patch(y[i + |y| - |x|], s).tree
  }

  lemma PlaceSettled(a: Tree, x: seq<Tree>, y: seq<Tree>, u: string, m: seq<Tree>, p: seq<Tree>, i: nat)
    requires Settled(a, x, y, u, m, p) && i < |x| && u != ""
    ensures |m| == |p| == |x|
    ensures SettledAt(x, y, i, m[i], p[i], At(DiffTag(a, x, y, u, 0, 0, 0).changes, i + |y| - |x|))
  {
    ShapedAt(Apply, a, x, y, u, i);
    ShapedAt(Track, a, x, y, u, i);
    StripFree(x[i]);
    var t := Shaped(Track, a, x, y, u, 0, 0);
    assert |StripList(m)| == |StripList(t)|;
    assert StripList(m)[i] == Strip(m[i]) && StripList(t)[i] == Strip(t[i]);
  }

  /** Under an empty tag the changes are passed over by all of them. */
  lemma EmptyTagClears(a: Tree, x: seq<Tree>, y: seq<Tree>, m: seq<Tree>, p: seq<Tree>, changes: seq<Change>)
    requires Settled(a, x, y, "", m, p) && forall k :: 0 <= k < |changes| ==> changes[k].tag == ""
    ensures ListClears(m, changes, p)
  {
    PassedOver(m, changes);
    EmptyTagShapes(a, x, y, 0, 0);
  }

  lemma {:induction false} PassedOver(m: seq<Tree>, changes: seq<Change>)
    requires forall k :: 0 <= k < |changes| ==> changes[k].tag == ""
    ensures ChangeList(Clear, m, changes) == PatchedList(m, true)
  {
    if changes != [] {
      PassedOver(m, changes[1..]);
    }
  }

  lemma {:induction false} EmptyTagShapes(a: Tree, x: seq<Tree>, y: seq<Tree>, ai: nat, bi: nat)
    requires Below(x, a) && FreeList(x) && FreeList(y) && ai <= |x| && bi <= |y|
    ensures StripList(Shaped(Track, a, x, y, "", ai, bi)) == Shaped(Apply, a, x, y, "", ai, bi)
    decreases |x| - ai + |y| - bi
  {
    if ai == |x| && bi == |y| {
    } else if |y| - bi > |x| - ai && !(ai < |x| && x[ai] == y[bi]) {
      EmptyTagShapes(a, x, y, ai, bi + 1);
    } else {
      var next := if bi < |y| && (x[ai] == y[bi] || |y| - bi == |x| - ai) then bi + 1 else bi;
      EmptyTagShapes(a, x, y, ai + 1, next);
      EmptyTagHead(a, x, y, ai, bi);
      ShapedTail(Track, a, x, y, "", ai, bi, next);
      ShapedTail(Apply, a, x, y, "", ai, bi, next);
      StripCons(Shaped(Track, a, x, y, "", ai, bi), Shaped(Apply, a, x, y, "", ai, bi));
    }
  }

  lemma EmptyTagHead(a: Tree, x: seq<Tree>, y: seq<Tree>, ai: nat, bi: nat)
    requires Below(x, a) && ai < |x| && bi <= |y| && Free(x[ai]) && (bi < |y| ==> Free(y[bi]))
    requires |y| - bi <= |x| - ai || x[ai] == y[bi]
    ensures Strip(Shaped(Track, a, x, y, "", ai, bi)[0]) == Shaped(Apply, a, x, y, "", ai, bi)[0]
  {
    StripFree(x[ai]);
    assert Strip(Mark(x[ai], "new")) == Strip(x[ai]);
    if bi < |y| {
      StripFree(y[bi]);
    }
  }

  lemma StripCons(l: seq<Tree>, m: seq<Tree>)
    requires l != [] && m != [] && Strip(l[0]) == m[0] && StripList(l[1..]) == m[1..]
    ensures StripList(l) == m
  {
    assert m == [m[0]] + m[1..];
  }

  // ----- Clearing nothing -----

  /** Tracking marks what it adds and what it changes. */
  lemma {:induction false} MarksSeen(a: Tree, x: seq<Tree>, y: seq<Tree>, tag: string, ai: nat, bi: nat, nd: nat)
    requires Below(x, a) && FreeList(x) && FreeList(y) && ai <= |x| && nd <= bi <= |y|
    requires var ops := DiffTag(a, x, y, tag, ai, bi, nd); ops.adds != [] || (tag != "" && ops.changes != [])
    ensures Shaped(Track, a, x, y, tag, ai, bi) != Shaped(Apply, a, x, y, tag, ai, bi)
    decreases |x| - ai + |y| - bi
  {
    if ai == |x| && bi == |y| {
    } else if |y| - bi > |x| - ai && !(ai < |x| && x[ai] == y[bi]) {
      MarksSeen(a, x, y, tag, ai, bi + 1, nd + 1);
    } else if bi < |y| && x[ai] == y[bi] {
      MarksSeen(a, x, y, tag, ai + 1, bi + 1, nd);
      ShapedTail(Track, a, x, y, tag, ai, bi, bi + 1);
      ShapedTail(Apply, a, x, y, tag, ai, bi, bi + 1);
    } else if |y| - bi < |x| - ai {
      assert Free(x[ai]);
      assert TRACK in Shaped(Track, a, x, y, tag, ai, bi)[0].attrs &&
             TRACK !in Shaped(Apply, a, x, y, tag, ai, bi)[0].attrs;
    } else {
      AttrsAgree(x[ai], y[bi]);
      if tag == "" {
        MarksSeen(a, x, y, tag, ai + 1, bi + 1, nd);
        ShapedTail(Track, a, x, y, tag, ai, bi, bi + 1);
        ShapedTail(Apply, a, x, y, tag, ai, bi, bi + 1);
      } else {
        assert TRACK in Shaped(Track, a, x, y, tag, ai, bi)[0].attrs &&
               TRACK !in Shaped(Apply, a, x, y, tag, ai, bi)[0].attrs;
      }
    }
  }

  lemma {:induction false} CountByOrder(x: seq<Kid>, y: seq<Kid>, u: string)
    requires TagOrder(x) == TagOrder(y)
    ensures |Tagged(x, u)| == |Tagged(y, u)|
  {
    if x != [] {
      assert TagOrder(x)[0] == TagOrder(y)[0] && TagOrder(x)[1..] == TagOrder(y)[1..];
      CountByOrder(x[1..], y[1..], u);
    }
  }

  /** What is only marked as deleted is still there. */
  lemma StillThere(a: Tree, b: Tree)
    requires Free(a) && Free(b) && GetDiff(a, b).dels != []
    ensures TagOrder(PatchTracked(b, GetDiff(a, b)).tree.kids) != TagOrder(Patch(b, GetDiff(a, b)).tree.kids)
  {
    var d := GetDiff(a, b);
    var u := d.dels[0].tag;
    var t, p := PatchTracked(b, d).tree.kids, Patch(b, d).tree.kids;
    GetDiffOps(a, b, u);
    ChildrenSmaller(a, u);
    NeverBothWays(a, Tagged(a.kids, u), Tagged(b.kids, u), u, 0, 0, 0);
    TagSettled(a, b, u);
    if TagOrder(t) == TagOrder(p) {
      CountByOrder(t, p, u);
    }
  }

  lemma {:induction false} FlatChanges(mode: Mode, kids: seq<Kid>, d: Diff, n: nat)
    requires n <= |d.changes| && forall k :: 0 <= k < |d.changes| ==> d.changes[k].tag == ""
    ensures RunChanges(mode, kids, d, n) == PatchedKids(kids, true)
    decreases |d.changes| - n
  {
    if n < |d.changes| {
      FlatChanges(mode, kids, d, n + 1);
    }
  }

  /** A tracked node needs no clearing below it exactly if the diff leaves its children alone. */
  lemma FlatExact(a: Tree, b: Tree)
    requires Free(a) && Free(b)
    ensures Cleans(PatchTracked(b, GetDiff(a, b)).tree, Nothing, Patch(b, GetDiff(a, b)).tree) <==> Flat(GetDiff(a, b))
  {
    var d := GetDiff(a, b);
    AttrsAgree(a, b);
    if Flat(d) {
      FlatChanges(Track, b.kids, d, 0);
      FlatChanges(Apply, b.kids, d, 0);
    } else if d.dels != [] {
      StillThere(a, b);
    } else {
      MarksLeft(a, b);
    }
  }

  lemma MarksLeft(a: Tree, b: Tree)
    requires Free(a) && Free(b) && GetDiff(a, b).dels == [] && !Flat(GetDiff(a, b))
    ensures PatchTracked(b, GetDiff(a, b)).tree.kids != Patch(b, GetDiff(a, b)).tree.kids
  {
    var d := GetDiff(a, b);
    var u := SomeMark(d);
    BothRun(a, b);
    GetDiffOps(a, b, u);
    PatchRuns(a, b, u);
    TrackRuns(a, b, u);
    FreeTagged(a, u);
    FreeTagged(b, u);
    ChildrenSmaller(a, u);
    TagApplied(a, Tagged(a.kids, u), Tagged(b.kids, u), u);
    TagTracked(a, Tagged(a.kids, u), Tagged(b.kids, u), u);
    MarksSeen(a, Tagged(a.kids, u), Tagged(b.kids, u), u, 0, 0, 0);
    assert Tagged(PatchTracked(b, d).tree.kids, u) != Tagged(Patch(b, d).tree.kids, u);
  }

  lemma SomeMark(d: Diff) returns (u: string)
    requires d.dels == [] && !Flat(d)
    ensures OpsFor(d, u).dels == [] && (OpsFor(d, u).adds != [] || (u != "" && OpsFor(d, u).changes != []))
  {
    if d.adds != [] {
      u := d.adds[0].tag;
    } else {
      var k :| 0 <= k < |d.changes| && d.changes[k].tag != "";
      u := d.changes[k].tag;
      ChangesOfMember(d.changes, u, d.changes[k]);
    }
  }

  // ----- Clearing with another diff -----

  /** Clearing with these changes restores a tag that was tracked with those operations. */
  predicate TagFits(x: seq<Tree>, ops: TagOps, changes: seq<Change>) {
    AllFit(x, changes) && AllHit(ops, changes)
  }

  predicate AllFit(x: seq<Tree>, changes: seq<Change>) {
    forall c :: c in changes && c.tag != "" ==> c.index < |x| && Fits(c.sub, x[c.index])
  }

  predicate AllHit(ops: TagOps, changes: seq<Change>) {
    forall c :: c in ops.changes && c.tag != "" ==> Hit(At(changes, c.index + |ops.adds| - |ops.dels|), c.sub)
  }

  /** The same, place by place. */
  ghost predicate PlaceFits(x: seq<Tree>, o: Found, s: Found, i: nat)
    requires i < |x|
  {
    (o.Found? ==> Fits(o.sub, x[i])) && (s.Found? ==> Hit(o, s.sub))
  }

  ghost predicate PlacesFit(x: seq<Tree>, y: seq<Tree>, mine: seq<Change>, changes: seq<Change>) {
    forall i {:trigger At(changes, i)} :: 0 <= i < |x| ==> PlaceFits(x, At(changes, i), At(mine, i + |y| - |x|), i)
  }

  lemma FitsByPlace(a: Tree, x: seq<Tree>, y: seq<Tree>, u: string, changes: seq<Change>)
    requires Below(x, a) && Ascending(changes)
    ensures TagFits(x, DiffTag(a, x, y, u, 0, 0, 0), changes) <==>
            Within(changes, |x|) && PlacesFit(x, y, DiffTag(a, x, y, u, 0, 0, 0).changes, changes)
  {
    var ops := DiffTag(a, x, y, u, 0, 0, 0);
    NeverBothWays(a, x, y, u, 0, 0, 0);
    DiffPairs(a, x, y, u, 0, 0, 0);
    if Within(changes, |x|) && PlacesFit(x, y, ops.changes, changes) {
      PlacesToChanges(x, y, u, ops, changes);
    }
    if TagFits(x, ops, changes) {
      ChangesToPlaces(x, y, u, ops, changes);
    }
  }

  lemma PlacesToChanges(x: seq<Tree>, y: seq<Tree>, u: string, ops: TagOps, changes: seq<Change>)
    requires Ascending(changes) && Pairs(x, y, u, 0, 0, ops.changes) && |ops.adds| - |ops.dels| == |x| - |y|
    requires Within(changes, |x|) && PlacesFit(x, y, ops.changes, changes)
    ensures TagFits(x, ops, changes)
  {
    forall c | c in changes && c.tag != ""
      ensures c.index < |x| && Fits(c.sub, x[c.index])
    {
      var k := MemberIndex(changes, c);
      FoundAt(changes, k);
      assert PlaceFits(x, At(changes, c.index), At(ops.changes, c.index + |y| - |x|), c.index);
    }
    forall c | c in ops.changes && c.tag != ""
      ensures Hit(At(changes, c.index + |ops.adds| - |ops.dels|), c.sub)
    {
      var k := MemberIndex(ops.changes, c);
      assert Paired(x, y, u, 0, 0, ops.changes[k]);
      FoundAt(ops.changes, k);
      var i := c.index + |x| - |y|;
      assert PlaceFits(x, At(changes, i), At(ops.changes, i + |y| - |x|), i);
    }
  }

  lemma ChangesToPlaces(x: seq<Tree>, y: seq<Tree>, u: string, ops: TagOps, changes: seq<Change>)
    requires |ops.adds| - |ops.dels| == |x| - |y| && TagFits(x, ops, changes)
    ensures Within(changes, |x|) && PlacesFit(x, y, ops.changes, changes)
  {
    forall i | 0 <= i < |x|
      ensures PlaceFits(x, At(changes, i), At(ops.changes, i + |y| - |x|), i)
    {
      if At(changes, i).Found? {
        var k := AtFound(changes, i);
        assert changes[k] in changes;
      }
      if At(ops.changes, i + |y| - |x|).Found? {
        var k := AtFound(ops.changes, i + |y| - |x|);
        assert ops.changes[k] in ops.changes && ops.changes[k].index + |ops.adds| - |ops.dels| == i;
      }
    }
  }

  lemma {:induction false} CleansExact(o: Found, a: Tree, b: Tree)
    requires Free(a) && Free(b) && (o.Found? ==> NoDels(o.sub) && Ordered(o.sub))
    ensures Cleans(PatchTracked(b, GetDiff(a, b)).tree, o, Patch(b, GetDiff(a, b)).tree) <==>
            Hit(o, GetDiff(a, b)) && (o.Found? ==> Fits(o.sub, a))
    decreases a, 4
  {
    match o
    case Nothing => FlatExact(a, b);
    case Found(e) => WashExact(e, a, b);
  }

  lemma {:induction false} PlaceExact(a: Tree, x: seq<Tree>, y: seq<Tree>, i: nat, n: Tree, p: Tree, o: Found, s: Found)
    requires Below(x, a) && FreeList(x) && FreeList(y) && i < |x| && SettledAt(x, y, i, n, p, s)
    requires o.Found? ==> NoDels(o.sub) && Ordered(o.sub)
    ensures Cleans(n, o, p) <==> PlaceFits(x, o, s, i)
    decreases a, 0
  {
    StripFree(x[i]);
    match s
    case Nothing =>
      CleansStripped(n, x[i], o, p);
      if o.Found? {
        Innocent(x[i], o.sub);
      }
    case Found(_) =>
      var j := i + |y| - |x|;
      CleansStripped(n, PatchTracked(y[j], s.sub).tree, o, p);
      CleansExact(o, x[i], y[j]);
  }

  lemma {:induction false} TagExact(a: Tree, x: seq<Tree>, y: seq<Tree>, u: string, m: seq<Tree>, p: seq<Tree>,
                                    changes: seq<Change>)
    requires Settled(a, x, y, u, m, p) && u != ""
    requires Ascending(changes) && forall k :: 0 <= k < |changes| && changes[k].tag != "" ==>
               NoDels(changes[k].sub) && Ordered(changes[k].sub)
    ensures ListClears(m, changes, p) <==> TagFits(x, DiffTag(a, x, y, u, 0, 0, 0), changes)
    decreases a, 1
  {
    var mine := DiffTag(a, x, y, u, 0, 0, 0).changes;
    FitsByPlace(a, x, y, u, changes);
    ListByChild(m, changes, p);
    ShapedLengths(a, x, y, u, m, p);
    forall i | 0 <= i < |x|
      ensures Cleans(m[i], At(changes, i), p[i]) <==> PlaceFits(x, At(changes, i), At(mine, i + |y| - |x|), i)
    {
      PlaceSettled(a, x, y, u, m, p, i);
      if At(changes, i).Found? {
        var k := AtFound(changes, i);
        assert changes[k].tag != "";
      }
      PlaceExact(a, x, y, i, m[i], p[i], At(changes, i), At(mine, i + |y| - |x|));
    }
  }

  lemma ShapedLengths(a: Tree, x: seq<Tree>, y: seq<Tree>, u: string, m: seq<Tree>, p: seq<Tree>)
    requires Settled(a, x, y, u, m, p)
    ensures |m| == |p| == |x|
  {
    assert |StripList(m)| == |StripList(Shaped(Track, a, x, y, u, 0, 0))|;
  }

  lemma NodeClears(t: Tree, e: Diff, p: Tree)
    requires TagOrder(PatchDels(t.kids, e.dels)) == TagOrder(p.kids) && t.attrs - {TRACK} == p.attrs
    ensures Run(Clear, t, e) == Patched(p, true) <==> TagsClear(PatchDels(t.kids, e.dels), e, p.kids)
  {
    KidsByTag(PatchDels(t.kids, e.dels), e, p.kids);
  }

  ghost predicate TagsFit(a: Tree, d: Diff, e: Diff) {
    forall u :: u != "" ==> TagFits(Tagged(a.kids, u), OpsFor(d, u), ChangesOf(e.changes, u))
  }

  lemma FitsByTag(a: Tree, d: Diff, e: Diff)
    requires d.dels == []
    ensures TagsFit(a, d, e) <==> Fits(e, a) && Washes(e, d)
  {
    if TagsFit(a, d, e) {
      forall u | u != ""
        ensures AllFit(Tagged(a.kids, u), ChangesOf(e.changes, u)) && AllHit(OpsFor(d, u), ChangesOf(e.changes, u))
      {
        assert TagFits(Tagged(a.kids, u), OpsFor(d, u), ChangesOf(e.changes, u));
      }
      TagsToFits(a, e);
      TagsToWashes(d, e);
    }
    if Fits(e, a) && Washes(e, d) {
      forall u | u != ""
        ensures TagFits(Tagged(a.kids, u), OpsFor(d, u), ChangesOf(e.changes, u))
      {
        ChangesAllFit(a, e, u);
        ChangesAllHit(d, e, u);
      }
    }
  }

  lemma MemberIndex(changes: seq<Change>, c: Change) returns (k: nat)
    requires c in changes
    ensures k < |changes| && changes[k] == c
  {
    k :| k < |changes| && changes[k] == c;
  }

  lemma TagsToFits(a: Tree, e: Diff)
    requires forall u :: u != "" ==> AllFit(Tagged(a.kids, u), ChangesOf(e.changes, u))
    ensures Fits(e, a)
  {
    forall k | 0 <= k < |e.changes| && e.changes[k].tag != ""
      ensures var x := Tagged(a.kids, e.changes[k].tag);
              e.changes[k].index < |x| && Fits(e.changes[k].sub, x[e.changes[k].index])
    {
      ChangesOfMember(e.changes, e.changes[k].tag, e.changes[k]);
      assert AllFit(Tagged(a.kids, e.changes[k].tag), ChangesOf(e.changes, e.changes[k].tag));
    }
  }

  lemma TagsToWashes(d: Diff, e: Diff)
    requires d.dels == [] && forall u :: u != "" ==> AllHit(OpsFor(d, u), ChangesOf(e.changes, u))
    ensures Washes(e, d)
  {
    forall c | c in d.changes && c.tag != ""
      ensures Hit(Landing(e, d, c), c.sub)
    {
      ChangesOfMember(d.changes, c.tag, c);
      HitOne(OpsFor(d, c.tag), ChangesOf(e.changes, c.tag), c);
    }
  }

  lemma HitOne(ops: TagOps, changes: seq<Change>, c: Change)
    requires AllHit(ops, changes) && ops.dels == [] && c in ops.changes && c.tag != ""
    ensures Hit(At(changes, c.index + |ops.adds|), c.sub)
  {
  }

  lemma ChangesAllFit(a: Tree, e: Diff, u: string)
    requires Fits(e, a)
    ensures AllFit(Tagged(a.kids, u), ChangesOf(e.changes, u))
  {
    forall c | c in ChangesOf(e.changes, u) && c.tag != ""
      ensures c.index < |Tagged(a.kids, u)| && Fits(c.sub, Tagged(a.kids, u)[c.index])
    {
      ChangesOfMember(e.changes, u, c);
    }
  }

  lemma ChangesAllHit(d: Diff, e: Diff, u: string)
    requires d.dels == [] && Washes(e, d)
    ensures AllHit(OpsFor(d, u), ChangesOf(e.changes, u))
  {
    var ops, theirs := OpsFor(d, u), ChangesOf(e.changes, u);
    forall c | c in ops.changes && c.tag != ""
      ensures Hit(At(theirs, c.index + |ops.adds| - |ops.dels|), c.sub)
    {
      WashesOne(e, d, u, c);
    }
  }

  lemma WashesOne(e: Diff, d: Diff, u: string, c: Change)
    requires Washes(e, d) && c in OpsFor(d, u).changes && c.tag != ""
    ensures Hit(At(ChangesOf(e.changes, u), c.index + |OpsFor(d, u).adds| - |OpsFor(d, u).dels|), c.sub)
  {
    assert OpsFor(d, u).dels == [];
    ChangesOfMember(d.changes, u, c);
    assert Hit(Landing(e, d, c), c.sub);
  }

  /** Clearing with `e`, which deletes nothing, a node that was tracked with another diff: it comes to
      what applying would have left exactly if `e` fits the node and washes out the marks. */
  lemma {:induction false} WashExact(e: Diff, a: Tree, b: Tree)
    requires Free(a) && Free(b) && NoDels(e) && Ordered(e)
    ensures Cleans(PatchTracked(b, GetDiff(a, b)).tree, Found(e), Patch(b, GetDiff(a, b)).tree) <==>
            Washes(e, GetDiff(a, b)) && Fits(e, a)
    decreases a, 3
  {
    var d := GetDiff(a, b);
    var t, p := PatchTracked(b, d).tree, Patch(b, d).tree;
    AttrsAgree(a, b);
    if d.dels != [] {
      StillThere(a, b);
      ClearKeepsOrder(t, e);
    } else {
      BothRun(a, b);
      NodeClears(t, e, p);
      forall u
        ensures ListClears(Tagged(t.kids, u), ChangesOf(e.changes, u), Tagged(p.kids, u)) <==>
                (u != "" ==> TagFits(Tagged(a.kids, u), OpsFor(d, u), ChangesOf(e.changes, u)))
      {
        TagWashed(e, a, b, u);
      }
      TagsClearFit(a, d, e, t, p);
      FitsByTag(a, d, e);
      CleansNode(t, e, p);
    }
  }

  lemma CleansNode(t: Tree, e: Diff, p: Tree)
    requires t.attrs - {TRACK} == p.attrs
    ensures Cleans(t, Found(e), p) <==> Run(Clear, t, e) == Patched(p, true)
  {
    assert Strip(Run(Clear, t, e).tree) == Run(Clear, t, e).tree;
  }

  lemma TagsClearFit(a: Tree, d: Diff, e: Diff, t: Tree, p: Tree)
    requires forall u :: ListClears(Tagged(t.kids, u), ChangesOf(e.changes, u), Tagged(p.kids, u)) <==>
                         (u != "" ==> TagFits(Tagged(a.kids, u), OpsFor(d, u), ChangesOf(e.changes, u)))
    ensures TagsClear(t.kids, e, p.kids) <==> TagsFit(a, d, e)
  {
  }

  lemma {:induction false} TagWashed(e: Diff, a: Tree, b: Tree, u: string)
    requires Free(a) && Free(b) && NoDels(e) && Ordered(e) && GetDiff(a, b).dels == []
    ensures var d := GetDiff(a, b);
            ListClears(Tagged(PatchTracked(b, d).tree.kids, u), ChangesOf(e.changes, u),
                       Tagged(Patch(b, d).tree.kids, u)) <==>
            (u != "" ==> TagFits(Tagged(a.kids, u), OpsFor(d, u), ChangesOf(e.changes, u)))
    decreases a, 2
  {
    var d := GetDiff(a, b);
    var m, p := Tagged(PatchTracked(b, d).tree.kids, u), Tagged(Patch(b, d).tree.kids, u);
    GetDiffOps(a, b, u);
    TagSettled(a, b, u);
    SubsOf(e, u);
    if u == "" {
      EmptyTagClears(a, Tagged(a.kids, u), Tagged(b.kids, u), m, p, ChangesOf(e.changes, u));
    } else {
      TagExact(a, Tagged(a.kids, u), Tagged(b.kids, u), u, m, p, ChangesOf(e.changes, u));
    }
  }

  lemma SubsOf(e: Diff, u: string)
    requires NoDels(e) && Ordered(e)
    ensures var changes := ChangesOf(e.changes, u);
            Ascending(changes) && forall k :: 0 <= k < |changes| ==>
              changes[k].tag == u && (u != "" ==> NoDels(changes[k].sub)) && Ordered(changes[k].sub)
  {
    var changes := ChangesOf(e.changes, u);
    forall k | 0 <= k < |changes|
      ensures changes[k].tag == u && (u != "" ==> NoDels(changes[k].sub)) && Ordered(changes[k].sub)
    {
      ChangesOfMember(e.changes, u, changes[k]);
      var i := MemberIndex(e.changes, changes[k]);
    }
  }

  lemma ClearKeepsOrder(t: Tree, e: Diff)
    requires e.dels == []
    ensures Run(Clear, t, e).ok ==> TagOrder(Run(Clear, t, e).tree.kids) == TagOrder(t.kids)
  {
    OrderChanges(Clear, t.kids, e, 0);
    StripKidsOrder(RunChanges(Clear, t.kids, e, 0).kids);
  }

  // ----- Clearing with the diff itself -----

  lemma {:induction false} HitNoDels(o: Found, s: Diff)
    requires Hit(o, s)
    ensures NoDels(s)
    decreases s
  {
    if o.Found? {
      forall c | c in s.changes && c.tag != ""
        ensures NoDels(c.sub)
      {
        HitNoDels(Landing(o.sub, s, c), c.sub);
      }
    }
  }

  /** The changes of one tag can be cleared. */
  predicate TagClears(x: seq<Tree>, ops: TagOps) {
    forall c {:trigger ClearsChange(x, ops, c.index, c.sub)} :: c in ops.changes && c.tag != "" ==>
      ClearsChange(x, ops, c.index, c.sub)
  }

  /** A changed child of a tag that is only changed. */
  lemma {:induction false} PurePlace(a: Tree, f: Tree, g: Tree, n: Tree, p: Tree, d: Diff)
    requires f < a && Free(f) && Free(g) && d == GetDiff(f, g)
    requires Strip(n) == Strip(PatchTracked(g, d).tree) && p == Patch(g, d).tree
    ensures Cleans(n, Found(d), p) <==> Clears(f, d)
    decreases a, 0
  {
    ClearsExact(f, g);
    OwnPlace(f, g, n, p, d);
  }

  lemma OwnPlace(a: Tree, b: Tree, n: Tree, p: Tree, d: Diff)
    requires Free(a) && Free(b) && d == GetDiff(a, b) && Strip(n) == Strip(PatchTracked(b, d).tree)
    requires Patch(b, d) == Patched(p, true)
    ensures Cleans(n, Found(d), p) <==> ClearTrack(PatchTracked(b, d).tree, d) == Patch(b, d)
  {
    AttrsAgree(a, b);
    CleansStripped(n, PatchTracked(b, d).tree, Found(d), p);
    CleansNode(PatchTracked(b, d).tree, d, p);
  }

  lemma {:induction false} PureTag(a: Tree, x: seq<Tree>, y: seq<Tree>, u: string, m: seq<Tree>, p: seq<Tree>)
    requires Settled(a, x, y, u, m, p) && u != "" && |x| == |y|
    ensures var ops := DiffTag(a, x, y, u, 0, 0, 0);
            ListClears(m, ops.changes, p) <==> TagClears(x, ops)
    decreases a, 1
  {
    var ops := DiffTag(a, x, y, u, 0, 0, 0);
    DiffPairs(a, x, y, u, 0, 0, 0);
    NeverBothWays(a, x, y, u, 0, 0, 0);
    ListByChild(m, ops.changes, p);
    ShapedLengths(a, x, y, u, m, p);
    forall i | 0 <= i < |x|
      ensures Cleans(m[i], At(ops.changes, i), p[i]) <==>
              (At(ops.changes, i).Found? ==> Clears(x[i], At(ops.changes, i).sub))
    {
      PlaceSettled(a, x, y, u, m, p, i);
      if At(ops.changes, i).Found? {
        PurePlace(a, x[i], y[i], m[i], p[i], At(ops.changes, i).sub);
      } else {
        StripFree(x[i]);
      }
    }
    PureByPlace(x, y, u, ops);
  }

  ghost predicate PlacesClear(x: seq<Tree>, changes: seq<Change>) {
    forall i {:trigger At(changes, i)} :: 0 <= i < |x| && At(changes, i).Found? ==> Clears(x[i], At(changes, i).sub)
  }

  lemma PureByPlace(x: seq<Tree>, y: seq<Tree>, u: string, ops: TagOps)
    requires |x| == |y| && ops.adds == [] && ops.dels == [] && Pairs(x, y, u, 0, 0, ops.changes)
    ensures Within(ops.changes, |x|)
    ensures PlacesClear(x, ops.changes) <==> TagClears(x, ops)
  {
    forall k | 0 <= k < |ops.changes|
      ensures ops.changes[k].index < |x|
    {
      assert Paired(x, y, u, 0, 0, ops.changes[k]);
    }
    if PlacesClear(x, ops.changes) {
      forall c | c in ops.changes && c.tag != ""
        ensures ClearsChange(x, ops, c.index, c.sub)
      {
        var k := MemberIndex(ops.changes, c);
        FoundAt(ops.changes, k);
      }
    }
    if TagClears(x, ops) {
      forall i | 0 <= i < |x| && At(ops.changes, i).Found?
        ensures Clears(x[i], At(ops.changes, i).sub)
      {
        var k := AtFound(ops.changes, i);
        assert ClearsChange(x, ops, ops.changes[k].index, ops.changes[k].sub);
      }
    }
  }

  /** Where a tag is also added to or deleted from, a cleared list leaves no change that deletes: the
      child found by nobody has nothing to be undone, and so on along the chain of places. */
  lemma {:induction false} NothingDeleted(a: Tree, x: seq<Tree>, y: seq<Tree>, u: string, m: seq<Tree>, p: seq<Tree>,
                                          changes: seq<Change>, i: nat)
    requires Settled(a, x, y, u, m, p) && u != "" && |x| != |y| && i < |x|
    requires changes == DiffTag(a, x, y, u, 0, 0, 0).changes && AllClean(m, changes, p)
    requires At(changes, i + |y| - |x|).Found?
    ensures NoDels(At(changes, i + |y| - |x|).sub)
    decreases if |x| > |y| then |x| - i else i
  {
    var o, s := At(changes, i), At(changes, i + |y| - |x|);
    if o.Found? {
      PlaceBefore(a, x, y, u, changes, i);
      NothingDeleted(a, x, y, u, m, p, changes, i + |x| - |y|);
    }
    PlaceSettled(a, x, y, u, m, p, i);
    PlaceExact(a, x, y, i, m[i], p[i], o, s);
    assert Cleans(m[i], At(changes, i), p[i]);
    HitNoDels(o, s.sub);
  }

  lemma PlaceBefore(a: Tree, x: seq<Tree>, y: seq<Tree>, u: string, changes: seq<Change>, i: nat)
    requires Below(x, a) && changes == DiffTag(a, x, y, u, 0, 0, 0).changes && At(changes, i).Found?
    ensures 0 <= i + |x| - |y| < |x| && Ordered(At(changes, i).sub)
  {
    DiffPairs(a, x, y, u, 0, 0, 0);
    AtPaired(x, y, u, 0, 0, changes, i);
    GetDiffOrdered(x[i + |x| - |y|], y[i]);
  }

  lemma MixedTag(a: Tree, x: seq<Tree>, y: seq<Tree>, u: string, m: seq<Tree>, p: seq<Tree>)
    requires Settled(a, x, y, u, m, p) && u != "" && |x| != |y|
    ensures var ops := DiffTag(a, x, y, u, 0, 0, 0);
            ListClears(m, ops.changes, p) <==> TagClears(x, ops)
  {
    var ops := DiffTag(a, x, y, u, 0, 0, 0);
    DiffPairs(a, x, y, u, 0, 0, 0);
    NeverBothWays(a, x, y, u, 0, 0, 0);
    MixedCondition(x, ops);
    if ListClears(m, ops.changes, p) {
      ListByChild(m, ops.changes, p);
      ClearedNoDels(a, x, y, u, m, p, ops.changes);
      TagExact(a, x, y, u, m, p, ops.changes);
    } else if TagClears(x, ops) {
      HitsNoDels(x, y, u, ops);
      TagExact(a, x, y, u, m, p, ops.changes);
    }
  }

  lemma MixedCondition(x: seq<Tree>, ops: TagOps)
    requires ops.adds != [] || ops.dels != []
    ensures TagClears(x, ops) <==> TagFits(x, ops, ops.changes)
  {
    if TagClears(x, ops) {
      forall c | c in ops.changes && c.tag != ""
        ensures c.index < |x| && Fits(c.sub, x[c.index]) &&
                Hit(At(ops.changes, c.index + |ops.adds| - |ops.dels|), c.sub)
      {
        assert ClearsChange(x, ops, c.index, c.sub);
      }
    }
  }

  ghost predicate PlainSubs(changes: seq<Change>) {
    forall k :: 0 <= k < |changes| && changes[k].tag != "" ==> NoDels(changes[k].sub) && Ordered(changes[k].sub)
  }

  lemma ClearedNoDels(a: Tree, x: seq<Tree>, y: seq<Tree>, u: string, m: seq<Tree>, p: seq<Tree>, changes: seq<Change>)
    requires Settled(a, x, y, u, m, p) && u != "" && |x| != |y|
    requires changes == DiffTag(a, x, y, u, 0, 0, 0).changes && AllClean(m, changes, p)
    ensures PlainSubs(changes)
  {
    DiffPairs(a, x, y, u, 0, 0, 0);
    forall k | 0 <= k < |changes|
      ensures NoDels(changes[k].sub) && Ordered(changes[k].sub)
    {
      assert Paired(x, y, u, 0, 0, changes[k]);
      FoundAt(changes, k);
      PlaceBefore(a, x, y, u, changes, changes[k].index);
      NothingDeleted(a, x, y, u, m, p, changes, changes[k].index + |x| - |y|);
    }
  }

  lemma HitsNoDels(x: seq<Tree>, y: seq<Tree>, u: string, ops: TagOps)
    requires (ops.adds != [] || ops.dels != []) && TagClears(x, ops) && Pairs(x, y, u, 0, 0, ops.changes)
    ensures PlainSubs(ops.changes)
  {
    forall k | 0 <= k < |ops.changes| && ops.changes[k].tag != ""
      ensures NoDels(ops.changes[k].sub) && Ordered(ops.changes[k].sub)
    {
      var c := ops.changes[k];
      assert ClearsChange(x, ops, c.index, c.sub);
      HitNoDels(At(ops.changes, c.index + |ops.adds| - |ops.dels|), c.sub);
      assert Paired(x, y, u, 0, 0, ops.changes[k]);
      GetDiffOrdered(x[c.index + |x| - |y|], y[c.index]);
    }
  }

  lemma {:induction false} OwnTag(a: Tree, b: Tree, u: string)
    requires Free(a) && Free(b)
    ensures var d := GetDiff(a, b);
            ListClears(Tagged(PatchDels(PatchTracked(b, d).tree.kids, d.dels), u), ChangesOf(d.changes, u),
                       Tagged(Patch(b, d).tree.kids, u)) <==>
            (u != "" ==> TagClears(Tagged(a.kids, u), OpsFor(d, u)))
    decreases a, 2
  {
    var d := GetDiff(a, b);
    var m, p := Tagged(PatchDels(PatchTracked(b, d).tree.kids, d.dels), u), Tagged(Patch(b, d).tree.kids, u);
    var x, y := Tagged(a.kids, u), Tagged(b.kids, u);
    GetDiffOps(a, b, u);
    TagSettled(a, b, u);
    if u == "" {
      DiffPairs(a, x, y, u, 0, 0, 0);
      forall k | 0 <= k < |ChangesOf(d.changes, u)|
        ensures ChangesOf(d.changes, u)[k].tag == ""
      {
        assert Paired(x, y, u, 0, 0, ChangesOf(d.changes, u)[k]);
      }
      EmptyTagClears(a, x, y, m, p, ChangesOf(d.changes, u));
    } else if |x| == |y| {
      PureTag(a, x, y, u, m, p);
    } else {
      MixedTag(a, x, y, u, m, p);
    }
  }

  ghost predicate AllTagsClear(a: Tree, d: Diff) {
    forall u :: u != "" ==> TagClears(Tagged(a.kids, u), OpsFor(d, u))
  }

  lemma ClearsByTag(a: Tree, d: Diff)
    ensures AllTagsClear(a, d) <==> Clears(a, d)
  {
    if AllTagsClear(a, d) {
      forall c | c in d.changes && c.tag != ""
        ensures ClearsChange(Tagged(a.kids, c.tag), OpsFor(d, c.tag), c.index, c.sub)
      {
        ChangesOfMember(d.changes, c.tag, c);
        assert TagClears(Tagged(a.kids, c.tag), OpsFor(d, c.tag));
      }
    }
    if Clears(a, d) {
      forall u, c | u != "" && c in ChangesOf(d.changes, u)
        ensures ClearsChange(Tagged(a.kids, u), OpsFor(d, u), c.index, c.sub)
      {
        ChangesOfMember(d.changes, u, c);
      }
    }
  }

  /** The promise of the header, exactly: tracking and then clearing comes to the same as applying at
      once if and only if the diff `Clears`. */
  lemma {:induction false} ClearsExact(a: Tree, b: Tree)
    requires Free(a) && Free(b)
    ensures var d := GetDiff(a, b);
            PatchTracked(b, d).ok && Patch(b, d).ok &&
            (ClearTrack(PatchTracked(b, d).tree, d) == Patch(b, d) <==> Clears(a, d))
    decreases a, 3
  {
    var d := GetDiff(a, b);
    var t, p := PatchTracked(b, d).tree, Patch(b, d).tree;
    BothRun(a, b);
    AttrsAgree(a, b);
    NodeClears(t, d, p);
    forall u
      ensures ListClears(Tagged(PatchDels(t.kids, d.dels), u), ChangesOf(d.changes, u), Tagged(p.kids, u)) <==>
              (u != "" ==> TagClears(Tagged(a.kids, u), OpsFor(d, u)))
    {
      OwnTag(a, b, u);
    }
    AllTags(a, d, PatchDels(t.kids, d.dels), p.kids);
    ClearsByTag(a, d);
  }

  lemma AllTags(a: Tree, d: Diff, kids: seq<Kid>, p: seq<Kid>)
    requires forall u :: ListClears(Tagged(kids, u), ChangesOf(d.changes, u), Tagged(p, u)) <==>
                         (u != "" ==> TagClears(Tagged(a.kids, u), OpsFor(d, u)))
    ensures TagsClear(kids, d, p) <==> AllTagsClear(a, d)
  {
  }

  // ----- Where it holds, and where it does not -----

  /** At no level does a diff both change children of a tag and insert or delete some of them. */
  predicate Separate(d: Diff)
    decreases d
  {
    forall c :: c in d.changes && c.tag != "" ==>
      OpsFor(d, c.tag).adds == [] && OpsFor(d, c.tag).dels == [] && Separate(c.sub)
  }

  lemma {:induction false} SeparateClears(a: Tree, b: Tree)
    requires Separate(GetDiff(a, b))
    ensures Clears(a, GetDiff(a, b))
    decreases a, 1
  {
    var d := GetDiff(a, b);
    forall c | c in d.changes && c.tag != ""
      ensures ClearsChange(Tagged(a.kids, c.tag), OpsFor(d, c.tag), c.index, c.sub)
    {
      SeparateChange(a, b, c);
    }
  }

  lemma {:induction false} SeparateChange(a: Tree, b: Tree, c: Change)
    requires Separate(GetDiff(a, b)) && c in GetDiff(a, b).changes && c.tag != ""
    ensures ClearsChange(Tagged(a.kids, c.tag), OpsFor(GetDiff(a, b), c.tag), c.index, c.sub)
    decreases a, 0
  {
    SeparatePair(a, b, c);
    ChildSmaller(a, c.tag, c.index);
    SeparateClears(Tagged(a.kids, c.tag)[c.index], Tagged(b.kids, c.tag)[c.index]);
  }

  lemma SeparatePair(a: Tree, b: Tree, c: Change)
    requires c in GetDiff(a, b).changes
    requires var ops := OpsFor(GetDiff(a, b), c.tag); ops.adds == [] && ops.dels == []
    ensures var x, y := Tagged(a.kids, c.tag), Tagged(b.kids, c.tag);
            c.index < |x| == |y| && c.sub == GetDiff(x[c.index], y[c.index])
  {
    ChangesOfMember(GetDiff(a, b).changes, c.tag, c);
    GetDiffOps(a, b, c.tag);
    ChildrenSmaller(a, c.tag);
    PureChange(a, Tagged(a.kids, c.tag), Tagged(b.kids, c.tag), c.tag, c);
  }

  lemma PureChange(a: Tree, x: seq<Tree>, y: seq<Tree>, tag: string, c: Change)
    requires Below(x, a) && c in DiffTag(a, x, y, tag, 0, 0, 0).changes
    requires var ops := DiffTag(a, x, y, tag, 0, 0, 0); ops.adds == [] && ops.dels == []
    ensures c.index < |x| == |y| && c.sub == GetDiff(x[c.index], y[c.index])
  {
    NeverBothWays(a, x, y, tag, 0, 0, 0);
    PairedChange(a, x, y, tag, c);
  }

  lemma PairedChange(a: Tree, x: seq<Tree>, y: seq<Tree>, tag: string, c: Change)
    requires Below(x, a) && c in DiffTag(a, x, y, tag, 0, 0, 0).changes
    ensures Paired(x, y, tag, 0, 0, c)
  {
    var changes := DiffTag(a, x, y, tag, 0, 0, 0).changes;
    DiffPairs(a, x, y, tag, 0, 0, 0);
    var k := MemberIndex(changes, c);
    assert Paired(x, y, tag, 0, 0, changes[k]);
  }

  /** The promise holds wherever changes do not share a tag with insertions or deletions. */
  lemma TrackedThenCleared(a: Tree, b: Tree)
    requires Free(a) && Free(b) && Separate(GetDiff(a, b))
    ensures var d := GetDiff(a, b);
            PatchTracked(b, d).ok && Patch(b, d).ok && ClearTrack(PatchTracked(b, d).tree, d) == Patch(b, d)
  {
    SeparateClears(a, b);
    ClearsExact(a, b);
  }

  lemma {:induction false} ChangesInRange(mode: Mode, kids: seq<Kid>, d: Diff, n: nat, i: nat)
    requires n <= i < |d.changes| && d.changes[i].tag != "" && RunChanges(mode, kids, d, n).ok
    ensures d.changes[i].index < |Tagged(kids, d.changes[i].tag)|
    decreases |d.changes| - n
  {
    var c := d.changes[n];
    if n < i {
      if c.tag == "" {
        ChangesInRange(mode, kids, d, n + 1, i);
      } else {
        var node := Run(mode, Tagged(kids, c.tag)[c.index], c.sub).tree;
        UpdateAtTagged(kids, c.tag, c.index, node, d.changes[i].tag);
        ChangesInRange(mode, UpdateAt(kids, c.tag, c.index, node), d, n + 1, i);
      }
    }
  }

  /** Deletions come before the changes look up their indices: if a tag loses children, and a change
      was recorded at an index it no longer has, then clearing the tracking throws. */
  lemma ClearThrows(a: Tree, b: Tree, i: nat)
    requires i < |GetDiff(a, b).changes|
    requires var c := GetDiff(a, b).changes[i]; c.tag != "" && c.index >= |Tagged(a.kids, c.tag)|
    ensures !ClearTrack(PatchTracked(b, GetDiff(a, b)).tree, GetDiff(a, b)).ok
  {
    var d := GetDiff(a, b);
    TrackNeverThrows(a, b);
    var less := PatchDels(PatchTracked(b, d).tree.kids, d.dels);
    if RunChanges(Clear, less, d, 0).ok {
      ChangesInRange(Clear, less, d, 0, i);
    }
  }

  /** The first of two children goes and the second is changed: the change is looked up at index 1 of
      the one child that is left. */
  lemma ClearThrowsHere()
    ensures var a, b := Tree(map[], Under("t", [Tree(map["k" := "v"], [])])), Tree(map[], Under("t", [EMPTY, EMPTY]));
            !ClearTrack(PatchTracked(b, GetDiff(a, b)).tree, GetDiff(a, b)).ok
  {
    var e := Tree(map["k" := "v"], []);
    var a, b := Tree(map[], Under("t", [e])), Tree(map[], Under("t", [EMPTY, EMPTY]));
    var x, y, c := Tagged(a.kids, "t"), Tagged(b.kids, "t"), Change("t", 1, GetDiff(e, EMPTY));
    UnderTagged("t", [e], "t");
    UnderTagged("t", [EMPTY, EMPTY], "t");
    ChildrenSmaller(a, "t");
    assert "k" in e.attrs && "k" !in EMPTY.attrs;
    assert DiffTag(a, x, y, "t", 0, 1, 1).changes[0] == c;
    assert c in TagDiff(a, b, "t").changes;
    GetDiffOps(a, b, "t");
    ChangesOfMember(GetDiff(a, b).changes, "t", c);
    var k := MemberIndex(GetDiff(a, b).changes, c);
    ClearThrows(a, b, k);
  }

  const PLAIN := Tree(map["k" := "v"], [])

  function Parent(tag: string, kids: seq<Tree>): Tree {
    Tree(map[], Under(tag, kids))
  }

  lemma {:induction false} UnderTags(tag: string, x: seq<Tree>)
    requires x != []
    ensures TagsOf(Under(tag, x)) == [tag]
  {
    if |x| > 1 {
      UnderTags(tag, x[1..]);
    } else {
      assert Under(tag, x)[1..] == [];
    }
  }

  lemma NoAttrs(attrs: Attrs, d: Diff)
    requires d.ins == map[] && d.del == {}
    ensures RunAttrs(Track, attrs, d) == attrs[TRACK := "modified"]
    ensures RunAttrs(Clear, attrs[TRACK := "modified"], d) == attrs - {TRACK}
  {
  }

  lemma UnderTwo(tag: string, e: Tree, f: Tree)
    ensures Under(tag, [e]) == [Kid(tag, e)]
    ensures Under(tag, [e, f]) == [Kid(tag, e), Kid(tag, f)]
    ensures Tagged([Kid(tag, e)], tag) == [e] && Tagged([Kid(tag, e), Kid(tag, f)], tag) == [e, f]
  {
    assert [e][1..] == [] && [e, f][1..] == [f];
    UnderTagged(tag, [e], tag);
    UnderTagged(tag, [e, f], tag);
  }

  lemma OneTagDiff(tag: string, x: seq<Tree>, y: seq<Tree>)
    requires x != []
    ensures Below(x, Parent(tag, x))
    ensures var ops := DiffTag(Parent(tag, x), x, y, tag, 0, 0, 0);
            GetDiff(Parent(tag, x), Parent(tag, y)) == Diff(map[], {}, ops.changes, ops.adds, ops.dels)
  {
    var a, b := Parent(tag, x), Parent(tag, y);
    UnderTagged(tag, x, tag);
    UnderTagged(tag, y, tag);
    ChildrenSmaller(a, tag);
    UnderTags(tag, x);
    if y != [] {
      UnderTags(tag, y);
    }
    assert NotIn([], [tag]) == [] && [tag][1..] == [] && NotIn([tag], [tag]) == [];
    assert TagsOf([]) == [];
    OneTagAll(a, b, tag);
  }

  lemma OneTagAll(a: Tree, b: Tree, tag: string)
    ensures DiffAll(a, b, [tag]) == TagDiff(a, b, tag)
  {
    assert [tag][1..] == [];
    AppendNothing(TagDiff(a, b, tag));
  }

  lemma AddedBelow()
    ensures GetDiff(Parent("s", [EMPTY]), EMPTY) == Diff(map[], {}, [], [Add("s", 0, EMPTY)], [])
  {
    OneTagDiff("s", [EMPTY], []);
  }

  /** A child is added in front of the one that is changed. */
  lemma AddedInFront(f: Tree)
    requires f != EMPTY
    ensures GetDiff(Parent("t", [PLAIN, f]), Parent("t", [EMPTY])) ==
            Diff(map[], {}, [Change("t", 0, GetDiff(f, EMPTY))], [Add("t", 0, PLAIN)], [])
  {
    var a, x := Parent("t", [PLAIN, f]), [PLAIN, f];
    OneTagDiff("t", x, [EMPTY]);
    assert "k" in PLAIN.attrs && "k" !in EMPTY.attrs;
    assert DiffTag(a, x, [EMPTY], "t", 2, 1, 0) == NO_OPS;
    assert DiffTag(a, x, [EMPTY], "t", 1, 0, 0) == TagOps([Change("t", 0, GetDiff(f, EMPTY))], [], []);
  }

  /** The mark below the changed child survives: the child added in front has been cleared instead. */
  lemma MarkSurvives()
    ensures var a, b := Parent("t", [PLAIN, Parent("s", [EMPTY])]), Parent("t", [EMPTY]);
            ClearTrack(PatchTracked(b, GetDiff(a, b)).tree, GetDiff(a, b)) ==
            Patched(Parent("t", [PLAIN, Parent("s", [Mark(EMPTY, "new")])]), true)
  {
    var f, g := Parent("s", [EMPTY]), Parent("s", [Mark(EMPTY, "new")]);
    var sub := Diff(map[], {}, [], [Add("s", 0, EMPTY)], []);
    var d := Diff(map[], {}, [Change("t", 0, sub)], [Add("t", 0, PLAIN)], []);
    AddedBelow();
    assert f.kids != [];
    AddedInFront(f);
    var t := Parent("t", [Mark(PLAIN, "new"), Mark(g, "modified")]).(attrs := map[TRACK := "modified"]);
    assert PatchTracked(Parent("t", [EMPTY]), d) == Patched(t, true) by {
      TrackedHere(sub, d);
    }
    ClearedHere(sub, d);
  }

  lemma TrackedHere(sub: Diff, d: Diff)
    requires sub == Diff(map[], {}, [], [Add("s", 0, EMPTY)], [])
    requires d == Diff(map[], {}, [Change("t", 0, sub)], [Add("t", 0, PLAIN)], [])
    ensures PatchTracked(Parent("t", [EMPTY]), d) ==
            Patched(Parent("t", [Mark(PLAIN, "new"), Mark(Parent("s", [Mark(EMPTY, "new")]), "modified")]).
                      (attrs := map[TRACK := "modified"]), true)
  {
    var g, n := Mark(Parent("s", [Mark(EMPTY, "new")]), "modified"), Mark(PLAIN, "new");
    UnderTwo("s", Mark(EMPTY, "new"), g);
    UnderTwo("t", EMPTY, g);
    UnderTwo("t", n, g);
    TrackedBelow(sub);
    NoAttrs(map[], d);
    assert UpdateAt([Kid("t", EMPTY)], "t", 0, g) == [Kid("t", g)];
    assert RunChanges(Track, [Kid("t", g)], d, 1) == PatchedKids([Kid("t", g)], true);
    assert MarkedNew(d.adds) == [Add("t", 0, n)] && [Add("t", 0, n)][1..] == [];
    assert InsertAt([Kid("t", g)], "t", 0, n) == [Kid("t", n), Kid("t", g)];
    assert RunChanges(Track, [Kid("t", EMPTY)], d, 0) == PatchedKids([Kid("t", g)], true);
    assert PatchAdds([Kid("t", g)], [Add("t", 0, n)]) == PatchedKids([Kid("t", n), Kid("t", g)], true);
    assert RunRest(Track, [Kid("t", g)], d) == PatchedKids([Kid("t", n), Kid("t", g)], true);
  }

  lemma TrackedBelow(sub: Diff)
    requires sub == Diff(map[], {}, [], [Add("s", 0, EMPTY)], [])
    ensures Run(Track, EMPTY, sub) == Patched(Mark(Parent("s", [Mark(EMPTY, "new")]), "modified"), true)
  {
    var n := Mark(EMPTY, "new");
    UnderTwo("s", n, n);
    NoAttrs(map[], sub);
    assert MarkedNew(sub.adds) == [Add("s", 0, n)] && [Add("s", 0, n)][1..] == [];
    assert PatchAdds([], [Add("s", 0, n)]) == PatchedKids([Kid("s", n)], true);
    assert RunChanges(Track, [], sub, 0) == PatchedKids([], true);
    assert RunRest(Track, [], sub) == PatchedKids([Kid("s", n)], true);
  }

  lemma ClearedHere(sub: Diff, d: Diff)
    requires sub == Diff(map[], {}, [], [Add("s", 0, EMPTY)], [])
    requires d == Diff(map[], {}, [Change("t", 0, sub)], [Add("t", 0, PLAIN)], [])
    ensures ClearTrack(Parent("t", [Mark(PLAIN, "new"), Mark(Parent("s", [Mark(EMPTY, "new")]), "modified")]).
                         (attrs := map[TRACK := "modified"]), d) ==
            Patched(Parent("t", [PLAIN, Parent("s", [Mark(EMPTY, "new")])]), true)
  {
    var g, n := Mark(Parent("s", [Mark(EMPTY, "new")]), "modified"), Mark(PLAIN, "new");
    StripFree(PLAIN);
    assert Run(Clear, n, sub) == Patched(PLAIN, true);
    NoAttrs(map[], d);
    assert map[TRACK := "modified"] - {TRACK} == map[];
    UnderTwo("t", n, g);
    UnderTwo("t", PLAIN, Strip(g));
    var kids := [Kid("t", PLAIN), Kid("t", g)];
    assert UpdateAt([Kid("t", n), Kid("t", g)], "t", 0, PLAIN) == kids;
    assert RunChanges(Clear, kids, d, 1) == PatchedKids(kids, true);
    assert RunChanges(Clear, [Kid("t", n), Kid("t", g)], d, 0) == PatchedKids(kids, true);
    assert StripKids(kids) == [Kid("t", PLAIN), Kid("t", Strip(g))];
  }
}
