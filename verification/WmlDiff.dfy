/** `get_diff`, `apply_diff` and the promise that the second undoes the first. */
module WmlDiff {
  import opened Sequences
  import opened WmlTree

  /** A diff node.  The source writes it as another WML node whose children are
      called insert, delete, change_child, insert_child and delete_child. */
  datatype Diff = Diff(ins: Attrs, del: set<string>, changes: seq<Change>, adds: seq<Add>, dels: seq<Del>)

  datatype Change = Change(tag: string, index: nat, sub: Diff)

  datatype Add = Add(tag: string, index: nat, node: Tree)

  datatype Del = Del(tag: string, index: nat)

  datatype TagOps = TagOps(changes: seq<Change>, adds: seq<Add>, dels: seq<Del>)

  const NO_OPS := TagOps([], [], [])

  function NotIn(tags: seq<string>, others: seq<string>): (r: seq<string>)
    ensures forall t :: t in r <==> t in tags && t !in others
  {
    if tags == [] then []
    else (if tags[0] in others then [] else [tags[0]]) + NotIn(tags[1..], others)
  }

  /** The tags of `a`, then those only `b` has. */
  function Entities(a: Tree, b: Tree): (r: seq<string>)
    ensures forall t :: t in r <==> Tagged(a.kids, t) != [] || Tagged(b.kids, t) != []
  {
    TagsOf(a.kids) + NotIn(TagsOf(b.kids), TagsOf(a.kids))
  }

  lemma {:induction false} NotInNoDup(tags: seq<string>, others: seq<string>)
    requires NoDup(tags)
    ensures NoDup(NotIn(tags, others))
  {
    if tags != [] {
      NotInNoDup(tags[1..], others);
      assert tags[0] !in tags[1..];
    }
  }

  lemma EntitiesNoDup(a: Tree, b: Tree)
    ensures NoDup(Entities(a, b))
  {
    TagsOfNoDup(a.kids);
    TagsOfNoDup(b.kids);
    NotInNoDup(TagsOf(b.kids), TagsOf(a.kids));
    var x, y := TagsOf(a.kids), NotIn(TagsOf(b.kids), TagsOf(a.kids));
    assert forall i, j :: 0 <= i < |x| && 0 <= j < |y| ==> x[i] in x && y[j] in y;
  }

  // ----- get_diff -----

  function Inserts(a: Attrs, b: Attrs): Attrs {
    map k | k in a && (k !in b || (a[k] != b[k] && a[k] != "")) :: a[k]
  }

  function Deletes(a: Attrs, b: Attrs): set<string> {
    set k | k in b && (k !in a || a[k] == "")
  }

  function GetDiff(a: Tree, b: Tree): Diff
    decreases a, 3, 0
  {
    var ops := DiffAll(a, b, Entities(a, b));
    Diff(Inserts(a.attrs, b.attrs), Deletes(a.attrs, b.attrs), ops.changes, ops.adds, ops.dels)
  }

  function DiffAll(a: Tree, b: Tree, tags: seq<string>): TagOps
    decreases a, 2, |tags|
  {
    if tags == [] then NO_OPS
    else Append(TagDiff(a, b, tags[0]), DiffAll(a, b, tags[1..]))
  }

  function TagDiff(a: Tree, b: Tree, tag: string): TagOps
    decreases a, 1, 0
  {
    ChildrenSmaller(a, tag);
    DiffTag(a, Tagged(a.kids, tag), Tagged(b.kids, tag), tag, 0, 0, 0)
  }

  function Append(x: TagOps, y: TagOps): TagOps {
    TagOps(x.changes + y.changes, x.adds + y.adds, x.dels + y.dels)
  }

  /** The operations for one tag once `ai` children of `a` and `bi` of `b` are dealt with,
      `nd` of the latter by deletion. */
  function DiffTag(a: Tree, x: seq<Tree>, y: seq<Tree>, tag: string, ai: nat, bi: nat, nd: nat): TagOps
    requires Below(x, a) && ai <= |x| && nd <= bi <= |y|
    decreases a, 0, |x| - ai + |y| - bi
  {
    if ai == |x| && bi == |y| then NO_OPS
    else if ai < |x| && bi < |y| && x[ai] == y[bi] then
      DiffTag(a, x, y, tag, ai + 1, bi + 1, nd)
    else if |y| - bi > |x| - ai then
      var rest := DiffTag(a, x, y, tag, ai, bi + 1, nd + 1);
      rest.(dels := [Del(tag, bi - nd)] + rest.dels)
    else if |y| - bi < |x| - ai then
      var rest := DiffTag(a, x, y, tag, ai + 1, bi, nd);
      rest.(adds := [Add(tag, ai, x[ai])] + rest.adds)
    else
      var rest := DiffTag(a, x, y, tag, ai + 1, bi + 1, nd);
      rest.(changes := [Change(tag, bi, GetDiff(x[ai], y[bi]))] + rest.changes)
  }

  // ----- apply_diff -----

  /** The node as an application leaves it; `ok` is false when it threw part way. */
  datatype Patched = Patched(tree: Tree, ok: bool)

  /** The three ways through a diff: `apply_diff`, `apply_diff` with tracking, `clear_diff_track`. */
  datatype Mode = Apply | Track | Clear

  const TRACK := "__diff_track"

  function Patch(t: Tree, d: Diff): Patched {
    Run(Apply, t, d)
  }

  function PatchTracked(t: Tree, d: Diff): Patched {
    Run(Track, t, d)
  }

  function ClearTrack(t: Tree, d: Diff): Patched {
    Run(Clear, t, d)
  }

  function PatchAttrs(attrs: Attrs, d: Diff): Attrs {
    (attrs + d.ins) - d.del
  }

  function RunAttrs(mode: Mode, attrs: Attrs, d: Diff): Attrs {
    match mode
    case Apply => PatchAttrs(attrs, d)
    case Track => PatchAttrs(attrs[TRACK := "modified"], d)
    case Clear => attrs - {TRACK}
  }

  function Run(mode: Mode, t: Tree, d: Diff): Patched
    decreases d, 1, 0
  {
    var attrs := RunAttrs(mode, t.attrs, d);
    var c := RunChanges(mode, if mode.Clear? then PatchDels(t.kids, d.dels) else t.kids, d, 0);
    var r := if c.ok then RunRest(mode, c.kids, d) else c;
    Patched(Tree(attrs, r.kids), r.ok)
  }

  /** What follows the changes. */
  function RunRest(mode: Mode, kids: seq<Kid>, d: Diff): PatchedKids {
    match mode
    case Clear => PatchedKids(StripKids(kids), true)
    case Apply =>
      var i := PatchAdds(kids, d.adds);
      if i.ok then PatchedKids(PatchDels(i.kids, d.dels), true) else i
    case Track =>
      var i := PatchAdds(kids, MarkedNew(d.adds));
      if i.ok then MarkDels(i.kids, d.dels) else i
  }

  datatype PatchedKids = PatchedKids(kids: seq<Kid>, ok: bool)

  /** The change_child operations from position `n` on; those under an empty tag are passed over. */
  function RunChanges(mode: Mode, kids: seq<Kid>, d: Diff, n: nat): PatchedKids
    requires n <= |d.changes|
    decreases d, 0, |d.changes| - n
  {
    if n == |d.changes| then PatchedKids(kids, true)
    else
      var c := d.changes[n];
      if c.tag == "" then RunChanges(mode, kids, d, n + 1)
      else if c.index >= |Tagged(kids, c.tag)| then PatchedKids(kids, false)
      else
        var p := Run(mode, Tagged(kids, c.tag)[c.index], c.sub);
        var next := UpdateAt(kids, c.tag, c.index, p.tree);
        if p.ok then RunChanges(mode, next, d, n + 1) else PatchedKids(next, false)
  }

  function Mark(t: Tree, text: string): Tree {
    t.(attrs := t.attrs[TRACK := text])
  }

  function MarkedNew(adds: seq<Add>): (r: seq<Add>)
    ensures |r| == |adds| && forall i :: 0 <= i < |r| ==> r[i] == adds[i].(node := Mark(adds[i].node, "new"))
  {
    if adds == [] then [] else [adds[0].(node := Mark(adds[0].node, "new"))] + MarkedNew(adds[1..])
  }

  /** With tracking, the children to be deleted are only marked, at the indices of the deletions. */
  function MarkDels(kids: seq<Kid>, dels: seq<Del>): PatchedKids
    decreases dels
  {
    if dels == [] then PatchedKids(kids, true)
    else
      var x := Tagged(kids, dels[0].tag);
      if dels[0].index >= |x| then PatchedKids(kids, false)
      else MarkDels(UpdateAt(kids, dels[0].tag, dels[0].index, Mark(x[dels[0].index], "deleted")), dels[1..])
  }

  function Strip(t: Tree): Tree {
    t.(attrs := t.attrs - {TRACK})
  }

  function StripKids(kids: seq<Kid>): (r: seq<Kid>)
    ensures |r| == |kids| && forall i :: 0 <= i < |r| ==> r[i] == kids[i].(node := Strip(kids[i].node))
  {
    if kids == [] then [] else [kids[0].(node := Strip(kids[0].node))] + StripKids(kids[1..])
  }

  function PatchAdds(kids: seq<Kid>, adds: seq<Add>): PatchedKids
    decreases adds
  {
    if adds == [] then PatchedKids(kids, true)
    else if adds[0].index > |Tagged(kids, adds[0].tag)| then PatchedKids(kids, false)
    else PatchAdds(InsertAt(kids, adds[0].tag, adds[0].index, adds[0].node), adds[1..])
  }

  function PatchDels(kids: seq<Kid>, dels: seq<Del>): seq<Kid>
    decreases dels
  {
    if dels == [] then kids else PatchDels(RemoveAt(kids, dels[0].tag, dels[0].index), dels[1..])
  }

  // ----- One tag of a patch, on the plain list of that tag's children -----

  datatype PatchedList = PatchedList(list: seq<Tree>, ok: bool)

  function ChangeList(mode: Mode, l: seq<Tree>, changes: seq<Change>): PatchedList
    decreases changes
  {
    if changes == [] then PatchedList(l, true)
    else
      var c := changes[0];
      if c.tag == "" then ChangeList(mode, l, changes[1..])
      else if c.index >= |l| then PatchedList(l, false)
      else
        var p := Run(mode, l[c.index], c.sub);
        if p.ok then ChangeList(mode, l[c.index := p.tree], changes[1..])
        else PatchedList(l[c.index := p.tree], false)
  }

  function AddList(l: seq<Tree>, adds: seq<Add>): PatchedList
    decreases adds
  {
    if adds == [] then PatchedList(l, true)
    else if adds[0].index > |l| then PatchedList(l, false)
    else AddList(l[..adds[0].index] + [adds[0].node] + l[adds[0].index..], adds[1..])
  }

  function DelList(l: seq<Tree>, dels: seq<Del>): seq<Tree>
    decreases dels
  {
    if dels == [] then l else DelList(Without(l, dels[0].index), dels[1..])
  }

  function ChangesOf(s: seq<Change>, tag: string): seq<Change> {
    if s == [] then []
    else if s[0].tag == tag then [s[0]] + ChangesOf(s[1..], tag)
    else ChangesOf(s[1..], tag)
  }

  function AddsOf(s: seq<Add>, tag: string): seq<Add> {
    if s == [] then []
    else if s[0].tag == tag then [s[0]] + AddsOf(s[1..], tag)
    else AddsOf(s[1..], tag)
  }

  function DelsOf(s: seq<Del>, tag: string): seq<Del> {
    if s == [] then []
    else if s[0].tag == tag then [s[0]] + DelsOf(s[1..], tag)
    else DelsOf(s[1..], tag)
  }

  /** If the changes of every tag succeed by themselves, the mixed list succeeds and
      does to each tag exactly what that tag's own changes do. */
  lemma {:induction false} ChangesByTag(mode: Mode, kids: seq<Kid>, d: Diff, n: nat)
    requires n <= |d.changes|
    requires forall u :: ChangeList(mode, Tagged(kids, u), ChangesOf(d.changes[n..], u)).ok
    ensures RunChanges(mode, kids, d, n).ok
    ensures forall u :: Tagged(RunChanges(mode, kids, d, n).kids, u) ==
                        ChangeList(mode, Tagged(kids, u), ChangesOf(d.changes[n..], u)).list
    decreases |d.changes| - n
  {
    if n < |d.changes| {
      var c, rest := d.changes[n], d.changes[n + 1..];
      assert d.changes[n..] == [c] + rest;
      var own := ChangesOf(d.changes[n..], c.tag);
      assert own == [c] + ChangesOf(rest, c.tag);
      assert ChangeList(mode, Tagged(kids, c.tag), own).ok;
      var next := if c.tag == "" then kids else
        UpdateAt(kids, c.tag, c.index, Run(mode, Tagged(kids, c.tag)[c.index], c.sub).tree);
      forall u
        ensures ChangeList(mode, Tagged(kids, u), ChangesOf(d.changes[n..], u)) ==
                ChangeList(mode, Tagged(next, u), ChangesOf(rest, u))
      {
        if c.tag != "" {
          UpdateAtTagged(kids, c.tag, c.index, Run(mode, Tagged(kids, c.tag)[c.index], c.sub).tree, u);
        }
        if u != c.tag {
          assert ChangesOf(d.changes[n..], u) == ChangesOf(rest, u);
        }
      }
      ChangesByTag(mode, next, d, n + 1);
    }
  }

  lemma {:induction false} AddsByTag(kids: seq<Kid>, adds: seq<Add>)
    requires forall u :: AddList(Tagged(kids, u), AddsOf(adds, u)).ok
    ensures PatchAdds(kids, adds).ok
    ensures forall u :: Tagged(PatchAdds(kids, adds).kids, u) == AddList(Tagged(kids, u), AddsOf(adds, u)).list
    decreases |adds|
  {
    if adds != [] {
      var c := adds[0];
      assert AddsOf(adds, c.tag) == [c] + AddsOf(adds[1..], c.tag);
      assert AddList(Tagged(kids, c.tag), AddsOf(adds, c.tag)).ok;
      var next := InsertAt(kids, c.tag, c.index, c.node);
      forall u
        ensures AddList(Tagged(kids, u), AddsOf(adds, u)) == AddList(Tagged(next, u), AddsOf(adds[1..], u))
      {
        InsertAtTagged(kids, c.tag, c.index, c.node, u);
        if u != c.tag {
          assert AddsOf(adds, u) == AddsOf(adds[1..], u);
        }
      }
      AddsByTag(next, adds[1..]);
    }
  }

  lemma {:induction false} DelsByTag(kids: seq<Kid>, dels: seq<Del>, u: string)
    ensures Tagged(PatchDels(kids, dels), u) == DelList(Tagged(kids, u), DelsOf(dels, u))
    decreases |dels|
  {
    if dels != [] {
      var c := dels[0];
      RemoveAtTagged(kids, c.tag, c.index, u);
      DelsByTag(RemoveAt(kids, c.tag, c.index), dels[1..], u);
      if u != c.tag {
        assert DelsOf(dels, u) == DelsOf(dels[1..], u);
      } else {
        assert DelsOf(dels, u) == [c] + DelsOf(dels[1..], u);
      }
    }
  }

  // ----- The operations of one tag inside a diff -----

  function OpsOf(ops: TagOps, tag: string): TagOps {
    TagOps(ChangesOf(ops.changes, tag), AddsOf(ops.adds, tag), DelsOf(ops.dels, tag))
  }

  lemma {:induction false} OpsOfAppend(x: TagOps, y: TagOps, tag: string)
    ensures OpsOf(Append(x, y), tag) == Append(OpsOf(x, tag), OpsOf(y, tag))
  {
    ChangesOfConcat(x.changes, y.changes, tag);
    AddsOfConcat(x.adds, y.adds, tag);
    DelsOfConcat(x.dels, y.dels, tag);
  }

  lemma {:induction false} ChangesOfConcat(x: seq<Change>, y: seq<Change>, tag: string)
    ensures ChangesOf(x + y, tag) == ChangesOf(x, tag) + ChangesOf(y, tag)
  {
    if x == [] {
      assert x + y == y;
    } else {
      assert (x + y)[1..] == x[1..] + y;
      ChangesOfConcat(x[1..], y, tag);
    }
  }

  lemma {:induction false} AddsOfConcat(x: seq<Add>, y: seq<Add>, tag: string)
    ensures AddsOf(x + y, tag) == AddsOf(x, tag) + AddsOf(y, tag)
  {
    if x == [] {
      assert x + y == y;
    } else {
      assert (x + y)[1..] == x[1..] + y;
      AddsOfConcat(x[1..], y, tag);
    }
  }

  lemma {:induction false} DelsOfConcat(x: seq<Del>, y: seq<Del>, tag: string)
    ensures DelsOf(x + y, tag) == DelsOf(x, tag) + DelsOf(y, tag)
  {
    if x == [] {
      assert x + y == y;
    } else {
      assert (x + y)[1..] == x[1..] + y;
      DelsOfConcat(x[1..], y, tag);
    }
  }

  lemma {:induction false} DiffTagOps(a: Tree, x: seq<Tree>, y: seq<Tree>, tag: string, ai: nat, bi: nat, nd: nat,
                                      u: string)
    requires Below(x, a) && ai <= |x| && nd <= bi <= |y|
    ensures OpsOf(DiffTag(a, x, y, tag, ai, bi, nd), u) ==
            if u == tag then DiffTag(a, x, y, tag, ai, bi, nd) else NO_OPS
    decreases |x| - ai + |y| - bi
  {
    if ai == |x| && bi == |y| {
    } else if ai < |x| && bi < |y| && x[ai] == y[bi] {
      DiffTagOps(a, x, y, tag, ai + 1, bi + 1, nd, u);
    } else if |y| - bi > |x| - ai {
      DiffTagOps(a, x, y, tag, ai, bi + 1, nd + 1, u);
    } else if |y| - bi < |x| - ai {
      DiffTagOps(a, x, y, tag, ai + 1, bi, nd, u);
    } else {
      DiffTagOps(a, x, y, tag, ai + 1, bi + 1, nd, u);
    }
  }

  lemma {:induction false} DiffAllOps(a: Tree, b: Tree, tags: seq<string>, u: string)
    requires NoDup(tags)
    ensures OpsOf(DiffAll(a, b, tags), u) == if u in tags then TagDiff(a, b, u) else NO_OPS
    decreases |tags|
  {
    if tags != [] {
      OpsOfAppend(TagDiff(a, b, tags[0]), DiffAll(a, b, tags[1..]), u);
      ChildrenSmaller(a, tags[0]);
      DiffTagOps(a, Tagged(a.kids, tags[0]), Tagged(b.kids, tags[0]), tags[0], 0, 0, 0, u);
      DiffAllOps(a, b, tags[1..], u);
      assert tags[0] !in tags[1..];
    }
  }

  /** Seen from one tag, a diff holds exactly that tag's operations. */
  lemma GetDiffOps(a: Tree, b: Tree, u: string)
    ensures var d := GetDiff(a, b);
            OpsOf(TagOps(d.changes, d.adds, d.dels), u) == TagDiff(a, b, u)
  {
    EntitiesNoDup(a, b);
    DiffAllOps(a, b, Entities(a, b), u);
  }

  /** A diff only ever shrinks or only ever grows one tag, by exactly the difference of the counts. */
  lemma {:induction false} NeverBothWays(a: Tree, x: seq<Tree>, y: seq<Tree>, tag: string, ai: nat, bi: nat, nd: nat)
    requires Below(x, a) && ai <= |x| && nd <= bi <= |y|
    ensures var ops := DiffTag(a, x, y, tag, ai, bi, nd);
            var na, nb := |x| - ai, |y| - bi;
            |ops.dels| == (if nb > na then nb - na else 0) && |ops.adds| == (if na > nb then na - nb else 0)
    decreases |x| - ai + |y| - bi
  {
    if ai == |x| && bi == |y| {
    } else if ai < |x| && bi < |y| && x[ai] == y[bi] {
      NeverBothWays(a, x, y, tag, ai + 1, bi + 1, nd);
    } else if |y| - bi > |x| - ai {
      NeverBothWays(a, x, y, tag, ai, bi + 1, nd + 1);
    } else if |y| - bi < |x| - ai {
      NeverBothWays(a, x, y, tag, ai + 1, bi, nd);
    } else {
      NeverBothWays(a, x, y, tag, ai + 1, bi + 1, nd);
    }
  }

  // ----- The round trip -----

  // How a diff moves the tags.

  function OrderInsert(order: seq<string>, tag: string, i: nat): seq<string> {
    if order == [] then [tag]
    else if order[0] != tag then [order[0]] + OrderInsert(order[1..], tag, i)
    else if i == 0 then [tag] + order
    else [order[0]] + OrderInsert(order[1..], tag, i - 1)
  }

  function OrderRemove(order: seq<string>, tag: string, i: nat): seq<string> {
    if order == [] then []
    else if order[0] != tag then [order[0]] + OrderRemove(order[1..], tag, i)
    else if i == 0 then order[1..]
    else [order[0]] + OrderRemove(order[1..], tag, i - 1)
  }

  function OrderAdds(order: seq<string>, adds: seq<Add>): seq<string>
    decreases adds
  {
    if adds == [] then order else OrderAdds(OrderInsert(order, adds[0].tag, adds[0].index), adds[1..])
  }

  function OrderDels(order: seq<string>, dels: seq<Del>): seq<string>
    decreases dels
  {
    if dels == [] then order else OrderDels(OrderRemove(order, dels[0].tag, dels[0].index), dels[1..])
  }

  // What this makes of the order, from the two nodes alone.

  /** For each child of `b` under a tag, from `bi` on, how many children come to stand in its place: none
      if it is deleted, else itself with the ones inserted in front of it; `n` of these are counted
      already.  The last number counts the ones inserted at the end. */
  function Places(x: seq<Tree>, y: seq<Tree>, ai: nat, bi: nat, n: nat): (r: seq<nat>)
    requires ai <= |x| && bi <= |y|
    ensures |r| == |y| - bi + 1
    decreases |x| - ai + |y| - bi
  {
    if ai == |x| && bi == |y| then [n]
    else if ai < |x| && bi < |y| && x[ai] == y[bi] then [n + 1] + Places(x, y, ai + 1, bi + 1, 0)
    else if |y| - bi > |x| - ai then [n] + Places(x, y, ai, bi + 1, 0)
    else if |y| - bi < |x| - ai then Places(x, y, ai + 1, bi, n + 1)
    else [n + 1] + Places(x, y, ai + 1, bi + 1, 0)
  }

  function Copies(tag: string, n: nat): seq<string> {
    if n == 0 then [] else [tag] + Copies(tag, n - 1)
  }

  function CountOf(order: seq<string>, tag: string): nat {
    if order == [] then 0 else (if order[0] == tag then 1 else 0) + CountOf(order[1..], tag)
  }

  /** The order with each occurrence of a tag taken as often as its place says. */
  function Spread(order: seq<string>, tag: string, places: seq<nat>): seq<string>
    requires |places| == CountOf(order, tag) + 1
  {
    if order == [] then Copies(tag, places[0])
    else if order[0] != tag then [order[0]] + Spread(order[1..], tag, places)
    else Copies(tag, places[0]) + Spread(order[1..], tag, places[1..])
  }

  /** The order of `b` with the places of all tags taken into account, tag after tag. */
  function NewOrder(a: Tree, b: Tree, tags: seq<string>, order: seq<string>): seq<string>
    requires NoDup(tags) && forall u :: u in tags ==> CountOf(order, u) == |Tagged(b.kids, u)|
    decreases |tags|
  {
    if tags == [] then order
    else
      var places := Places(Tagged(a.kids, tags[0]), Tagged(b.kids, tags[0]), 0, 0, 0);
      var next := Spread(order, tags[0], places);
      assert forall u :: u in tags[1..] ==> u in tags && u != tags[0] && CountOf(next, u) == CountOf(order, u) by {
        SpreadCounts(order, tags, places);
      }
      NewOrder(a, b, tags[1..], next)
  }

  lemma SpreadCounts(order: seq<string>, tags: seq<string>, places: seq<nat>)
    requires NoDup(tags) && tags != [] && |places| == CountOf(order, tags[0]) + 1
    ensures forall u :: u in tags[1..] ==>
              u in tags && u != tags[0] && CountOf(Spread(order, tags[0], places), u) == CountOf(order, u)
  {
    forall u | u in tags[1..]
      ensures u in tags && u != tags[0] && CountOf(Spread(order, tags[0], places), u) == CountOf(order, u)
    {
      SpreadCount(order, tags[0], places, u);
    }
  }

  lemma {:induction false} CountConcat(x: seq<string>, y: seq<string>, u: string)
    ensures CountOf(x + y, u) == CountOf(x, u) + CountOf(y, u)
  {
    if x == [] {
      assert x + y == y;
    } else {
      assert (x + y)[1..] == x[1..] + y;
      CountConcat(x[1..], y, u);
    }
  }

  lemma {:induction false} CopiesCount(tag: string, n: nat, u: string)
    ensures CountOf(Copies(tag, n), u) == if u == tag then n else 0
  {
    if n > 0 {
      CopiesCount(tag, n - 1, u);
    }
  }

  lemma {:induction false} SpreadCount(order: seq<string>, tag: string, places: seq<nat>, u: string)
    requires |places| == CountOf(order, tag) + 1 && u != tag
    ensures CountOf(Spread(order, tag, places), u) == CountOf(order, u)
  {
    CopiesCount(tag, places[0], u);
    if order != [] {
      if order[0] != tag {
        SpreadCount(order[1..], tag, places, u);
      } else {
        SpreadCount(order[1..], tag, places[1..], u);
        CountConcat(Copies(tag, places[0]), Spread(order[1..], tag, places[1..]), u);
      }
    }
  }

  /** The part of an order in front of the first occurrence of a tag. */
  lemma {:induction false} UpTo(order: seq<string>, tag: string) returns (front: seq<string>, rest: seq<string>)
    ensures order == front + rest && CountOf(front, tag) == 0 && CountOf(rest, tag) == CountOf(order, tag)
    ensures rest == [] || rest[0] == tag
  {
    if order == [] || order[0] == tag {
      front, rest := [], order;
    } else {
      front, rest := UpTo(order[1..], tag);
      front := [order[0]] + front;
      assert front[1..] + rest == order[1..];
    }
  }

  lemma SpreadSkips(e: string, rest: seq<string>, tag: string, places: seq<nat>)
    requires e != tag && |places| == CountOf(rest, tag) + 1
    ensures CountOf([e] + rest, tag) == CountOf(rest, tag)
    ensures Spread([e] + rest, tag, places) == [e] + Spread(rest, tag, places)
  {
    assert ([e] + rest)[1..] == rest;
  }

  lemma {:induction false} SpreadFront(front: seq<string>, rest: seq<string>, tag: string, places: seq<nat>)
    requires CountOf(front, tag) == 0 && |places| == CountOf(rest, tag) + 1
    ensures CountOf(front + rest, tag) == CountOf(rest, tag)
    ensures Spread(front + rest, tag, places) == front + Spread(rest, tag, places)
  {
    CountConcat(front, rest, tag);
    if front == [] {
      assert front + rest == rest;
    } else {
      SpreadFront(front[1..], rest, tag, places);
      SpreadSkips(front[0], front[1..] + rest, tag, places);
      HeadTail(front, rest);
      HeadTail(front, Spread(rest, tag, places));
    }
  }

  lemma {:induction false} InsertPast(head: seq<string>, rest: seq<string>, tag: string, i: nat)
    requires i == CountOf(head, tag) && (rest == [] || rest[0] == tag)
    ensures OrderInsert(head + rest, tag, i) == head + [tag] + rest
    decreases |head|
  {
    if head == [] {
      assert head + rest == rest;
    } else {
      InsertPast(head[1..], rest, tag, if head[0] == tag then i - 1 else i);
      InsertSkips(head[0], head[1..] + rest, tag, i);
      HeadTail(head, rest);
      HeadTail(head, [tag] + rest);
      Associate(head, [tag], rest);
      Associate(head[1..], [tag], rest);
    }
  }

  lemma InsertSkips(e: string, rest: seq<string>, tag: string, i: nat)
    requires e != tag || i > 0
    ensures OrderInsert([e] + rest, tag, i) == [e] + OrderInsert(rest, tag, if e == tag then i - 1 else i)
  {
    assert ([e] + rest)[1..] == rest;
  }

  lemma {:induction false} RemovePast(head: seq<string>, rest: seq<string>, tag: string, i: nat)
    requires i == CountOf(head, tag) && rest != [] && rest[0] == tag
    ensures OrderRemove(head + rest, tag, i) == head + rest[1..]
    decreases |head|
  {
    if head == [] {
      assert head + rest == rest && head + rest[1..] == rest[1..];
    } else {
      RemovePast(head[1..], rest, tag, if head[0] == tag then i - 1 else i);
      RemoveSkips(head[0], head[1..] + rest, tag, i);
      HeadTail(head, rest);
      HeadTail(head, rest[1..]);
    }
  }

  lemma RemoveSkips(e: string, rest: seq<string>, tag: string, i: nat)
    requires e != tag || i > 0
    ensures OrderRemove([e] + rest, tag, i) == [e] + OrderRemove(rest, tag, if e == tag then i - 1 else i)
  {
    assert ([e] + rest)[1..] == rest;
  }

  // The operations of one tag.

  lemma {:induction false} PlacesFrom(x: seq<Tree>, y: seq<Tree>, ai: nat, bi: nat, n: nat)
    requires ai <= |x| && bi <= |y|
    ensures Places(x, y, ai, bi, n + 1) ==
            [Places(x, y, ai, bi, n)[0] + 1] + Places(x, y, ai, bi, n)[1..]
    decreases |x| - ai + |y| - bi
  {
    if |y| - bi < |x| - ai && !(bi < |y| && x[ai] == y[bi]) {
      PlacesFrom(x, y, ai + 1, bi, n + 1);
    }
  }

  /** The operations turn the part of an order behind `head` into `tail`. */
  ghost predicate Reorders(ops: TagOps, order: seq<string>, head: seq<string>, tail: seq<string>) {
    OrderDels(OrderAdds(order, ops.adds), ops.dels) == head + tail
  }

  lemma {:induction false} TagSpreads(a: Tree, x: seq<Tree>, y: seq<Tree>, tag: string, ai: nat, bi: nat, nd: nat,
                                      head: seq<string>, tail: seq<string>)
    requires Below(x, a) && ai <= |x| && nd <= bi <= |y|
    requires |y| - bi > |x| - ai ==> bi - nd == ai
    requires CountOf(head, tag) == ai && CountOf(tail, tag) == |y| - bi
    ensures Reorders(DiffTag(a, x, y, tag, ai, bi, nd), head + tail, head, Spread(tail, tag, Places(x, y, ai, bi, 0)))
    decreases |x| - ai + |y| - bi, 1
  {
    var front, rest := UpTo(tail, tag);
    CountConcat(head, front, tag);
    TagSpreadsHere(a, x, y, tag, ai, bi, nd, head + front, rest);
    FrontBack(DiffTag(a, x, y, tag, ai, bi, nd), tag, head, front, rest, Places(x, y, ai, bi, 0));
  }

  lemma FrontBack(ops: TagOps, tag: string, head: seq<string>, front: seq<string>, rest: seq<string>, places: seq<nat>)
    requires CountOf(front, tag) == 0 && |places| == CountOf(rest, tag) + 1
    requires Reorders(ops, head + front + rest, head + front, Spread(rest, tag, places))
    ensures CountOf(front + rest, tag) == CountOf(rest, tag)
    ensures Reorders(ops, head + (front + rest), head, Spread(front + rest, tag, places))
  {
    SpreadFront(front, rest, tag, places);
    Associate(head, front, rest);
    Associate(head, front, Spread(rest, tag, places));
  }

  lemma {:induction false} TagSpreadsHere(a: Tree, x: seq<Tree>, y: seq<Tree>, tag: string, ai: nat, bi: nat, nd: nat,
                                          head: seq<string>, rest: seq<string>)
    requires Below(x, a) && ai <= |x| && nd <= bi <= |y|
    requires |y| - bi > |x| - ai ==> bi - nd == ai
    requires CountOf(head, tag) == ai && CountOf(rest, tag) == |y| - bi && (rest == [] || rest[0] == tag)
    ensures Reorders(DiffTag(a, x, y, tag, ai, bi, nd), head + rest, head, Spread(rest, tag, Places(x, y, ai, bi, 0)))
    decreases |x| - ai + |y| - bi, 0
  {
    CountConcat(head, [tag], tag);
    if ai == |x| && bi == |y| {
      NoneLeft(rest, tag);
    } else if (ai < |x| && bi < |y| && x[ai] == y[bi]) || |y| - bi == |x| - ai {
      TagSpreads(a, x, y, tag, ai + 1, bi + 1, nd, head + [tag], rest[1..]);
      SpreadBoth(a, x, y, tag, ai, bi, nd, head, rest);
    } else if |y| - bi > |x| - ai {
      TagSpreads(a, x, y, tag, ai, bi + 1, nd + 1, head, rest[1..]);
      SpreadDeleted(a, x, y, tag, ai, bi, nd, head, rest);
    } else {
      TagSpreads(a, x, y, tag, ai + 1, bi, nd, head + [tag], rest);
      SpreadAdded(a, x, y, tag, ai, bi, nd, head, rest);
    }
  }

  lemma SpreadBoth(a: Tree, x: seq<Tree>, y: seq<Tree>, tag: string, ai: nat, bi: nat, nd: nat,
                   head: seq<string>, rest: seq<string>)
    requires Below(x, a) && ai < |x| && nd <= bi < |y| && (x[ai] == y[bi] || |y| - bi == |x| - ai)
    requires CountOf(rest, tag) == |y| - bi && rest != [] && rest[0] == tag
    requires Reorders(DiffTag(a, x, y, tag, ai + 1, bi + 1, nd), head + [tag] + rest[1..], head + [tag],
                      Spread(rest[1..], tag, Places(x, y, ai + 1, bi + 1, 0)))
    ensures Reorders(DiffTag(a, x, y, tag, ai, bi, nd), head + rest, head, Spread(rest, tag, Places(x, y, ai, bi, 0)))
  {
    BothAdvance(a, x, y, tag, ai, bi, nd);
    SpreadOnce(DiffTag(a, x, y, tag, ai, bi, nd), DiffTag(a, x, y, tag, ai + 1, bi + 1, nd), head, rest, tag,
               Places(x, y, ai + 1, bi + 1, 0));
  }

  lemma SpreadDeleted(a: Tree, x: seq<Tree>, y: seq<Tree>, tag: string, ai: nat, bi: nat, nd: nat,
                      head: seq<string>, rest: seq<string>)
    requires Below(x, a) && ai <= |x| && nd <= bi < |y| && |y| - bi > |x| - ai && bi - nd == ai
    requires !(ai < |x| && x[ai] == y[bi])
    requires CountOf(head, tag) == ai && CountOf(rest, tag) == |y| - bi && rest != [] && rest[0] == tag
    requires Reorders(DiffTag(a, x, y, tag, ai, bi + 1, nd + 1), head + rest[1..], head,
                      Spread(rest[1..], tag, Places(x, y, ai, bi + 1, 0)))
    ensures Reorders(DiffTag(a, x, y, tag, ai, bi, nd), head + rest, head, Spread(rest, tag, Places(x, y, ai, bi, 0)))
  {
    NeverBothWays(a, x, y, tag, ai, bi, nd);
    SpreadNone(DiffTag(a, x, y, tag, ai, bi + 1, nd + 1), head, rest, tag, ai, Places(x, y, ai, bi + 1, 0));
  }

  lemma SpreadAdded(a: Tree, x: seq<Tree>, y: seq<Tree>, tag: string, ai: nat, bi: nat, nd: nat,
                    head: seq<string>, rest: seq<string>)
    requires Below(x, a) && ai < |x| && nd <= bi <= |y| && |y| - bi < |x| - ai && !(bi < |y| && x[ai] == y[bi])
    requires CountOf(head, tag) == ai && CountOf(rest, tag) == |y| - bi && (rest == [] || rest[0] == tag)
    requires Reorders(DiffTag(a, x, y, tag, ai + 1, bi, nd), head + [tag] + rest, head + [tag],
                      Spread(rest, tag, Places(x, y, ai + 1, bi, 0)))
    ensures Reorders(DiffTag(a, x, y, tag, ai, bi, nd), head + rest, head, Spread(rest, tag, Places(x, y, ai, bi, 0)))
  {
    NeverBothWays(a, x, y, tag, ai, bi, nd);
    PlacesFrom(x, y, ai + 1, bi, 0);
    SpreadMore(DiffTag(a, x, y, tag, ai + 1, bi, nd), head, rest, tag, ai, x[ai], Places(x, y, ai + 1, bi, 0));
  }

  lemma BothAdvance(a: Tree, x: seq<Tree>, y: seq<Tree>, tag: string, ai: nat, bi: nat, nd: nat)
    requires Below(x, a) && ai < |x| && nd <= bi < |y| && (x[ai] == y[bi] || |y| - bi == |x| - ai)
    ensures var ops, rest := DiffTag(a, x, y, tag, ai, bi, nd), DiffTag(a, x, y, tag, ai + 1, bi + 1, nd);
            ops.adds == rest.adds && ops.dels == rest.dels
    ensures Places(x, y, ai, bi, 0) == [1] + Places(x, y, ai + 1, bi + 1, 0)
  {
  }

  lemma NoneLeft(rest: seq<string>, tag: string)
    requires CountOf(rest, tag) == 0 && (rest == [] || rest[0] == tag)
    ensures rest == [] && Spread(rest, tag, [0]) == []
  {
  }

  lemma SpreadOnce(ops: TagOps, next: TagOps, head: seq<string>, rest: seq<string>, tag: string, places: seq<nat>)
    requires ops.adds == next.adds && ops.dels == next.dels
    requires rest != [] && rest[0] == tag && |places| == CountOf(rest[1..], tag) + 1
    requires Reorders(next, head + [tag] + rest[1..], head + [tag], Spread(rest[1..], tag, places))
    ensures Reorders(ops, head + rest, head, Spread(rest, tag, [1] + places))
  {
    assert ([1] + places)[1..] == places;
    assert Copies(tag, 1) == [tag] + Copies(tag, 0) == [tag];
    assert [tag] + rest[1..] == rest;
    Associate(head, [tag], rest[1..]);
    Associate(head, [tag], Spread(rest[1..], tag, places));
  }

  lemma SpreadNone(next: TagOps, head: seq<string>, rest: seq<string>, tag: string, i: nat, places: seq<nat>)
    requires rest != [] && rest[0] == tag && |places| == CountOf(rest[1..], tag) + 1 && CountOf(head, tag) == i
    requires next.adds == [] && Reorders(next, head + rest[1..], head, Spread(rest[1..], tag, places))
    ensures Reorders(TagOps(next.changes, [], [Del(tag, i)] + next.dels), head + rest, head,
                     Spread(rest, tag, [0] + places))
  {
    RemovePast(head, rest, tag, i);
    NoneMore(rest, tag, places);
    FirstDel(head + rest, Del(tag, i), next.dels);
  }

  lemma NoneMore(rest: seq<string>, tag: string, places: seq<nat>)
    requires rest != [] && rest[0] == tag && |places| == CountOf(rest[1..], tag) + 1
    ensures Spread(rest, tag, [0] + places) == Spread(rest[1..], tag, places)
  {
    assert ([0] + places)[1..] == places;
  }

  lemma FirstDel(order: seq<string>, c: Del, dels: seq<Del>)
    ensures OrderDels(order, [c] + dels) == OrderDels(OrderRemove(order, c.tag, c.index), dels)
  {
    assert ([c] + dels)[1..] == dels;
  }

  lemma SpreadMore(next: TagOps, head: seq<string>, rest: seq<string>, tag: string, i: nat, node: Tree,
                   places: seq<nat>)
    requires |places| == CountOf(rest, tag) + 1 && (rest == [] || rest[0] == tag) && CountOf(head, tag) == i
    requires next.dels == [] && Reorders(next, head + [tag] + rest, head + [tag], Spread(rest, tag, places))
    ensures Reorders(TagOps(next.changes, [Add(tag, i, node)] + next.adds, []), head + rest, head,
                     Spread(rest, tag, [places[0] + 1] + places[1..]))
  {
    assert ([places[0] + 1] + places[1..])[1..] == places[1..];
    InsertPast(head, rest, tag, i);
    assert ([Add(tag, i, node)] + next.adds)[1..] == next.adds;
    Associate(head, [tag], Spread(rest, tag, places));
    OneMore(rest, tag, places);
  }

  lemma OneMore(rest: seq<string>, tag: string, places: seq<nat>)
    requires |places| == CountOf(rest, tag) + 1 && (rest == [] || rest[0] == tag)
    ensures Spread(rest, tag, [places[0] + 1] + places[1..]) == [tag] + Spread(rest, tag, places)
  {
    assert ([places[0] + 1] + places[1..])[1..] == places[1..];
  }

  // The tags do not get into each other's way.

  lemma {:induction false} RemoveInsert(order: seq<string>, u: string, k: nat, v: string, i: nat)
    requires u != v
    ensures OrderRemove(OrderInsert(order, v, i), u, k) == OrderInsert(OrderRemove(order, u, k), v, i)
    decreases |order|
  {
    if order != [] {
      var rest := order[1..];
      if order[0] == u && k > 0 {
        RemoveInsert(rest, u, k - 1, v, i);
      } else if order[0] == v && i > 0 {
        RemoveInsert(rest, u, k, v, i - 1);
      } else if order[0] != u && order[0] != v {
        RemoveInsert(rest, u, k, v, i);
      }
    }
  }

  lemma {:induction false} RemoveAdds(order: seq<string>, u: string, k: nat, adds: seq<Add>)
    requires forall i :: 0 <= i < |adds| ==> adds[i].tag != u
    ensures OrderRemove(OrderAdds(order, adds), u, k) == OrderAdds(OrderRemove(order, u, k), adds)
    decreases |adds|
  {
    if adds != [] {
      RemoveAdds(OrderInsert(order, adds[0].tag, adds[0].index), u, k, adds[1..]);
      RemoveInsert(order, u, k, adds[0].tag, adds[0].index);
    }
  }

  lemma {:induction false} DelsAdds(order: seq<string>, u: string, dels: seq<Del>, adds: seq<Add>)
    requires forall i :: 0 <= i < |adds| ==> adds[i].tag != u
    requires forall i :: 0 <= i < |dels| ==> dels[i].tag == u
    ensures OrderDels(OrderAdds(order, adds), dels) == OrderAdds(OrderDels(order, dels), adds)
    decreases |dels|
  {
    if dels != [] {
      RemoveAdds(order, u, dels[0].index, adds);
      DelsAdds(OrderRemove(order, u, dels[0].index), u, dels[1..], adds);
    }
  }

  lemma {:induction false} OrderAddsConcat(order: seq<string>, x: seq<Add>, y: seq<Add>)
    ensures OrderAdds(order, x + y) == OrderAdds(OrderAdds(order, x), y)
    decreases |x|
  {
    if x == [] {
      assert x + y == y;
    } else {
      assert (x + y)[1..] == x[1..] + y;
      OrderAddsConcat(OrderInsert(order, x[0].tag, x[0].index), x[1..], y);
    }
  }

  lemma {:induction false} OrderDelsConcat(order: seq<string>, x: seq<Del>, y: seq<Del>)
    ensures OrderDels(order, x + y) == OrderDels(OrderDels(order, x), y)
    decreases |x|
  {
    if x == [] {
      assert x + y == y;
    } else {
      assert (x + y)[1..] == x[1..] + y;
      OrderDelsConcat(OrderRemove(order, x[0].tag, x[0].index), x[1..], y);
    }
  }

  lemma {:induction false} OwnTags(a: Tree, x: seq<Tree>, y: seq<Tree>, tag: string, ai: nat, bi: nat, nd: nat)
    requires Below(x, a) && ai <= |x| && nd <= bi <= |y|
    ensures forall c :: c in DiffTag(a, x, y, tag, ai, bi, nd).adds ==> c.tag == tag
    ensures forall c :: c in DiffTag(a, x, y, tag, ai, bi, nd).dels ==> c.tag == tag
    decreases |x| - ai + |y| - bi
  {
    if ai == |x| && bi == |y| {
    } else if ai < |x| && bi < |y| && x[ai] == y[bi] {
      OwnTags(a, x, y, tag, ai + 1, bi + 1, nd);
    } else if |y| - bi > |x| - ai {
      OwnTags(a, x, y, tag, ai, bi + 1, nd + 1);
    } else if |y| - bi < |x| - ai {
      OwnTags(a, x, y, tag, ai + 1, bi, nd);
    } else {
      OwnTags(a, x, y, tag, ai + 1, bi + 1, nd);
    }
  }

  lemma {:induction false} TagsOfAdds(a: Tree, b: Tree, tags: seq<string>)
    ensures forall c :: c in DiffAll(a, b, tags).adds ==> c.tag in tags
    decreases |tags|
  {
    if tags != [] {
      ChildrenSmaller(a, tags[0]);
      OwnTags(a, Tagged(a.kids, tags[0]), Tagged(b.kids, tags[0]), tags[0], 0, 0, 0);
      TagsOfAdds(a, b, tags[1..]);
    }
  }

  lemma TagOrdered(a: Tree, b: Tree, tag: string, order: seq<string>)
    requires CountOf(order, tag) == |Tagged(b.kids, tag)|
    ensures var ops := TagDiff(a, b, tag);
            OrderDels(OrderAdds(order, ops.adds), ops.dels) ==
            Spread(order, tag, Places(Tagged(a.kids, tag), Tagged(b.kids, tag), 0, 0, 0))
  {
    ChildrenSmaller(a, tag);
    TagSpreads(a, Tagged(a.kids, tag), Tagged(b.kids, tag), tag, 0, 0, 0, [], order);
    var r := Spread(order, tag, Places(Tagged(a.kids, tag), Tagged(b.kids, tag), 0, 0, 0));
    assert [] + order == order && [] + r == r;
  }

  lemma {:induction false} OrderByPlaces(a: Tree, b: Tree, tags: seq<string>, order: seq<string>)
    requires NoDup(tags) && forall u :: u in tags ==> CountOf(order, u) == |Tagged(b.kids, u)|
    ensures var ops := DiffAll(a, b, tags);
            OrderDels(OrderAdds(order, ops.adds), ops.dels) == NewOrder(a, b, tags, order)
    decreases |tags|
  {
    if tags != [] {
      var one, rest := TagDiff(a, b, tags[0]), DiffAll(a, b, tags[1..]);
      var next := OrderDels(OrderAdds(order, one.adds), one.dels);
      TagOrdered(a, b, tags[0], order);
      SpreadCounts(order, tags, Places(Tagged(a.kids, tags[0]), Tagged(b.kids, tags[0]), 0, 0, 0));
      OrderByPlaces(a, b, tags[1..], next);
      OrderAddsConcat(order, one.adds, rest.adds);
      OrderDelsConcat(OrderAdds(OrderAdds(order, one.adds), rest.adds), one.dels, rest.dels);
      OthersAside(a, b, tags, order);
    }
  }

  lemma OthersAside(a: Tree, b: Tree, tags: seq<string>, order: seq<string>)
    requires NoDup(tags) && tags != []
    ensures var one, rest := TagDiff(a, b, tags[0]), DiffAll(a, b, tags[1..]);
            OrderDels(OrderAdds(OrderAdds(order, one.adds), rest.adds), one.dels) ==
            OrderAdds(OrderDels(OrderAdds(order, one.adds), one.dels), rest.adds)
  {
    var one, rest := TagDiff(a, b, tags[0]), DiffAll(a, b, tags[1..]);
    TagsOfAdds(a, b, tags[1..]);
    ChildrenSmaller(a, tags[0]);
    OwnTags(a, Tagged(a.kids, tags[0]), Tagged(b.kids, tags[0]), tags[0], 0, 0, 0);
    forall i | 0 <= i < |rest.adds|
      ensures rest.adds[i].tag != tags[0]
    {
      assert rest.adds[i] in rest.adds;
    }
    forall i | 0 <= i < |one.dels|
      ensures one.dels[i].tag == tags[0]
    {
      assert one.dels[i] in one.dels;
    }
    DelsAdds(OrderAdds(order, one.adds), tags[0], one.dels, rest.adds);
  }

  lemma {:induction false} OrderCounts(kids: seq<Kid>, u: string)
    ensures CountOf(TagOrder(kids), u) == |Tagged(kids, u)|
  {
    if kids != [] {
      OrderCounts(kids[1..], u);
    }
  }

  /** The tags of the patched node in document order: those of the children of `b` that stay, each with
      the ones inserted in front of it, and the ones inserted at the end. */
  function PatchedOrder(a: Tree, b: Tree): seq<string> {
    assert forall u :: CountOf(TagOrder(b.kids), u) == |Tagged(b.kids, u)| by {
      forall u
        ensures CountOf(TagOrder(b.kids), u) == |Tagged(b.kids, u)|
      {
        OrderCounts(b.kids, u);
      }
    }
    EntitiesNoDup(a, b);
    NewOrder(a, b, Entities(a, b), TagOrder(b.kids))
  }

  lemma DiffOrders(a: Tree, b: Tree)
    ensures var d := GetDiff(a, b); OrderDels(OrderAdds(TagOrder(b.kids), d.adds), d.dels) == PatchedOrder(a, b)
  {
    forall u
      ensures CountOf(TagOrder(b.kids), u) == |Tagged(b.kids, u)|
    {
      OrderCounts(b.kids, u);
    }
    EntitiesNoDup(a, b);
    OrderByPlaces(a, b, Entities(a, b), TagOrder(b.kids));
  }

  ghost predicate Same(exact: bool, x: Tree, y: Tree) {
    if exact then x == y else Equiv(x, y)
  }

  /** When a patch restores `a`: up to `Equiv`, if no change that `apply_diff` passes over (because
      its tag is empty) had anything to do; identically, if in addition no attribute that `b` has is
      empty in `a`, and the insertions and deletions happen to put the tags into `a`'s order. */
  ghost predicate Restores(exact: bool, a: Tree, b: Tree)
    decreases a, 2, 0
  {
    (exact ==> RestoresNode(a, b)) && forall tag: string :: RestoresTag(exact, a, b, tag)
  }

  ghost predicate RestoresNode(a: Tree, b: Tree) {
    (forall k :: k in a.attrs && k in b.attrs ==> a.attrs[k] != "") && PatchedOrder(a, b) == TagOrder(a.kids)
  }

  ghost predicate RestoresTag(exact: bool, a: Tree, b: Tree, tag: string)
    decreases a, 1, 0
  {
    ChildrenSmaller(a, tag);
    RestoresFrom(exact, a, Tagged(a.kids, tag), Tagged(b.kids, tag), tag, 0, 0)
  }

  ghost predicate RestoresFrom(exact: bool, a: Tree, x: seq<Tree>, y: seq<Tree>, tag: string, ai: nat, bi: nat)
    requires Below(x, a) && ai <= |x| && bi <= |y|
    decreases a, 0, |x| - ai + |y| - bi
  {
    if ai == |x| && bi == |y| then true
    else if ai < |x| && bi < |y| && x[ai] == y[bi] then RestoresFrom(exact, a, x, y, tag, ai + 1, bi + 1)
    else if |y| - bi > |x| - ai then RestoresFrom(exact, a, x, y, tag, ai, bi + 1)
    else if |y| - bi < |x| - ai then RestoresFrom(exact, a, x, y, tag, ai + 1, bi)
    else
      (if tag == "" then Same(exact, y[bi], x[ai]) else Restores(exact, x[ai], y[bi])) &&
      RestoresFrom(exact, a, x, y, tag, ai + 1, bi + 1)
  }

  ghost predicate SameFrom(exact: bool, r: seq<Tree>, x: seq<Tree>, from: nat) {
    |r| == |x| && forall j :: from <= j < |x| ==> Same(exact, r[j], x[j])
  }

  /** What a mode makes of an inserted child. */
  function Fresh(mode: Mode, t: Tree): Tree {
    if mode.Track? then Mark(t, "new") else t
  }

  function FreshAdds(mode: Mode, adds: seq<Add>): seq<Add> {
    if mode.Track? then MarkedNew(adds) else adds
  }

  /** The children of one tag from position `ai` on, as the operations leave them: those of `x` that
      are inserted or already there, and the changed ones of `y`. */
  function Shaped(mode: Mode, a: Tree, x: seq<Tree>, y: seq<Tree>, tag: string, ai: nat, bi: nat): (r: seq<Tree>)
    requires Below(x, a) && ai <= |x| && bi <= |y|
    ensures |r| == |x| - ai
    decreases |x| - ai + |y| - bi
  {
    if ai == |x| && bi == |y| then []
    else if ai < |x| && bi < |y| && x[ai] == y[bi] then [x[ai]] + Shaped(mode, a, x, y, tag, ai + 1, bi + 1)
    else if |y| - bi > |x| - ai then Shaped(mode, a, x, y, tag, ai, bi + 1)
    else if |y| - bi < |x| - ai then [Fresh(mode, x[ai])] + Shaped(mode, a, x, y, tag, ai + 1, bi)
    else [Changed(mode, tag, y[bi], GetDiff(x[ai], y[bi]))] + Shaped(mode, a, x, y, tag, ai + 1, bi + 1)
  }

  function Changed(mode: Mode, tag: string, t: Tree, sub: Diff): Tree {
    if tag == "" then t else Run(mode, t, sub).tree
  }

  /** Whatever child of the one list is changed into whatever child of the other, nothing throws. */
  ghost predicate AllRun(mode: Mode, x: seq<Tree>, y: seq<Tree>) {
    forall i, j {:trigger Runs(mode, x, y, i, j)} :: 0 <= i < |x| && 0 <= j < |y| ==> Runs(mode, x, y, i, j)
  }

  ghost predicate Runs(mode: Mode, x: seq<Tree>, y: seq<Tree>, i: int, j: int)
    requires 0 <= i < |x| && 0 <= j < |y|
  {
    Run(mode, y[j], GetDiff(x[i], y[j])).ok
  }

  /** One tag: `l` is the whole child vector, untouched from `bi` on; `pre` is what the insertions and
      deletions made of the part before `bi`.  The operations succeed and put `shaped` after `pre`. */
  ghost predicate Goal(mode: Mode, ops: TagOps, bi: nat, l: seq<Tree>, pre: seq<Tree>, shaped: seq<Tree>)
    requires bi <= |l|
  {
    var c := ChangeList(mode, l, ops.changes);
    c.ok && |c.list| == |l| && c.list[..bi] == l[..bi] &&
    var i := AddList(pre + c.list[bi..], FreshAdds(mode, ops.adds));
    i.ok && DelList(i.list, ops.dels) == pre + shaped
  }

  lemma {:induction false} TagShape(mode: Mode, a: Tree, x: seq<Tree>, y: seq<Tree>, tag: string, ai: nat, bi: nat,
                                    nd: nat, l: seq<Tree>, pre: seq<Tree>)
    requires Below(x, a) && ai <= |x| && nd <= bi <= |y| && AllRun(mode, x, y)
    requires |y| - bi > |x| - ai ==> bi - nd == ai
    requires |l| == |y| && l[bi..] == y[bi..]
    requires |pre| == ai
    ensures Goal(mode, DiffTag(a, x, y, tag, ai, bi, nd), bi, l, pre, Shaped(mode, a, x, y, tag, ai, bi))
    decreases |x| - ai + |y| - bi, 1
  {
    if ai == |x| && bi == |y| {
      assert pre + l[bi..] == pre;
    } else if |y| - bi == |x| - ai || (ai < |x| && bi < |y| && x[ai] == y[bi]) {
      TagStep(mode, a, x, y, tag, ai, bi, nd, l, pre);
    } else if |y| - bi > |x| - ai {
      TagShape(mode, a, x, y, tag, ai, bi + 1, nd + 1, l, pre);
      TagDelete(mode, a, x, y, tag, ai, bi, nd, l, pre);
    } else {
      TagShape(mode, a, x, y, tag, ai + 1, bi, nd, l, pre + [Fresh(mode, x[ai])]);
      TagInsert(mode, a, x, y, tag, ai, bi, nd, l, pre);
    }
  }

  lemma TagDelete(mode: Mode, a: Tree, x: seq<Tree>, y: seq<Tree>, tag: string, ai: nat, bi: nat, nd: nat,
                  l: seq<Tree>, pre: seq<Tree>)
    requires Below(x, a) && ai <= |x| && nd <= bi < |y| == |l| && |pre| == ai == bi - nd
    requires |y| - bi > |x| - ai && !(ai < |x| && x[ai] == y[bi])
    requires Goal(mode, DiffTag(a, x, y, tag, ai, bi + 1, nd + 1), bi + 1, l, pre,
                  Shaped(mode, a, x, y, tag, ai, bi + 1))
    ensures Goal(mode, DiffTag(a, x, y, tag, ai, bi, nd), bi, l, pre, Shaped(mode, a, x, y, tag, ai, bi))
  {
    NeverBothWays(a, x, y, tag, ai, bi, nd);
    GoalDelete(mode, DiffTag(a, x, y, tag, ai, bi + 1, nd + 1), tag, bi, l, pre,
               Shaped(mode, a, x, y, tag, ai, bi + 1));
  }

  lemma TagInsert(mode: Mode, a: Tree, x: seq<Tree>, y: seq<Tree>, tag: string, ai: nat, bi: nat, nd: nat,
                  l: seq<Tree>, pre: seq<Tree>)
    requires Below(x, a) && ai < |x| && nd <= bi <= |y| == |l| && |pre| == ai
    requires |y| - bi < |x| - ai && !(bi < |y| && x[ai] == y[bi])
    requires Goal(mode, DiffTag(a, x, y, tag, ai + 1, bi, nd), bi, l, pre + [Fresh(mode, x[ai])],
                  Shaped(mode, a, x, y, tag, ai + 1, bi))
    ensures Goal(mode, DiffTag(a, x, y, tag, ai, bi, nd), bi, l, pre, Shaped(mode, a, x, y, tag, ai, bi))
  {
    NeverBothWays(a, x, y, tag, ai, bi, nd);
    GoalInsert(mode, DiffTag(a, x, y, tag, ai + 1, bi, nd), tag, bi, l, pre, x[ai],
               Shaped(mode, a, x, y, tag, ai + 1, bi));
  }

  /** The case in which both sides advance, with or without a change. */
  lemma {:induction false} TagStep(mode: Mode, a: Tree, x: seq<Tree>, y: seq<Tree>, tag: string, ai: nat, bi: nat,
                                   nd: nat, l: seq<Tree>, pre: seq<Tree>)
    requires Below(x, a) && ai < |x| && nd <= bi < |y| && AllRun(mode, x, y)
    requires |y| - bi == |x| - ai || x[ai] == y[bi]
    requires |y| - bi > |x| - ai ==> bi - nd == ai
    requires |l| == |y| && l[bi..] == y[bi..]
    requires |pre| == ai
    ensures Goal(mode, DiffTag(a, x, y, tag, ai, bi, nd), bi, l, pre, Shaped(mode, a, x, y, tag, ai, bi))
    decreases |x| - ai + |y| - bi, 0
  {
    assert Runs(mode, x, y, ai, bi);
    var next := NextList(mode, a, x, y, tag, ai, bi, nd, l);
    TagShape(mode, a, x, y, tag, ai + 1, bi + 1, nd, next, pre + [next[bi]]);
    TagAdvance(mode, a, x, y, tag, ai, bi, nd, l, next, pre);
  }

  /** The vector after the change that this step may record. */
  lemma NextList(mode: Mode, a: Tree, x: seq<Tree>, y: seq<Tree>, tag: string, ai: nat, bi: nat, nd: nat, l: seq<Tree>)
    returns (next: seq<Tree>)
    requires Below(x, a) && ai < |x| && nd <= bi < |y| == |l| && l[bi..] == y[bi..]
    requires |y| - bi == |x| - ai || x[ai] == y[bi]
    requires Run(mode, y[bi], GetDiff(x[ai], y[bi])).ok
    ensures |next| == |l| && next[bi + 1..] == y[bi + 1..] && next[..bi] == l[..bi] && l[bi] == y[bi]
    ensures next[bi] == if x[ai] == y[bi] then y[bi] else Changed(mode, tag, y[bi], GetDiff(x[ai], y[bi]))
    ensures ChangeList(mode, l, DiffTag(a, x, y, tag, ai, bi, nd).changes) ==
            ChangeList(mode, next, DiffTag(a, x, y, tag, ai + 1, bi + 1, nd).changes)
  {
    TailsAgree(l, y, bi);
    next := l;
    if x[ai] != y[bi] {
      next := AfterChange(mode, l, tag, bi, GetDiff(x[ai], y[bi]), DiffTag(a, x, y, tag, ai + 1, bi + 1, nd).changes);
    }
  }

  lemma TagAdvance(mode: Mode, a: Tree, x: seq<Tree>, y: seq<Tree>, tag: string, ai: nat, bi: nat, nd: nat,
                   l: seq<Tree>, next: seq<Tree>, pre: seq<Tree>)
    requires Below(x, a) && ai < |x| && nd <= bi < |y| == |l| == |next| && l[bi] == y[bi] && next[..bi] == l[..bi]
    requires |y| - bi == |x| - ai || x[ai] == y[bi]
    requires next[bi] == if x[ai] == y[bi] then y[bi] else Changed(mode, tag, y[bi], GetDiff(x[ai], y[bi]))
    requires ChangeList(mode, l, DiffTag(a, x, y, tag, ai, bi, nd).changes) ==
             ChangeList(mode, next, DiffTag(a, x, y, tag, ai + 1, bi + 1, nd).changes)
    requires Goal(mode, DiffTag(a, x, y, tag, ai + 1, bi + 1, nd), bi + 1, next, pre + [next[bi]],
                  Shaped(mode, a, x, y, tag, ai + 1, bi + 1))
    ensures Goal(mode, DiffTag(a, x, y, tag, ai, bi, nd), bi, l, pre, Shaped(mode, a, x, y, tag, ai, bi))
  {
    GoalStep(mode, DiffTag(a, x, y, tag, ai, bi, nd), DiffTag(a, x, y, tag, ai + 1, bi + 1, nd), bi, l, next, pre,
             Shaped(mode, a, x, y, tag, ai + 1, bi + 1));
  }

  lemma TailsAgree(l: seq<Tree>, y: seq<Tree>, bi: nat)
    requires |l| == |y| && bi < |y| && l[bi..] == y[bi..]
    ensures l[bi] == y[bi] && l[bi + 1..] == y[bi + 1..]
  {
    assert l[bi..][0] == l[bi] && l[bi..][1..] == l[bi + 1..] && y[bi..][1..] == y[bi + 1..];
  }

  lemma AfterChange(mode: Mode, l: seq<Tree>, tag: string, bi: nat, sub: Diff, rest: seq<Change>)
    returns (next: seq<Tree>)
    requires bi < |l| && Run(mode, l[bi], sub).ok
    ensures next == l[bi := Changed(mode, tag, l[bi], sub)] && next[bi + 1..] == l[bi + 1..] && next[..bi] == l[..bi]
    ensures ChangeList(mode, l, [Change(tag, bi, sub)] + rest) == ChangeList(mode, next, rest)
  {
    next := if tag == "" then l else l[bi := Run(mode, l[bi], sub).tree];
    assert ([Change(tag, bi, sub)] + rest)[1..] == rest;
  }

  /** Both sides advance: element `bi` keeps its place and becomes `next[bi]`. */
  lemma GoalStep(mode: Mode, ops: TagOps, rest: TagOps, bi: nat,
                 l: seq<Tree>, next: seq<Tree>, pre: seq<Tree>, shaped: seq<Tree>)
    requires bi < |l| == |next| && l[..bi] == next[..bi]
    requires ops.adds == rest.adds && ops.dels == rest.dels
    requires ChangeList(mode, l, ops.changes) == ChangeList(mode, next, rest.changes)
    requires Goal(mode, rest, bi + 1, next, pre + [next[bi]], shaped)
    ensures Goal(mode, ops, bi, l, pre, [next[bi]] + shaped)
  {
    var c := ChangeList(mode, next, rest.changes).list;
    SameSplit(c, next, pre, bi);
    Associate(pre, [next[bi]], shaped);
  }

  lemma GoalDelete(mode: Mode, rest: TagOps, tag: string, bi: nat, l: seq<Tree>, pre: seq<Tree>, shaped: seq<Tree>)
    requires bi < |l| && rest.adds == []
    requires Goal(mode, rest, bi + 1, l, pre, shaped)
    ensures Goal(mode, rest.(dels := [Del(tag, |pre|)] + rest.dels), bi, l, pre, shaped)
  {
    var c := ChangeList(mode, l, rest.changes).list;
    assert c[..bi] == c[..bi + 1][..bi] == l[..bi + 1][..bi];
    assert Without(pre + c[bi..], |pre|) == pre + c[bi + 1..];
  }

  lemma GoalInsert(mode: Mode, rest: TagOps, tag: string, bi: nat, l: seq<Tree>, pre: seq<Tree>, node: Tree,
                   shaped: seq<Tree>)
    requires bi <= |l| && rest.dels == []
    requires Goal(mode, rest, bi, l, pre + [Fresh(mode, node)], shaped)
    ensures Goal(mode, rest.(adds := [Add(tag, |pre|, node)] + rest.adds), bi, l, pre, [Fresh(mode, node)] + shaped)
  {
    var e, all := Fresh(mode, node), FreshAdds(mode, [Add(tag, |pre|, node)] + rest.adds);
    var m := pre + ChangeList(mode, l, rest.changes).list[bi..];
    assert all[0] == Add(tag, |pre|, e) && all[1..] == FreshAdds(mode, rest.adds);
    assert m[..|pre|] + [e] + m[|pre|..] == pre + [e] + ChangeList(mode, l, rest.changes).list[bi..];
    Associate(pre, [e], shaped);
  }

  lemma SameSplit(c: seq<Tree>, next: seq<Tree>, pre: seq<Tree>, bi: nat)
    requires bi < |next| == |c| && c[..bi + 1] == next[..bi + 1]
    ensures c[..bi] == next[..bi]
    ensures pre + [next[bi]] + c[bi + 1..] == pre + c[bi..]
  {
    assert c[..bi] == c[..bi + 1][..bi] == next[..bi + 1][..bi];
    assert c[bi] == c[..bi + 1][bi] == next[..bi + 1][bi] == next[bi];
  }

  /** The whole vector of a tag: all steps succeed, and this is what they leave. */
  lemma TagApplied(a: Tree, x: seq<Tree>, y: seq<Tree>, tag: string)
    requires Below(x, a) && AllRun(Apply, x, y)
    ensures var ops := DiffTag(a, x, y, tag, 0, 0, 0);
            var c := ChangeList(Apply, y, ops.changes);
            c.ok && AddList(c.list, ops.adds).ok && Applied(y, ops) == Shaped(Apply, a, x, y, tag, 0, 0)
  {
    TagWhole(Apply, a, x, y, tag);
  }

  lemma TagWhole(mode: Mode, a: Tree, x: seq<Tree>, y: seq<Tree>, tag: string)
    requires Below(x, a) && AllRun(mode, x, y)
    ensures var ops := DiffTag(a, x, y, tag, 0, 0, 0);
            var c := ChangeList(mode, y, ops.changes);
            var i := AddList(c.list, FreshAdds(mode, ops.adds));
            c.ok && |c.list| == |y| && i.ok && DelList(i.list, ops.dels) == Shaped(mode, a, x, y, tag, 0, 0)
  {
    TagShape(mode, a, x, y, tag, 0, 0, 0, y, []);
    GoalWhole(mode, DiffTag(a, x, y, tag, 0, 0, 0), y, Shaped(mode, a, x, y, tag, 0, 0));
  }

  lemma GoalWhole(mode: Mode, ops: TagOps, l: seq<Tree>, shaped: seq<Tree>)
    requires Goal(mode, ops, 0, l, [], shaped)
    ensures var c := ChangeList(mode, l, ops.changes);
            var i := AddList(c.list, FreshAdds(mode, ops.adds));
            c.ok && |c.list| == |l| && i.ok && DelList(i.list, ops.dels) == shaped
  {
    var c := ChangeList(mode, l, ops.changes).list;
    assert [] + c[0..] == c && [] + shaped == shaped;
  }

  function Applied(y: seq<Tree>, ops: TagOps): seq<Tree> {
    DelList(AddList(ChangeList(Apply, y, ops.changes).list, ops.adds).list, ops.dels)
  }

  /** Every change in the two lists does what is claimed of it. */
  ghost predicate SubsRestore(exact: bool, x: seq<Tree>, y: seq<Tree>) {
    AllRun(Apply, x, y) &&
    forall i, j {:trigger SubRestores(exact, x, y, i, j)} ::
      0 <= i < |x| && 0 <= j < |y| ==> SubRestores(exact, x, y, i, j)
  }

  ghost predicate SubRestores(exact: bool, x: seq<Tree>, y: seq<Tree>, i: int, j: int)
    requires 0 <= i < |x| && 0 <= j < |y|
  {
    Same(exact, Run(Apply, y[j], GetDiff(x[i], y[j])).tree, x[i]) <==> Restores(exact, x[i], y[j])
  }

  lemma {:induction false} ShapeRestores(exact: bool, a: Tree, x: seq<Tree>, y: seq<Tree>, tag: string, ai: nat,
                                         bi: nat)
    requires Below(x, a) && ai <= |x| && bi <= |y| && SubsRestore(exact, x, y)
    ensures SameFrom(exact, Shaped(Apply, a, x, y, tag, ai, bi), x[ai..], 0) <==>
            RestoresFrom(exact, a, x, y, tag, ai, bi)
    decreases |x| - ai + |y| - bi
  {
    if ai == |x| && bi == |y| {
    } else if |y| - bi > |x| - ai && !(ai < |x| && x[ai] == y[bi]) {
      ShapeRestores(exact, a, x, y, tag, ai, bi + 1);
    } else {
      var next := if bi < |y| && (x[ai] == y[bi] || |y| - bi == |x| - ai) then bi + 1 else bi;
      ShapeRestores(exact, a, x, y, tag, ai + 1, next);
      if bi < |y| {
        assert SubRestores(exact, x, y, ai, bi);
      }
      ShapeTurn(exact, a, x, y, tag, ai, bi, next);
    }
  }

  /** A child of `x` is dealt with. */
  lemma ShapeTurn(exact: bool, a: Tree, x: seq<Tree>, y: seq<Tree>, tag: string, ai: nat, bi: nat, next: nat)
    requires Below(x, a) && ai < |x| && bi <= |y|
    requires |y| - bi <= |x| - ai || (bi < |y| && x[ai] == y[bi])
    requires next == if bi < |y| && (x[ai] == y[bi] || |y| - bi == |x| - ai) then bi + 1 else bi
    requires bi < |y| ==>
               (Same(exact, Run(Apply, y[bi], GetDiff(x[ai], y[bi])).tree, x[ai]) <==> Restores(exact, x[ai], y[bi]))
    requires SameFrom(exact, Shaped(Apply, a, x, y, tag, ai + 1, next), x[ai + 1..], 0) <==>
             RestoresFrom(exact, a, x, y, tag, ai + 1, next)
    ensures SameFrom(exact, Shaped(Apply, a, x, y, tag, ai, bi), x[ai..], 0) <==>
            RestoresFrom(exact, a, x, y, tag, ai, bi)
  {
    var r := Shaped(Apply, a, x, y, tag, ai, bi);
    EquivRefl(x[ai]);
    SameHead(exact, r[0], Shaped(Apply, a, x, y, tag, ai + 1, next), x[ai], x[ai + 1..]);
    SplitTail(x, ai);
  }

  lemma SplitTail(x: seq<Tree>, i: nat)
    requires i < |x|
    ensures x[i..] == [x[i]] + x[i + 1..]
  {
  }

  lemma SameHead(exact: bool, e: Tree, r: seq<Tree>, f: Tree, x: seq<Tree>)
    ensures SameFrom(exact, [e] + r, [f] + x, 0) <==> Same(exact, e, f) && SameFrom(exact, r, x, 0)
  {
    if SameFrom(exact, [e] + r, [f] + x, 0) {
      assert ([e] + r)[0] == e && ([f] + x)[0] == f;
      assert forall j :: 0 <= j < |x| ==> r[j] == ([e] + r)[j + 1] && x[j] == ([f] + x)[j + 1];
    }
  }

  lemma AttrsRoundTrip(a: Tree, b: Tree)
    ensures var r := PatchAttrs(b.attrs, GetDiff(a, b));
            SameAttrs(r, a.attrs) &&
            (r == a.attrs <==> forall k :: k in a.attrs && k in b.attrs ==> a.attrs[k] != "")
  {
    var r := PatchAttrs(b.attrs, GetDiff(a, b));
    if forall k :: k in a.attrs && k in b.attrs ==> a.attrs[k] != "" {
      assert forall k :: k in r <==> k in a.attrs;
    } else {
      var k :| k in a.attrs && k in b.attrs && a.attrs[k] == "";
      assert k !in r;
    }
  }

  lemma {:induction false} OrderUpdated(kids: seq<Kid>, tag: string, i: nat, node: Tree)
    ensures TagOrder(UpdateAt(kids, tag, i, node)) == TagOrder(kids)
  {
    if kids != [] {
      if kids[0].tag != tag {
        OrderUpdated(kids[1..], tag, i, node);
      } else if i > 0 {
        OrderUpdated(kids[1..], tag, i - 1, node);
      }
    }
  }

  lemma {:induction false} OrderInserted(kids: seq<Kid>, tag: string, i: nat, node: Tree)
    ensures TagOrder(InsertAt(kids, tag, i, node)) == OrderInsert(TagOrder(kids), tag, i)
  {
    if kids != [] {
      if kids[0].tag != tag {
        OrderInserted(kids[1..], tag, i, node);
      } else if i > 0 {
        OrderInserted(kids[1..], tag, i - 1, node);
      }
    }
  }

  lemma {:induction false} OrderRemoved(kids: seq<Kid>, tag: string, i: nat)
    ensures TagOrder(RemoveAt(kids, tag, i)) == OrderRemove(TagOrder(kids), tag, i)
  {
    if kids != [] {
      if kids[0].tag != tag {
        OrderRemoved(kids[1..], tag, i);
      } else if i > 0 {
        OrderRemoved(kids[1..], tag, i - 1);
      }
    }
  }

  lemma {:induction false} OrderChanges(mode: Mode, kids: seq<Kid>, d: Diff, n: nat)
    requires n <= |d.changes|
    ensures TagOrder(RunChanges(mode, kids, d, n).kids) == TagOrder(kids)
    decreases |d.changes| - n
  {
    if n < |d.changes| {
      var c := d.changes[n];
      if c.tag == "" {
        OrderChanges(mode, kids, d, n + 1);
      } else if c.index < |Tagged(kids, c.tag)| {
        var p := Run(mode, Tagged(kids, c.tag)[c.index], c.sub);
        OrderUpdated(kids, c.tag, c.index, p.tree);
        OrderChanges(mode, UpdateAt(kids, c.tag, c.index, p.tree), d, n + 1);
      }
    }
  }

  lemma {:induction false} OrderAdded(kids: seq<Kid>, adds: seq<Add>)
    requires PatchAdds(kids, adds).ok
    ensures TagOrder(PatchAdds(kids, adds).kids) == OrderAdds(TagOrder(kids), adds)
    decreases |adds|
  {
    if adds != [] {
      OrderInserted(kids, adds[0].tag, adds[0].index, adds[0].node);
      OrderAdded(InsertAt(kids, adds[0].tag, adds[0].index, adds[0].node), adds[1..]);
    }
  }

  lemma {:induction false} OrderDeleted(kids: seq<Kid>, dels: seq<Del>)
    ensures TagOrder(PatchDels(kids, dels)) == OrderDels(TagOrder(kids), dels)
    decreases |dels|
  {
    if dels != [] {
      OrderRemoved(kids, dels[0].tag, dels[0].index);
      OrderDeleted(RemoveAt(kids, dels[0].tag, dels[0].index), dels[1..]);
    }
  }

  /** The children a patch leaves behind, tag by tag. */
  lemma PatchByTag(a: Tree, b: Tree)
    requires forall u :: AllRun(Apply, Tagged(a.kids, u), Tagged(b.kids, u))
    ensures var d := GetDiff(a, b);
            var p := Patch(b, d);
            p.ok && TagOrder(p.tree.kids) == PatchedOrder(a, b) &&
            forall u :: Tagged(p.tree.kids, u) == Applied(Tagged(b.kids, u), TagDiff(a, b, u))
  {
    var d := GetDiff(a, b);
    assert d.changes[0..] == d.changes;
    forall u
      ensures OpsOf(TagOps(d.changes, d.adds, d.dels), u) == TagDiff(a, b, u)
      ensures ChangeList(Apply, Tagged(b.kids, u), TagDiff(a, b, u).changes).ok
      ensures AddList(ChangeList(Apply, Tagged(b.kids, u), TagDiff(a, b, u).changes).list, TagDiff(a, b, u).adds).ok
    {
      GetDiffOps(a, b, u);
      ChildrenSmaller(a, u);
      assert AllRun(Apply, Tagged(a.kids, u), Tagged(b.kids, u));
      TagApplied(a, Tagged(a.kids, u), Tagged(b.kids, u), u);
    }
    ChangesByTag(Apply, b.kids, d, 0);
    var c := RunChanges(Apply, b.kids, d, 0).kids;
    AddsByTag(c, d.adds);
    var i := PatchAdds(c, d.adds).kids;
    forall u
      ensures Tagged(PatchDels(i, d.dels), u) == Applied(Tagged(b.kids, u), TagDiff(a, b, u))
    {
      DelsByTag(i, d.dels, u);
    }
    OrderChanges(Apply, b.kids, d, 0);
    OrderAdded(c, d.adds);
    OrderDeleted(i, d.dels);
    DiffOrders(a, b);
  }

  lemma {:induction false} TagsRestore(exact: bool, a: Tree, b: Tree, u: string)
    ensures SubsRestore(exact, Tagged(a.kids, u), Tagged(b.kids, u))
    decreases a, 1
  {
    var x, y := Tagged(a.kids, u), Tagged(b.kids, u);
    ChildrenSmaller(a, u);
    forall i, j | 0 <= i < |x| && 0 <= j < |y|
      ensures Runs(Apply, x, y, i, j) && SubRestores(exact, x, y, i, j)
    {
      RoundTrip(exact, x[i], y[j]);
    }
  }

  lemma EquivFromTags(x: Tree, y: Tree)
    requires SameAttrs(x.attrs, y.attrs) && forall u: string :: EquivTag(x, y, u)
    ensures Equiv(x, y)
  {
  }

  lemma EquivToTags(x: Tree, y: Tree)
    requires Equiv(x, y)
    ensures forall u: string :: EquivTag(x, y, u)
  {
  }

  /** Patching `b` with the difference from `b` to `a` never throws, and what it leaves is `a`
      exactly under the conditions of `Restores`. */
  lemma {:induction false} RoundTrip(exact: bool, a: Tree, b: Tree)
    ensures Patch(b, GetDiff(a, b)).ok
    ensures Same(exact, Patch(b, GetDiff(a, b)).tree, a) <==> Restores(exact, a, b)
    decreases a, 2
  {
    var r := Patch(b, GetDiff(a, b)).tree;
    forall u: string
      ensures SubsRestore(exact, Tagged(a.kids, u), Tagged(b.kids, u))
    {
      TagsRestore(exact, a, b, u);
    }
    PatchByTag(a, b);
    forall u: string
      ensures SameFrom(exact, Tagged(r.kids, u), Tagged(a.kids, u), 0) <==> RestoresTag(exact, a, b, u)
    {
      var x, y := Tagged(a.kids, u), Tagged(b.kids, u);
      ChildrenSmaller(a, u);
      TagApplied(a, x, y, u);
      ShapeRestores(exact, a, x, y, u, 0, 0);
      assert x[0..] == x;
    }
    AttrsRoundTrip(a, b);
    RestoresWhole(exact, a, b, r);
  }

  lemma RestoresWhole(exact: bool, a: Tree, b: Tree, r: Tree)
    requires r.attrs == PatchAttrs(b.attrs, GetDiff(a, b)) && SameAttrs(r.attrs, a.attrs)
    requires r.attrs == a.attrs <==> forall k :: k in a.attrs && k in b.attrs ==> a.attrs[k] != ""
    requires TagOrder(r.kids) == PatchedOrder(a, b)
    requires forall u: string :: SameFrom(exact, Tagged(r.kids, u), Tagged(a.kids, u), 0) <==>
             RestoresTag(exact, a, b, u)
    ensures Same(exact, r, a) <==> Restores(exact, a, b)
  {
    if exact {
      if Restores(exact, a, b) {
        forall u: string
          ensures Tagged(r.kids, u) == Tagged(a.kids, u)
        {
          assert RestoresTag(exact, a, b, u);
          assert SameFrom(exact, Tagged(r.kids, u), Tagged(a.kids, u), 0);
        }
        Rebuild(r.kids, a.kids);
      }
    } else {
      forall u: string
        ensures EquivTag(r, a, u) <==> RestoresTag(exact, a, b, u)
      {
        assert SameFrom(exact, Tagged(r.kids, u), Tagged(a.kids, u), 0) <==> RestoresTag(exact, a, b, u);
      }
      if Equiv(r, a) {
        EquivToTags(r, a);
      } else if forall u: string :: EquivTag(r, a, u) {
        EquivFromTags(r, a);
      }
    }
  }

  // ----- What this means for callers -----

  ghost predicate Named(t: Tree)
    decreases t
  {
    forall i :: 0 <= i < |t.kids| ==> t.kids[i].tag != "" && Named(t.kids[i].node)
  }

  ghost predicate AllNamed(x: seq<Tree>) {
    forall i :: 0 <= i < |x| ==> Named(x[i])
  }

  lemma NamedTagged(t: Tree, tag: string)
    requires Named(t)
    ensures Tagged(t.kids, tag) != [] ==> tag != ""
    ensures AllNamed(Tagged(t.kids, tag))
  {
    forall i: nat | i < |Tagged(t.kids, tag)|
      ensures tag != "" && Named(Tagged(t.kids, tag)[i])
    {
      TaggedSmaller(t.kids, tag, i);
      var j :| 0 <= j < |t.kids| && t.kids[j] == Kid(tag, Tagged(t.kids, tag)[i]);
      assert Named(t.kids[j].node);
    }
    if Tagged(t.kids, tag) != [] {
      assert Named(Tagged(t.kids, tag)[0]);
    }
  }

  lemma {:induction false} NamedRestores(a: Tree, b: Tree)
    requires Named(a) || Named(b)
    ensures Restores(false, a, b)
    decreases a, 1, 0
  {
    forall tag: string
      ensures RestoresTag(false, a, b, tag)
    {
      ChildrenSmaller(a, tag);
      NamedTagged(if Named(a) then a else b, tag);
      NamedRestoresFrom(a, Tagged(a.kids, tag), Tagged(b.kids, tag), tag, 0, 0);
    }
  }

  lemma {:induction false} NamedRestoresFrom(a: Tree, x: seq<Tree>, y: seq<Tree>, tag: string, ai: nat, bi: nat)
    requires Below(x, a) && ai <= |x| && bi <= |y|
    requires AllNamed(x) || AllNamed(y)
    requires tag != "" || x == [] || y == []
    ensures RestoresFrom(false, a, x, y, tag, ai, bi)
    decreases a, 0, |x| - ai + |y| - bi
  {
    if ai == |x| && bi == |y| {
    } else if ai < |x| && bi < |y| && x[ai] == y[bi] {
      NamedRestoresFrom(a, x, y, tag, ai + 1, bi + 1);
    } else if |y| - bi > |x| - ai {
      NamedRestoresFrom(a, x, y, tag, ai, bi + 1);
    } else if |y| - bi < |x| - ai {
      NamedRestoresFrom(a, x, y, tag, ai + 1, bi);
    } else {
      NamedRestores(x[ai], y[bi]);
      NamedRestoresFrom(a, x, y, tag, ai + 1, bi + 1);
    }
  }

  /** The promise of the header, up to empty attributes and the interleaving of tags: if one of the
      nodes has no empty tag, no sequence of reads tells the patched node from `a`. */
  lemma DiffThenPatch(a: Tree, b: Tree)
    requires Named(a) || Named(b)
    ensures var p := Patch(b, GetDiff(a, b)); p.ok && Indistinguishable(p.tree, a)
  {
    NamedRestores(a, b);
    RoundTrip(false, a, b);
    EquivIsObservational(Patch(b, GetDiff(a, b)).tree, a);
  }

  // Three inputs on which the patched node is not identical to the node it was to become.

  lemma InterleavingIsLost()
    ensures var a := Tree(map[], [Kid("x", EMPTY), Kid("y", EMPTY)]);
            var b := Tree(map[], [Kid("y", EMPTY), Kid("x", EMPTY)]);
            !Restores(true, a, b) && Patch(b, GetDiff(a, b)) == Patched(b, true) && Equiv(b, a)
  {
    var a := Tree(map[], [Kid("x", EMPTY), Kid("y", EMPTY)]);
    var b := Tree(map[], [Kid("y", EMPTY), Kid("x", EMPTY)]);
    assert TagOrder(a.kids)[0] != TagOrder(b.kids)[0];
    forall u
      ensures Tagged(a.kids, u) == Tagged(b.kids, u)
    {
      assert a.kids == [a.kids[0]] + [a.kids[1]] && b.kids == [b.kids[0]] + [b.kids[1]];
      TaggedConcat([a.kids[0]], [a.kids[1]], u);
      TaggedConcat([b.kids[0]], [b.kids[1]], u);
    }
    NothingToPatch(a, b);
  }

  /** Two orders of the same children: the diff is empty and leaves the order as it was. */
  lemma NothingToPatch(a: Tree, b: Tree)
    requires a.attrs == b.attrs == map[] && a != b && forall u :: Tagged(a.kids, u) == Tagged(b.kids, u)
    ensures !Restores(true, a, b) && Patch(b, GetDiff(a, b)) == Patched(b, true) && Equiv(b, a)
  {
    EqualListsNoOps(a, b);
    EmptyPatch(b, GetDiff(a, b));
    RoundTrip(true, a, b);
    SameListsEquiv(a, b);
  }

  lemma EmptyPatch(b: Tree, d: Diff)
    requires d.changes == [] && d.adds == [] && d.dels == []
    ensures Patch(b, d) == Patched(Tree(PatchAttrs(b.attrs, d), b.kids), true)
  {
    assert RunChanges(Apply, b.kids, d, 0) == PatchedKids(b.kids, true);
    assert PatchAdds(b.kids, d.adds) == PatchedKids(b.kids, true) && PatchDels(b.kids, d.dels) == b.kids;
  }

  lemma SameListsEquiv(a: Tree, b: Tree)
    requires a.attrs == b.attrs && forall u :: Tagged(a.kids, u) == Tagged(b.kids, u)
    ensures Equiv(b, a)
  {
    EquivRefl(a);
    EquivToTags(a, a);
    forall u: string
      ensures EquivTag(b, a, u)
    {
      assert EquivTag(a, a, u) && Tagged(a.kids, u) == Tagged(b.kids, u);
    }
  }

  lemma EqualListsNoOps(a: Tree, b: Tree)
    requires forall u :: Tagged(a.kids, u) == Tagged(b.kids, u)
    ensures var d := GetDiff(a, b); d.changes == [] && d.adds == [] && d.dels == []
  {
    EqualAll(a, b, Entities(a, b));
  }

  lemma {:induction false} EqualAll(a: Tree, b: Tree, tags: seq<string>)
    requires forall u :: Tagged(a.kids, u) == Tagged(b.kids, u)
    ensures DiffAll(a, b, tags) == NO_OPS
    decreases |tags|
  {
    if tags != [] {
      ChildrenSmaller(a, tags[0]);
      EqualTag(a, Tagged(a.kids, tags[0]), tags[0], 0);
      EqualAll(a, b, tags[1..]);
    }
  }

  lemma {:induction false} EqualTag(a: Tree, x: seq<Tree>, tag: string, i: nat)
    requires Below(x, a) && i <= |x|
    ensures DiffTag(a, x, x, tag, i, i, 0) == NO_OPS
    decreases |x| - i
  {
    if i < |x| {
      EqualTag(a, x, tag, i + 1);
    }
  }

  lemma EmptyAttributeIsDropped()
    ensures var a, b := Tree(map["k" := ""], []), Tree(map["k" := "v"], []);
            !Restores(true, a, b) && Patch(b, GetDiff(a, b)) == Patched(EMPTY, true) && Equiv(EMPTY, a)
  {
    var a, b := Tree(map["k" := ""], []), Tree(map["k" := "v"], []);
    EqualListsNoOps(a, b);
    EmptyPatch(b, GetDiff(a, b));
    assert PatchAttrs(b.attrs, GetDiff(a, b)) == map[];
    RoundTrip(false, a, b);
    assert "k" in a.attrs && "k" in b.attrs && a.attrs["k"] == "";
    NamedRestores(a, b);
  }

  lemma EmptyTagIsPassedOver()
    ensures var a := Tree(map[], [Kid("", Tree(map["k" := "v"], []))]);
            var b := Tree(map[], [Kid("", EMPTY)]);
            !Restores(false, a, b) && Patch(b, GetDiff(a, b)).ok && !Equiv(Patch(b, GetDiff(a, b)).tree, a)
  {
    var a := Tree(map[], [Kid("", Tree(map["k" := "v"], []))]);
    var b := Tree(map[], [Kid("", EMPTY)]);
    var x, y := Tagged(a.kids, ""), Tagged(b.kids, "");
    assert a.kids[1..] == [] && b.kids[1..] == [];
    assert x == [a.kids[0].node] && y == [b.kids[0].node];
    RoundTrip(false, a, b);
    ChildrenSmaller(a, "");
    assert !Equiv(y[0], x[0]) by {
      assert Read(y[0].attrs, "k") != Read(x[0].attrs, "k");
    }
    assert !RestoresFrom(false, a, x, y, "", 0, 0);
    assert !RestoresTag(false, a, b, "");
  }

  // ----- get_diff as the source computes it -----

  method ComputeDiff(a: Tree, b: Tree) returns (d: Diff)
    ensures d == GetDiff(a, b)
    decreases a, 1
  {
    var ins := ComputeInserts(a.attrs, b.attrs);
    var del := ComputeDeletes(a.attrs, b.attrs);
    var entities := Entities(a, b);
    ghost var all := DiffAll(a, b, entities);
    var ops := NO_OPS;
    for n := 0 to |entities|
      invariant Append(ops, DiffAll(a, b, entities[n..])) == all
    {
      DiffAllNext(a, b, entities, n);
      var one := ComputeTagDiff(a, b, entities[n]);
      AppendOne(ops, one, DiffAll(a, b, entities[n + 1..]), all);
      ops := Append(ops, one);
    }
    AppendNothing(ops);
    d := Diff(ins, del, ops.changes, ops.adds, ops.dels);
  }

  lemma DiffAllNext(a: Tree, b: Tree, tags: seq<string>, n: nat)
    requires n < |tags|
    ensures DiffAll(a, b, tags[n..]) == Append(TagDiff(a, b, tags[n]), DiffAll(a, b, tags[n + 1..]))
  {
    assert tags[n..][1..] == tags[n + 1..];
  }

  lemma AppendNothing(x: TagOps)
    ensures Append(x, NO_OPS) == x
  {
  }

  method ComputeInserts(a: Attrs, b: Attrs) returns (ins: Attrs)
    ensures ins == Inserts(a, b)
  {
    ins := map[];
    var keys := a.Keys;
    while keys != {}
      invariant keys <= a.Keys
      invariant ins == map k | k in Inserts(a, b) && k !in keys :: a[k]
      decreases |keys|
    {
      var k :| k in keys;
      keys := keys - {k};
      if k !in b || (a[k] != b[k] && a[k] != "") {
        ins := ins[k := a[k]];
      }
    }
  }

  method ComputeDeletes(a: Attrs, b: Attrs) returns (del: set<string>)
    ensures del == Deletes(a, b)
  {
    del := {};
    var keys := b.Keys;
    while keys != {}
      invariant keys <= b.Keys
      invariant forall k :: k in del <==> k in Deletes(a, b) && k !in keys
      decreases |keys|
    {
      var k :| k in keys;
      keys := keys - {k};
      if k !in a || a[k] == "" {
        del := del + {k};
      }
    }
  }

  lemma AppendOne(acc: TagOps, one: TagOps, rest: TagOps, all: TagOps)
    requires Append(acc, Append(one, rest)) == all
    ensures Append(Append(acc, one), rest) == all
  {
  }

  /** One turn of the loop over two child vectors, when the two elements are not the same. */
  lemma DiffTagTurn(a: Tree, x: seq<Tree>, y: seq<Tree>, tag: string, ai: nat, bi: nat, nd: nat)
    requires Below(x, a) && ai <= |x| && nd <= bi <= |y| && (ai != |x| || bi != |y|)
    requires !(ai < |x| && bi < |y| && x[ai] == y[bi])
    ensures var na, nb := |x| - ai, |y| - bi;
            DiffTag(a, x, y, tag, ai, bi, nd) ==
            if nb > na then Append(TagOps([], [], [Del(tag, bi - nd)]), DiffTag(a, x, y, tag, ai, bi + 1, nd + 1))
            else if nb < na then Append(TagOps([], [Add(tag, ai, x[ai])], []), DiffTag(a, x, y, tag, ai + 1, bi, nd))
            else Append(TagOps([Change(tag, bi, GetDiff(x[ai], y[bi]))], [], []),
                        DiffTag(a, x, y, tag, ai + 1, bi + 1, nd))
  {
  }

  lemma DiffTagSame(a: Tree, x: seq<Tree>, y: seq<Tree>, tag: string, ai: nat, bi: nat, nd: nat)
    requires Below(x, a) && ai < |x| && nd <= bi < |y| && x[ai] == y[bi]
    ensures DiffTag(a, x, y, tag, ai, bi, nd) == DiffTag(a, x, y, tag, ai + 1, bi + 1, nd)
  {
  }

  method ComputeTagDiff(a: Tree, b: Tree, tag: string) returns (ops: TagOps)
    ensures ops == TagDiff(a, b, tag)
    decreases a, 0, 1
  {
    var x, y := Tagged(a.kids, tag), Tagged(b.kids, tag);
    ChildrenSmaller(a, tag);
    ghost var all := DiffTag(a, x, y, tag, 0, 0, 0);
    var ai, bi, ndeletes := 0, 0, 0;
    ops := NO_OPS;
    while ai != |x| || bi != |y|
      invariant ai <= |x| && 0 <= ndeletes <= bi <= |y|
      invariant Append(ops, DiffTag(a, x, y, tag, ai, bi, ndeletes)) == all
      decreases |x| - ai + |y| - bi
    {
      if ai < |x| && bi < |y| && x[ai] == y[bi] {
        DiffTagSame(a, x, y, tag, ai, bi, ndeletes);
        ai, bi := ai + 1, bi + 1;
      } else {
        var one;
        one, ai, bi, ndeletes := ComputeOne(a, x, y, tag, ai, bi, ndeletes);
        AppendOne(ops, one, DiffTag(a, x, y, tag, ai, bi, ndeletes), all);
        ops := Append(ops, one);
      }
    }
  }

  /** One operation, where the two elements are not the same, and how far it gets. */
  method ComputeOne(ghost a: Tree, x: seq<Tree>, y: seq<Tree>, tag: string, ai: nat, bi: nat, ndeletes: nat)
    returns (one: TagOps, ai': nat, bi': nat, ndeletes': nat)
    requires Below(x, a) && ai <= |x| && ndeletes <= bi <= |y| && (ai != |x| || bi != |y|)
    requires !(ai < |x| && bi < |y| && x[ai] == y[bi])
    ensures ai <= ai' <= |x| && bi <= bi' <= |y| && ndeletes' <= bi' && ai' + bi' > ai + bi
    ensures DiffTag(a, x, y, tag, ai, bi, ndeletes) == Append(one, DiffTag(a, x, y, tag, ai', bi', ndeletes'))
    decreases a, 0, 0
  {
    DiffTagTurn(a, x, y, tag, ai, bi, ndeletes);
    ai', bi', ndeletes' := ai, bi, ndeletes;
    if |y| - bi > |x| - ai {
      one := TagOps([], [], [Del(tag, bi - ndeletes)]);
      ndeletes', bi' := ndeletes + 1, bi + 1;
    } else if |y| - bi < |x| - ai {
      one := TagOps([], [Add(tag, ai, x[ai])], []);
      ai' := ai + 1;
    } else {
      var sub := ComputeDiff(x[ai], y[bi]);
      one := TagOps([Change(tag, bi, sub)], [], []);
      ai', bi' := ai + 1, bi + 1;
    }
  }

  // ----- What a diff does not hold -----

  /** An attribute is in a diff just when the two nodes do not both have it, alike and not empty. */
  lemma AttrsTouched(a: Tree, b: Tree, k: string)
    ensures var d := GetDiff(a, b);
            k in d.ins || k in d.del <==>
            (k in a.attrs || k in b.attrs) &&
            !(k in a.attrs && k in b.attrs && a.attrs[k] == b.attrs[k] && a.attrs[k] != "")
  {
  }

  /** The diff of a node to itself is empty, but for attributes that are. */
  lemma SelfDiff(a: Tree)
    ensures GetDiff(a, a) == Diff(map[], {}, [], [], []) <==> forall k :: k in a.attrs ==> a.attrs[k] != ""
  {
    EqualListsNoOps(a, a);
    var d := GetDiff(a, a);
    forall k
      ensures k in d.ins || k in d.del <==> k in a.attrs && a.attrs[k] == ""
    {
      AttrsTouched(a, a, k);
    }
    if forall k :: k in a.attrs ==> a.attrs[k] != "" {
      assert d.ins == map[] && d.del == {};
    } else {
      var k :| k in a.attrs && a.attrs[k] == "";
      assert k in d.ins || k in d.del;
    }
  }

  /** The elements of `x` from `ai` on are found in `y` from `bi` on, in this order. */
  predicate FoundIn(x: seq<Tree>, y: seq<Tree>, ai: nat, bi: nat)
    requires ai <= |x| && bi <= |y|
    decreases |y| - bi
  {
    ai == |x| || (bi < |y| && FoundIn(x, y, if x[ai] == y[bi] then ai + 1 else ai, bi + 1))
  }

  lemma {:induction false} FoundFits(x: seq<Tree>, y: seq<Tree>, ai: nat, bi: nat)
    requires ai <= |x| && bi <= |y| && FoundIn(x, y, ai, bi)
    ensures |x| - ai <= |y| - bi
    decreases |y| - bi
  {
    if ai < |x| {
      FoundFits(x, y, if x[ai] == y[bi] then ai + 1 else ai, bi + 1);
    }
  }

  /** Where children are only gone, nothing is changed and nothing inserted. */
  lemma {:induction false} OnlyDeletions(a: Tree, x: seq<Tree>, y: seq<Tree>, tag: string, ai: nat, bi: nat, nd: nat)
    requires Below(x, a) && ai <= |x| && nd <= bi <= |y| && FoundIn(x, y, ai, bi)
    ensures var ops := DiffTag(a, x, y, tag, ai, bi, nd); ops.changes == [] && ops.adds == []
    decreases |x| - ai + |y| - bi
  {
    FoundFits(x, y, ai, bi);
    if ai == |x| && bi == |y| {
    } else if ai < |x| && x[ai] == y[bi] {
      OnlyDeletions(a, x, y, tag, ai + 1, bi + 1, nd);
    } else {
      if ai < |x| {
        FoundFits(x, y, ai, bi + 1);
      }
      OnlyDeletions(a, x, y, tag, ai, bi + 1, nd + 1);
    }
  }

  /** Where children have only come in, nothing is changed and nothing deleted. */
  lemma {:induction false} OnlyInsertions(a: Tree, x: seq<Tree>, y: seq<Tree>, tag: string, ai: nat, bi: nat, nd: nat)
    requires Below(x, a) && ai <= |x| && nd <= bi <= |y| && FoundIn(y, x, bi, ai)
    ensures var ops := DiffTag(a, x, y, tag, ai, bi, nd); ops.changes == [] && ops.dels == []
    decreases |x| - ai + |y| - bi
  {
    FoundFits(y, x, bi, ai);
    if ai == |x| && bi == |y| {
    } else if bi < |y| && x[ai] == y[bi] {
      OnlyInsertions(a, x, y, tag, ai + 1, bi + 1, nd);
    } else {
      if bi < |y| {
        FoundFits(y, x, bi, ai + 1);
      }
      OnlyInsertions(a, x, y, tag, ai + 1, bi, nd);
    }
  }
}
