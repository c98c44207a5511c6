/** The config object: its attributes, one child vector per tag and the list of (tag, index) pairs,
    edited in place.  Each method is held against the value of the node before and after it. */
module WmlConfig {
  import opened Sequences
  import opened WmlTree
  import opened WmlOrder
  import opened WmlDiff
  import opened WmlMerge

  class Config {
    var values: Attrs
    var children: Vecs
    var ordered: seq<Pos>

    ghost predicate Valid()
      reads this
    {
      InStep(ordered, children)
    }

    /** The node this object stands for, as an ordered traversal sees it. */
    function Node(): Tree
      requires Valid()
      reads this
    {
      InStepLocated(ordered, children);
      Tree(values, KidsOf(ordered, children))
    }

    constructor ()
      ensures Valid() && Node() == EMPTY
    {
      values, children, ordered := map[], map[], [];
    }

    /** The copy constructor: attributes first, then the children in document order. */
    constructor Copy(cfg: Tree)
      ensures Valid() && Node() == cfg
    {
      values, children, ordered := cfg.attrs, map[], [];
      new;
      assert cfg.kids[..0] == [];
      for i := 0 to |cfg.kids|
        invariant Valid() && Node() == Tree(cfg.attrs, cfg.kids[..i])
      {
        AddChild(cfg.kids[i].tag, cfg.kids[i].node);
        assert cfg.kids[..i + 1] == cfg.kids[..i] + [cfg.kids[i]];
      }
      assert cfg.kids[..|cfg.kids|] == cfg.kids;
    }

    method AddChild(key: string, val: Tree)
      requires Valid()
      modifies this
      ensures Valid() && Node() == Tree(old(Node()).attrs, old(Node()).kids + [Kid(key, val)])
    {
      Appended(ordered, children, key, val);
      var v := Vec(children, key) + [val];
      children := children[key := v];
      ordered := ordered + [Pos(key, |v| - 1)];
    }

    /** `ok` is false when the source throws; the vector of the tag has been created even then. */
    method AddChildAt(key: string, val: Tree, index: nat) returns (ok: bool)
      requires Valid()
      modifies this
      ensures Valid() && ok == (index <= |Tagged(old(Node()).kids, key)|)
      ensures Node() == if ok then Tree(old(Node()).attrs, InsertAt(old(Node()).kids, key, index, val))
                        else old(Node())
    {
      Traversal(ordered, children, key);
      if key !in children {
        Created(ordered, children, key);
        children := children[key := []];
      }
      if index > |children[key]| {
        return false;
      }
      Inserted(ordered, children, key, index, val);
      children := children[key := children[key][..index] + [val] + children[key][index..]];
      ordered := InsertPosition(ordered, key, index);
      ok := true;
    }

    static method InsertPosition(order: seq<Pos>, key: string, index: nat) returns (r: seq<Pos>)
      ensures r == InsertPos(order, key, index, false)
    {
      r := order;
      var inserted := false;
      var ord := 0;
      while ord < |r|
        invariant 0 <= ord <= |r|
        invariant r[..ord] + InsertPos(r[ord..], key, index, inserted) == InsertPos(order, key, index, false)
        decreases |r| - ord + if inserted then 0 else 2
      {
        ghost var before, from, flag := r, ord, inserted;
        if r[ord].tag == key && !inserted && r[ord].index == index {
          r := r[..ord] + [Pos(key, index)] + r[ord..];
          inserted := true;
        } else if r[ord].tag == key && r[ord].index >= index {
          r := r[ord := Pos(key, r[ord].index + 1)];
        }
        ord := ord + 1;
        InsertStep(before, r, key, index, flag, inserted, from);
      }
      assert r[..ord] == r && r[ord..] == [];
      if !inserted {
        r := r + [Pos(key, index)];
      }
    }

    /** One turn of the loop moves one step of `InsertPos` into the part that is done. */
    static lemma InsertStep(before: seq<Pos>, r: seq<Pos>, key: string, index: nat, flag: bool, inserted: bool,
                            ord: nat)
      requires ord < |before|
      requires var p := before[ord];
               if p.tag == key && !flag && p.index == index then
                 r == before[..ord] + [Pos(key, index)] + before[ord..] && inserted
               else
                 inserted == flag &&
                 r == before[ord := if p.tag == key && p.index >= index then Pos(key, p.index + 1) else p]
      ensures r[..ord + 1] + InsertPos(r[ord + 1..], key, index, inserted) ==
              before[..ord] + InsertPos(before[ord..], key, index, flag)
    {
      var rest := before[ord + 1..];
      assert before[ord..] == [before[ord]] + rest;
      assert r[..ord + 1] == before[..ord] + [r[ord]];
      if r[ord + 1..] != rest {
        assert r[ord + 1..] == before[ord..];
      }
    }

    method RemoveChild(key: string, index: nat)
      requires Valid()
      modifies this
      ensures Valid() && Node() == Tree(old(Node()).attrs, RemoveAt(old(Node()).kids, key, index))
    {
      Traversal(ordered, children, key);
      if key !in children || index >= |children[key]| {
        RemoveMissing(Node().kids, key, index);
        return;
      }
      Removed(ordered, children, key, index);
      ordered := RemovePosition(ordered, key, index, |children[key]|);
      children := children[key := children[key][..index] + children[key][index + 1..]];
    }

    static method RemovePosition(order: seq<Pos>, key: string, index: nat, ghost n: nat) returns (r: seq<Pos>)
      requires index < n && Indices(order, key) == Range(0, n)
      ensures r == RemovePos(order, key, index)
    {
      r := order;
      var found := 0;
      ghost var lowered := Lowered(order, key, index);
      for p := 0 to |order|
        invariant |r| == |order|
        invariant forall i :: 0 <= i < p ==> r[i] == lowered[i]
        invariant forall i :: p <= i < |order| ==> r[i] == order[i]
        invariant forall i :: 0 <= i < p && order[i] == Pos(key, index) ==>
                    found < |order| && order[found] == Pos(key, index)
      {
        if r[p].tag == key {
          if r[p].index == index {
            found := p;
          } else if r[p].index > index {
            r := r[p := Pos(key, r[p].index - 1)];
          }
        }
      }
      IndexPresent(order, key, index, 0, n);
      EraseFound(order, key, index, 0, n, found);
      assert r == lowered;
      r := r[..found] + r[found + 1..];
    }

    method ClearChildren(key: string)
      requires Valid()
      modifies this
      ensures Valid() && Node() == Tree(old(Node()).attrs, DropTag(old(Node()).kids, key))
    {
      if key !in children {
        Traversal(ordered, children, key);
        DropMissing(Node().kids, key);
        return;
      }
      Dropped(ordered, children, key);
      ordered := DropPos(ordered, key);
      children := children - {key};
    }

    /** Moves all children of one tag from `src` to the end of this node. */
    method SpliceChildren(src: Config, key: string)
      requires Valid() && src.Valid() && src != this
      modifies this, src
      ensures Valid() && src.Valid()
      ensures src.Node() == Tree(old(src.Node()).attrs, DropTag(old(src.Node()).kids, key))
      ensures Node() == Tree(old(Node()).attrs,
                             old(Node()).kids + Under(key, Tagged(old(src.Node()).kids, key)))
    {
      if key !in src.children {
        Traversal(src.ordered, src.children, key);
        DropMissing(src.Node().kids, key);
        assert old(Node()).kids + [] == old(Node()).kids;
        return;
      }
      var moved := src.Release(key);
      Receive(key, moved);
    }

    method Release(key: string) returns (moved: seq<Tree>)
      requires Valid() && key in children
      modifies this
      ensures Valid() && Node() == Tree(old(Node()).attrs, DropTag(old(Node()).kids, key))
      ensures moved == Tagged(old(Node()).kids, key)
    {
      Traversal(ordered, children, key);
      Dropped(ordered, children, key);
      moved := children[key];
      ordered := DropPos(ordered, key);
      children := children - {key};
    }

    method Receive(key: string, moved: seq<Tree>)
      requires Valid()
      modifies this
      ensures Valid() && Node() == Tree(old(Node()).attrs, old(Node()).kids + Under(key, moved))
    {
      var before := |Vec(children, key)|;
      var dst := Vec(children, key) + moved;
      ghost var after := children[key := dst];
      assert dst[before..|dst|] == moved;
      SplicedInStep(ordered, children, after, key);
      SplicedKids(ordered, children, after, key);
      var more := NewPositions(key, before, |dst|);
      children := children[key := dst];
      ordered := ordered + more;
    }

    static method NewPositions(key: string, before: nat, size: nat) returns (more: seq<Pos>)
      requires before <= size
      ensures more == PosRange(key, before, size)
    {
      more := [];
      for j := before to size
        invariant more == PosRange(key, before, j)
      {
        more := more + [Pos(key, j)];
        PosRangeSnoc(key, before, j);
      }
    }

    /** `operator==`: attributes, then both traversals in step. */
    method Equals(other: Config) returns (eq: bool)
      requires Valid() && other.Valid()
      ensures eq == (Node() == other.Node())
    {
      if values != other.values {
        return false;
      }
      InStepLocated(ordered, children);
      InStepLocated(other.ordered, other.children);
      ghost var k, l := Node().kids, other.Node().kids;
      var i := 0;
      while i < |ordered| && i < |other.ordered|
        invariant 0 <= i <= |ordered| && i <= |other.ordered|
        invariant forall j :: 0 <= j < i ==> k[j] == l[j]
      {
        var p, q := ordered[i], other.ordered[i];
        KidAt(ordered, children, i);
        KidAt(other.ordered, other.children, i);
        if p.tag != q.tag || Vec(children, p.tag)[p.index] != Vec(other.children, q.tag)[q.index] {
          return false;
        }
        i := i + 1;
      }
      return i == |ordered| && i == |other.ordered|;
    }

    // ----- apply_diff and clear_diff_track -----

    /** With tracking, nothing is deleted yet and every edited node is marked. */
    method ApplyDiff(diff: Diff, track: bool) returns (ok: bool)
      requires Valid()
      modifies this
      ensures Valid()
      ensures Patched(Node(), ok) == Run(if track then Track else Apply, old(Node()), diff)
      decreases diff, 1
    {
      var mode := if track then Track else Apply;
      if track {
        values := values[TRACK := "modified"];
      }
      values := values + diff.ins;
      values := values - diff.del;
      ok := ApplyChanges(diff, mode);
      if !ok {
        return;
      }
      ok := ApplyInserts(diff.adds, track);
      if !ok {
        return;
      }
      if !track {
        ApplyDeletes(diff.dels);
      } else {
        ok := MarkDeletes(diff.dels);
      }
    }

    method ApplyChanges(diff: Diff, mode: Mode) returns (ok: bool)
      requires Valid()
      modifies this
      ensures Valid() && values == old(values)
      ensures PatchedKids(Node().kids, ok) == RunChanges(mode, old(Node()).kids, diff, 0)
      decreases diff, 0
    {
      for n := 0 to |diff.changes|
        invariant Valid() && values == old(values)
        invariant RunChanges(mode, Node().kids, diff, n) == RunChanges(mode, old(Node()).kids, diff, 0)
      {
        var c := diff.changes[n];
        if c.tag != "" {
          Traversal(ordered, children, c.tag);
          if c.tag !in children || c.index >= |children[c.tag]| {
            return false;
          }
          ok := ChangeChild(c, mode);
          if !ok {
            return;
          }
        }
      }
      ok := true;
    }

    method ChangeChild(c: Change, mode: Mode) returns (ok: bool)
      requires Valid() && c.index < |Vec(children, c.tag)|
      modifies this
      ensures Valid() && values == old(values)
      ensures var p := Run(mode, Vec(old(children), c.tag)[c.index], c.sub);
              ok == p.ok && Node().kids == UpdateAt(old(Node()).kids, c.tag, c.index, p.tree)
      decreases c.sub, 2
    {
      var child := new Config.Copy(children[c.tag][c.index]);
      if mode.Clear? {
        ok := child.ClearDiffTrack(c.sub);
      } else {
        ok := child.ApplyDiff(c.sub, mode.Track?);
      }
      Updated(ordered, children, c.tag, c.index, child.Node());
      children := children[c.tag := children[c.tag][c.index := child.Node()]];
    }

    method ApplyInserts(adds: seq<Add>, track: bool) returns (ok: bool)
      requires Valid()
      modifies this
      ensures Valid() && values == old(values)
      ensures PatchedKids(Node().kids, ok) == PatchAdds(old(Node()).kids, if track then MarkedNew(adds) else adds)
    {
      ghost var todo := if track then MarkedNew(adds) else adds;
      for n := 0 to |adds|
        invariant Valid() && values == old(values)
        invariant PatchAdds(Node().kids, todo[n..]) == PatchAdds(old(Node()).kids, todo)
      {
        var node := if track then Mark(adds[n].node, "new") else adds[n].node;
        assert todo[n..] == [adds[n].(node := node)] + todo[n + 1..];
        ok := AddChildAt(adds[n].tag, node, adds[n].index);
        if !ok {
          return;
        }
      }
      ok := true;
    }

    method ApplyDeletes(dels: seq<Del>)
      requires Valid()
      modifies this
      ensures Valid() && Node() == Tree(old(Node()).attrs, PatchDels(old(Node()).kids, dels))
    {
      for n := 0 to |dels|
        invariant Valid() && values == old(values)
        invariant PatchDels(Node().kids, dels[n..]) == PatchDels(old(Node()).kids, dels)
      {
        assert dels[n..] == [dels[n]] + dels[n + 1..];
        RemoveChild(dels[n].tag, dels[n].index);
      }
    }

    method MarkDeletes(dels: seq<Del>) returns (ok: bool)
      requires Valid()
      modifies this
      ensures Valid() && values == old(values)
      ensures PatchedKids(Node().kids, ok) == MarkDels(old(Node()).kids, dels)
    {
      for n := 0 to |dels|
        invariant Valid() && values == old(values)
        invariant MarkDels(Node().kids, dels[n..]) == MarkDels(old(Node()).kids, dels)
      {
        var tag, index := dels[n].tag, dels[n].index;
        assert dels[n..] == [dels[n]] + dels[n + 1..];
        Traversal(ordered, children, tag);
        if tag !in children || index >= |children[tag]| {
          return false;
        }
        var node := Mark(children[tag][index], "deleted");
        Updated(ordered, children, tag, index, node);
        children := children[tag := children[tag][index := node]];
      }
      ok := true;
    }

    method ClearDiffTrack(diff: Diff) returns (ok: bool)
      requires Valid()
      modifies this
      ensures Valid()
      ensures Patched(Node(), ok) == Run(Clear, old(Node()), diff)
      decreases diff, 1
    {
      values := values - {TRACK};
      ApplyDeletes(diff.dels);
      ok := ApplyChanges(diff, Clear);
      if ok {
        StripChildren();
      }
    }

    method StripChildren()
      requires Valid()
      modifies this
      ensures Valid() && Node() == Tree(old(Node()).attrs, StripKids(old(Node()).kids))
    {
      ghost var goal := StripKids(Node().kids);
      for i := 0 to |ordered|
        invariant Valid() && values == old(values) && ordered == old(ordered)
        invariant forall j :: 0 <= j < i ==> Node().kids[j] == goal[j]
        invariant forall j :: i <= j < |ordered| ==> Node().kids[j] == old(Node()).kids[j]
      {
        var p := ordered[i];
        InStepLocated(ordered, children);
        KidAt(ordered, children, i);
        var node := Strip(Vec(children, p.tag)[p.index]);
        UpdatedAt(ordered, children, i, node);
        children := children[p.tag := children[p.tag][p.index := node]];
      }
      assert Node().kids == goal;
    }

    // ----- merge_with and inherit_from -----

    static method MergeAttributes(sum: Sum, a: Attrs, cfg: Attrs) returns (r: Attrs)
      ensures r == MergeAttrs(sum, a, cfg)
    {
      var keys := SortedKeys(cfg.Keys);
      r := a;
      ghost var seen: Attrs := map[];
      MergeNothing(sum, a);
      for n := 0 to |keys|
        invariant forall k :: k in seen <==> k in keys[..n]
        invariant forall k :: k in seen ==> k in cfg && seen[k] == cfg[k]
        invariant r == MergeAttrs(sum, a, seen)
      {
        var key := keys[n];
        assert keys[..n + 1] == keys[..n] + [key];
        assert key in keys;
        if IsAddTo(key) {
          AddedKey(sum, a, seen, key, cfg[key]);
          r := r[key[7..] := sum(Read(r, key[7..]), cfg[key])];
        } else {
          Assigned(sum, a, seen, key, cfg[key]);
          r := r[key := cfg[key]];
        }
        seen := seen[key := cfg[key]];
      }
      assert keys[..|keys|] == keys;
      assert seen == cfg;
    }

    method MergeWith(sum: Sum, c: Tree)
      requires Valid()
      modifies this
      ensures Valid() && Node() == Merge(sum, old(Node()), c)
      decreases Node(), 3
    {
      ghost var t := Node();
      values := MergeAttributes(sum, values, c.attrs);
      var toRemove, visitations := MergeShared(sum, t, c);
      ghost var staged := Node().kids;
      AddUnvisited(t.kids, c, visitations);
      ghost var extra := Extra(t.kids, c.kids, TagsOf(c.kids));
      MarksCorrectable(t, c, 0, [], map[]);
      RemoveMarkedChildren(toRemove);
      RemovalsHit(sum, t, c, 0, [], staged, extra, map[]);
      assert [] + (staged[0..] + extra) == staged + extra;
      assert [] + (MergeKids(sum, t, c, 0) + extra) == MergeKids(sum, t, c, 0) + extra;
    }

    /** The first loop: children in document order, each with the next unvisited child of `c`. */
    method MergeShared(sum: Sum, ghost t: Tree, c: Tree) returns (toRemove: seq<Step>, visitations: map<string, nat>)
      requires Valid() && Node().kids == t.kids
      modifies this
      ensures Valid() && values == old(values)
      ensures toRemove == ToRemove(t, c, 0) && StagedTo(sum, t, c, |t.kids|, Node().kids)
      ensures Visited(visitations, t.kids, c)
      decreases t, 2
    {
      toRemove, visitations := [], map[];
      ghost var all := ToRemove(t, c, 0);
      for i := 0 to |ordered|
        invariant Valid() && values == old(values) && ordered == old(ordered)
        invariant StagedTo(sum, t, c, i, Node().kids)
        invariant Visited(visitations, t.kids[..i], c)
        invariant toRemove + ToRemove(t, c, i) == all
      {
        PairIndex(ordered, old(children), i);
        KidAt(ordered, old(children), i);
        toRemove, visitations := MergeTurn(sum, t, c, i, toRemove, visitations);
      }
      assert t.kids[..|t.kids|] == t.kids;
    }

    method MergeTurn(sum: Sum, ghost t: Tree, c: Tree, i: nat, toRemove: seq<Step>, visitations: map<string, nat>)
        returns (marks: seq<Step>, visited: map<string, nat>)
      requires Valid() && i < |ordered| == |t.kids| && ordered[i].tag == t.kids[i].tag &&
               ordered[i].index == Visits(t, i)
      requires StagedTo(sum, t, c, i, Node().kids) && Visited(visitations, t.kids[..i], c)
      modifies this
      ensures Valid() && values == old(values) && ordered == old(ordered)
      ensures StagedTo(sum, t, c, i + 1, Node().kids) && Visited(visited, t.kids[..i + 1], c)
      ensures marks + ToRemove(t, c, i + 1) == toRemove + ToRemove(t, c, i)
      decreases t, 1
    {
      var p := ordered[i];
      var visits := Got(visitations, p.tag);
      VisitedNext(visitations, t.kids, c, i);
      ToRemoveNext(toRemove, t, c, i);
      var remove := MergePosition(sum, t, c, i, visits);
      marks := if remove then toRemove + [Step(p.tag, p.index)] else toRemove;
      visited := if visits < |Tagged(c.kids, p.tag)| then visitations[p.tag := visits + 1] else visitations;
    }

    /** One turn of that loop, at pair `i`; the result says whether the child is to be removed. */
    method MergePosition(sum: Sum, ghost t: Tree, c: Tree, i: nat, visits: nat) returns (remove: bool)
      requires Valid() && i < |ordered| == |t.kids| && StagedTo(sum, t, c, i, Node().kids)
      requires visits == Min(Visits(t, i), |Tagged(c.kids, t.kids[i].tag)|)
      modifies this
      ensures Valid() && values == old(values) && ordered == old(ordered)
      ensures remove == GoesAway(t, c, i) && StagedTo(sum, t, c, i + 1, Node().kids)
      decreases t, 0
    {
      ghost var kids := Node().kids;
      InStepLocated(ordered, children);
      KidAt(ordered, children, i);
      var over := Tagged(c.kids, ordered[i].tag);
      remove := false;
      if over != [] && visits < |over| {
        if Removes(over[visits]) {
          remove := true;
        } else {
          MergeChild(sum, t.kids[i].node, i, over[visits]);
        }
      }
      StagedNext(sum, t, c, i, kids, Node().kids);
    }

    method MergeChild(sum: Sum, ghost node: Tree, i: nat, c: Tree)
      requires Valid() && i < |ordered| && Node().kids[i].node == node
      modifies this
      ensures Valid() && values == old(values) && ordered == old(ordered)
      ensures var k := old(Node()).kids; Node().kids == k[i := Kid(k[i].tag, Merge(sum, k[i].node, c))]
      decreases node, 4
    {
      var p := ordered[i];
      InStepLocated(ordered, children);
      KidAt(ordered, children, i);
      var child := new Config.Copy(Vec(children, p.tag)[p.index]);
      child.MergeWith(sum, c);
      UpdatedAt(ordered, children, i, child.Node());
      children := children[p.tag := children[p.tag][p.index := child.Node()]];
    }

    /** The second loop: what `c` has beyond the children that were visited. */
    method AddUnvisited(ghost kids: seq<Kid>, c: Tree, visitations: map<string, nat>)
      requires Valid() && Visited(visitations, kids, c)
      modifies this
      ensures Valid() && Node() == Tree(old(Node()).attrs, old(Node()).kids + Extra(kids, c.kids, TagsOf(c.kids)))
    {
      var tags := TagsOf(c.kids);
      ghost var goal := old(Node()).kids + Extra(kids, c.kids, tags);
      for n := 0 to |tags|
        invariant Valid() && values == old(values)
        invariant Node().kids + Extra(kids, c.kids, tags[n..]) == goal
      {
        var over := Tagged(c.kids, tags[n]);
        var visits := Got(visitations, tags[n]);
        assert visits == Min(|Tagged(kids, tags[n])|, |over|);
        ExtraNext(Node().kids, kids, c, tags, n);
        AddRest(tags[n], over[visits..]);
      }
      assert Node().kids + [] == Node().kids;
    }

    static lemma ExtraNext(before: seq<Kid>, kids: seq<Kid>, c: Tree, tags: seq<string>, n: nat)
      requires n < |tags|
      ensures var over := Tagged(c.kids, tags[n]);
              var visits := Min(|Tagged(kids, tags[n])|, |over|);
              before + Extra(kids, c.kids, tags[n..]) ==
              before + Under(tags[n], over[visits..]) + Extra(kids, c.kids, tags[n + 1..])
    {
      var x, over := Tagged(kids, tags[n]), Tagged(c.kids, tags[n]);
      var own := Under(tags[n], over[Min(|x|, |over|)..]);
      var rest := Extra(kids, c.kids, tags[n + 1..]);
      assert tags[n..][1..] == tags[n + 1..];
      assert |over| <= |x| ==> over[|over|..] == [];
      assert Extra(kids, c.kids, tags[n..]) == own + rest;
      assert before + (own + rest) == before + own + rest;
    }

    method AddRest(tag: string, nodes: seq<Tree>)
      requires Valid()
      modifies this
      ensures Valid() && Node() == Tree(old(Node()).attrs, old(Node()).kids + Under(tag, nodes))
    {
      ghost var goal := old(Node()).kids + Under(tag, nodes);
      var visits := 0;
      assert nodes[0..] == nodes;
      while visits < |nodes|
        invariant Valid() && values == old(values) && visits <= |nodes|
        invariant Node().kids + Under(tag, nodes[visits..]) == goal
      {
        ghost var before := Node().kids;
        AddChild(tag, nodes[visits]);
        UnderNext(before, tag, nodes, visits);
        visits := visits + 1;
      }
    }

    static lemma UnderNext(before: seq<Kid>, tag: string, nodes: seq<Tree>, visits: nat)
      requires visits < |nodes|
      ensures before + [Kid(tag, nodes[visits])] + Under(tag, nodes[visits + 1..]) ==
              before + Under(tag, nodes[visits..])
    {
      assert nodes[visits..] == [nodes[visits]] + nodes[visits + 1..];
    }

    /** The last loop: each removal makes up for the earlier ones under its tag. */
    method RemoveMarkedChildren(marks: seq<Step>)
      requires Valid() && Correctable(marks, map[])
      modifies this
      ensures Valid() && Node() == Tree(old(Node()).attrs, RemoveMarked(old(Node()).kids, marks, map[]))
    {
      var removals: map<string, nat> := map[];
      for n := 0 to |marks|
        invariant Valid() && values == old(values)
        invariant Correctable(marks[n..], removals)
        invariant RemoveMarked(Node().kids, marks[n..], removals) == RemoveMarked(old(Node()).kids, marks, map[])
      {
        assert marks[n..] == [marks[n]] + marks[n + 1..];
        var tag := marks[n].tag;
        var removes := Got(removals, tag);
        RemoveChild(tag, marks[n].index - removes);
        removals := removals[tag := removes + 1];
      }
    }

    method InheritFrom(sum: Sum, c: Tree)
      requires Valid()
      modifies this
      ensures Valid() && Node() == Inherit(sum, old(Node()), c)
    {
      var scratch := new Config.Copy(c);
      scratch.MergeWith(sum, Node());
      values, children, ordered := scratch.values, scratch.children, scratch.ordered;
    }
  }
}
