/** `base_map` and `base_unit`: an array of units with back-indices, and a grid of two layers that must
    agree with it. */
module UnitMap {
  import opened Sequences

  datatype Loc = Loc(x: int, y: int) {
    predicate Valid() {
      x >= 0 && y >= 0
    }
  }

  const NO_INDEX := -1
  const NULL_LOCATION := Loc(-1000, -1000)

  /** The order of `sort_compare`: by row, then by column. */
  predicate Before(a: Loc, b: Loc) {
    a.y < b.y || (a.y == b.y && a.x < b.x)
  }

  ghost predicate Ascending(keys: seq<Loc>) {
    forall i, j :: 0 <= i < j < |keys| ==> !Before(keys[j], keys[i])
  }

  /** In order: row by row, each row from the left. */
  lemma RowByRow(keys: seq<Loc>)
    ensures Ascending(keys) <==>
            forall i, j :: 0 <= i < j < |keys| ==>
              keys[i].y < keys[j].y || (keys[i].y == keys[j].y && keys[i].x <= keys[j].x)
  {
  }

  // ----- Where `sort_map` puts a unit, on plain sequences -----

  /** The first index from `i` on, other than `at`, whose key the one at `at` goes before; the length when
      there is none. */
  function Stop(keys: seq<Loc>, at: nat, i: nat): (r: nat)
    requires at < |keys| && i <= |keys|
    ensures i <= r <= |keys|
    ensures forall k :: i <= k < r && k != at ==> !Before(keys[at], keys[k])
    ensures r < |keys| ==> r != at && Before(keys[at], keys[r])
    decreases |keys| - i
  {
    if i == |keys| then i
    else if i != at && Before(keys[at], keys[i]) then i
    else Stop(keys, at, i + 1)
  }

  /** The element at `from` taken out and put in front of the one at `i`. */
  function Shifted<T>(s: seq<T>, from: nat, i: nat): (r: seq<T>)
    requires from < |s| && i <= |s|
    ensures |r| == |s|
  {
    var at := if i > from then i - 1 else i;
    var rest := Without(s, from);
    rest[..at] + [s[from]] + rest[at..]
  }

  /** Moving one key to its stop puts a list in order that is in order without it. */
  lemma ShiftSorts(keys: seq<Loc>, from: nat)
    requires from < |keys| && Ascending(Without(keys, from))
    ensures Ascending(Shifted(keys, from, Stop(keys, from, 0)))
  {
    var i, rest, key := Stop(keys, from, 0), Without(keys, from), keys[from];
    var at := if i > from then i - 1 else i;
    forall k | 0 <= k < at ensures !Before(key, rest[k]) {
      assert rest[k] == keys[if k < from then k else k + 1];
    }
    forall k | at <= k < |rest| ensures !Before(rest[k], key) {
      assert rest[at] == keys[i];
      assert at < k ==> !Before(rest[k], rest[at]);
    }
    PutInOrder(rest, at, key);
  }

  lemma PutInOrder(rest: seq<Loc>, at: nat, key: Loc)
    requires at <= |rest| && Ascending(rest)
    requires forall k :: 0 <= k < at ==> !Before(key, rest[k])
    requires forall k :: at <= k < |rest| ==> !Before(rest[k], key)
    ensures Ascending(rest[..at] + [key] + rest[at..])
  {
    var out := rest[..at] + [key] + rest[at..];
    forall i, j | 0 <= i < j < |out| ensures !Before(out[j], out[i]) {
      assert out[i] == if i < at then rest[i] else if i == at then key else rest[i - 1];
      assert out[j] == if j < at then rest[j] else if j == at then key else rest[j - 1];
    }
  }

  lemma ShiftKeepsElements<T>(s: seq<T>, from: nat, i: nat)
    requires from < |s| && i <= |s|
    ensures multiset(Shifted(s, from, i)) == multiset(s)
  {
    var at := if i > from then i - 1 else i;
    var rest := Without(s, from);
    var out := rest[..at] + [s[from]] + rest[at..];
    assert rest == rest[..at] + rest[at..];
    assert multiset(out) == multiset(rest) + multiset{s[from]};
    assert s == s[..from] + ([s[from]] + s[from + 1..]);
  }

  /** Where the element at `k` goes when the one at `from` is moved to slot `at`. */
  function NewSlot(from: nat, at: nat, k: nat): nat {
    if k == from then at else if from < k <= at then k - 1 else if at <= k < from then k + 1 else k
  }

  /** Which element slot `k` then holds. */
  function OldSlot(from: nat, at: nat, k: nat): nat {
    if k == at then from else if from <= k < at then k + 1 else if at < k <= from then k - 1 else k
  }

  lemma ShiftedBySlots<T>(s: seq<T>, from: nat, i: nat, t: seq<T>)
    requires from < |s| == |t| && i <= |s|
    requires forall k :: 0 <= k < |s| ==> t[k] == s[OldSlot(from, if i > from then i - 1 else i, k)]
    ensures t == Shifted(s, from, i)
  {
  }

  lemma WithoutAscends(keys: seq<Loc>, at: nat)
    requires at < |keys| && Ascending(keys)
    ensures Ascending(Without(keys, at))
  {
    var rest := Without(keys, at);
    forall i, j | 0 <= i < j < |rest| ensures !Before(rest[j], rest[i]) {
      assert rest[i] == keys[if i < at then i else i + 1];
      assert rest[j] == keys[if j < at then j else j + 1];
    }
  }

  lemma StayPut<T>(s: seq<T>, from: nat)
    requires from < |s|
    ensures Shifted(s, from, from + 1) == s
  {
  }

  // ----- The row-major index -----

  predicate InGrid(w: nat, h: nat, l: Loc) {
    0 <= l.x < w && 0 <= l.y < h
  }

  /** The number of cells in `y` rows. */
  function Rows(w: nat, y: nat): nat {
    if y == 0 then 0 else Rows(w, y - 1) + w
  }

  lemma {:induction false} RowsIsProduct(w: nat, y: nat)
    ensures Rows(w, y) == w * y
  {
    if y > 0 {
      RowsIsProduct(w, y - 1);
    }
  }

  lemma {:induction false} RowStep(w: nat, y: nat, z: nat)
    requires y < z
    ensures Rows(w, y) + w <= Rows(w, z)
  {
    if y + 1 < z {
      RowStep(w, y, z - 1);
    }
  }

  function Index(w: nat, h: nat, l: Loc): (k: nat)
    requires InGrid(w, h, l)
    ensures k < Rows(w, h)
  {
    RowStep(w, l.y, h);
    Rows(w, l.y) + l.x
  }

  lemma IndexFormula(w: nat, h: nat, l: Loc)
    requires InGrid(w, h, l)
    ensures Index(w, h, l) == w * l.y + l.x
  {
    RowsIsProduct(w, l.y);
  }

  lemma IndexInjective(w: nat, h: nat, a: Loc, b: Loc)
    requires InGrid(w, h, a) && InGrid(w, h, b) && a != b
    ensures Index(w, h, a) != Index(w, h, b)
  {
    if a.y < b.y {
      RowStep(w, a.y, b.y);
    } else if b.y < a.y {
      RowStep(w, b.y, a.y);
    }
  }

  /** One cell of a grid is written. */
  method Write(grid: array<Cookie>, w: nat, h: nat, l: Loc, c: Cookie)
    requires grid.Length == Rows(w, h) && InGrid(w, h, l)
    modifies grid
    ensures forall a: Loc :: InGrid(w, h, a) ==>
              grid[Index(w, h, a)] == if a == l then c else old(grid[Index(w, h, a)])
  {
    var k := Index(w, h, l);
    grid[k] := c;
    forall a: Loc | InGrid(w, h, a) && a != l ensures Index(w, h, a) != k {
      IndexInjective(w, h, a, l);
    }
  }

  lemma {:induction false} Wider(w: nat, nw: nat, h: nat)
    requires w <= nw
    ensures Rows(w, h) <= Rows(nw, h)
  {
    if h > 0 {
      Wider(w, nw, h - 1);
    }
  }

  datatype Rect = Rect(x: int, y: int, w: int, h: int)

  class Unit {
    var loc: Loc
    var rect: Rect
    var touch: set<Loc>
    var index: int
    const base: bool
    const sorts: bool

    constructor (base: bool, sorts: bool)
      ensures loc == NULL_LOCATION && touch == {} && index == NO_INDEX
      ensures this.base == base && this.sorts == sorts
    {
      loc, touch, index, rect := NULL_LOCATION, {}, NO_INDEX, Rect(0, 0, 0, 0);
      this.base, this.sorts := base, sorts;
    }

    method SetLocation(l: Loc)
      modifies this`loc, this`touch
      ensures loc == l
      ensures touch == if old(loc) == l then old(touch) else {l}
    {
      if loc == l {
        return;
      }
      loc := l;
      touch := {l};
    }

    /** A unit that no map holds: it was never placed, or it still knows the cell it was last at. */
    ghost predicate Loose()
      reads this
    {
      index == NO_INDEX && (loc == NULL_LOCATION || touch == {loc})
    }
  }

  ghost predicate OnceEach(s: seq<Unit?>, repr: set<Unit>) {
    NoDup(s) && forall i :: 0 <= i < |s| ==> s[i] in repr
  }

  datatype Cookie = Cookie(base: Unit?, overlay: Unit?)

  datatype Inserted = Done | InvalidLocation | Occupied

  class BaseMap {
    var units: array<Unit?>
    var count: nat
    var grid: array<Cookie>
    var w: nat
    var h: nat
    var unsorted: bool
    ghost var repr: set<Unit>

    ghost predicate Sized()
      reads this`grid, this`w, this`h
    {
      grid.Length == Rows(w, h)
    }

    ghost predicate Shape()
      reads this
    {
      Sized() && units.Length == Rows(w, h) && count <= units.Length
    }

    function Cell(l: Loc, base: bool): Unit?
      requires Sized() && InGrid(w, h, l)
      reads this`grid, this`w, this`h, grid
    {
      var c := grid[Index(w, h, l)];
      if base then c.base else c.overlay
    }

    ghost predicate Listed()
      requires Shape()
      reads this, units, repr`index
    {
      && (forall i :: 0 <= i < count ==> units[i] in repr && units[i].index == i)
      && (forall i :: count <= i < units.Length ==> units[i] == null)
      && (forall u :: u in repr ==> 0 <= u.index < count && units[u.index] == u)
    }

    ghost predicate Placed(u: Unit)
      requires Sized()
      reads this`grid, this`w, this`h, grid, u`loc, u`touch
    {
      InGrid(w, h, u.loc) && u.touch == {u.loc} && Cell(u.loc, u.base) == u
    }

    /** The units on the grid are these: each is in its cell, and no cell holds anything else. */
    ghost predicate Agree(on: set<Unit>)
      requires Sized()
      reads this`grid, this`w, this`h, grid, on`loc, on`touch
    {
      && (forall u :: u in on ==> Placed(u))
      && forall l: Loc, base: bool :: InGrid(w, h, l) && Cell(l, base) != null ==>
           var u := Cell(l, base); u in on && u.loc == l && u.base == base
    }

    ghost predicate Valid()
      reads this, units, grid, repr`index, repr`loc, repr`touch
    {
      Shape() && Listed() && Agree(repr)
    }

    function Find(l: Loc, base: bool): Unit?
      requires Sized()
      reads this`grid, this`w, this`h, grid
    {
      if InGrid(w, h, l) then Cell(l, base) else null
    }

    constructor (w: nat, h: nat)
      ensures Valid() && count == 0 && this.w == w && this.h == h && !unsorted && repr == {}
      ensures forall a: Loc, b: bool :: InGrid(w, h, a) ==> Cell(a, b) == null
      ensures fresh(units) && fresh(grid)
    {
      this.w, this.h, count, unsorted, repr := w, h, 0, false, {};
      units := new Unit?[Rows(w, h)](_ => null);
      grid := new Cookie[Rows(w, h)](_ => Cookie(null, null));
    }

    /** One cell of one layer is written. */
    method SetCell(l: Loc, base: bool, u: Unit?)
      requires Shape() && InGrid(w, h, l)
      modifies grid
      ensures forall a: Loc, b: bool :: InGrid(w, h, a) ==>
                Cell(a, b) == if a == l && b == base then u else old(Cell(a, b))
    {
      var c := grid[Index(w, h, l)];
      Write(grid, w, h, l, if base then c.(base := u) else c.(overlay := u));
    }

    /** Every touched cell of one layer is written. */
    method Stamp(cells: set<Loc>, base: bool, u: Unit?)
      requires Shape() && forall l :: l in cells ==> InGrid(w, h, l)
      modifies grid
      ensures forall a: Loc, b: bool :: InGrid(w, h, a) ==>
                Cell(a, b) == if a in cells && b == base then u else old(Cell(a, b))
    {
      var todo := cells;
      while todo != {}
        invariant todo <= cells
        invariant forall a: Loc, b: bool :: InGrid(w, h, a) ==>
                    Cell(a, b) == if a in cells - todo && b == base then u else old(Cell(a, b))
      {
        var l :| l in todo;
        SetCell(l, base, u);
        todo := todo - {l};
      }
    }

    ghost function Listing(): seq<Unit?>
      requires count <= units.Length
      reads this, units
    {
      units[..count]
    }

    ghost function Keys(): seq<Loc>
      requires Shape() && Listed()
      reads this, units, repr
    {
      seq(count, i requires 0 <= i < count && Shape() && Listed() reads this, units, repr => units[i].loc)
    }

    /** The slots from `from` on move one to the left, up to slot `to`. */
    method PullLeft(ghost was: seq<Unit?>, from: nat, to: nat)
      requires Shape() && from <= to < count && was == Listing() && OnceEach(was, repr)
      modifies units, repr`index
      ensures forall i {:trigger units[i]} :: 0 <= i < count ==>
                units[i] == if from <= i < to then was[i + 1] else was[i]
      ensures forall i :: count <= i < units.Length ==> units[i] == old(units[i])
      ensures forall i :: 0 <= i < count ==> was[i].index == if from < i <= to then i - 1 else old(was[i].index)
    {
      var j := from;
      while j < to
        invariant from <= j <= to
        invariant forall i {:trigger units[i]} :: 0 <= i < count ==>
                    units[i] == if from <= i < j then was[i + 1] else was[i]
        invariant forall i :: count <= i < units.Length ==> units[i] == old(units[i])
        invariant forall i :: 0 <= i < count ==> was[i].index == if from < i <= j then i - 1 else old(was[i].index)
      {
        assert j + 1 < count && units[j + 1] == was[j + 1];
        units[j] := units[j + 1];
        units[j].index := j;
        j := j + 1;
      }
    }

    /** The slots before `from` move one to the right, down to slot `to`. */
    method PushRight(ghost was: seq<Unit?>, from: nat, to: nat)
      requires Shape() && to <= from < count && was == Listing() && OnceEach(was, repr)
      modifies units, repr`index
      ensures forall i {:trigger units[i]} :: 0 <= i < count ==>
                units[i] == if to < i <= from then was[i - 1] else was[i]
      ensures forall i :: count <= i < units.Length ==> units[i] == old(units[i])
      ensures forall i :: 0 <= i < count ==> was[i].index == if to <= i < from then i + 1 else old(was[i].index)
    {
      var j := from;
      while j > to
        invariant to <= j <= from
        invariant forall i {:trigger units[i]} :: 0 <= i < count ==>
                    units[i] == if j < i <= from then was[i - 1] else was[i]
        invariant forall i :: count <= i < units.Length ==> units[i] == old(units[i])
        invariant forall i :: 0 <= i < count ==> was[i].index == if j <= i < from then i + 1 else old(was[i].index)
      {
        assert units[j - 1] == was[j - 1];
        units[j] := units[j - 1];
        units[j].index := j;
        j := j - 1;
      }
    }

    /** The array holds what it held before, with one unit moved to slot `at`, and the indices say so. */
    ghost predicate Resettled(was: seq<Unit?>, from: nat, at: nat)
      requires Shape()
      reads this, units, repr`index
    {
      && |was| == count && from < count && at < count && OnceEach(was, repr) && (forall v :: v in repr ==> v in was)
      && (forall k {:trigger units[k]} :: 0 <= k < count ==> units[k] == was[OldSlot(from, at, k)])
      && (forall k :: count <= k < units.Length ==> units[k] == null)
      && (forall k :: 0 <= k < count ==> was[k].index == NewSlot(from, at, k))
    }

    lemma ResettledListed(was: seq<Unit?>, from: nat, at: nat)
      requires Shape() && Resettled(was, from, at)
      ensures Listed()
    {
      forall v | v in repr ensures 0 <= v.index < count && units[v.index] == v {
        var k :| 0 <= k < count && was[k] == v;
        assert OldSlot(from, at, v.index) == k;
      }
      forall k | 0 <= k < count ensures units[k] in repr && units[k].index == k {
        assert was[OldSlot(from, at, k)] in repr;
      }
    }

    /** The unit of slot `from` goes to slot `at`; the ones between make room. */
    method MoveSlot(u: Unit, at: nat)
      requires Shape() && Listed() && u in repr && at < count
      modifies units, repr`index
      ensures Shape() && Resettled(old(Listing()), old(u.index), at)
    {
      ghost var was := Listing();
      var from := u.index;
      if at > from {
        PullLeft(was, from, at);
      } else {
        PushRight(was, from, at);
      }
      units[at] := u;
      u.index := at;
      assert forall k {:trigger units[k]} :: 0 <= k < count ==> units[k] == was[OldSlot(from, at, k)];
      assert forall k :: 0 <= k < count ==> was[k].index == NewSlot(from, at, k);
    }

    /** The scan of `sort_map`. */
    method Seek(u: Unit) returns (i: nat)
      requires Shape() && Listed() && u in repr
      ensures i == Stop(Keys(), u.index, 0)
    {
      ghost var keys := Keys();
      i := 0;
      while i < count
        invariant 0 <= i <= count
        invariant Stop(keys, u.index, 0) == Stop(keys, u.index, i)
      {
        var that := units[i];
        if that != u && Before(u.loc, that.loc) {
          break;
        }
        i := i + 1;
      }
    }

    /** The array is what it was, with the unit of slot `from` moved to its stop. */
    ghost predicate Sorted(was: seq<Unit?>, keys: seq<Loc>, from: nat)
      requires Shape()
      reads this, units, repr
    {
      && Listed() && from < count == |was| == |keys|
      && Listing() == Shifted(was, from, Stop(keys, from, 0))
      && Keys() == Shifted(keys, from, Stop(keys, from, 0))
    }

    lemma SortedAlready(from: nat)
      requires Shape() && Listed() && from < count && Stop(Keys(), from, 0) == from + 1
      ensures Sorted(Listing(), Keys(), from)
    {
      StayPut(Listing(), from);
      StayPut(Keys(), from);
    }

    lemma ResettledKeys(was: seq<Unit?>, keys: seq<Loc>, from: nat, i: nat)
      requires Shape() && from < count && i <= count && (i > from ==> i > 0)
      requires Resettled(was, from, if i > from then i - 1 else i)
      requires |keys| == count && forall k :: 0 <= k < count ==> keys[k] == was[k].loc
      requires i == Stop(keys, from, 0)
      ensures Sorted(was, keys, from)
    {
      var at := if i > from then i - 1 else i;
      ResettledListed(was, from, at);
      SlotsFilled(was, from, at);
      ShiftedBySlots(was, from, i, Listing());
      SlotsKeyed(was, keys, from, at);
      ShiftedBySlots(keys, from, i, Keys());
    }

    lemma SlotsFilled(was: seq<Unit?>, from: nat, at: nat)
      requires Shape() && Resettled(was, from, at)
      ensures |Listing()| == |was| && forall k :: 0 <= k < |was| ==> Listing()[k] == was[OldSlot(from, at, k)]
    {
      forall k | 0 <= k < |was| ensures Listing()[k] == was[OldSlot(from, at, k)] {
        assert Listing()[k] == units[k];
      }
    }

    lemma SlotsKeyed(was: seq<Unit?>, keys: seq<Loc>, from: nat, at: nat)
      requires Shape() && Listed() && Resettled(was, from, at)
      requires |keys| == count && forall k :: 0 <= k < count ==> keys[k] == was[k].loc
      ensures |Keys()| == |keys| && forall k :: 0 <= k < |keys| ==> Keys()[k] == keys[OldSlot(from, at, k)]
    {
      forall k | 0 <= k < |keys| ensures Keys()[k] == keys[OldSlot(from, at, k)] {
        assert units[k] == was[OldSlot(from, at, k)];
      }
    }

    method SortMap(u: Unit)
      requires Shape() && Listed() && u in repr
      modifies units, repr`index
      ensures Shape() && Sorted(old(Listing()), old(Keys()), old(u.index))
    {
      ghost var was, keys, from := Listing(), Keys(), u.index;
      var i := Seek(u);
      if u.index == i - 1 {
        SortedAlready(from);
      } else {
        MoveSlot(u, if i > u.index then i - 1 else i);
        ResettledKeys(was, keys, from, i);
      }
    }

    /** A unit is put at the end of the array. */
    method Append(u: Unit)
      requires Shape() && Listed() && u !in repr && count < units.Length
      modifies this`count, this`repr, units, u`index
      ensures Shape() && Listed() && repr == old(repr) + {u} && count == old(count) + 1
      ensures u.index == old(count) && Listing() == old(Listing()) + [u]
    {
      u.index := count;
      units[count] := u;
      count := count + 1;
      repr := repr + {u};
    }

    /** The array's side of `insert`. */
    method Add(u: Unit)
      requires Shape() && Listed() && u !in repr && count < units.Length
      modifies this`count, this`repr, units, u`index, repr`index
      ensures Shape() && Listed() && repr == old(repr) + {u}
      ensures old(InOrder()) && u.sorts ==> InOrder()
    {
      ghost var keys := Keys();
      Append(u);
      if u.sorts {
        ghost var longer := Keys();
        assert Without(longer, u.index) == keys;
        SortMap(u);
        if Ascending(keys) {
          ShiftSorts(longer, old(count));
        }
      }
    }

    ghost predicate InOrder()
      requires Shape() && Listed()
      reads this, units, repr
    {
      Ascending(Keys())
    }

    /** A unit that is off the grid is put into a cell. Only a free cell leaves the two sides in agreement. */
    method PutOn(ghost on: set<Unit>, l: Loc, u: Unit)
      requires Shape() && Agree(on) && u !in on && InGrid(w, h, l) && (u.loc == l ==> u.touch == {l})
      modifies grid, u`loc, u`touch
      ensures u.loc == l && u.touch == {l}
      ensures forall a: Loc, b: bool :: InGrid(w, h, a) ==>
                Cell(a, b) == if a == l && b == u.base then u else old(Cell(a, b))
      ensures Agree(on + {u}) <==> old(Cell(l, u.base)) == null
    {
      SetCell(l, u.base, u);
      u.SetLocation(l);
      assert Placed(u);
      ghost var victim := old(Cell(l, u.base));
      if victim != null {
        assert victim in on && victim.loc == l && !Placed(victim);
      } else {
        forall v | v in on ensures Placed(v) {
          assert old(Placed(v));
        }
      }
    }

    /** A unit that is on the grid is taken off. */
    method TakeOff(ghost on: set<Unit>, u: Unit)
      requires Shape() && Agree(on) && u in on
      modifies grid
      ensures forall a: Loc, b: bool :: InGrid(w, h, a) ==>
                Cell(a, b) == if a == u.loc && b == u.base then null else old(Cell(a, b))
      ensures Agree(on - {u})
    {
      Stamp(u.touch, u.base, null);
      forall v | v in on - {u} ensures Placed(v) {
        assert old(Placed(v));
      }
    }

    method Insert(l: Loc, u: Unit) returns (r: Inserted)
      requires Valid() && u.Loose() && (l.Valid() ==> InGrid(w, h, l)) && count < units.Length
      modifies this`count, this`repr, units, grid, u, repr`index
      ensures Valid()
      ensures r == if !l.Valid() then InvalidLocation else if old(Cell(l, u.base)) != null then Occupied else Done
      ensures r != Done ==> repr == old(repr) && Listing() == old(Listing()) && grid[..] == old(grid[..])
      ensures r == Done && old(InOrder()) && u.sorts ==> InOrder()
      ensures r == Done ==> repr == old(repr) + {u} && u.loc == l
      ensures r == Done ==> forall a: Loc, b: bool :: InGrid(w, h, a) ==>
                Cell(a, b) == if a == l && b == u.base then u else old(Cell(a, b))
    {
      if !l.Valid() {
        return InvalidLocation;
      }
      if Cell(l, u.base) != null {
        return Occupied;
      }
      PutOn(repr, l, u);
      ghost var on := repr + {u};
      assert Agree(on);
      Add(u);
      return Done;
    }

    method VerifyMapIndex() returns (ok: bool)
      requires Shape() && forall k :: 0 <= k < count ==> units[k] != null
      ensures ok <==> forall k :: 0 <= k < count ==> units[k].index == k
    {
      for i := 0 to count
        invariant forall k :: 0 <= k < i ==> units[k].index == k
      {
        if units[i].index != i {
          return false;
        }
      }
      return true;
    }

    /** The array holds what it held before without the unit of slot `from`, and the indices say so. */
    ghost predicate Dropped(was: seq<Unit?>, from: nat)
      requires Shape()
      reads this, units, repr`index
    {
      && |was| == count + 1 && from <= count && (forall v :: v in repr ==> v in was && v != was[from])
      && (forall i, j :: 0 <= i < j < |was| ==> was[i] != was[j])
      && (forall k :: 0 <= k <= count && k != from ==> was[k] in repr && was[k].index == if from < k then k - 1 else k)
      && (forall k {:trigger units[k]} :: 0 <= k < count ==> units[k] == if from <= k then was[k + 1] else was[k])
      && (forall k :: count <= k < units.Length ==> units[k] == null)
    }

    lemma DroppedListed(was: seq<Unit?>, keys: seq<Loc>, from: nat)
      requires Shape() && Dropped(was, from)
      requires |keys| == |was| && forall k :: 0 <= k <= count && k != from ==> keys[k] == was[k].loc
      ensures Listed() && Listing() == Without(was, from) && (Ascending(keys) ==> InOrder())
    {
      DroppedIndices(was, from);
      DroppedListing(was, from);
      if Ascending(keys) {
        WithoutAscends(keys, from);
        DroppedKeys(was, keys, from);
      }
    }

    lemma DroppedIndices(was: seq<Unit?>, from: nat)
      requires Shape() && Dropped(was, from)
      ensures Listed()
    {
      forall v | v in repr ensures 0 <= v.index < count && units[v.index] == v {
        var k :| 0 <= k < |was| && was[k] == v;
      }
      forall k | 0 <= k < count ensures units[k] in repr && units[k].index == k {
        assert units[k] == was[if k < from then k else k + 1];
      }
    }

    lemma DroppedListing(was: seq<Unit?>, from: nat)
      requires Shape() && Dropped(was, from)
      ensures Listing() == Without(was, from)
    {
      forall k | 0 <= k < count ensures Listing()[k] == Without(was, from)[k] {
        assert Listing()[k] == units[k];
      }
    }

    lemma DroppedKeys(was: seq<Unit?>, keys: seq<Loc>, from: nat)
      requires Shape() && Listed() && |keys| == |was| == count + 1 && from <= count
      requires forall k {:trigger units[k]} :: 0 <= k < count ==> units[k] == was[if k < from then k else k + 1]
      requires forall k :: 0 <= k <= count && k != from && was[k] != null ==> keys[k] == was[k].loc
      ensures Keys() == Without(keys, from)
    {
      var rest := Without(keys, from);
      WithoutAt(keys, from);
      forall k | 0 <= k < count ensures Keys()[k] == rest[k] {
        assert units[k] == was[if k < from then k else k + 1];
      }
    }

    /** The array's side of `erase2`. */
    method Drop(u: Unit)
      requires Shape() && Listed() && u in repr
      modifies this`count, this`repr, units, repr`index
      ensures Shape() && Listed() && repr == old(repr) - {u} && u.index == NO_INDEX
      ensures Listing() == Without(old(Listing()), old(u.index))
      ensures old(InOrder()) ==> InOrder()
    {
      ghost var was, keys, from := Listing(), Keys(), u.index;
      PullLeft(was, u.index, count - 1);
      count := count - 1;
      units[count] := null;
      u.index := NO_INDEX;
      repr := repr - {u};
      DroppedListed(was, keys, from);
    }

    /** The body of `erase2`, for a unit that the map holds. */
    method Discard(u: Unit)
      requires Valid() && u in repr
      modifies this`count, this`repr, units, grid, repr`index
      ensures Valid() && repr == old(repr) - {u} && u.Loose()
      ensures Listing() == Without(old(Listing()), old(u.index)) && (old(InOrder()) ==> InOrder())
      ensures forall a: Loc, b: bool :: InGrid(w, h, a) ==>
                Cell(a, b) == if a == u.loc && b == u.base then null else old(Cell(a, b))
    {
      ghost var on := repr - {u};
      TakeOff(repr, u);
      assert Agree(on);
      Drop(u);
      assert Agree(on) && repr == on;
      CheckIndices();
    }

    /** The runtime check at the end of `erase2`, which never fails. */
    method CheckIndices()
      requires Valid()
    {
      var ok := VerifyMapIndex();
      assert ok;
    }

    method Erase(u: Unit) returns (ok: bool)
      requires Valid() && (u in repr || u.index == NO_INDEX)
      modifies this`count, this`repr, units, grid, repr`index
      ensures Valid() && ok == (old(u.index) != NO_INDEX)
      ensures !ok ==> repr == old(repr) && Listing() == old(Listing()) && grid[..] == old(grid[..])
      ensures ok ==> repr == old(repr) - {u} && u.Loose()
      ensures ok ==> Listing() == Without(old(Listing()), old(u.index)) && (old(InOrder()) ==> InOrder())
      ensures ok ==> forall a: Loc, b: bool :: InGrid(w, h, a) ==>
                Cell(a, b) == if a == u.loc && b == u.base then null else old(Cell(a, b))
    {
      ok := u.index != NO_INDEX;
      if ok {
        Discard(u);
      }
    }

    method Extract(l: Loc) returns (u: Unit?)
      requires Valid() && (l.Valid() ==> InGrid(w, h, l))
      modifies grid
      ensures Shape() && Listed()
      ensures u == if l.Valid() then old(Cell(l, false)) else null
      ensures u == null ==> grid[..] == old(grid[..])
      ensures u != null ==> u in repr && u.loc == l && !u.base && Agree(repr - {u})
      ensures u != null ==> forall a: Loc, b: bool :: InGrid(w, h, a) ==>
                Cell(a, b) == if a == l && !b then null else old(Cell(a, b))
    {
      if !l.Valid() {
        return null;
      }
      u := Cell(l, false);
      if u == null {
        return;
      }
      TakeOff(repr, u);
      if !unsorted {
        assert u.index != NO_INDEX;
      }
    }

    /** The array's side of `place`. */
    method Settle(u: Unit)
      requires Shape() && Listed() && u in repr
      modifies units, repr`index
      ensures Shape() && Listed()
      ensures Ascending(Without(old(Keys()), old(u.index))) && !unsorted && u.sorts ==> InOrder()
    {
      if !unsorted {
        if u.sorts {
          ghost var keys, from := Keys(), u.index;
          SortMap(u);
          if Ascending(Without(keys, from)) {
            ShiftSorts(keys, from);
          }
        }
        var ok := VerifyMapIndex();
        assert ok;
      }
    }

    method Place(l: Loc, u: Unit)
      requires Shape() && Listed() && u in repr && !u.base && Agree(repr - {u})
      requires InGrid(w, h, l) && u.touch == {u.loc}
      modifies units, grid, repr`index, u`loc, u`touch
      ensures Shape() && Listed()
      ensures u.loc == l && u.touch == {l}
      ensures Agree(repr) <==> old(Cell(l, false)) == null
      ensures forall a: Loc, b: bool :: InGrid(w, h, a) ==>
                Cell(a, b) == if a == l && !b then u else old(Cell(a, b))
      ensures old(InOrder()) && !unsorted && u.sorts ==> InOrder()
    {
      ghost var keys, at := Keys(), u.index;
      ghost var on := repr - {u};
      PutOn(on, l, u);
      assert on + {u} == repr;
      assert Without(Keys(), at) == Without(keys, at);
      if Ascending(keys) {
        WithoutAscends(keys, at);
      }
      Settle(u);
    }

    method Move(src: Loc, dst: Loc)
      requires Valid() && InGrid(w, h, src) && InGrid(w, h, dst) && Cell(src, false) != null
      modifies units, grid, repr`index, repr`loc, repr`touch
      ensures Shape() && Listed()
      ensures Valid() <==> dst == src || old(Cell(dst, false)) == null
      ensures forall a: Loc, b: bool :: InGrid(w, h, a) ==>
                Cell(a, b) == if b then old(Cell(a, b)) else if a == dst then old(Cell(src, false))
                              else if a == src then null else old(Cell(a, b))
      ensures old(InOrder()) && !unsorted && old(Cell(src, false)).sorts ==> InOrder()
    {
      var u := Extract(src);
      Place(dst, u);
    }

    /** The grid with wider rows, and the array grown with it. */
    method ExpandCoorMap(nw: nat, ghost on: set<Unit>)
      requires Shape() && Listed() && Agree(on) && nw > w
      modifies this`w, this`grid, this`units
      ensures fresh(units) && fresh(grid) && w == nw
      ensures Shape() && Listed() && Agree(on) && Listing() == old(Listing())
      ensures forall l: Loc, b: bool :: InGrid(w, h, l) ==>
                Cell(l, b) == if l.x < old(w) then old(Cell(l, b)) else null
    {
      Wider(w, nw, h);
      var tmp := new Unit?[Rows(nw, h)](_ => null);
      forall k | 0 <= k < count {
        tmp[k] := units[k];
      }
      var tmp2 := Repitched(nw);
      units := tmp;
      grid := tmp2;
      w := nw;
      forall u | u in on ensures Placed(u) {
        assert old(Placed(u));
      }
      forall l: Loc, b: bool | InGrid(w, h, l) && Cell(l, b) != null
        ensures var u := Cell(l, b); u in on && u.loc == l && u.base == b
      {
        assert l.x < old(w) && old(Cell(l, b)) == Cell(l, b);
      }
    }

    method Repitched(nw: nat) returns (tmp: array<Cookie>)
      requires Sized() && nw > w
      ensures fresh(tmp) && tmp.Length == Rows(nw, h)
      ensures forall l: Loc :: InGrid(nw, h, l) ==>
                tmp[Index(nw, h, l)] == if l.x < w then grid[Index(w, h, l)] else Cookie(null, null)
    {
      tmp := new Cookie[Rows(nw, h)](_ => Cookie(null, null));
      for y := 0 to h
        invariant forall l: Loc :: InGrid(nw, h, l) ==>
                    tmp[Index(nw, h, l)] == if l.x < w && l.y < y then grid[Index(w, h, l)] else Cookie(null, null)
      {
        for x := 0 to w
          invariant forall l: Loc :: InGrid(nw, h, l) ==>
                      tmp[Index(nw, h, l)] == if l.x < w && (l.y < y || (l.y == y && l.x < x))
                                              then grid[Index(w, h, l)] else Cookie(null, null)
        {
          Write(tmp, nw, h, Loc(x, y), grid[Index(w, h, Loc(x, y))]);
        }
      }
    }

    ghost predicate Room(hint: Loc, gw: nat)
      requires Sized() && InGrid(w, h, hint)
      reads this`grid, this`w, this`h, grid
    {
      Cell(hint, false) == null || hint.x < gw || exists x :: gw <= x < w && Cell(Loc(x, hint.y), false) == null
    }

    /** `gw` is the width of the game map, which may be smaller than the grid's. The cell is free just when
        there was room. */
    method ConflictCalculateLoc(hint: Loc, gw: nat, ghost on: set<Unit>) returns (l: Loc)
      requires Shape() && Listed() && Agree(on) && InGrid(w, h, hint)
      modifies this`w, this`grid, this`units
      ensures Shape() && Listed() && Agree(on) && Listing() == old(Listing())
      ensures InGrid(w, h, l) && l.y == hint.y
      ensures old(Assigned(null, hint, gw, l)) && w == if l.x < old(w) then old(w) else old(w) + 2
      ensures Cell(l, false) == null <==> old(Room(hint, gw))
      ensures forall a: Loc, b: bool :: InGrid(w, h, a) ==>
                Cell(a, b) == if a.x < old(w) then old(Cell(a, b)) else null
      ensures w == old(w) || (fresh(units) && fresh(grid) && w == old(w) + 2 && l == Loc(old(w), hint.y))
      ensures w == old(w) ==> units == old(units) && grid == old(grid)
    {
      l := hint;
      if Cell(hint, false) != null {
        var x := gw;
        while x < w && Cell(Loc(x, l.y), false) != null
          invariant gw <= x <= w || x == gw
          invariant forall k: int :: gw <= k < x && k < w ==> Cell(Loc(k, hint.y), false) != null
        {
          x := x + 1;
        }
        if x < w {
          l := Loc(x, l.y);
        }
        if l.x < gw {
          var expand := 2;
          ExpandCoorMap(w + expand, on);
          l := Loc(w - expand, l.y);
        }
      }
    }

    /** No overlay is in the cell, or only the one that is lifted off. */
    ghost predicate Vacant(lifted: Unit?, l: Loc)
      requires Sized() && InGrid(w, h, l)
      reads this`grid, this`w, this`h, grid
    {
      Cell(l, false) == null || Cell(l, false) == lifted
    }

    /** The cell for a unit that wishes to be at `hint`: that one, if it is vacant; else the leftmost vacant one
        of the row beyond the game map; else the first of the new columns, if the wish was on the game map, or
        the wished cell in spite of all. */
    ghost predicate Assigned(lifted: Unit?, hint: Loc, gw: nat, l: Loc)
      requires Sized() && InGrid(w, h, hint)
      reads this`grid, this`w, this`h, grid
    {
      if Vacant(lifted, hint) then l == hint
      else if exists x :: gw <= x < w && Vacant(lifted, Loc(x, hint.y)) then
        gw <= l.x < w && l.y == hint.y && Vacant(lifted, l) && forall x :: gw <= x < l.x ==>
              !Vacant(lifted, Loc(x, hint.y))
      else if hint.x < gw then l == Loc(w, hint.y)
      else l == hint
    }

    /** Room once the unit itself is lifted off. */
    ghost predicate RoomFor(u: Unit, hint: Loc, gw: nat)
      requires Sized() && InGrid(w, h, hint)
      reads this`grid, this`w, this`h, grid, u`loc
    {
      Room(hint, gw) || Cell(hint, false) == u || (u.loc.y == hint.y && gw <= u.loc.x)
    }

    /** The unit is lifted off and its new cell found. */
    method LiftOff(u: Unit, hint: Loc, gw: nat) returns (l: Loc)
      requires Valid() && u in repr && !u.base && InGrid(w, h, hint)
      modifies this`w, this`grid, this`units, grid
      ensures Shape() && Listed() && Agree(repr - {u}) && InGrid(w, h, l) && Listing() == old(Listing())
      ensures old(Assigned(u, hint, gw, l)) && w == if l.x < old(w) then old(w) else old(w) + 2
      ensures Cell(l, false) == null <==> old(RoomFor(u, hint, gw))
      ensures forall a: Loc, b: bool :: InGrid(w, h, a) ==>
                Cell(a, b) == if a.x >= old(w) || (a == u.loc && !b) then null else old(Cell(a, b))
      ensures w == old(w) || (fresh(units) && fresh(grid))
      ensures w == old(w) ==> units == old(units) && grid == old(grid)
    {
      Lift(u, hint, gw);
      l := ConflictCalculateLoc(hint, gw, repr - {u});
    }

    /** With the unit off the grid, its cell is as good as vacant. */
    method Lift(u: Unit, ghost hint: Loc, ghost gw: nat)
      requires Valid() && u in repr && !u.base && InGrid(w, h, hint)
      modifies grid
      ensures Shape() && Listed() && Agree(repr - {u})
      ensures Room(hint, gw) <==> old(RoomFor(u, hint, gw))
      ensures forall l: Loc :: Assigned(null, hint, gw, l) <==> old(Assigned(u, hint, gw, l))
      ensures forall a: Loc, b: bool :: InGrid(w, h, a) ==>
                Cell(a, b) == if a == u.loc && !b then null else old(Cell(a, b))
    {
      var taken := Extract(u.loc);
      assert taken == u;
      assert forall a: Loc :: InGrid(w, h, a) ==> (Vacant(null, a) <==> old(Vacant(u, a)));
      assert Cell(u.loc, false) == null;
    }

    method Relocate(u: Unit, hint: Loc, gw: nat)
      requires Valid() && u in repr && !u.base && InGrid(w, h, hint)
      modifies this`w, this`grid, this`units, units, grid, repr`index, u`loc, u`touch
      ensures Shape() && Listed()
      ensures var l := u.loc; old(Assigned(u, hint, gw, l)) && w == if l.x < old(w) then old(w) else old(w) + 2
      ensures forall a: Loc, b: bool :: InGrid(w, h, a) ==>
                Cell(a, b) == if a == u.loc && !b then u
                              else if a.x >= old(w) || (a == old(u.loc) && !b) then null else old(Cell(a, b))
      ensures Agree(repr) <==> old(RoomFor(u, hint, gw))
      ensures old(InOrder()) && !unsorted && u.sorts ==> InOrder()
    {
      var l := LiftOff(u, hint, gw);
      assert Keys() == old(Keys());
      Place(l, u);
    }

    /** A new rectangle moves an overlay unit to the cell that the display assigns to it. */
    method SetRect(u: Unit, rect: Rect, hint: Loc, gw: nat) returns (ok: bool)
      requires Valid() && u in repr && !u.base && InGrid(w, h, hint)
      modifies this`w, this`grid, this`units, units, grid, repr`index, u`loc, u`touch, u`rect
      ensures Shape() && Listed()
      ensures ok == (rect.w > 0 && rect.h > 0)
      ensures u.rect == if ok then rect else old(u.rect)
      ensures !ok || rect == old(u.rect) ==> Valid() && u.loc == old(u.loc)
      ensures !ok || rect == old(u.rect) ==> w == old(w) && grid == old(grid) && grid[..] == old(grid[..])
      ensures ok && rect != old(u.rect) ==>
                (Valid() <==> old(RoomFor(u, hint, gw)))
      ensures ok && rect != old(u.rect) ==>
                var l := u.loc; old(Assigned(u, hint, gw, l)) && w == if l.x < old(w) then old(w) else old(w) + 2
      ensures ok && rect != old(u.rect) ==> forall a: Loc, b: bool :: InGrid(w, h, a) ==>
                Cell(a, b) == if a == u.loc && !b then u
                              else if a.x >= old(w) || (a == old(u.loc) && !b) then null else old(Cell(a, b))
      ensures old(InOrder()) && !unsorted && u.sorts ==> InOrder()
    {
      if rect.w <= 0 || rect.h <= 0 {
        return false;
      }
      if rect == u.rect {
        return true;
      }
      u.rect := rect;
      assert Keys() == old(Keys());
      ok := true;
      if u.loc.Valid() {
        Relocate(u, hint, gw);
      }
    }
  }

  // ----- The grid and the array say the same -----

  /** The unit at a location and layer, found by going through the array. */
  function Scan(s: seq<Unit?>, l: Loc, base: bool): Unit?
    reads s
  {
    if s == [] then null
    else if s[0] != null && s[0].loc == l && s[0].base == base then s[0]
    else Scan(s[1..], l, base)
  }

  lemma {:induction false} ScanFinds(s: seq<Unit?>, l: Loc, base: bool)
    ensures var u := Scan(s, l, base);
            if u == null then forall v :: v in s && v != null ==> v.loc != l || v.base != base
            else u in s && u.loc == l && u.base == base
  {
    if s != [] {
      ScanFinds(s[1..], l, base);
    }
  }

  /** `find_base_unit` looks into one cell, and finds what a search of the whole array finds. */
  lemma LookupIsScan(m: BaseMap, l: Loc, base: bool)
    requires m.Valid()
    ensures m.Find(l, base) == Scan(m.Listing(), l, base)
  {
    ScanFinds(m.Listing(), l, base);
    var u := Scan(m.Listing(), l, base);
    if u != null {
      assert m.Placed(u);
    }
  }

  lemma {:induction false} Pigeonhole(s: seq<int>, holes: set<int>)
    requires forall i :: 0 <= i < |s| ==> s[i] in holes
    requires forall i, j :: 0 <= i < j < |s| ==> s[i] != s[j]
    ensures |s| <= |holes|
  {
    if s != [] {
      var n := |s| - 1;
      Pigeonhole(s[..n], holes - {s[n]});
    }
  }

  function Range(n: nat): (r: set<int>)
    ensures |r| == n && forall k :: k in r <==> 0 <= k < n
  {
    if n == 0 then {} else Range(n - 1) + {n - 1}
  }

  /** While every unit is an overlay, a free cell means that the array has a free slot. */
  lemma OverlaysLeaveASlot(m: BaseMap, l: Loc)
    requires m.Valid() && InGrid(m.w, m.h, l) && m.Cell(l, false) == null
    requires forall u :: u in m.repr ==> !u.base
    ensures m.count < m.units.Length
  {
    var n, hole := Rows(m.w, m.h), Index(m.w, m.h, l);
    var keys := m.Keys();
    forall i | 0 <= i < m.count ensures InGrid(m.w, m.h, keys[i]) && m.Cell(keys[i], false) == m.units[i] {
      assert m.Placed(m.units[i]);
    }
    var w, h := m.w, m.h;
    var cells := seq(|keys|, i requires 0 <= i < |keys| => if InGrid(w, h, keys[i]) then Index(w, h, keys[i]) else 0);
    forall i, j | 0 <= i < j < m.count ensures cells[i] != cells[j] {
      assert m.units[i].index != m.units[j].index;
      IndexInjective(m.w, m.h, keys[i], keys[j]);
    }
    forall i | 0 <= i < m.count ensures cells[i] != hole {
      IndexInjective(m.w, m.h, keys[i], l);
    }
    Pigeonhole(cells, Range(n) - {hole});
  }

  lemma OneCellFull(m: BaseMap, u: Unit)
    requires m.Valid() && m.w == 1 && m.h == 1 && u in m.repr
    ensures m.count == m.units.Length
  {
    RowsIsProduct(1, 1);
  }

  /** With units on both layers it need not have one: a free cell, and nowhere to list the unit. */
  method LayersFillTheArray() returns (m: BaseMap)
    ensures m.Valid() && m.w == 1 && m.h == 1
    ensures m.Cell(Loc(0, 0), false) == null && m.count == m.units.Length
  {
    var u := new Unit(true, false);
    m := new BaseMap(1, 1);
    var r := m.Insert(Loc(0, 0), u);
    assert r == Done;
    OneCellFull(m, u);
  }
}
