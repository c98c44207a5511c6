/** `calc_rects`: a sweep over the left and right edges of rectangles that leaves fewer rectangles
    covering all of them. */
module SweepCover {

  datatype Rect = Rect(x: int, y: int, w: int, h: int)

  /** A left (`enter`) or right edge. */
  datatype Event = Event(x: int, y: int, w: int, h: int, enter: bool)

  /** A stretch of the y axis, from `y` up to the next segment; `x` is where its open area starts. */
  datatype Segment = Segment(y: int, x: int, count: int)

  function Edge(r: Rect, enter: bool): Event {
    Event(if enter then r.x else r.x + r.w, r.y, r.w, r.h, enter)
  }

  function RectOf(e: Event): Rect {
    Rect(if e.enter then e.x else e.x - e.w, e.y, e.w, e.h)
  }

  // ----- The order of events -----

  predicate Before(a: Event, b: Event) {
    if a.x != b.x then a.x < b.x
    else if a.enter != b.enter then a.enter
    else if a.y != b.y then a.y < b.y
    else if a.h != b.h then a.h < b.h
    else a.w < b.w
  }

  ghost predicate Ascending(s: seq<Event>) {
    forall i, j :: 0 <= i < j < |s| ==> Before(s[i], s[j])
  }

  /** One step of sorting with duplicates removed. */
  function Insert(s: seq<Event>, e: Event): (r: seq<Event>)
    ensures forall d :: d in r <==> d in s || d == e
  {
    if s == [] || Before(e, s[0]) then [e] + s
    else if s[0] == e then s
    else [s[0]] + Insert(s[1..], e)
  }

  lemma {:induction false} InsertAscends(s: seq<Event>, e: Event)
    requires Ascending(s)
    ensures Ascending(Insert(s, e))
  {
    if s != [] && !Before(e, s[0]) && s[0] != e {
      InsertAscends(s[1..], e);
      var r := Insert(s[1..], e);
      forall j | 0 <= j < |r|
        ensures Before(s[0], r[j])
      {
        assert r[j] in r;
        if r[j] != e {
          var m :| 0 <= m < |s[1..]| && s[1..][m] == r[j];
          assert s[m + 1] == r[j];
        }
      }
    }
  }

  // ----- What the segments mean -----

  predicate Spans(r: Rect, y: int) {
    r.y <= y < r.y + r.h
  }

  predicate Inside(r: Rect, px: int, py: int) {
    r.x <= px < r.x + r.w && Spans(r, py)
  }

  ghost predicate Covered(out: seq<Rect>, px: int, py: int) {
    exists i :: 0 <= i < |out| && Inside(out[i], px, py)
  }

  /** How many of the open rectangles lie over `y`. */
  ghost function CountAt(open: set<Rect>, y: int): nat {
    |set r | r in open && Spans(r, y)|
  }

  ghost predicate Sorted(segs: seq<Segment>) {
    forall i, j :: 0 <= i < j < |segs| ==> segs[i].y < segs[j].y
  }

  ghost predicate HasKey(segs: seq<Segment>, y: int) {
    exists k :: 0 <= k < |segs| && segs[k].y == y
  }

  /** Open rectangles start and end at segment borders. */
  ghost predicate Keyed(segs: seq<Segment>, open: set<Rect>) {
    forall r :: r in open && r.h > 0 ==> HasKey(segs, r.y) && HasKey(segs, r.y + r.h)
  }

  ghost predicate Counted(segs: seq<Segment>, open: set<Rect>) {
    forall k :: 0 <= k < |segs| ==> segs[k].count == CountAt(open, segs[k].y)
  }

  /** No segment starts later than now, or later than an open rectangle over it. */
  ghost predicate Anchored(segs: seq<Segment>, open: set<Rect>, now: int) {
    forall k :: 0 <= k < |segs| ==>
      segs[k].x <= now && forall r :: r in open && Spans(r, segs[k].y) ==> segs[k].x <= r.x
  }

  /** The point lies in the area that segment `k` will emit when its count drops to zero. */
  ghost predicate Holds(segs: seq<Segment>, k: int, px: int, py: int) {
    0 <= k < |segs| && segs[k].y <= py && (k + 1 < |segs| ==> py < segs[k + 1].y) &&
    segs[k].count > 0 && segs[k].x <= px
  }

  ghost predicate Safe(segs: seq<Segment>, out: seq<Rect>, px: int, py: int) {
    Covered(out, px, py) || exists k :: Holds(segs, k, px, py)
  }

  /** Every point of the closed rectangles is covered already or will be. */
  ghost predicate AllSafe(segs: seq<Segment>, out: seq<Rect>, closed: set<Rect>) {
    forall r, px, py :: r in closed && Inside(r, px, py) ==> Safe(segs, out, px, py)
  }

  /** All inputs lie within `box`, and so do borders, starting points and output. */
  ghost predicate InBox(r: Rect, box: Rect) {
    box.x <= r.x && r.x + r.w <= box.x + box.w && box.y <= r.y && r.y + r.h <= box.y + box.h
  }

  ghost predicate SegsInBox(segs: seq<Segment>, box: Rect) {
    forall k :: 0 <= k < |segs| ==> box.x <= segs[k].x && box.y <= segs[k].y <= box.y + box.h
  }

  ghost predicate OutInBox(out: seq<Rect>, box: Rect) {
    forall i :: 0 <= i < |out| ==> InBox(out[i], box)
  }

  /** What every event keeps. */
  ghost predicate Inv(segs: seq<Segment>, out: seq<Rect>, open: set<Rect>, closed: set<Rect>, now: int, box: Rect) {
    Sorted(segs) && Keyed(segs, open) && Counted(segs, open) && Anchored(segs, open, now) &&
    AllSafe(segs, out, closed) && SegsInBox(segs, box) && OutInBox(out, box) &&
    (forall r :: r in closed ==> r.x + r.w <= now) && (forall r :: r in open ==> r.x <= now)
  }

  // ----- Splitting a segment -----

  /** The first position whose border is not below `y`. */
  method LowerBound(segs: seq<Segment>, y: int) returns (i: nat)
    requires Sorted(segs)
    ensures i <= |segs|
    ensures forall k :: 0 <= k < i ==> segs[k].y < y
    ensures forall k :: i <= k < |segs| ==> segs[k].y >= y
  {
    i := 0;
    while i < |segs| && segs[i].y < y
      invariant 0 <= i <= |segs|
      invariant forall k :: 0 <= k < i ==> segs[k].y < y
    {
      i := i + 1;
    }
  }

  /** A new border copies the segment it splits. */
  function Split(segs: seq<Segment>, i: nat, y: int): seq<Segment>
    requires i <= |segs|
  {
    segs[..i] + [if i > 0 then Segment(y, segs[i - 1].x, segs[i - 1].count) else Segment(y, 0, 0)] + segs[i..]
  }

  ghost predicate Fits(segs: seq<Segment>, i: nat, y: int) {
    i <= |segs| && (forall k :: 0 <= k < i ==> segs[k].y < y) && forall k :: i <= k < |segs| ==> segs[k].y > y
  }

  lemma SplitSorted(segs: seq<Segment>, i: nat, y: int)
    requires Sorted(segs) && Fits(segs, i, y)
    ensures Sorted(Split(segs, i, y))
  {
  }

  lemma SplitAt(segs: seq<Segment>, i: nat, y: int, k: nat)
    requires i <= |segs| && k <= |segs|
    ensures var s := Split(segs, i, y);
            |s| == |segs| + 1 &&
            s[k] == if k < i then segs[k] else if k > i then segs[k - 1]
                    else if i > 0 then Segment(y, segs[i - 1].x, segs[i - 1].count) else Segment(y, 0, 0)
  {
  }

  lemma SplitKeyed(segs: seq<Segment>, i: nat, y: int, open: set<Rect>)
    requires i <= |segs| && Keyed(segs, open)
    ensures Keyed(Split(segs, i, y), open)
  {
    forall b | HasKey(segs, b)
      ensures HasKey(Split(segs, i, y), b)
    {
      var k :| 0 <= k < |segs| && segs[k].y == b;
      SplitAt(segs, i, y, if k < i then k else k + 1);
    }
  }

  /** Nothing opens or closes inside a segment, so a point inside it counts like its border. */
  lemma SameCount(segs: seq<Segment>, i: nat, y: int, open: set<Rect>)
    requires Sorted(segs) && Keyed(segs, open) && Fits(segs, i, y)
    ensures forall r :: r in open ==> (Spans(r, y) <==> i > 0 && Spans(r, segs[i - 1].y))
    ensures CountAt(open, y) == if i > 0 then CountAt(open, segs[i - 1].y) else 0
  {
    forall r | r in open
      ensures Spans(r, y) <==> i > 0 && Spans(r, segs[i - 1].y)
    {
      if r.h > 0 {
        var a :| 0 <= a < |segs| && segs[a].y == r.y;
        var b :| 0 <= b < |segs| && segs[b].y == r.y + r.h;
      }
    }
    if i > 0 {
      assert (set r | r in open && Spans(r, y)) == (set r | r in open && Spans(r, segs[i - 1].y));
    } else {
      assert (set r | r in open && Spans(r, y)) == {};
    }
  }

  lemma SplitCounted(segs: seq<Segment>, i: nat, y: int, open: set<Rect>)
    requires Sorted(segs) && Keyed(segs, open) && Fits(segs, i, y) && Counted(segs, open)
    ensures Counted(Split(segs, i, y), open)
  {
    SameCount(segs, i, y, open);
    forall k | 0 <= k < |segs| + 1
      ensures Split(segs, i, y)[k].count == CountAt(open, Split(segs, i, y)[k].y)
    {
      SplitAt(segs, i, y, k);
    }
  }

  lemma SplitHolds(segs: seq<Segment>, i: nat, y: int, px: int, py: int, k: int)
    requires Sorted(segs) && Fits(segs, i, y) && Holds(segs, k, px, py)
    ensures exists j :: Holds(Split(segs, i, y), j, px, py)
  {
    var s := Split(segs, i, y);
    var j := if k + 1 < i || (k + 1 == i && py < y) then k else k + 1;
    SplitAt(segs, i, y, j);
    if j + 1 < |s| {
      SplitAt(segs, i, y, j + 1);
    }
    assert Holds(s, j, px, py);
  }

  lemma SplitSafe(segs: seq<Segment>, i: nat, y: int, out: seq<Rect>, closed: set<Rect>)
    requires Sorted(segs) && Fits(segs, i, y) && AllSafe(segs, out, closed)
    ensures AllSafe(Split(segs, i, y), out, closed)
  {
    forall r, px, py | r in closed && Inside(r, px, py)
      ensures Safe(Split(segs, i, y), out, px, py)
    {
      assert Safe(segs, out, px, py);
      if !Covered(out, px, py) {
        var k :| Holds(segs, k, px, py);
        SplitHolds(segs, i, y, px, py, k);
      }
    }
  }

  lemma SplitAnchored(segs: seq<Segment>, i: nat, y: int, open: set<Rect>, now: int)
    requires Sorted(segs) && Keyed(segs, open) && Fits(segs, i, y) && Anchored(segs, open, now)
    ensures forall k :: 0 <= k <= |segs| && (k != i || i > 0) ==>
              var s := Split(segs, i, y)[k];
              s.x <= now && forall r :: r in open && Spans(r, s.y) ==> s.x <= r.x
  {
    SameCount(segs, i, y, open);
    forall k | 0 <= k <= |segs| && (k != i || i > 0)
      ensures var s := Split(segs, i, y)[k]; s.x <= now && forall r :: r in open && Spans(r, s.y) ==> s.x <= r.x
    {
      SplitAt(segs, i, y, k);
    }
  }

  lemma SplitInBox(segs: seq<Segment>, i: nat, y: int, box: Rect)
    requires i <= |segs| && SegsInBox(segs, box) && box.y <= y <= box.y + box.h
    ensures forall k :: 0 <= k <= |segs| ==>
              var s := Split(segs, i, y)[k]; (k != i || i > 0 ==> box.x <= s.x) && box.y <= s.y <= box.y + box.h
  {
    forall k | 0 <= k <= |segs|
      ensures var s := Split(segs, i, y)[k]; (k != i || i > 0 ==> box.x <= s.x) && box.y <= s.y <= box.y + box.h
    {
      SplitAt(segs, i, y, k);
    }
  }

  /** The border of a segment is found, or made by a split. */
  ghost predicate Bordered(segs: seq<Segment>, s: seq<Segment>, i: nat, y: int) {
    i < |s| && s[i].y == y && (s == segs || (Fits(segs, i, y) && s == Split(segs, i, y)))
  }

  /** After the upper border: everything is kept. */
  lemma UpperKeeps(segs: seq<Segment>, s: seq<Segment>, i: nat, y: int, out: seq<Rect>, open: set<Rect>,
                   closed: set<Rect>, now: int, box: Rect)
    requires Inv(segs, out, open, closed, now, box) && Bordered(segs, s, i, y) && i > 0
    requires box.y <= y <= box.y + box.h
    ensures Inv(s, out, open, closed, now, box)
  {
    if s != segs {
      SplitSorted(segs, i, y);
      SplitKeyed(segs, i, y, open);
      SplitCounted(segs, i, y, open);
      SplitAnchored(segs, i, y, open, now);
      SplitSafe(segs, i, y, out, closed);
      SplitInBox(segs, i, y, box);
    }
  }

  /** The lower segment; if nothing is open over it, it starts here. */
  function Fix(s: seq<Segment>, i: nat, x: int): seq<Segment>
    requires i < |s|
  {
    if s[i].count == 0 then s[i := s[i].(x := x)] else s
  }

  lemma FixKeyed(s: seq<Segment>, i: nat, x: int, open: set<Rect>)
    requires i < |s| && Keyed(s, open)
    ensures Keyed(Fix(s, i, x), open)
  {
    forall b | HasKey(s, b)
      ensures HasKey(Fix(s, i, x), b)
    {
      var k :| 0 <= k < |s| && s[k].y == b;
      assert Fix(s, i, x)[k].y == b;
    }
  }

  lemma FixSafe(s: seq<Segment>, i: nat, x: int, out: seq<Rect>, closed: set<Rect>)
    requires i < |s| && AllSafe(s, out, closed)
    ensures AllSafe(Fix(s, i, x), out, closed)
  {
    forall r, px, py | r in closed && Inside(r, px, py)
      ensures Safe(Fix(s, i, x), out, px, py)
    {
      assert Safe(s, out, px, py);
      if !Covered(out, px, py) {
        var k :| Holds(s, k, px, py);
        assert Holds(Fix(s, i, x), k, px, py);
      }
    }
  }

  lemma NobodyOver(s: seq<Segment>, i: nat, open: set<Rect>)
    requires i < |s| && Counted(s, open) && s[i].count == 0
    ensures forall r :: r in open ==> !Spans(r, s[i].y)
  {
    var over := set r | r in open && Spans(r, s[i].y);
    assert over == {};
    assert forall r :: r in open && Spans(r, s[i].y) <==> r in over;
  }

  lemma LowerKeeps(segs: seq<Segment>, s: seq<Segment>, i: nat, x: int, y: int, out: seq<Rect>, open: set<Rect>,
                   closed: set<Rect>, now: int, box: Rect)
    requires Inv(segs, out, open, closed, now, box) && Bordered(segs, s, i, y)
    requires now <= x && box.x <= x && box.y <= y <= box.y + box.h
    ensures Inv(Fix(s, i, x), out, open, closed, x, box)
  {
    if s != segs {
      SplitSorted(segs, i, y);
      SplitKeyed(segs, i, y, open);
      SplitCounted(segs, i, y, open);
      SplitAnchored(segs, i, y, open, now);
      SplitSafe(segs, i, y, out, closed);
      SplitInBox(segs, i, y, box);
    }
    FixKeyed(s, i, x, open);
    FixSafe(s, i, x, out, closed);
    if s[i].count == 0 {
      NobodyOver(s, i, open);
    }
    assert s != segs && i == 0 ==> s[i].count == 0;
  }

  // ----- A rectangle opens -----

  lemma CountOneMore(open: set<Rect>, r: Rect, y: int)
    requires r !in open
    ensures CountAt(open + {r}, y) == CountAt(open, y) + if Spans(r, y) then 1 else 0
  {
    var before := set q | q in open && Spans(q, y);
    var after := set q | q in open + {r} && Spans(q, y);
    if Spans(r, y) {
      assert after == before + {r};
    } else {
      assert after == before;
    }
  }

  /** The counts of the segments from `lo` up to `up` are raised. */
  ghost predicate Raised(segs: seq<Segment>, s: seq<Segment>, lo: nat, up: nat) {
    |s| == |segs| && lo <= up < |segs| &&
    forall k :: 0 <= k < |segs| ==>
      s[k] == if lo <= k < up then segs[k].(count := segs[k].count + 1) else segs[k]
  }

  ghost predicate Between(segs: seq<Segment>, lo: nat, up: nat, r: Rect) {
    lo <= up < |segs| && segs[lo].y == r.y && segs[up].y == r.y + r.h
  }

  lemma RaisedSpans(segs: seq<Segment>, s: seq<Segment>, lo: nat, up: nat, r: Rect)
    requires Sorted(segs) && Between(segs, lo, up, r) && Raised(segs, s, lo, up)
    ensures forall k :: 0 <= k < |s| ==>
              s[k].y == segs[k].y && s[k].x == segs[k].x && (Spans(r, s[k].y) <==> lo <= k < up)
  {
  }

  lemma RaisedCounted(segs: seq<Segment>, s: seq<Segment>, lo: nat, up: nat, r: Rect, open: set<Rect>)
    requires Sorted(segs) && Between(segs, lo, up, r) && Raised(segs, s, lo, up)
    requires Counted(segs, open) && r !in open
    ensures Counted(s, open + {r})
  {
    RaisedSpans(segs, s, lo, up, r);
    forall k | 0 <= k < |s|
      ensures s[k].count == CountAt(open + {r}, s[k].y)
    {
      CountOneMore(open, r, s[k].y);
    }
  }

  lemma RaisedKeyed(segs: seq<Segment>, s: seq<Segment>, lo: nat, up: nat, r: Rect, open: set<Rect>)
    requires Between(segs, lo, up, r) && Raised(segs, s, lo, up) && Keyed(segs, open)
    ensures Keyed(s, open + {r})
  {
    forall b | HasKey(segs, b)
      ensures HasKey(s, b)
    {
      var k :| 0 <= k < |segs| && segs[k].y == b;
      assert s[k].y == b;
    }
    assert HasKey(segs, r.y) && HasKey(segs, r.y + r.h);
  }

  lemma RaisedAnchored(segs: seq<Segment>, s: seq<Segment>, lo: nat, up: nat, r: Rect, open: set<Rect>)
    requires Sorted(segs) && Between(segs, lo, up, r) && Raised(segs, s, lo, up)
    requires Anchored(segs, open, r.x)
    ensures Anchored(s, open + {r}, r.x)
  {
    RaisedSpans(segs, s, lo, up, r);
  }

  lemma OpenKeeps(segs: seq<Segment>, s: seq<Segment>, lo: nat, up: nat, r: Rect, out: seq<Rect>, open: set<Rect>,
                  closed: set<Rect>, box: Rect)
    requires Inv(segs, out, open, closed, r.x, box) && Between(segs, lo, up, r) && Raised(segs, s, lo, up)
    requires r !in open
    ensures Inv(s, out, open + {r}, closed, r.x, box)
  {
    RaisedCounted(segs, s, lo, up, r, open);
    RaisedKeyed(segs, s, lo, up, r, open);
    RaisedAnchored(segs, s, lo, up, r, open);
    RaisedSafe(segs, s, lo, up, out, closed);
  }

  lemma RaisedSafe(segs: seq<Segment>, s: seq<Segment>, lo: nat, up: nat, out: seq<Rect>, closed: set<Rect>)
    requires Raised(segs, s, lo, up) && AllSafe(segs, out, closed)
    ensures AllSafe(s, out, closed)
  {
    forall r, px, py | r in closed && Inside(r, px, py)
      ensures Safe(s, out, px, py)
    {
      assert Safe(segs, out, px, py);
      if !Covered(out, px, py) {
        var k :| Holds(segs, k, px, py);
        assert Holds(s, k, px, py);
      }
    }
  }

  // ----- A rectangle closes -----

  function Max(a: int, b: int): int {
    if a > b then a else b
  }

  function Min(a: int, b: int): int {
    if a < b then a else b
  }

  function Hull(p: Rect, a: Rect): Rect {
    var x, y := Min(p.x, a.x), Min(p.y, a.y);
    Rect(x, y, Max(a.x + a.w, p.x + p.w) - x, Max(a.y + a.h, p.y + p.h) - y)
  }

  /** The new area joins the last one if their hull is not much larger than the two of them. */
  function Emit(out: seq<Rect>, a: Rect): seq<Rect> {
    if out == [] then [a]
    else
      var p := out[|out| - 1];
      var n := Hull(p, a);
      if (p.w * p.h + a.w * a.h) * 100 < 51 * n.w * n.h then out + [a] else out[..|out| - 1] + [n]
  }

  /** The hull is the least rectangle around two that are not empty. */
  lemma HullIsLeast(p: Rect, a: Rect, box: Rect)
    ensures InBox(p, Hull(p, a)) && InBox(a, Hull(p, a))
    ensures InBox(p, box) && InBox(a, box) ==> InBox(Hull(p, a), box)
  {
  }

  /** The new area and the last one become one rectangle just when they fill at least 51 percent of the least
      rectangle around them; all others stay as they are. */
  lemma JoinedWhenFilled(out: seq<Rect>, p: Rect, a: Rect, n: Rect)
    requires InBox(p, n) && InBox(a, n) && forall box :: InBox(p, box) && InBox(a, box) ==> InBox(n, box)
    ensures Emit(out + [p], a) ==
            if 100 * (p.w * p.h + a.w * a.h) >= 51 * (n.w * n.h) then out + [n] else out + [p, a]
    ensures Emit([], a) == [a]
  {
    HullIsLeast(p, a, n);
    var h := Hull(p, a);
    assert InBox(n, h);
    assert n == h;
    assert (out + [p])[..|out|] == out && out + [p] + [a] == out + [p, a];
  }

  lemma EmitCovers(out: seq<Rect>, a: Rect, px: int, py: int)
    requires Covered(out, px, py) || Inside(a, px, py)
    ensures Covered(Emit(out, a), px, py)
  {
    var r := Emit(out, a);
    if Inside(a, px, py) {
      assert Inside(r[|r| - 1], px, py);
    } else {
      var i :| 0 <= i < |out| && Inside(out[i], px, py);
      assert Inside(r[i], px, py);
    }
  }

  lemma EmitInBox(out: seq<Rect>, a: Rect, box: Rect)
    requires OutInBox(out, box) && InBox(a, box)
    ensures OutInBox(Emit(out, a), box)
  {
  }

  function Area(segs: seq<Segment>, k: nat, now: int): Rect
    requires k + 1 < |segs|
  {
    Rect(segs[k].x, segs[k].y, now - segs[k].x, segs[k + 1].y - segs[k].y)
  }

  /** Closing `r` has come to segment `lo`; those before it no longer count `r`. */
  ghost predicate Closing(segs: seq<Segment>, out: seq<Rect>, lo: nat, up: nat, r: Rect, open: set<Rect>,
                          closed: set<Rect>, now: int, box: Rect) {
    Halfway(segs, lo, up, r, open, now, box) &&
    AllSafe(segs, out, closed + {r}) && OutInBox(out, box) &&
    (forall q :: q in closed + {r} ==> q.x + q.w <= now) && forall q :: q in open ==> q.x <= now
  }

  ghost predicate Halfway(segs: seq<Segment>, lo: nat, up: nat, r: Rect, open: set<Rect>, now: int, box: Rect) {
    lo <= up < |segs| && segs[up].y == r.y + r.h && (forall k :: lo <= k < up ==> Spans(r, segs[k].y)) &&
    Sorted(segs) && Keyed(segs, open - {r}) && Anchored(segs, open - {r}, now) && HalfCounted(segs, lo, r, open) &&
    SegsInBox(segs, box)
  }

  ghost predicate HalfCounted(segs: seq<Segment>, lo: nat, r: Rect, open: set<Rect>) {
    forall k :: 0 <= k < |segs| ==> segs[k].count == CountAt(if k < lo then open - {r} else open, segs[k].y)
  }

  lemma {:induction false} FindSegment(segs: seq<Segment>, lo: nat, up: nat, py: int) returns (k: nat)
    requires lo < up < |segs| && segs[lo].y <= py < segs[up].y
    ensures lo <= k < up && segs[k].y <= py < segs[k + 1].y
    decreases up - lo
  {
    if py < segs[lo + 1].y {
      k := lo;
    } else {
      k := FindSegment(segs, lo + 1, up, py);
    }
  }

  lemma CountOneLess(open: set<Rect>, r: Rect, y: int)
    requires r in open
    ensures CountAt(open, y) == CountAt(open - {r}, y) + if Spans(r, y) then 1 else 0
  {
    CountOneMore(open - {r}, r, y);
    assert open - {r} + {r} == open;
  }

  lemma OwnPointsSafe(segs: seq<Segment>, out: seq<Rect>, lo: nat, up: nat, r: Rect, open: set<Rect>, now: int,
                      px: int, py: int)
    requires Sorted(segs) && Counted(segs, open) && Anchored(segs, open, now)
    requires r in open && Between(segs, lo, up, r) && Inside(r, px, py)
    ensures Safe(segs, out, px, py)
  {
    var k := FindSegment(segs, lo, up, py);
    CountOneLess(open, r, segs[k].y);
    assert Spans(r, segs[k].y) by {
      assert segs[lo].y <= segs[k].y < segs[up].y;
    }
    assert Holds(segs, k, px, py);
  }

  lemma StartHalfCounted(segs: seq<Segment>, lo: nat, r: Rect, open: set<Rect>)
    requires Sorted(segs) && Counted(segs, open) && r in open && lo < |segs| && segs[lo].y == r.y
    ensures HalfCounted(segs, lo, r, open)
  {
    forall k | 0 <= k < lo
      ensures CountAt(open - {r}, segs[k].y) == CountAt(open, segs[k].y)
    {
      CountOneLess(open, r, segs[k].y);
    }
  }

  lemma FewerOpen(segs: seq<Segment>, r: Rect, open: set<Rect>, now: int)
    requires Keyed(segs, open) && Anchored(segs, open, now)
    ensures Keyed(segs, open - {r}) && Anchored(segs, open - {r}, now)
  {
  }

  lemma StartHalfway(segs: seq<Segment>, lo: nat, up: nat, r: Rect, open: set<Rect>, now: int, box: Rect)
    requires Sorted(segs) && Keyed(segs, open) && Counted(segs, open) && Anchored(segs, open, now) &&
             SegsInBox(segs, box)
    requires Between(segs, lo, up, r) && r in open
    ensures Halfway(segs, lo, up, r, open, now, box)
  {
    StartHalfCounted(segs, lo, r, open);
    FewerOpen(segs, r, open, now);
    SpannedBetween(segs, lo, up, r);
  }

  lemma SpannedBetween(segs: seq<Segment>, lo: nat, up: nat, r: Rect)
    requires Sorted(segs) && Between(segs, lo, up, r)
    ensures forall k :: lo <= k < up ==> Spans(r, segs[k].y)
  {
    forall k | lo <= k < up
      ensures Spans(r, segs[k].y)
    {
      assert segs[lo].y <= segs[k].y < segs[up].y;
    }
  }

  lemma StartClosing(segs: seq<Segment>, out: seq<Rect>, lo: nat, up: nat, r: Rect, open: set<Rect>,
                     closed: set<Rect>, now: int, box: Rect)
    requires Inv(segs, out, open, closed, now, box) && Between(segs, lo, up, r)
    requires r in open && now == r.x + r.w
    ensures Closing(segs, out, lo, up, r, open, closed, now, box)
  {
    StartHalfway(segs, lo, up, r, open, now, box);
    forall q, px, py | q in closed + {r} && Inside(q, px, py)
      ensures Safe(segs, out, px, py)
    {
      if q == r {
        OwnPointsSafe(segs, out, lo, up, r, open, now, px, py);
      } else {
        assert q in closed;
      }
    }
  }

  lemma SameShape(segs: seq<Segment>, s: seq<Segment>, open: set<Rect>, now: int, box: Rect)
    requires |s| == |segs| && forall k :: 0 <= k < |segs| ==> s[k].y == segs[k].y && s[k].x == segs[k].x
    requires Sorted(segs) && Keyed(segs, open) && Anchored(segs, open, now) && SegsInBox(segs, box)
    ensures Sorted(s) && Keyed(s, open) && Anchored(s, open, now) && SegsInBox(s, box)
  {
    SameBorders(segs, s, open);
  }

  /** The count of one segment drops by one. */
  lemma StepHalfway(segs: seq<Segment>, lo: nat, up: nat, r: Rect, open: set<Rect>, now: int, box: Rect)
    requires Halfway(segs, lo, up, r, open, now, box) && r in open && lo < up
    ensures segs[lo].count - 1 == CountAt(open - {r}, segs[lo].y)
    ensures Halfway(segs[lo := segs[lo].(count := segs[lo].count - 1)], lo + 1, up, r, open, now, box)
  {
    var s := segs[lo := segs[lo].(count := segs[lo].count - 1)];
    CountOneLess(open, r, segs[lo].y);
    SameShape(segs, s, open - {r}, now, box);
    StepHalfCounted(segs, s, lo, r, open);
  }

  lemma StepHalfCounted(segs: seq<Segment>, s: seq<Segment>, lo: nat, r: Rect, open: set<Rect>)
    requires lo < |segs| && s == segs[lo := segs[lo].(count := segs[lo].count - 1)]
    requires HalfCounted(segs, lo, r, open) && segs[lo].count - 1 == CountAt(open - {r}, segs[lo].y)
    ensures HalfCounted(s, lo + 1, r, open)
  {
  }

  lemma RecountSafe(segs: seq<Segment>, lo: nat, c: int, out: seq<Rect>, out': seq<Rect>, closed: set<Rect>)
    requires lo < |segs| && AllSafe(segs, out, closed)
    requires forall px, py :: Covered(out, px, py) ==> Covered(out', px, py)
    requires c > 0 || forall q, px, py :: q in closed && Inside(q, px, py) && Holds(segs, lo, px, py) ==>
               Covered(out', px, py)
    ensures AllSafe(segs[lo := segs[lo].(count := c)], out', closed)
  {
    var s := segs[lo := segs[lo].(count := c)];
    forall q, px, py | q in closed && Inside(q, px, py)
      ensures Safe(s, out', px, py)
    {
      assert Safe(segs, out, px, py);
      if !Covered(out, px, py) {
        var k :| Holds(segs, k, px, py);
        if k != lo || c > 0 {
          assert Holds(s, k, px, py);
        }
      }
    }
  }

  /** The segment is still covered by others: only its count drops. */
  lemma Lower1(segs: seq<Segment>, out: seq<Rect>, lo: nat, up: nat, r: Rect, open: set<Rect>,
               closed: set<Rect>, now: int, box: Rect)
    requires Closing(segs, out, lo, up, r, open, closed, now, box) && r in open && lo < up && segs[lo].count != 1
    ensures Closing(segs[lo := segs[lo].(count := segs[lo].count - 1)], out, lo + 1, up, r, open, closed, now, box)
  {
    StepHalfway(segs, lo, up, r, open, now, box);
    RecountSafe(segs, lo, segs[lo].count - 1, out, out, closed + {r});
  }

  lemma SameBorders(segs: seq<Segment>, s: seq<Segment>, open: set<Rect>)
    requires |s| == |segs| && (forall k :: 0 <= k < |segs| ==> s[k].y == segs[k].y) && Keyed(segs, open)
    ensures Keyed(s, open)
  {
    forall b | HasKey(segs, b)
      ensures HasKey(s, b)
    {
      var k :| 0 <= k < |segs| && segs[k].y == b;
      assert s[k].y == b;
    }
  }

  /** The count drops to zero: the area since the segment's start is emitted. */
  lemma EmitSegment(segs: seq<Segment>, out: seq<Rect>, lo: nat, up: nat, r: Rect, open: set<Rect>,
                    closed: set<Rect>, now: int, box: Rect)
    requires Closing(segs, out, lo, up, r, open, closed, now, box) && r in open && lo < up && segs[lo].count == 1
    requires now <= box.x + box.w
    ensures Closing(segs[lo := segs[lo].(count := 0)], Emit(out, Area(segs, lo, now)), lo + 1, up, r, open, closed,
                    now, box)
  {
    var a := Area(segs, lo, now);
    StepHalfway(segs, lo, up, r, open, now, box);
    EmitInBox(out, a, box);
    forall px, py | Covered(out, px, py) || Inside(a, px, py)
      ensures Covered(Emit(out, a), px, py)
    {
      EmitCovers(out, a, px, py);
    }
    assert forall q, px, py :: q in closed + {r} && Inside(q, px, py) && Holds(segs, lo, px, py) ==> Inside(a, px, py);
    RecountSafe(segs, lo, 0, out, Emit(out, a), closed + {r});
  }

  /** An empty segment joins the empty one before it, or nothing if it was the first. */
  lemma Erase(segs: seq<Segment>, s: seq<Segment>, out: seq<Rect>, lo: nat, up: nat, r: Rect, open: set<Rect>,
              closed: set<Rect>, now: int, box: Rect)
    requires Closing(segs, out, lo + 1, up, r, open, closed, now, box) && segs[lo].count == 0
    requires lo > 0 ==> segs[lo - 1].count == 0
    requires s == segs[..lo] + segs[lo + 1..]
    ensures Closing(s, out, lo, up - 1, r, open, closed, now, box)
  {
    EraseHalfway(segs, lo, up, r, open, now, box);
    EraseSafe(segs, lo, out, closed + {r});
  }

  lemma EraseHalfway(segs: seq<Segment>, lo: nat, up: nat, r: Rect, open: set<Rect>, now: int, box: Rect)
    requires Halfway(segs, lo + 1, up, r, open, now, box) && segs[lo].count == 0
    requires lo > 0 ==> segs[lo - 1].count == 0
    ensures Halfway(segs[..lo] + segs[lo + 1..], lo, up - 1, r, open, now, box)
  {
    var s := segs[..lo] + segs[lo + 1..];
    ErasedAt(segs, lo);
    EraseKeyed(segs, lo, open - {r});
    EraseShape(segs, s, lo, open - {r}, now);
    EraseHalfCounted(segs, s, lo, r, open);
    EraseSpans(segs, s, lo, up, r, box);
  }

  lemma EraseSpans(segs: seq<Segment>, s: seq<Segment>, lo: nat, up: nat, r: Rect, box: Rect)
    requires |s| == |segs| - 1 && forall k :: 0 <= k < |s| ==> s[k] == segs[if k < lo then k else k + 1]
    requires lo < up < |segs| && SegsInBox(segs, box) && forall k :: lo + 1 <= k < up ==> Spans(r, segs[k].y)
    ensures SegsInBox(s, box) && s[up - 1] == segs[up] && forall k :: lo <= k < up - 1 ==> Spans(r, s[k].y)
  {
  }

  lemma EraseShape(segs: seq<Segment>, s: seq<Segment>, lo: nat, open: set<Rect>, now: int)
    requires |s| == |segs| - 1 && forall k :: 0 <= k < |s| ==> s[k] == segs[if k < lo then k else k + 1]
    requires Sorted(segs) && Anchored(segs, open, now)
    ensures Sorted(s) && Anchored(s, open, now)
  {
  }

  lemma EraseHalfCounted(segs: seq<Segment>, s: seq<Segment>, lo: nat, r: Rect, open: set<Rect>)
    requires |s| == |segs| - 1 && forall k :: 0 <= k < |s| ==> s[k] == segs[if k < lo then k else k + 1]
    requires HalfCounted(segs, lo + 1, r, open)
    ensures HalfCounted(s, lo, r, open)
  {
  }

  lemma ErasedAt(segs: seq<Segment>, lo: nat)
    requires lo < |segs|
    ensures var s := segs[..lo] + segs[lo + 1..];
            |s| == |segs| - 1 && forall k :: 0 <= k < |s| ==> s[k] == segs[if k < lo then k else k + 1]
  {
  }

  lemma EraseKeyed(segs: seq<Segment>, lo: nat, open: set<Rect>)
    requires Sorted(segs) && Keyed(segs, open) && lo < |segs|
    requires CountAt(open, segs[lo].y) == 0 && (lo > 0 ==> CountAt(open, segs[lo - 1].y) == 0)
    ensures Keyed(segs[..lo] + segs[lo + 1..], open)
  {
    ErasedAt(segs, lo);
    forall q | q in open && q.h > 0
      ensures HasKey(segs[..lo] + segs[lo + 1..], q.y) && HasKey(segs[..lo] + segs[lo + 1..], q.y + q.h)
    {
      var a :| 0 <= a < |segs| && segs[a].y == q.y;
      var b :| 0 <= b < |segs| && segs[b].y == q.y + q.h;
      NotOver(open, segs[lo].y, q);
      assert a != lo;
      if b == lo {
        assert a <= lo - 1;
        NotOver(open, segs[lo - 1].y, q);
      }
      StillKey(segs, lo, a);
      StillKey(segs, lo, b);
    }
  }

  lemma StillKey(segs: seq<Segment>, lo: nat, a: nat)
    requires lo < |segs| && a < |segs| && a != lo
    ensures HasKey(segs[..lo] + segs[lo + 1..], segs[a].y)
  {
    ErasedAt(segs, lo);
    var s := segs[..lo] + segs[lo + 1..];
    assert s[if a < lo then a else a - 1] == segs[a];
  }

  lemma NotOver(open: set<Rect>, y: int, q: Rect)
    requires q in open && CountAt(open, y) == 0
    ensures !Spans(q, y)
  {
    var over := set p | p in open && Spans(p, y);
    assert over == {};
    assert Spans(q, y) ==> q in over;
  }

  lemma EraseSafe(segs: seq<Segment>, lo: nat, out: seq<Rect>, closed: set<Rect>)
    requires lo < |segs| && segs[lo].count == 0 && (lo > 0 ==> segs[lo - 1].count == 0)
    requires AllSafe(segs, out, closed)
    ensures AllSafe(segs[..lo] + segs[lo + 1..], out, closed)
  {
    var s := segs[..lo] + segs[lo + 1..];
    ErasedAt(segs, lo);
    forall q, px, py | q in closed && Inside(q, px, py)
      ensures Safe(s, out, px, py)
    {
      assert Safe(segs, out, px, py);
      if !Covered(out, px, py) {
        var k :| Holds(segs, k, px, py);
        assert Holds(s, if k < lo then k else k - 1, px, py);
      }
    }
  }

  lemma EndClosing(segs: seq<Segment>, out: seq<Rect>, up: nat, r: Rect, open: set<Rect>,
                   closed: set<Rect>, now: int, box: Rect)
    requires Closing(segs, out, up, up, r, open, closed, now, box) && r in open
    ensures Inv(segs, out, open - {r}, closed + {r}, now, box)
  {
    forall k | 0 <= k < |segs|
      ensures segs[k].count == CountAt(open - {r}, segs[k].y)
    {
      CountOneLess(open, r, segs[k].y);
      if k >= up {
        assert segs[k].y >= segs[up].y;
      }
    }
  }

  // ----- calc_rects -----

  method SortedEdges(rects: seq<Rect>) returns (events: seq<Event>)
    ensures Ascending(events)
    ensures forall r :: r in rects ==> Edge(r, true) in events && Edge(r, false) in events
    ensures forall e :: e in events ==> RectOf(e) in rects && e == Edge(RectOf(e), e.enter)
  {
    events := [];
    for i := 0 to |rects|
      invariant Ascending(events)
      invariant forall j :: 0 <= j < i ==> Edge(rects[j], true) in events && Edge(rects[j], false) in events
      invariant forall e :: e in events ==> RectOf(e) in rects && e == Edge(RectOf(e), e.enter)
    {
      var r := rects[i];
      InsertAscends(events, Edge(r, true));
      events := Insert(events, Edge(r, true));
      InsertAscends(events, Edge(r, false));
      events := Insert(events, Edge(r, false));
    }
  }

  /** The segment that starts at `y`, made by a split if need be. */
  method Border(segs: seq<Segment>, y: int) returns (s: seq<Segment>, i: nat)
    requires Sorted(segs)
    ensures Bordered(segs, s, i, y)
    ensures forall k :: 0 <= k < i ==> segs[k].y < y
  {
    i := LowerBound(segs, y);
    s := segs;
    if i == |segs| || segs[i].y != y {
      SplitAt(segs, i, y, i);
      s := Split(segs, i, y);
    }
  }

  /** One event. */
  method Handle(segs: seq<Segment>, out: seq<Rect>, e: Event, ghost r: Rect, ghost open: set<Rect>,
                ghost closed: set<Rect>, ghost now: int, ghost box: Rect)
    returns (segs': seq<Segment>, out': seq<Rect>)
    requires Inv(segs, out, open, closed, now, box)
    requires r.w >= 0 && r.h >= 0 && InBox(r, box) && e == Edge(r, e.enter) && now <= e.x
    requires e.enter <==> r !in open
    ensures if e.enter then Inv(segs', out', open + {r}, closed, e.x, box)
            else Inv(segs', out', open - {r}, closed + {r}, e.x, box)
  {
    var s, lower := Border(segs, e.y);
    LowerKeeps(segs, s, lower, e.x, e.y, out, open, closed, now, box);
    s := Fix(s, lower, e.x);
    var s2, upper := Border(s, e.y + e.h);
    var lo := lower;
    if e.h > 0 {
      LowerStays(s, s2, lower, upper, e.y, e.y + e.h);
      UpperKeeps(s, s2, upper, e.y + e.h, out, open, closed, e.x, box);
    } else {
      SameBorder(s, s2, lower, upper, e.y);
    }
    if e.enter {
      segs' := Raise(s2, lo, upper);
      out' := out;
      OpenKeeps(s2, segs', lo, upper, r, out, open, closed, box);
    } else {
      segs', out' := Close(s2, out, lo, upper, e, r, open, closed, box);
    }
  }

  lemma SameBorder(s: seq<Segment>, s2: seq<Segment>, lower: nat, upper: nat, y: int)
    requires Sorted(s) && lower < |s| && s[lower].y == y && Bordered(s, s2, upper, y)
    ensures s2 == s && upper == lower
  {
    assert HasKey(s, y);
  }

  lemma LowerStays(s: seq<Segment>, s2: seq<Segment>, lower: nat, upper: nat, y: int, y2: int)
    requires Sorted(s) && lower < |s| && s[lower].y == y < y2 && Bordered(s, s2, upper, y2)
    ensures lower < upper < |s2| && s2[lower].y == y
  {
    if s2 != s {
      SplitAt(s, upper, y2, lower);
    }
  }

  method Raise(segs: seq<Segment>, lo: nat, up: nat) returns (s: seq<Segment>)
    requires lo <= up < |segs|
    ensures Raised(segs, s, lo, up)
  {
    s := segs;
    var lower := lo;
    while lower != up
      invariant lo <= lower <= up && |s| == |segs|
      invariant forall k :: 0 <= k < |segs| ==>
                  s[k] == if lo <= k < lower then segs[k].(count := segs[k].count + 1) else segs[k]
      decreases up - lower
    {
      s := s[lower := s[lower].(count := s[lower].count + 1)];
      lower := lower + 1;
    }
  }

  /** The right edge of `r`: counts go down, finished areas are emitted, empty segments are merged. */
  method Close(segs: seq<Segment>, out: seq<Rect>, lo: nat, up: nat, e: Event, ghost r: Rect, ghost open: set<Rect>,
               ghost closed: set<Rect>, ghost box: Rect)
    returns (s: seq<Segment>, out': seq<Rect>)
    requires Inv(segs, out, open, closed, e.x, box) && Between(segs, lo, up, r) && r in open
    requires e.x == r.x + r.w && InBox(r, box)
    ensures Inv(s, out', open - {r}, closed + {r}, e.x, box)
  {
    StartClosing(segs, out, lo, up, r, open, closed, e.x, box);
    s, out' := segs, out;
    var lower, upper := lo, up;
    while lower != upper
      invariant Closing(s, out', lower, upper, r, open, closed, e.x, box)
      decreases upper - lower
    {
      s, out', lower, upper := CloseOne(s, out', lower, upper, e, r, open, closed, box);
    }
    EndClosing(s, out', upper, r, open, closed, e.x, box);
  }

  method CloseOne(segs: seq<Segment>, out: seq<Rect>, lo: nat, up: nat, e: Event, ghost r: Rect, ghost open: set<Rect>,
                  ghost closed: set<Rect>, ghost box: Rect)
    returns (s: seq<Segment>, out': seq<Rect>, lower: nat, upper: nat)
    requires Closing(segs, out, lo, up, r, open, closed, e.x, box) && lo < up && r in open && e.x <= box.x + box.w
    ensures Closing(s, out', lower, upper, r, open, closed, e.x, box) && upper - lower < up - lo
  {
    if segs[lo].count != 1 {
      Lower1(segs, out, lo, up, r, open, closed, e.x, box);
      s := segs[lo := segs[lo].(count := segs[lo].count - 1)];
      out', lower, upper := out, lo + 1, up;
    } else {
      EmitSegment(segs, out, lo, up, r, open, closed, e.x, box);
      out' := Emit(out, Area(segs, lo, e.x));
      s, lower, upper := MergeEmpty(segs[lo := segs[lo].(count := 0)], out', lo, up, e, r, open, closed, box);
    }
  }

  method MergeEmpty(segs: seq<Segment>, ghost out: seq<Rect>, lo: nat, up: nat, e: Event, ghost r: Rect,
                    ghost open: set<Rect>, ghost closed: set<Rect>, ghost box: Rect)
    returns (s: seq<Segment>, lower: nat, upper: nat)
    requires Closing(segs, out, lo + 1, up, r, open, closed, e.x, box) && segs[lo].count == 0
    ensures Closing(s, out, lower, upper, r, open, closed, e.x, box) && upper - lower == up - lo - 1
  {
    if lo == 0 || segs[lo - 1].count == 0 {
      s, lower, upper := segs[..lo] + segs[lo + 1..], lo, up - 1;
      Erase(segs, s, out, lo, up, r, open, closed, e.x, box);
    } else {
      s, lower, upper := segs, lo + 1, up;
    }
  }

  /** The result covers every point of every input, stays in any box around the inputs, and no
      segment is left open. */
  method CalcRects(rects: seq<Rect>, ghost box: Rect) returns (out: seq<Rect>, segs: seq<Segment>)
    requires forall r :: r in rects ==> r.w >= 0 && r.h >= 0 && InBox(r, box)
    ensures forall r, px, py :: r in rects && Inside(r, px, py) ==> Covered(out, px, py)
    ensures OutInBox(out, box)
    ensures forall k :: 0 <= k < |segs| ==> segs[k].count == 0
  {
    var events := SortedEdges(rects);
    segs, out := [], [];
    ghost var open, closed: set<Rect> := {}, {};
    ghost var now := box.x;
    for p := 0 to |events|
      invariant Inv(segs, out, open, closed, now, box)
      invariant now == if p == 0 then box.x else events[p - 1].x
      invariant Seen(events[..p], open, closed)
    {
      var e := events[p];
      ghost var r := RectOf(e);
      assert e in events;
      EventNext(events, p, r, rects);
      SeenNext(events[..p], e, r, open, closed);
      segs, out := Handle(segs, out, e, r, open, closed, now, box);
      open, closed := if e.enter then open + {r} else open - {r}, if e.enter then closed else closed + {r};
      now := e.x;
    }
    assert events[..|events|] == events;
    AllClosed(rects, events, open);
    NothingOpen(segs, out, closed);
  }

  /** Which rectangles a prefix of the events has opened and closed. */
  ghost predicate Seen(events: seq<Event>, open: set<Rect>, closed: set<Rect>) {
    (forall r :: r in open <==> Edge(r, true) in events && Edge(r, false) !in events) &&
    forall r :: r in closed <==> Edge(r, false) in events
  }

  lemma SeenNext(events: seq<Event>, e: Event, r: Rect, open: set<Rect>, closed: set<Rect>)
    requires Seen(events, open, closed) && e == Edge(r, e.enter) && e !in events
    requires if e.enter then Edge(r, false) !in events else Edge(r, true) in events
    ensures e.enter <==> r !in open
    ensures Seen(events + [e], if e.enter then open + {r} else open - {r}, if e.enter then closed else closed + {r})
  {
    var next := events + [e];
    forall q
      ensures Edge(q, true) in next <==> Edge(q, true) in events || (e.enter && q == r)
      ensures Edge(q, false) in next <==> Edge(q, false) in events || (!e.enter && q == r)
    {
      assert RectOf(Edge(q, true)) == q && RectOf(Edge(q, false)) == q;
      assert RectOf(e) == r;
    }
  }

  lemma AllClosed(rects: seq<Rect>, events: seq<Event>, open: set<Rect>)
    requires forall r :: r in rects ==> Edge(r, true) in events && Edge(r, false) in events
    requires forall e :: e in events ==> RectOf(e) in rects
    requires forall r :: r in open ==> Edge(r, true) in events && Edge(r, false) !in events
    ensures open == {}
  {
    assert forall r :: r in open ==> RectOf(Edge(r, true)) == r;
  }

  lemma NothingOpen(segs: seq<Segment>, out: seq<Rect>, closed: set<Rect>)
    requires Counted(segs, {}) && AllSafe(segs, out, closed)
    ensures forall k :: 0 <= k < |segs| ==> segs[k].count == 0
    ensures forall r, px, py :: r in closed && Inside(r, px, py) ==> Covered(out, px, py)
  {
    forall k | 0 <= k < |segs|
      ensures segs[k].count == 0
    {
      var none: set<Rect> := {};
      assert (set r | r in none && Spans(r, segs[k].y)) == {};
    }
    forall r, px, py | r in closed && Inside(r, px, py)
      ensures Covered(out, px, py)
    {
      assert Safe(segs, out, px, py);
    }
  }

  lemma InOrder(events: seq<Event>, i: nat, j: nat)
    requires Ascending(events) && i < |events| && j < |events| && Before(events[i], events[j])
    ensures i < j
  {
  }

  /** A left edge comes before the right edge of its rectangle, and no event comes twice. */
  lemma EventNext(events: seq<Event>, p: nat, r: Rect, rects: seq<Rect>)
    requires Ascending(events) && p < |events| && r == RectOf(events[p]) && events[p] == Edge(r, events[p].enter)
    requires r.w >= 0 && Edge(r, true) in events && Edge(r, false) in events
    ensures events[p] !in events[..p]
    ensures if events[p].enter then Edge(r, false) !in events[..p] else Edge(r, true) in events[..p]
    ensures p > 0 ==> events[p - 1].x <= events[p].x
    ensures events[..p + 1] == events[..p] + [events[p]]
  {
    var other := Edge(r, !events[p].enter);
    var q :| 0 <= q < |events| && events[q] == other;
    assert Before(Edge(r, true), Edge(r, false));
    if events[p].enter {
      InOrder(events, p, q);
    } else {
      InOrder(events, q, p);
      assert events[..p][q] == other;
    }
    forall i | 0 <= i < p
      ensures events[i] != events[p] && (events[p].enter ==> events[i] != other) && events[i].x <= events[p].x
    {
      assert Before(events[i], events[p]);
    }
  }
}
