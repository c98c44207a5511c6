/** `char_block_map`: which font has which code points, as ranges in order. */
module CharBlocks {

  datatype Block = Block(first: int, last: int, id: int)

  const NO_FONT := -1

  /** The blocks of the map, by their first code point; they do not overlap. */
  ghost predicate Apart(b: seq<Block>) {
    && (forall i :: 0 <= i < |b| ==> b[i].first <= b[i].last && b[i].id != NO_FONT)
    && forall i, j :: 0 <= i < j < |b| ==> b[i].last < b[j].first
  }

  /** The font of a code point, by a search of all blocks. */
  function Font(b: seq<Block>, c: int): int {
    if b == [] then NO_FONT
    else if b[0].first <= c <= b[0].last then b[0].id
    else Font(b[1..], c)
  }

  lemma {:induction false} FontFound(b: seq<Block>, c: int, i: nat)
    requires Apart(b) && i < |b| && b[i].first <= c <= b[i].last
    ensures Font(b, c) == b[i].id
  {
    if i > 0 {
      FontFound(b[1..], c, i - 1);
    }
  }

  lemma {:induction false} FontMissing(b: seq<Block>, c: int)
    requires forall i :: 0 <= i < |b| ==> !(b[i].first <= c <= b[i].last)
    ensures Font(b, c) == NO_FONT
  {
    if b != [] {
      FontMissing(b[1..], c);
    }
  }

  /** The first block, from `i` on, that begins at a code point or behind it. */
  function LowerFrom(b: seq<Block>, c: int, i: nat): (n: nat)
    requires i <= |b|
    ensures i <= n <= |b|
    ensures forall k :: i <= k < n ==> b[k].first < c
    ensures n < |b| ==> b[n].first >= c
    decreases |b| - i
  {
    if i == |b| || b[i].first >= c then i else LowerFrom(b, c, i + 1)
  }

  function Lower(b: seq<Block>, c: int): (n: nat)
    ensures n <= |b|
    ensures forall k :: 0 <= k < n ==> b[k].first < c
    ensures n < |b| ==> b[n].first >= c
  {
    LowerFrom(b, c, 0)
  }

  // ----- Insertion -----

  /** Where the new range really begins: behind the block that its first code point is inside of. */
  function Start(b: seq<Block>, first: int): int {
    var i := Lower(b, first);
    if i > 0 && first <= b[i - 1].last then b[i - 1].last + 1 else first
  }

  /** Where it really ends: in front of the next block. */
  function Stop(b: seq<Block>, s: int, last: int): int {
    var i := Lower(b, s);
    if i < |b| && b[i].first <= last then b[i].first - 1 else last
  }

  /** What insertion comes to: the one stretch between the start and the stop gets the font. */
  function Inserted(b: seq<Block>, first: int, last: int, id: int): seq<Block> {
    Splice(b, Start(b, first), Stop(b, Start(b, first), last), id)
  }

  function Splice(b: seq<Block>, s: int, e: int, id: int): seq<Block> {
    if s > e then b else b[..Lower(b, s)] + [Block(s, e, id)] + b[Lower(b, s)..]
  }

  /** A code point of the range with nothing associated between it and the start. */
  ghost predicate Reached(b: seq<Block>, first: int, last: int, c: int) {
    Start(b, first) <= c <= last && forall d :: Start(b, first) <= d <= c ==> Font(b, d) == NO_FONT
  }

  ghost predicate InsertedAs(b: seq<Block>, first: int, last: int, id: int, r: seq<Block>) {
    Apart(r) && forall c :: Font(r, c) == if Font(b, c) == NO_FONT && Reached(b, first, last, c) then id else Font(b, c)
  }

  lemma LowerIs(b: seq<Block>, c: int, n: nat)
    requires Apart(b) && n <= |b| && (n > 0 ==> b[n - 1].first < c) && (n < |b| ==> b[n].first >= c)
    ensures Lower(b, c) == n
  {
  }

  /** Between two blocks nothing is associated. */
  lemma NoneBetween(b: seq<Block>, i: nat, c: int)
    requires Apart(b) && i <= |b| && (i > 0 ==> b[i - 1].last < c) && (i < |b| ==> c < b[i].first)
    ensures Font(b, c) == NO_FONT
  {
    FontMissing(b, c);
  }

  lemma {:induction false} FontInserted(b: seq<Block>, i: nat, x: Block, c: int)
    requires i <= |b| && (x.first <= c <= x.last ==> forall k :: 0 <= k < |b| ==> !(b[k].first <= c <= b[k].last))
    ensures Font(b[..i] + [x] + b[i..], c) == if x.first <= c <= x.last then x.id else Font(b, c)
  {
    var r := b[..i] + [x] + b[i..];
    if i == 0 {
      assert r[1..] == b;
    } else {
      assert r[0] == b[0] && r[1..] == b[1..][..i - 1] + [x] + b[1..][i - 1..];
      FontInserted(b[1..], i - 1, x, c);
    }
  }

  lemma ApartInserted(b: seq<Block>, i: nat, x: Block)
    requires Apart(b) && i <= |b| && x.id != NO_FONT && x.first <= x.last
    requires (i > 0 ==> b[i - 1].last < x.first) && (i < |b| ==> x.last < b[i].first)
    ensures Apart(b[..i] + [x] + b[i..])
  {
    var r := b[..i] + [x] + b[i..];
    forall k | 0 <= k < |r| ensures r[k] == if k < i then b[k] else if k == i then x else b[k - 1] {
    }
  }

  lemma InsertNew(b: seq<Block>, s: int, e: int, id: int, i: nat)
    requires Apart(b) && id != NO_FONT && s <= e && i == Lower(b, s)
    requires (i > 0 ==> b[i - 1].last < s) && (i < |b| ==> e < b[i].first)
    ensures var r := b[..i] + [Block(s, e, id)] + b[i..];
            Apart(r) && forall c :: Font(r, c) == if s <= c <= e then id else Font(b, c)
    ensures forall c :: s <= c <= e ==> Font(b, c) == NO_FONT
  {
    var x := Block(s, e, id);
    ApartInserted(b, i, x);
    forall c | s <= c <= e ensures Font(b, c) == NO_FONT {
      NoneBetween(b, i, c);
    }
    forall c ensures Font(b[..i] + [x] + b[i..], c) == if s <= c <= e then id else Font(b, c) {
      FontInserted(b, i, x, c);
    }
  }

  lemma StartOutside(b: seq<Block>, first: int)
    requires Apart(b)
    ensures var s := Start(b, first);
            s >= first && (Lower(b, s) > 0 ==> b[Lower(b, s) - 1].last < s) && Start(b, s) == s
  {
    var i := Lower(b, first);
    if i > 0 && first <= b[i - 1].last {
      LowerIs(b, b[i - 1].last + 1, i);
    }
  }

  /** Insertion keeps the blocks in order and apart, changes no association, and associates only code points
      of the range; which ones is what `Reached` says. */
  lemma InsertIsAs(b: seq<Block>, first: int, last: int, id: int)
    requires Apart(b) && id != NO_FONT
    ensures InsertedAs(b, first, last, id, Inserted(b, first, last, id))
  {
    var s := Start(b, first);
    var i, e := Lower(b, s), Stop(b, s, last);
    StartOutside(b, first);
    if i < |b| {
      FontFound(b, b[i].first, i);
    }
    if s <= e {
      InsertNew(b, s, e, id, i);
    }
    ReachedUpTo(b, first, last, e);
  }

  /** Just the stretch from the start to the stop is reached. */
  lemma ReachedUpTo(b: seq<Block>, first: int, last: int, e: int)
    requires Apart(b) && e == Stop(b, Start(b, first), last)
    ensures forall c :: Reached(b, first, last, c) <==> Start(b, first) <= c <= e
  {
    var s := Start(b, first);
    var i := Lower(b, s);
    StartOutside(b, first);
    forall c | s <= c <= e ensures Font(b, c) == NO_FONT {
      NoneBetween(b, i, c);
    }
    if i < |b| && b[i].first <= last {
      FontFound(b, b[i].first, i);
      var next := b[i].first;
      forall c | Reached(b, first, last, c) ensures c <= e {
        assert s <= next <= c ==> Font(b, next) == NO_FONT;
      }
    }
  }

  // ----- The promise of the comment above the method -----

  /** All parts of the range that had no font get this one. */
  ghost predicate AllAssociated(b: seq<Block>, first: int, last: int, id: int, r: seq<Block>) {
    forall c :: Font(r, c) == if Font(b, c) == NO_FONT && first <= c <= last then id else Font(b, c)
  }

  ghost predicate Covered(b: seq<Block>, first: int, last: int) {
    forall c :: first <= c <= last ==> Font(b, c) != NO_FONT
  }

  /** The range is cut off at the first block that begins in it. So the promise is kept just when there is
      no such block, or nothing behind its first code point is left to associate. */
  lemma InsertKeepsPromise(b: seq<Block>, first: int, last: int, id: int)
    requires Apart(b) && id != NO_FONT
    ensures var i := Lower(b, Start(b, first));
            AllAssociated(b, first, last, id, Inserted(b, first, last, id)) <==>
            (i < |b| && b[i].first <= last ==> Covered(b, b[i].first, last))
  {
    var r, s := Inserted(b, first, last, id), Start(b, first);
    var i := Lower(b, s);
    InsertIsAs(b, first, last, id);
    forall c | first <= c < s ensures Font(b, c) != NO_FONT {
      FontFound(b, c, Lower(b, first) - 1);
    }
    LowerIs(b, s, Lower(b, first));
    forall c | s <= c && (i < |b| ==> c < b[i].first) ensures Font(b, c) == NO_FONT {
      NoneBetween(b, i, c);
    }
    if i < |b| && b[i].first <= last {
      FontFound(b, b[i].first, i);
      if AllAssociated(b, first, last, id, r) {
        forall c | b[i].first <= c <= last ensures Font(b, c) != NO_FONT {
          assert !Reached(b, first, last, c) by {
            assert s <= b[i].first <= c;
          }
        }
      }
    }
  }

  /** A block in the middle of the range: what is behind it stays without a font. */
  lemma PartLeftOut()
    ensures Inserted([Block(5, 5, 1)], 0, 9, 2) == [Block(0, 4, 2), Block(5, 5, 1)]
  {
    var b := [Block(5, 5, 1)];
    assert Lower(b, 0) == 0;
    assert Inserted(b, 0, 4, 2) == b[..0] + [Block(0, 4, 2)] + b[0..];
  }

  // ----- Compression -----

  function Joined(a: Block, b: Block): Block {
    a.(last := b.last)
  }

  function Compressed(b: seq<Block>): seq<Block>
    decreases |b|
  {
    if |b| < 2 then b
    else if b[0].id != b[1].id then [b[0]] + Compressed(b[1..])
    else Compressed([Joined(b[0], b[1])] + b[2..])
  }

  /** The font on both sides of a gap, for a code point in that gap. */
  function Bridge(b: seq<Block>, c: int): int {
    if |b| < 2 then NO_FONT
    else if b[0].last < c < b[1].first then (if b[0].id == b[1].id then b[0].id else NO_FONT)
    else Bridge(b[1..], c)
  }

  ghost predicate NoEqualNeighbours(b: seq<Block>) {
    forall i :: 0 <= i < |b| - 1 ==> b[i].id != b[i + 1].id
  }

  ghost predicate CompressedAs(b: seq<Block>, r: seq<Block>) {
    && Apart(r) && NoEqualNeighbours(r)
    && (b != [] ==> r != [] && r[0].first == b[0].first && r[0].id == b[0].id)
    && forall c :: Font(r, c) == if Font(b, c) == NO_FONT then Bridge(b, c) else Font(b, c)
  }

  lemma JoinedFont(b: seq<Block>, c: int)
    requires Apart(b) && |b| >= 2 && b[0].id == b[1].id
    ensures var j := [Joined(b[0], b[1])] + b[2..];
            && Apart(j)
            && (if Font(j, c) == NO_FONT then Bridge(j, c) else Font(j, c)) ==
               (if Font(b, c) == NO_FONT then Bridge(b, c) else Font(b, c))
  {
    var j := [Joined(b[0], b[1])] + b[2..];
    assert j[1..] == b[2..] == b[1..][1..];
    if c < b[0].first {
      FontMissing(b, c);
      FontMissing(j, c);
      BridgeBefore(b, c);
      BridgeBefore(j, c);
    } else if b[0].last < c < b[1].first {
      NoneBetween(b, 1, c);
    }
  }

  lemma {:induction false} BridgeBefore(b: seq<Block>, c: int)
    requires Apart(b) && (b != [] ==> c < b[0].first)
    ensures Bridge(b, c) == NO_FONT
  {
    if |b| >= 2 {
      BridgeBefore(b[1..], c);
    }
  }

  /** Compression keeps every association, adds one only in a gap between blocks of one font, and leaves no
      two neighbours of the same font. */
  lemma {:induction false} CompressIsAs(b: seq<Block>)
    requires Apart(b)
    ensures CompressedAs(b, Compressed(b))
    decreases |b|
  {
    if |b| >= 2 {
      if b[0].id != b[1].id {
        CompressIsAs(b[1..]);
        KeptFirst(b, Compressed(b[1..]));
      } else {
        var j := [Joined(b[0], b[1])] + b[2..];
        JoinedFont(b, 0);
        CompressIsAs(j);
        forall c ensures (if Font(j, c) == NO_FONT then Bridge(j, c) else Font(j, c)) ==
                         (if Font(b, c) == NO_FONT then Bridge(b, c) else Font(b, c)) {
          JoinedFont(b, c);
        }
      }
    }
  }

  lemma KeptFirst(b: seq<Block>, r: seq<Block>)
    requires Apart(b) && |b| >= 2 && b[0].id != b[1].id && CompressedAs(b[1..], r)
    ensures CompressedAs(b, [b[0]] + r)
  {
    var all := [b[0]] + r;
    assert all[1..] == r;
    forall c ensures Font(all, c) == if Font(b, c) == NO_FONT then Bridge(b, c) else Font(b, c) {
      if b[0].last < c < b[1].first {
        NoneBetween(b, 1, c);
        BridgeBefore(b[1..], c);
      } else if c < b[0].first {
        BridgeBefore(b[1..], c);
      } else if c <= b[0].last {
      }
    }
  }

  lemma CallEmpty(b: seq<Block>, first: int, last: int)
    requires Apart(b) && first > last
    ensures Stop(b, Start(b, first), last) < Start(b, first)
  {
    StartOutside(b, first);
  }

  /** The recursive calls of `insert` come to the same stretch: behind the block that the range begins in, */
  lemma CallBehind(b: seq<Block>, first: int, last: int, id: int, i: nat, next: int)
    requires Apart(b) && i == Lower(b, first) && i > 0 && first <= b[i - 1].last && next == b[i - 1].last + 1
    ensures Inserted(b, first, last, id) == Inserted(b, next, last, id)
  {
    StartOutside(b, first);
    assert Start(b, first) == next && Start(b, next) == next;
  }

  /** and in front of the next block. */
  lemma CallInFront(b: seq<Block>, first: int, last: int, id: int, i: nat, stop: int)
    requires Apart(b) && i == Lower(b, first) && (i > 0 ==> b[i - 1].last < first) && i < |b| && b[i].first <= last
    requires stop == b[i].first - 1
    ensures Inserted(b, first, last, id) == Inserted(b, first, stop, id)
  {
    assert Start(b, first) == first;
    assert Stop(b, first, last) == stop == Stop(b, first, stop);
  }

  lemma CallHere(b: seq<Block>, first: int, last: int, id: int, i: nat)
    requires Apart(b) && first <= last && i == Lower(b, first)
    requires (i > 0 ==> b[i - 1].last < first) && (i < |b| ==> last < b[i].first)
    ensures Inserted(b, first, last, id) == b[..i] + [Block(first, last, id)] + b[i..]
  {
    assert Start(b, first) == first && Stop(b, first, last) == last;
  }

  class CharBlockMap {
    /** `cbmap`, in the order of its keys. */
    var cbmap: seq<Block>

    constructor ()
      ensures cbmap == []
    {
      cbmap := [];
    }

    method LowerBound(c: int) returns (i: nat)
      ensures i == Lower(cbmap, c)
    {
      i := 0;
      while i < |cbmap| && cbmap[i].first < c
        invariant i <= |cbmap| && Lower(cbmap, c) == LowerFrom(cbmap, c, i)
      {
        i := i + 1;
      }
    }

    method Insert(first: int, last: int, id: int)
      requires Apart(cbmap)
      modifies this
      ensures cbmap == Inserted(old(cbmap), first, last, id)
      decreases if first <= last then last - first + 1 else 0
    {
      if first > last {
        CallEmpty(cbmap, first, last);
        return;
      }
      var i := LowerBound(first);
      if i != 0 && first <= cbmap[i - 1].last {
        var next := cbmap[i - 1].last + 1;
        CallBehind(cbmap, first, last, id, i, next);
        Insert(next, last, id);
      } else if i != |cbmap| && cbmap[i].first <= last {
        var stop := cbmap[i].first - 1;
        CallInFront(cbmap, first, last, id, i, stop);
        Insert(first, stop, id);
      } else {
        PutBefore(i, first, last, id);
      }
    }

    method PutBefore(i: nat, first: int, last: int, id: int)
      requires Apart(cbmap) && first <= last && i == Lower(cbmap, first)
      requires (i > 0 ==> cbmap[i - 1].last < first) && (i < |cbmap| ==> last < cbmap[i].first)
      modifies this
      ensures cbmap == Inserted(old(cbmap), first, last, id)
    {
      CallHere(cbmap, first, last, id, i);
      cbmap := cbmap[..i] + [Block(first, last, id)] + cbmap[i..];
    }

    method Compress()
      modifies this
      ensures cbmap == Compressed(old(cbmap))
    {
      var i := 0;
      assert cbmap[..0] + Compressed(cbmap[0..]) == Compressed(cbmap);
      while i < |cbmap|
        invariant i <= |cbmap|
        invariant cbmap[..i] + Compressed(cbmap[i..]) == Compressed(old(cbmap))
        decreases |cbmap| - i
      {
        var j := i + 1;
        if j == |cbmap| || cbmap[i].id != cbmap[j].id {
          CompressPasses(cbmap, i);
          i := j;
          continue;
        }
        CompressJoins(cbmap, i);
        cbmap := cbmap[..i] + [Joined(cbmap[i], cbmap[j])] + cbmap[j + 1..];
      }
      assert cbmap[..i] + [] == cbmap;
    }

    method GetId(c: int) returns (id: int)
      requires Apart(cbmap)
      ensures id == Font(cbmap, c)
    {
      var i := LowerBound(c + 1);
      if i != 0 {
        var j := i - 1;
        if c <= cbmap[j].last {
          FontFound(cbmap, c, j);
          return cbmap[j].id;
        }
      }
      NoneBetween(cbmap, i, c);
      return NO_FONT;
    }
  }

  lemma CompressPasses(b: seq<Block>, i: nat)
    requires i < |b| && (i + 1 == |b| || b[i].id != b[i + 1].id)
    ensures b[..i + 1] + Compressed(b[i + 1..]) == b[..i] + Compressed(b[i..])
  {
    assert b[i..][1..] == b[i + 1..];
    assert b[..i + 1] == b[..i] + [b[i]];
  }

  lemma CompressJoins(b: seq<Block>, i: nat)
    requires i + 1 < |b| && b[i].id == b[i + 1].id
    ensures var j := b[..i] + [Joined(b[i], b[i + 1])] + b[i + 2..];
            j[..i] + Compressed(j[i..]) == b[..i] + Compressed(b[i..])
  {
    var j := b[..i] + [Joined(b[i], b[i + 1])] + b[i + 2..];
    assert j[..i] == b[..i];
    assert j[i..] == [Joined(b[i], b[i + 1])] + b[i..][2..];
  }
}
