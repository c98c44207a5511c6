/** The string literals of the formula language: formulas between braces are cut out, and their values put back. */
module FormulaStrings {
  import opened Sequences

  datatype Sub = Sub(pos: nat, formula: string)

  /** A text read from left to right: literal stretches, each followed by a formula, and what is left. */
  datatype Pieces = End(text: string) | Piece(text: string, formula: string, rest: Pieces)

  /** The first place of a character from `i` on, or the length. */
  function Find(s: string, i: nat, c: char): (n: nat)
    requires i <= |s|
    ensures i <= n <= |s| && (n < |s| ==> s[n] == c) && (forall k :: i <= k < n ==> s[k] != c)
    decreases |s| - i
  {
    if i == |s| || s[i] == c then i else Find(s, i + 1, c)
  }

  /** A brace that is not closed belongs to the text, with all that follows. */
  function Split(s: string): Pieces
    decreases |s|
  {
    var i := Find(s, 0, '{');
    var j := Find(s, i, '}');
    if j == |s| then End(s) else Piece(s[..i], s[i + 1..j], Split(s[j + 1..]))
  }

  function Source(p: Pieces): string {
    match p
    case End(text) => text
    case Piece(text, f, rest) => text + ("{" + f + "}") + Source(rest)
  }

  /** The text with each formula replaced by its value. */
  function Valued(p: Pieces, eval: string -> string): string {
    match p
    case End(text) => text
    case Piece(text, f, rest) => text + eval(f) + Valued(rest, eval)
  }

  /** The text without the formulas. */
  function Bare(p: Pieces): string {
    match p
    case End(text) => text
    case Piece(text, _, rest) => text + Bare(rest)
  }

  /** The formulas with the places they had in the bare text, when `at` characters stand in front. */
  function Subs(p: Pieces, at: nat): seq<Sub> {
    match p
    case End(_) => []
    case Piece(text, f, rest) => [Sub(at + |text|, f)] + Subs(rest, at + |text|)
  }

  /** Literal stretches have no open brace and formulas no closing one; at the end no open brace is closed. */
  predicate Proper(p: Pieces) {
    match p
    case End(text) => Find(text, Find(text, 0, '{'), '}') == |text|
    case Piece(text, f, rest) => '{' !in text && '}' !in f && Proper(rest)
  }

  /** Reading loses nothing. */
  lemma {:induction false} SplitKeepsAll(s: string)
    ensures Source(Split(s)) == s && Proper(Split(s))
    decreases |s|
  {
    var i := Find(s, 0, '{');
    var j := Find(s, i, '}');
    if j < |s| {
      SplitKeepsAll(s[j + 1..]);
      Rejoin(s, i, j);
    }
  }

  lemma Rejoin(s: string, i: nat, j: nat)
    requires i < j < |s| && s[i] == '{' && s[j] == '}'
    ensures s == s[..i] + ("{" + s[i + 1..j] + "}") + s[j + 1..]
  {
  }

  /** With each formula as its own value, the text comes back. */
  lemma {:induction false} IdentityGivesSource(p: Pieces)
    ensures Valued(p, f => "{" + f + "}") == Source(p)
  {
    if p.Piece? {
      IdentityGivesSource(p.rest);
    }
  }

  // ----- Putting values back, from the last formula to the first -----

  function InsertAt(s: string, pos: nat, text: string): string
    requires pos <= |s|
  {
    s[..pos] + text + s[pos..]
  }

  /** No formula lies beyond the end of the text. */
  predicate Fits(text: string, subs: seq<Sub>) {
    forall i :: 0 <= i < |subs| ==> subs[i].pos <= |text|
  }

  function Fill(text: string, subs: seq<Sub>, eval: string -> string): (r: string)
    requires Fits(text, subs)
    ensures |r| >= |text|
  {
    if subs == [] then text
    else InsertAt(Fill(text, subs[1..], eval), subs[0].pos, eval(subs[0].formula))
  }

  lemma InsertBetween(left: string, right: string, text: string)
    ensures InsertAt(left + right, |left|, text) == left + text + right
  {
    assert (left + right)[..|left|] == left && (left + right)[|left|..] == right;
  }

  lemma {:induction false} SubsFit(p: Pieces, left: string)
    ensures Fits(left + Bare(p), Subs(p, |left|))
  {
    if p.Piece? {
      SubsFit(p.rest, left + p.text);
      Associate(left, p.text, Bare(p.rest));
    }
  }

  /** Cutting out and putting back is the same as replacing from left to right, also where formulas stand
      next to each other and get the same place. */
  lemma {:induction false} FillIsValued(p: Pieces, left: string, eval: string -> string)
    requires Fits(left + Bare(p), Subs(p, |left|))
    ensures Fill(left + Bare(p), Subs(p, |left|), eval) == left + Valued(p, eval)
  {
    if p.Piece? {
      var front, v, rest := left + p.text, eval(p.formula), Valued(p.rest, eval);
      Associate(left, p.text, Bare(p.rest));
      SubsFit(p.rest, front);
      FillIsValued(p.rest, front, eval);
      assert Subs(p, |left|)[1..] == Subs(p.rest, |front|);
      InsertBetween(front, rest, v);
      Associate(left, p.text + v, rest);
      Associate(left, p.text, v);
    }
  }

  // ----- The object -----

  function Reversed(subs: seq<Sub>): (r: seq<Sub>)
    ensures |r| == |subs| && forall i :: 0 <= i < |r| ==> r[i] == subs[|subs| - 1 - i]
  {
    if subs == [] then [] else Reversed(subs[1..]) + [subs[0]]
  }

  lemma FirstPlace(s: string, i: nat, c: char, n: nat)
    requires i <= n <= |s| && (n < |s| ==> s[n] == c) && forall k :: i <= k < n ==> s[k] != c
    ensures Find(s, i, c) == n
  {
  }

  /** In front of a piece, the searches find its braces. */
  lemma PieceFound(front: string, lit: string, f: string, tail: string, text: string)
    requires '{' !in front && '{' !in lit && '}' !in f && text == front + (lit + ("{" + f + "}") + tail)
    ensures var i, j := |front| + |lit|, |front| + |lit| + 1 + |f|;
            && Find(text, 0, '{') == i && Find(text, i, '}') == j < |text|
            && text[..i] == front + lit && text[i + 1..j] == f && text[j + 1..] == tail
  {
    var i, j := |front| + |lit|, |front| + |lit| + 1 + |f|;
    assert text == (front + lit) + ("{" + f + "}") + tail;
    FirstPlace(text, 0, '{', i);
    FirstPlace(text, i, '}', j);
  }

  /** In front of the end, they find no pair. */
  lemma EndFound(front: string, rest: string)
    requires '{' !in front && Find(rest, Find(rest, 0, '{'), '}') == |rest|
    ensures var t := front + rest; Find(t, Find(t, 0, '{'), '}') == |t|
  {
    var i := Find(rest, 0, '{');
    FirstPlace(front + rest, 0, '{', |front| + i);
    FirstPlace(front + rest, |front| + i, '}', |front| + |rest|);
  }

  /** What the loop has done: so much of the text has been read, and the rest is still to come. */
  ghost predicate Read(whole: Pieces, front: string, more: Pieces, found: seq<Sub>) {
    '{' !in front && Bare(whole) == front + Bare(more) && Subs(whole, 0) == found + Subs(more, |front|)
  }

  lemma ReadOne(whole: Pieces, front: string, more: Pieces, found: seq<Sub>)
    requires Read(whole, front, more, found) && more.Piece? && '{' !in more.text
    ensures Read(whole, front + more.text, more.rest, found + [Sub(|front| + |more.text|, more.formula)])
  {
    Associate(front, more.text, Bare(more.rest));
    Associate(found, [Sub(|front| + |more.text|, more.formula)], Subs(more.rest, |front| + |more.text|));
  }

  lemma ReadNothing(whole: Pieces)
    ensures Read(whole, "", whole, [])
  {
  }

  /** A pair of braces is found just when a piece is still to come. */
  lemma PairMeansPiece(front: string, more: Pieces, text: string)
    requires '{' !in front && Proper(more) && text == front + Source(more)
    ensures Find(text, Find(text, 0, '{'), '}') < |text| <==> more.Piece?
  {
    if more.Piece? {
      PieceFound(front, more.text, more.formula, Source(more.rest), text);
    } else {
      EndFound(front, more.text);
    }
  }

  /** The loop's invariant: what is still to come stands behind a front without open braces. */
  ghost predicate Pending(whole: Pieces, front: string, more: Pieces, text: string, found: seq<Sub>) {
    text == front + Source(more) && Proper(more) && Read(whole, front, more, found)
  }

  /** One formula is cut out. */
  method Cut(text: string, i: nat, j: nat, found: seq<Sub>, ghost whole: Pieces, ghost front: string,
             ghost more: Pieces)
      returns (left: string, all: seq<Sub>)
    requires Pending(whole, front, more, text, found) && more.Piece?
    requires i <= |text| && i == Find(text, 0, '{') && j == Find(text, i, '}')
    ensures Pending(whole, front + more.text, more.rest, left, all) && |left| < |text|
  {
    PieceFound(front, more.text, more.formula, Source(more.rest), text);
    ReadOne(whole, front, more, found);
    left := text[..i] + text[j + 1..];
    var formula := text[i + 1..j];
    all := found + [Sub(i, formula)];
  }

  lemma AtTheEnd(whole: Pieces, front: string, more: Pieces, text: string, found: seq<Sub>)
    requires Pending(whole, front, more, text, found) && more.End?
    ensures text == Bare(whole) && found == Subs(whole, 0)
  {
    assert found + [] == found;
  }

  /** The loop of the constructor. */
  method CutAll(s: string) returns (text: string, found: seq<Sub>)
    ensures text == Bare(Split(s)) && found == Subs(Split(s), 0)
  {
    text, found := s, [];
    ghost var whole := Split(s);
    ghost var front, more := "", whole;
    SplitKeepsAll(s);
    ReadNothing(whole);
    assert "" + Source(whole) == s;
    while true
      invariant Pending(whole, front, more, text, found)
      decreases |text|
    {
      PairMeansPiece(front, more, text);
      var i := Find(text, 0, '{');
      if i == |text| {
        break;
      }
      var j := Find(text, i, '}');
      if j == |text| {
        break;
      }
      text, found := Cut(text, i, j, found, whole, front, more);
      front, more := front + more.text, more.rest;
    }
    AtTheEnd(whole, front, more, text, found);
  }

  /** The loop of `execute`. */
  method PutBack(text: string, subs: seq<Sub>, eval: string -> string, ghost all: seq<Sub>) returns (res: string)
    requires Fits(text, all) && subs == Reversed(all)
    ensures res == Fill(text, all, eval)
  {
    res := text;
    for k := 0 to |subs|
      invariant res == Fill(text, all[|subs| - k..], eval)
    {
      ghost var n := |subs| - k - 1;
      assert all[n..][1..] == all[n + 1..] && all[n..][0] == all[n] == subs[k];
      res := InsertAt(res, subs[k].pos, eval(subs[k].formula));
    }
    assert all[0..] == all;
  }

  class StringExpression {
    var str: string
    var subs: seq<Sub>

    ghost predicate Holds(s: string)
      reads this
    {
      str == Bare(Split(s)) && subs == Reversed(Subs(Split(s), 0))
    }

    constructor (s: string)
      ensures Holds(s)
    {
      var text, found := CutAll(s);
      str := text;
      subs := Reversed(found);
    }

    /** The value of the literal. */
    method Execute(ghost s: string, eval: string -> string) returns (res: string)
      requires Holds(s)
      ensures res == Valued(Split(s), eval)
    {
      ghost var p := Split(s);
      SubsFit(p, "");
      FillIsValued(p, "", eval);
      assert "" + str == str;
      res := PutBack(str, subs, eval, Subs(p, 0));
    }
  }
}
