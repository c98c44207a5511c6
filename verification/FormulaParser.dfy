/** `parse_expression`: splitting a token list at its loosest operator. */
module FormulaParser {
  import opened FormulaTokens

  datatype Expr =
    | Leaf(token: Token)
    | Paren(open: Token, inner: Expr, close: Token)
    | Unary(op: Token, arg: Expr)
    | Binary(left: Expr, op: Token, right: Expr)

  /** `Outside`: the tokens go to a part of the parser that is not modelled here. */
  datatype Outcome = Parsed(e: Expr) | Failed | Outside

  function Flat(e: Expr): (r: seq<Token>)
    ensures r != []
  {
    match e
    case Leaf(t) => [t]
    case Paren(o, i, c) => [o] + Flat(i) + [c]
    case Unary(op, a) => [op] + Flat(a)
    case Binary(l, op, r) => Flat(l) + [op] + Flat(r)
  }

  // ----- operator_precedence -----

  /** Zero for the operators that the table does not know. */
  function Precedence(t: Token): nat {
    if t.text == "not" then 1
    else if t.text == "where" then 2
    else if t.text == "or" then 3
    else if t.text == "and" then 4
    else if t.text == "=" || t.text == "!=" || t.text == "<" || t.text == ">" || t.text == "<=" || t.text == ">=" then 5
    else if t.text == "+" || t.text == "-" then 6
    else if t.text == "*" || t.text == "/" then 7
    else if t.text == "%" then 8
    else if t.text == "^" then 9
    else if t.text == "d" then 10
    else if t.text == "." then 11
    else 0
  }

  /** Both operators are in the table, and `a` binds at least as tightly as `b`. */
  predicate AtLeast(a: Token, b: Token) {
    Precedence(b) > 0 && Precedence(a) >= Precedence(b)
  }

  predicate Tighter(a: Token, b: Token) {
    Precedence(b) > 0 && Precedence(a) > Precedence(b)
  }

  // ----- The scan for the operator to split at -----

  datatype Scan = Scan(parens: int, group: bool)

  const START := Scan(0, false)

  function Next(st: Scan, t: Token): Scan {
    if t.kind == LParens || t.kind == LSquare then st.(parens := st.parens + 1)
    else if t.kind == RParens || t.kind == RSquare then st.(parens := st.parens - 1)
    else if st.parens == 0 && t.kind == Operator then st.(group := true)
    else st.(group := false)
  }

  /** An operator outside all brackets that does not follow another one. */
  predicate IsHead(st: Scan, t: Token) {
    st.parens == 0 && t.kind == Operator && !st.group
  }

  /** The state of the scan in front of token `i`. */
  function StateAt(ts: seq<Token>, st: Scan, i: nat): Scan
    requires i <= |ts|
  {
    if i == 0 then st else Next(StateAt(ts, st, i - 1), ts[i - 1])
  }

  function After(ts: seq<Token>, st: Scan): Scan {
    StateAt(ts, st, |ts|)
  }

  predicate HeadAt(ts: seq<Token>, st: Scan, i: nat) {
    i < |ts| && IsHead(StateAt(ts, st, i), ts[i])
  }

  lemma {:induction false} StateLeft(a: seq<Token>, b: seq<Token>, st: Scan, i: nat)
    requires i <= |a|
    ensures StateAt(a + b, st, i) == StateAt(a, st, i)
  {
    if i > 0 {
      StateLeft(a, b, st, i - 1);
    }
  }

  lemma {:induction false} StateRight(a: seq<Token>, b: seq<Token>, st: Scan, i: nat)
    requires i <= |b|
    ensures StateAt(a + b, st, |a| + i) == StateAt(b, After(a, st), i)
  {
    if i == 0 {
      StateLeft(a, b, st, |a|);
    } else {
      StateRight(a, b, st, i - 1);
    }
  }

  lemma AfterConcat(a: seq<Token>, b: seq<Token>, st: Scan)
    ensures After(a + b, st) == After(b, After(a, st))
  {
    StateRight(a, b, st, |b|);
  }

  lemma HeadLeft(a: seq<Token>, b: seq<Token>, st: Scan, i: nat)
    requires i < |a|
    ensures HeadAt(a + b, st, i) <==> HeadAt(a, st, i)
  {
    StateLeft(a, b, st, i);
  }

  lemma HeadRight(a: seq<Token>, b: seq<Token>, st: Scan, i: nat)
    ensures HeadAt(a + b, st, |a| + i) <==> HeadAt(b, After(a, st), i)
  {
    if i < |b| {
      StateRight(a, b, st, i);
    }
  }

  lemma HeadConcat(a: seq<Token>, b: seq<Token>, st: Scan, i: nat)
    ensures HeadAt(a + b, st, i) <==> if i < |a| then HeadAt(a, st, i) else HeadAt(b, After(a, st), i - |a|)
  {
    if i < |a| {
      HeadLeft(a, b, st, i);
    } else {
      HeadRight(a, b, st, i - |a|);
    }
  }

  /** The last of the loosest head operators; `Abort` is the failed assertion of the table lookup. */
  datatype Split = NoOp | At(i: nat) | Abort

  predicate Chosen(ts: seq<Token>, n: nat, s: Split)
    requires n <= |ts|
  {
    match s
    case NoOp => forall j: nat {:trigger HeadAt(ts, START, j)} :: j < n ==> !HeadAt(ts, START, j)
    case At(i) =>
      i < n && HeadAt(ts, START, i) &&
      (forall j: nat {:trigger HeadAt(ts, START, j)} :: j < i && HeadAt(ts, START, j) ==> AtLeast(ts[j], ts[i])) &&
      forall j: nat {:trigger HeadAt(ts, START, j)} :: i < j < n && HeadAt(ts, START, j) ==> Tighter(ts[j], ts[i])
    case Abort => true
  }

  /** The function of the scan: what `op` is after the first `n` tokens. */
  function SplitTo(ts: seq<Token>, n: nat): Split
    requires n <= |ts|
  {
    if n == 0 then NoOp
    else
      var s := SplitTo(ts, n - 1);
      if !HeadAt(ts, START, n - 1) then s
      else match s
        case NoOp => At(n - 1)
        case Abort => Abort
        case At(i) =>
          if i >= n - 1 || Precedence(ts[i]) == 0 || Precedence(ts[n - 1]) == 0 then Abort
          else if Precedence(ts[i]) >= Precedence(ts[n - 1]) then At(n - 1) else s
  }

  lemma {:induction false} SplitIsChosen(ts: seq<Token>, n: nat)
    requires n <= |ts|
    ensures Chosen(ts, n, SplitTo(ts, n))
  {
    if n > 0 {
      SplitIsChosen(ts, n - 1);
    }
  }

  lemma {:induction false} ChosenIsSplit(ts: seq<Token>, n: nat, s: Split)
    requires n <= |ts| && Chosen(ts, n, s) && s != Abort
    ensures SplitTo(ts, n) == s
  {
    if n > 0 {
      match s
      case NoOp => ChosenIsSplit(ts, n - 1, NoOp);
      case At(i) =>
        if i < n - 1 {
          ChosenIsSplit(ts, n - 1, s);
        } else {
          SplitIsChosen(ts, n - 1);
          NoAbort(ts, n - 1, i);
        }
    }
  }

  /** If every head so far can be compared with a later one, the scan has not aborted. */
  lemma {:induction false} NoAbort(ts: seq<Token>, n: nat, i: nat)
    requires n <= i < |ts|
    requires forall j: nat {:trigger HeadAt(ts, START, j)} :: j < n && HeadAt(ts, START, j) ==> AtLeast(ts[j], ts[i])
    ensures !SplitTo(ts, n).Abort?
  {
    SplitIsChosen(ts, n);
    if n > 0 {
      NoAbort(ts, n - 1, i);
      SplitIsChosen(ts, n - 1);
    }
  }

  /** The scan as the source runs it. */
  method FindSplit(ts: seq<Token>) returns (s: Split)
    ensures s == SplitTo(ts, |ts|)
  {
    var parens, operatorGroup := 0, false;
    s := NoOp;
    for i := 0 to |ts|
      invariant Scan(parens, operatorGroup) == StateAt(ts, START, i)
      invariant s == SplitTo(ts, i)
      invariant s.At? ==> s.i < i
    {
      var t := ts[i];
      if t.kind == LParens || t.kind == LSquare {
        parens := parens + 1;
      } else if t.kind == RParens || t.kind == RSquare {
        parens := parens - 1;
      } else if parens == 0 && t.kind == Operator {
        if !operatorGroup {
          match s
          case NoOp => s := At(i);
          case Abort =>
          case At(op) =>
            if Precedence(ts[op]) == 0 || Precedence(t) == 0 {
              s := Abort;
            } else if Precedence(ts[op]) >= Precedence(t) {
              s := At(i);
            }
        }
        operatorGroup := true;
      } else {
        operatorGroup := false;
      }
    }
  }

  // ----- parse_expression -----

  predicate IsLeaf(t: Token) {
    t.kind == Identifier || t.kind == Integer || t.kind == Decimal || t.kind == StringLiteral ||
    (t.kind == Keyword && t.text == "functions")
  }

  function Parse(ts: seq<Token>): Outcome
    decreases |ts|, 1
  {
    if ts == [] then Failed
    else if |ts| > 1 && ts[0] == Token(Keyword, "def") && ts[1].kind == Identifier then Outside
    else
      match SplitTo(ts, |ts|)
      case Abort => Failed
      case NoOp => Primary(ts)
      case At(op) =>
        if op + 1 >= |ts| then Failed
        else if op == 0 then
          match Parse(ts[1..])
          case Parsed(e) => if ts[0].text == "not" || ts[0].text == "-" then Parsed(Unary(ts[0], e)) else Failed
          case other => other
        else if ts[op].text == "where" then Outside
        else
          match Parse(ts[..op])
          case Parsed(l) =>
            (match Parse(ts[op + 1..])
             case Parsed(r) => Parsed(Binary(l, ts[op], r))
             case other => other)
          case other => other
  }

  /** No operator outside brackets: a bracketed expression, a single token, or something else. */
  function Primary(ts: seq<Token>): Outcome
    requires ts != []
    decreases |ts|, 0
  {
    var last := ts[|ts| - 1];
    if ts[0].kind == LParens && last.kind == RParens then
      match Parse(ts[1..|ts| - 1])
      case Parsed(e) => Parsed(Paren(ts[0], e, last))
      case other => other
    else if last.kind == RSquare then Outside
    else if |ts| == 1 then (if IsLeaf(ts[0]) then Parsed(Leaf(ts[0])) else Failed)
    else if ts[0].kind == Identifier && ts[1].kind == LParens && last.kind == RParens then Outside
    else Failed
  }

  // ----- Which trees are well shaped -----

  /** The head operators of an expression that stands by itself. */
  function Outer(e: Expr): seq<Token> {
    match e
    case Leaf(_) => []
    case Paren(_, _, _) => []
    case Unary(op, a) => [op] + Inner(a)
    case Binary(l, op, r) => Outer(l) + [op] + Inner(r)
  }

  /** The head operators of an expression that follows an operator. */
  function Inner(e: Expr): seq<Token> {
    match e
    case Leaf(_) => []
    case Paren(_, _, _) => []
    case Unary(op, a) => Inner(a)
    case Binary(l, op, r) => Inner(l) + [op] + Inner(r)
  }

  /** Operators on the left bind at least as tightly as the root, those on the right more tightly. */
  predicate WellShaped(e: Expr) {
    match e
    case Leaf(t) => IsLeaf(t)
    case Paren(o, i, c) => o.kind == LParens && c.kind == RParens && WellShaped(i)
    case Unary(op, a) =>
      op.kind == Operator && (op.text == "not" || op.text == "-") && WellShaped(a) &&
      forall t :: t in Inner(a) ==> Tighter(t, op)
    case Binary(l, op, r) =>
      op.kind == Operator && op.text != "where" && WellShaped(l) && WellShaped(r) &&
      (forall t :: t in Outer(l) ==> AtLeast(t, op)) && forall t :: t in Inner(r) ==> Tighter(t, op)
  }

  /** The head operators that the scan meets in the tokens of a tree. */
  ghost predicate HeadsAre(ts: seq<Token>, st: Scan, heads: seq<Token>) {
    (forall i: nat {:trigger HeadAt(ts, st, i)} :: HeadAt(ts, st, i) ==> ts[i] in heads) &&
    forall t :: t in heads ==> exists i: nat {:trigger HeadAt(ts, st, i)} :: HeadAt(ts, st, i) && ts[i] == t
  }

  lemma HeadsConcat(a: seq<Token>, b: seq<Token>, st: Scan, x: seq<Token>, y: seq<Token>)
    requires HeadsAre(a, st, x) && HeadsAre(b, After(a, st), y)
    ensures HeadsAre(a + b, st, x + y)
  {
    forall i: nat | HeadAt(a + b, st, i)
      ensures (a + b)[i] in x + y
    {
      HeadConcat(a, b, st, i);
    }
    forall t | t in x + y
      ensures exists i: nat :: HeadAt(a + b, st, i) && (a + b)[i] == t
    {
      var i := HeadFound(a, b, st, x, y, t);
    }
  }

  lemma HeadFound(a: seq<Token>, b: seq<Token>, st: Scan, x: seq<Token>, y: seq<Token>, t: Token) returns (i: nat)
    requires HeadsAre(a, st, x) && HeadsAre(b, After(a, st), y) && t in x + y
    ensures HeadAt(a + b, st, i) && (a + b)[i] == t
  {
    if t in x {
      i :| HeadAt(a, st, i) && a[i] == t;
      HeadConcat(a, b, st, i);
    } else {
      var j: nat :| HeadAt(b, After(a, st), j) && b[j] == t;
      i := |a| + j;
      HeadConcat(a, b, st, i);
    }
  }

  lemma HeadsOne(t: Token, st: Scan)
    ensures After([t], st) == Next(st, t)
    ensures HeadsAre([t], st, if IsHead(st, t) then [t] else [])
  {
    assert StateAt([t], st, 0) == st && [t][0] == t;
    assert IsHead(st, t) <==> HeadAt([t], st, 0);
  }

  /** Scanning a well-shaped tree meets its own head operators and nothing inside brackets. */
  lemma {:induction false} ScanTree(e: Expr, st: Scan)
    requires WellShaped(e) && st.parens >= 0
    ensures After(Flat(e), st) == Scan(st.parens, false)
    ensures HeadsAre(Flat(e), st, if st.parens > 0 then [] else if st.group then Inner(e) else Outer(e))
  {
    match e
    case Leaf(t) =>
      HeadsOne(t, st);
    case Paren(o, i, c) =>
      HeadsOne(o, st);
      var inside := Next(st, o);
      ScanTree(i, inside);
      HeadsOne(c, Scan(inside.parens, false));
      AfterConcat([o], Flat(i), st);
      AfterConcat([o] + Flat(i), [c], st);
      HeadsConcat([o], Flat(i), st, [], []);
      HeadsConcat([o] + Flat(i), [c], st, [], []);
      var none: seq<Token> := [];
      assert none + none == none;
    case Unary(op, a) =>
      HeadsOne(op, st);
      ScanTree(a, Next(st, op));
      AfterConcat([op], Flat(a), st);
      var x := if IsHead(st, op) then [op] else [];
      var y := if st.parens > 0 then [] else Inner(a);
      HeadsConcat([op], Flat(a), st, x, y);
      assert [] + y == y;
    case Binary(l, op, r) =>
      ScanTree(l, st);
      var mid := Scan(st.parens, false);
      HeadsOne(op, mid);
      ScanTree(r, Next(mid, op));
      AfterConcat(Flat(l), [op], st);
      AfterConcat(Flat(l) + [op], Flat(r), st);
      var x := if st.parens > 0 then [] else if st.group then Inner(l) else Outer(l);
      var y := if st.parens > 0 then [] else [op];
      var z := if st.parens > 0 then [] else Inner(r);
      HeadsConcat(Flat(l), [op], st, x, y);
      HeadsConcat(Flat(l) + [op], Flat(r), st, x + y, z);
      var none: seq<Token> := [];
      assert none + none == none;
  }

  // ----- Parsing gives the one well-shaped tree, and exactly where there is one -----

  /** With the parts scanned, the root operator is chosen exactly if the tree is well shaped there. */
  lemma ChosenBinary(l: Expr, op: Token, r: Expr)
    requires WellShaped(l) && WellShaped(r) && op.kind == Operator
    ensures var ts := Flat(l) + [op] + Flat(r);
            Chosen(ts, |ts|, At(|Flat(l)|)) <==>
            (forall t :: t in Outer(l) ==> AtLeast(t, op)) && forall t :: t in Inner(r) ==> Tighter(t, op)
  {
    var a, b, mid := Flat(l), Flat(r), Next(START, op);
    ScanTree(l, START);
    ScanTree(r, mid);
    var ts := a + [op] + b;
    if Chosen(ts, |ts|, At(|a|)) {
      ChosenBinds(a, op, b, Outer(l), Inner(r));
    } else if (forall t :: t in Outer(l) ==> AtLeast(t, op)) && forall t :: t in Inner(r) ==> Tighter(t, op) {
      BindsChosen(a, op, b, Outer(l), Inner(r));
    }
  }

  lemma JoinedAt(a: seq<Token>, op: Token, b: seq<Token>, i: nat)
    ensures var ts := a + [op] + b;
            && |ts| == |a| + 1 + |b| && ts[|a|] == op
            && (i < |a| ==> ts[i] == a[i]) && (i < |b| ==> ts[|a| + 1 + i] == b[i])
  {
  }

  lemma HeadOnLeft(a: seq<Token>, op: Token, b: seq<Token>, i: nat)
    requires i < |a|
    ensures HeadAt(a + [op] + b, START, i) <==> HeadAt(a, START, i)
  {
    HeadLeft(a + [op], b, START, i);
    HeadLeft(a, [op], START, i);
  }

  lemma HeadInMiddle(a: seq<Token>, op: Token, b: seq<Token>)
    requires After(a, START) == START && op.kind == Operator
    ensures HeadAt(a + [op] + b, START, |a|)
  {
    HeadLeft(a + [op], b, START, |a|);
    HeadRight(a, [op], START, 0);
  }

  lemma HeadOnRight(a: seq<Token>, op: Token, b: seq<Token>, i: nat)
    requires After(a, START) == START
    ensures HeadAt(a + [op] + b, START, |a| + 1 + i) <==> HeadAt(b, Next(START, op), i)
  {
    AfterConcat(a, [op], START);
    HeadsOne(op, START);
    var ao := a + [op];
    assert |ao| == |a| + 1 && After(ao, START) == Next(START, op);
    HeadRight(ao, b, START, i);
  }

  lemma ChosenBinds(a: seq<Token>, op: Token, b: seq<Token>, x: seq<Token>, y: seq<Token>)
    requires After(a, START) == START && HeadsAre(a, START, x) && HeadsAre(b, Next(START, op), y)
    requires var ts := a + [op] + b; Chosen(ts, |ts|, At(|a|))
    ensures forall t :: t in x ==> AtLeast(t, op)
    ensures forall t :: t in y ==> Tighter(t, op)
  {
    var ts := a + [op] + b;
    forall t | t in x ensures AtLeast(t, op) {
      var i: nat :| HeadAt(a, START, i) && a[i] == t;
      HeadOnLeft(a, op, b, i);
      JoinedAt(a, op, b, i);
      assert ts[i] == t;
    }
    forall t | t in y ensures Tighter(t, op) {
      var i: nat :| HeadAt(b, Next(START, op), i) && b[i] == t;
      HeadOnRight(a, op, b, i);
      JoinedAt(a, op, b, i);
      assert ts[|a| + 1 + i] == t;
    }
  }

  lemma BindsChosen(a: seq<Token>, op: Token, b: seq<Token>, x: seq<Token>, y: seq<Token>)
    requires After(a, START) == START && HeadsAre(a, START, x) && HeadsAre(b, Next(START, op), y) && op.kind == Operator
    requires forall t :: t in x ==> AtLeast(t, op)
    requires forall t :: t in y ==> Tighter(t, op)
    ensures var ts := a + [op] + b; Chosen(ts, |ts|, At(|a|))
  {
    var ts := a + [op] + b;
    HeadInMiddle(a, op, b);
    forall j: nat | j < |a| && HeadAt(ts, START, j) ensures AtLeast(ts[j], op) {
      HeadOnLeft(a, op, b, j);
      JoinedAt(a, op, b, j);
    }
    forall j: nat | |a| < j < |ts| && HeadAt(ts, START, j) ensures Tighter(ts[j], op) {
      HeadOnRight(a, op, b, j - |a| - 1);
      JoinedAt(a, op, b, j - |a| - 1);
    }
    JoinedAt(a, op, b, 0);
  }

  lemma ChosenUnary(op: Token, e: Expr)
    requires WellShaped(e) && op.kind == Operator
    ensures var ts := [op] + Flat(e);
            Chosen(ts, |ts|, At(0)) <==> forall t :: t in Inner(e) ==> Tighter(t, op)
  {
    var b := Flat(e);
    var ts := [op] + b;
    var mid := Next(START, op);
    ScanTree(e, mid);
    HeadsOne(op, START);
    forall i: nat
      ensures HeadAt(ts, START, i) <==> if i == 0 then true else HeadAt(b, mid, i - 1)
    {
      HeadConcat([op], b, START, i);
    }
    if Chosen(ts, |ts|, At(0)) {
      UnaryBinds(op, b, mid, Inner(e));
    }
    assert forall j :: 0 < j < |ts| ==> ts[j] == b[j - 1];
  }

  lemma UnaryBinds(op: Token, b: seq<Token>, mid: Scan, heads: seq<Token>)
    requires HeadsAre(b, mid, heads) && Chosen([op] + b, 1 + |b|, At(0))
    requires forall i: nat {:trigger HeadAt([op] + b, START, i)} ::
               HeadAt([op] + b, START, i) <==> if i == 0 then true else HeadAt(b, mid, i - 1)
    ensures forall t :: t in heads ==> Tighter(t, op)
  {
    var ts := [op] + b;
    forall t | t in heads
      ensures Tighter(t, op)
    {
      var i: nat :| HeadAt(b, mid, i) && b[i] == t;
      assert ts[1 + i] == t && HeadAt(ts, START, 1 + i);
    }
  }

  lemma SoundUnary(ts: seq<Token>, op: Token, e: Expr)
    requires ts == [op] + Flat(e) && WellShaped(e) && Chosen(ts, |ts|, At(0))
    requires op.text == "not" || op.text == "-"
    ensures WellShaped(Unary(op, e))
  {
    assert ts[..0] == [];
    assert op.kind == Operator;
    ChosenUnary(op, e);
  }

  lemma SoundBinary(ts: seq<Token>, l: Expr, op: Token, r: Expr)
    requires ts == Flat(l) + [op] + Flat(r) && WellShaped(l) && WellShaped(r)
    requires Chosen(ts, |ts|, At(|Flat(l)|)) && op.text != "where"
    ensures WellShaped(Binary(l, op, r))
  {
    assert ts[|Flat(l)|] == op;
    assert op.kind == Operator;
    ChosenBinary(l, op, r);
  }

  ghost predicate Sound(ts: seq<Token>, o: Outcome) {
    o.Parsed? ==> WellShaped(o.e) && Flat(o.e) == ts
  }

  lemma {:induction false} ParseSound(ts: seq<Token>)
    ensures Sound(ts, Parse(ts))
    decreases |ts|, 1
  {
    if ts != [] {
      SplitIsChosen(ts, |ts|);
      match SplitTo(ts, |ts|)
      case NoOp => PrimarySound(ts);
      case At(i) => SplitSound(ts, i);
      case Abort =>
    }
  }

  lemma {:induction false} PrimarySound(ts: seq<Token>)
    requires ts != []
    ensures Sound(ts, Primary(ts))
    decreases |ts|, 0
  {
    var last := ts[|ts| - 1];
    if ts[0].kind == LParens && last.kind == RParens {
      ParseSound(ts[1..|ts| - 1]);
      assert [ts[0]] + ts[1..|ts| - 1] + [last] == ts;
    }
  }

  lemma Rejoin(ts: seq<Token>, i: nat)
    requires i < |ts|
    ensures ts[..i] + [ts[i]] + ts[i + 1..] == ts
  {
  }

  lemma {:induction false} SplitSound(ts: seq<Token>, i: nat)
    requires ts != [] && SplitTo(ts, |ts|) == At(i) && Chosen(ts, |ts|, At(i))
    ensures Sound(ts, Parse(ts))
    decreases |ts|, 0
  {
    var l, r := Parse(ts[..i]), Parse(ts[i + 1..]);
    ParseSound(ts[i + 1..]);
    if i == 0 {
      assert [ts[0]] + ts[1..] == ts;
      if r.Parsed? && (ts[0].text == "not" || ts[0].text == "-") {
        SoundUnary(ts, ts[0], r.e);
      }
    } else {
      ParseSound(ts[..i]);
      Rejoin(ts, i);
      if l.Parsed? && r.Parsed? && ts[i].text != "where" {
        SoundBinary(ts, l.e, ts[i], r.e);
      }
    }
  }

  lemma {:induction false} FirstToken(e: Expr)
    requires WellShaped(e)
    ensures Flat(e)[0] != Token(Keyword, "def")
  {
    match e
    case Binary(l, _, _) => FirstToken(l);
    case _ =>
  }

  lemma {:induction false} ParseComplete(e: Expr)
    requires WellShaped(e)
    ensures Parse(Flat(e)) == Parsed(e)
  {
    var ts := Flat(e);
    FirstToken(e);
    match e
    case Leaf(t) =>
      HeadsOne(t, START);
      ChosenIsSplit(ts, |ts|, NoOp);
    case Paren(o, i, c) =>
      ScanTree(e, START);
      ChosenIsSplit(ts, |ts|, NoOp);
      ParseComplete(i);
      assert ts[1..|ts| - 1] == Flat(i);
    case Unary(op, a) =>
      ChosenUnary(op, a);
      ChosenIsSplit(ts, |ts|, At(0));
      ParseComplete(a);
      assert ts[1..] == Flat(a);
    case Binary(l, op, r) =>
      ParseComplete(l);
      ParseComplete(r);
      BinaryComplete(l, op, r);
  }

  lemma BinaryComplete(l: Expr, op: Token, r: Expr)
    requires WellShaped(Binary(l, op, r)) && Parse(Flat(l)) == Parsed(l) && Parse(Flat(r)) == Parsed(r)
    ensures Parse(Flat(Binary(l, op, r))) == Parsed(Binary(l, op, r))
  {
    var ts, n := Flat(Binary(l, op, r)), |Flat(l)|;
    FirstToken(Binary(l, op, r));
    ChosenBinary(l, op, r);
    ChosenIsSplit(ts, |ts|, At(n));
    assert ts[..n] == Flat(l) && ts[n] == op && ts[n + 1..] == Flat(r);
  }

  /** The parser returns a tree if and only if it is a well-shaped tree of exactly these tokens. */
  lemma ParseIsTheTree(ts: seq<Token>, e: Expr)
    ensures Parse(ts) == Parsed(e) <==> WellShaped(e) && Flat(e) == ts
  {
    ParseSound(ts);
    if WellShaped(e) {
      ParseComplete(e);
    }
  }

  /** Hence no token list has two well-shaped readings. */
  lemma Unambiguous(e: Expr, f: Expr)
    requires WellShaped(e) && WellShaped(f) && Flat(e) == Flat(f)
    ensures e == f
  {
    ParseComplete(e);
    ParseComplete(f);
  }

  // ----- Atoms joined by operators always parse -----

  predicate Atom(e: Expr) {
    WellShaped(e) && (e.Leaf? || e.Paren?)
  }

  predicate Joins(t: Token) {
    t.kind == Operator && Precedence(t) > 0 && t.text != "where"
  }

  ghost predicate Chain(atoms: seq<Expr>, ops: seq<Token>) {
    |atoms| == |ops| + 1 && (forall i :: 0 <= i < |atoms| ==> Atom(atoms[i])) &&
    forall i :: 0 <= i < |ops| ==> Joins(ops[i])
  }

  /** The operator at which a chain of operators is split: the last of the loosest. */
  function Loosest(ops: seq<Token>): (k: nat)
    requires ops != []
    ensures k < |ops|
    ensures forall j :: 0 <= j < k ==> Precedence(ops[j]) >= Precedence(ops[k])
    ensures forall j :: k < j < |ops| ==> Precedence(ops[j]) > Precedence(ops[k])
  {
    if |ops| == 1 then 0
    else
      var k := Loosest(ops[..|ops| - 1]);
      if Precedence(ops[k]) >= Precedence(ops[|ops| - 1]) then |ops| - 1 else k
  }

  function ChainTokens(atoms: seq<Expr>, ops: seq<Token>): seq<Token>
    requires |atoms| == |ops| + 1
    decreases |ops|
  {
    if ops == [] then Flat(atoms[0]) else Flat(atoms[0]) + [ops[0]] + ChainTokens(atoms[1..], ops[1..])
  }

  lemma {:induction false} ChainSplit(atoms: seq<Expr>, ops: seq<Token>, k: nat)
    requires |atoms| == |ops| + 1 && k < |ops|
    ensures ChainTokens(atoms, ops) ==
            ChainTokens(atoms[..k + 1], ops[..k]) + [ops[k]] + ChainTokens(atoms[k + 1..], ops[k + 1..])
    decreases k
  {
    if k > 0 {
      ChainSplit(atoms[1..], ops[1..], k - 1);
      assert atoms[1..][..k] == atoms[..k + 1][1..] && ops[1..][..k - 1] == ops[..k][1..];
      assert atoms[1..][k..] == atoms[k + 1..] && ops[1..][k..] == ops[k + 1..];
    }
  }

  lemma ChainRoot(l: Expr, r: Expr, ops: seq<Token>)
    requires ops != [] && forall i :: 0 <= i < |ops| ==> Joins(ops[i])
    requires WellShaped(l) && WellShaped(r)
    requires Outer(l) == ops[..Loosest(ops)] && Inner(r) == ops[Loosest(ops) + 1..]
    ensures WellShaped(Binary(l, ops[Loosest(ops)], r))
  {
    var k := Loosest(ops);
    forall t | t in ops[..k]
      ensures AtLeast(t, ops[k])
    {
      var j :| 0 <= j < k && ops[j] == t;
    }
    forall t | t in ops[k + 1..]
      ensures Tighter(t, ops[k])
    {
      var j :| k < j < |ops| && ops[j] == t;
    }
  }

  ghost predicate Built(e: Expr, tokens: seq<Token>, ops: seq<Token>) {
    WellShaped(e) && Flat(e) == tokens && Outer(e) == ops && Inner(e) == ops
  }

  lemma BuiltJoin(l: Expr, op: Token, r: Expr, x: seq<Token>, y: seq<Token>, a: seq<Token>, b: seq<Token>)
    requires Built(l, x, a) && Built(r, y, b) && WellShaped(Binary(l, op, r))
    ensures Built(Binary(l, op, r), x + [op] + y, a + [op] + b)
  {
  }

  lemma SubChains(atoms: seq<Expr>, ops: seq<Token>, k: nat)
    requires Chain(atoms, ops) && k < |ops|
    ensures Chain(atoms[..k + 1], ops[..k]) && Chain(atoms[k + 1..], ops[k + 1..])
  {
  }

  lemma {:induction false} BuildChain(atoms: seq<Expr>, ops: seq<Token>) returns (e: Expr)
    requires Chain(atoms, ops)
    ensures Built(e, ChainTokens(atoms, ops), ops)
    decreases |ops|
  {
    if ops == [] {
      e := atoms[0];
    } else {
      var k := Loosest(ops);
      var x, y, a, b := atoms[..k + 1], atoms[k + 1..], ops[..k], ops[k + 1..];
      SubChains(atoms, ops, k);
      var l := BuildChain(x, a);
      var r := BuildChain(y, b);
      e := BuildStep(atoms, ops, k, x, y, a, b, l, r);
    }
  }

  lemma BuildStep(atoms: seq<Expr>, ops: seq<Token>, k: nat, x: seq<Expr>, y: seq<Expr>, a: seq<Token>, b: seq<Token>,
                  l: Expr, r: Expr) returns (e: Expr)
    requires ops != [] && Chain(atoms, ops) && k == Loosest(ops)
    requires x == atoms[..k + 1] && y == atoms[k + 1..] && a == ops[..k] && b == ops[k + 1..]
    requires Built(l, ChainTokens(x, a), a) && Built(r, ChainTokens(y, b), b)
    ensures Built(e, ChainTokens(atoms, ops), ops)
  {
    e := Binary(l, ops[k], r);
    ChainRoot(l, r, ops);
    BuiltJoin(l, ops[k], r, ChainTokens(x, a), ChainTokens(y, b), a, b);
    ChainSplit(atoms, ops, k);
    Rejoin(ops, k);
  }

  /** Atoms joined by binary operators always parse, into a tree that keeps the operators in order. */
  lemma ChainsParse(atoms: seq<Expr>, ops: seq<Token>)
    requires Chain(atoms, ops)
    ensures var o := Parse(ChainTokens(atoms, ops)); o.Parsed? && WellShaped(o.e) && Outer(o.e) == ops
  {
    var e := BuildChain(atoms, ops);
    ParseComplete(e);
  }

  // ----- The operators by name -----

  /** The operators from the loosest to the tightest; those of one class bind alike, and to the left. */
  const CLASSES: seq<set<string>> :=
    [{"not"}, {"where"}, {"or"}, {"and"}, {"=", "!=", "<", ">", "<=", ">="}, {"+", "-"}, {"*", "/"}, {"%"}, {"^"},
     {"d"}, {"."}]

  predicate InClass(t: Token, i: nat) {
    t.kind == Operator && i < |CLASSES| && t.text in CLASSES[i]
  }

  /** A binary operator; a `where` is parsed by a part that is not modelled. */
  predicate IsBinary(t: Token, i: nat) {
    InClass(t, i) && t.text != "where"
  }

  /** A name, a number or a string. */
  predicate IsOperand(t: Token) {
    t.kind == Identifier || t.kind == Integer || t.kind == Decimal || t.kind == StringLiteral
  }

  predicate IsPrefix(t: Token) {
    t.kind == Operator && (t.text == "not" || t.text == "-")
  }

  lemma ClassIs(t: Token, i: nat)
    requires InClass(t, i)
    ensures Precedence(t) == i + 1
  {
    if i < 4 {
      assert i == 0 || i == 1 || i == 2 || i == 3;
    } else if i < 8 {
      assert i == 4 || i == 5 || i == 6 || i == 7;
    } else {
      assert i == 8 || i == 9 || i == 10;
    }
  }

  /** Of two operators the tighter one takes the operand between them, the left one if they bind alike. */
  lemma TwoOperators(a: Token, p: Token, b: Token, q: Token, c: Token, i: nat, j: nat)
    requires IsOperand(a) && IsOperand(b) && IsOperand(c) && IsBinary(p, i) && IsBinary(q, j)
    ensures Parse([a, p, b, q, c]) ==
            Parsed(if j <= i then Binary(Binary(Leaf(a), p, Leaf(b)), q, Leaf(c))
                   else Binary(Leaf(a), p, Binary(Leaf(b), q, Leaf(c))))
  {
    ClassIs(p, i);
    ClassIs(q, j);
    if j <= i {
      LeftFirst(a, p, b, q, c);
    } else {
      RightFirst(a, p, b, q, c);
    }
  }

  lemma LeftFirst(a: Token, p: Token, b: Token, q: Token, c: Token)
    requires IsLeaf(a) && IsLeaf(b) && IsLeaf(c) && p.kind == Operator && q.kind == Operator
    requires p.text != "where" && q.text != "where" && AtLeast(p, q) && AtLeast(p, p)
    ensures Parse([a, p, b, q, c]) == Parsed(Binary(Binary(Leaf(a), p, Leaf(b)), q, Leaf(c)))
  {
    Pair(a, p, b);
    var e := Binary(Binary(Leaf(a), p, Leaf(b)), q, Leaf(c));
    assert Flat(e) == [a, p, b] + [q] + [c] == [a, p, b, q, c];
    ParseComplete(e);
  }

  lemma RightFirst(a: Token, p: Token, b: Token, q: Token, c: Token)
    requires IsLeaf(a) && IsLeaf(b) && IsLeaf(c) && p.kind == Operator && q.kind == Operator
    requires p.text != "where" && q.text != "where" && Tighter(q, p) && AtLeast(p, p)
    ensures Parse([a, p, b, q, c]) == Parsed(Binary(Leaf(a), p, Binary(Leaf(b), q, Leaf(c))))
  {
    Pair(b, q, c);
    var e := Binary(Leaf(a), p, Binary(Leaf(b), q, Leaf(c)));
    assert Flat(e) == [a] + [p] + [b, q, c] == [a, p, b, q, c];
    ParseComplete(e);
  }

  lemma Pair(a: Token, p: Token, b: Token)
    ensures var e := Binary(Leaf(a), p, Leaf(b)); Flat(e) == [a, p, b] && Outer(e) == [p] && Inner(e) == [p]
  {
  }

  /** A prefix binds as its operator does: what is tighter belongs to its operand. */
  lemma PrefixFirst(u: Token, a: Token, q: Token, b: Token, i: nat, j: nat)
    requires IsPrefix(u) && InClass(u, i) && IsOperand(a) && IsOperand(b) && IsBinary(q, j)
    ensures Parse([u, a, q, b]) ==
            Parsed(if j <= i then Binary(Unary(u, Leaf(a)), q, Leaf(b)) else Unary(u, Binary(Leaf(a), q, Leaf(b))))
  {
    ClassIs(u, i);
    ClassIs(q, j);
    if j <= i {
      var e := Binary(Unary(u, Leaf(a)), q, Leaf(b));
      assert Flat(Unary(u, Leaf(a))) == [u, a];
      assert Flat(e) == [u, a] + [q] + [b] == [u, a, q, b];
      assert Outer(Unary(u, Leaf(a))) == [u];
      ParseComplete(e);
    } else {
      Pair(a, q, b);
      var e := Unary(u, Binary(Leaf(a), q, Leaf(b)));
      assert Flat(e) == [u] + [a, q, b] == [u, a, q, b];
      ParseComplete(e);
    }
  }

  /** Behind another operator a prefix belongs to the operand, however loosely it binds. */
  lemma PrefixBehind(a: Token, p: Token, u: Token, b: Token, i: nat)
    requires IsOperand(a) && IsBinary(p, i) && IsPrefix(u) && IsOperand(b)
    ensures Parse([a, p, u, b]) == Parsed(Binary(Leaf(a), p, Unary(u, Leaf(b))))
  {
    ClassIs(p, i);
    var e := Binary(Leaf(a), p, Unary(u, Leaf(b)));
    assert Flat(Unary(u, Leaf(b))) == [u, b];
    assert Flat(e) == [a, p, u, b];
    assert Inner(Unary(u, Leaf(b))) == [];
    ParseComplete(e);
  }

  /** Parentheses around what can be parsed hold it together. */
  lemma ParenthesesHold(ts: seq<Token>, e: Expr, o: Token, c: Token)
    requires Parse(ts) == Parsed(e) && o.kind == LParens && c.kind == RParens
    ensures Parse([o] + ts + [c]) == Parsed(Paren(o, e, c))
  {
    ParseIsTheTree(ts, e);
    ParseComplete(Paren(o, e, c));
  }

  // ----- Where the parser leaves this model, and what it refuses -----

  /** A token by itself: an operand, the word `functions`, a stray bracket, or an error. */
  lemma SingleToken(t: Token)
    ensures Parse([t]) ==
            if IsOperand(t) || t == Token(Keyword, "functions") then Parsed(Leaf(t))
            else if t.kind == RSquare then Outside
            else Failed
  {
    assert StateAt([t], START, 0) == START;
    assert SplitTo([t], 0) == NoOp;
    assert HeadAt([t], START, 0) <==> t.kind == Operator;
  }

  lemma DefinitionIsOutside(name: Token, rest: seq<Token>)
    requires name.kind == Identifier
    ensures Parse([Token(Keyword, "def"), name] + rest) == Outside
  {
  }

  /** Any other keyword before an operand is an error, and so is `def` before one that is no name. */
  lemma KeywordFirst(k: Token, t: Token)
    requires k.kind == Keyword && IsOperand(t)
    ensures Parse([k, t]) == if k.text == "def" && t.kind == Identifier then Outside else Failed
  {
    HeadsOne(k, START);
    HeadsOne(t, START);
    assert [k] + [t] == [k, t];
    HeadsConcat([k], [t], START, [], []);
    var none: seq<Token> := [];
    assert none + none == none;
    NoHeads([k, t]);
  }

  predicate Enclose(o: Token, c: Token) {
    (o.kind == LParens && c.kind == RParens) || (o.kind == LSquare && c.kind == RSquare)
  }

  /** Brackets of either kind hide the operators of an expression between them. */
  lemma Enclosed(o: Token, e: Expr, c: Token, st: Scan)
    requires Enclose(o, c) && WellShaped(e) && st.parens >= 0
    ensures HeadsAre([o] + Flat(e) + [c], st, [])
    ensures After([o] + Flat(e) + [c], st) == Scan(st.parens, false)
  {
    HeadsOne(o, st);
    var inside := Next(st, o);
    ScanTree(e, inside);
    HeadsOne(c, Scan(inside.parens, false));
    AfterConcat([o], Flat(e), st);
    AfterConcat([o] + Flat(e), [c], st);
    HeadsConcat([o], Flat(e), st, [], []);
    HeadsConcat([o] + Flat(e), [c], st, [], []);
    var none: seq<Token> := [];
    assert none + none == none;
  }

  lemma NoHeads(ts: seq<Token>)
    requires HeadsAre(ts, START, [])
    ensures SplitTo(ts, |ts|) == NoOp
  {
    ChosenIsSplit(ts, |ts|, NoOp);
  }

  /** An operand before an expression in brackets has no operator outside brackets. */
  lemma AppliedScan(a: Token, o: Token, ts: seq<Token>, c: Token)
    requires IsOperand(a) && Enclose(o, c) && Parse(ts).Parsed?
    ensures var x := [a] + ([o] + ts + [c]); HeadsAre(x, START, []) && After(x, START) == START
  {
    var e := Parse(ts).e;
    ParseIsTheTree(ts, e);
    HeadsOne(a, START);
    Enclosed(o, e, c, START);
    HeadsConcat([a], [o] + ts + [c], START, [], []);
    AfterConcat([a], [o] + ts + [c], START);
    var none: seq<Token> := [];
    assert none + none == none;
  }

  /** This is an index, a call, or, in front of parentheses and unless it is a name, an error. */
  lemma Applied(a: Token, o: Token, ts: seq<Token>, c: Token)
    requires IsOperand(a) && Enclose(o, c) && Parse(ts).Parsed?
    ensures Parse([a] + ([o] + ts + [c])) == if o.kind == LSquare || a.kind == Identifier then Outside else Failed
  {
    AppliedScan(a, o, ts, c);
    NoHeads([a] + ([o] + ts + [c]));
  }

  lemma OneHead(x: seq<Token>, q: Token, j: nat, b: Token)
    requires HeadsAre(x, START, []) && After(x, START) == START && IsBinary(q, j) && IsOperand(b)
    ensures SplitTo(x + [q] + [b], |x| + 2) == At(|x|)
  {
    HeadsOne(b, Next(START, q));
    BindsChosen(x, q, [b], [], []);
    ChosenIsSplit(x + [q] + [b], |x| + 2, At(|x|));
  }

  /** Behind the closing bracket operators count again: what stands before one is parsed by itself. */
  lemma AppliedThenOperator(a: Token, o: Token, ts: seq<Token>, c: Token, q: Token, j: nat, b: Token)
    requires IsOperand(a) && Enclose(o, c) && Parse(ts).Parsed? && IsBinary(q, j) && IsOperand(b)
    ensures Parse([a] + ([o] + ts + [c]) + [q] + [b]) == Parse([a] + ([o] + ts + [c]))
  {
    var x := [a] + ([o] + ts + [c]);
    AppliedScan(a, o, ts, c);
    Applied(a, o, ts, c);
    OneHead(x, q, j, b);
    var all := x + [q] + [b];
    assert all[..|x|] == x && all[|x|] == q && |all| == |x| + 2 && all[0] == a;
  }

  /** Two operands beside each other are an error, also in front of an expression in parentheses. */
  lemma TwoOperands(a: Token, b: Token, o: Token, ts: seq<Token>, c: Token)
    requires IsOperand(a) && IsOperand(b) && o.kind == LParens && c.kind == RParens && Parse(ts).Parsed?
    ensures Parse([a, b]) == Parse([a, b] + ([o] + ts + [c])) == Failed
  {
    var e := Parse(ts).e;
    ParseIsTheTree(ts, e);
    HeadsOne(a, START);
    HeadsOne(b, Next(START, a));
    assert [a] + [b] == [a, b];
    AfterConcat([a], [b], START);
    HeadsConcat([a], [b], START, [], []);
    var none: seq<Token> := [];
    assert none + none == none;
    Enclosed(o, e, c, After([a, b], START));
    HeadsConcat([a, b], [o] + ts + [c], START, [], []);
    NoHeads([a, b]);
    NoHeads([a, b] + ([o] + ts + [c]));
  }

  /** A list, or a map, between square brackets. */
  lemma ListIsOutside(o: Token, ts: seq<Token>, c: Token)
    requires o.kind == LSquare && c.kind == RSquare && Parse(ts).Parsed?
    ensures Parse([o] + ts + [c]) == Outside
  {
    var e := Parse(ts).e;
    ParseIsTheTree(ts, e);
    Enclosed(o, e, c, START);
    NoHeads([o] + ts + [c]);
  }
}
