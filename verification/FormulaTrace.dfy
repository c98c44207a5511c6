/** What evaluation under the debugger is to write: a record for every call when it is opened and when it is closed,
    for just the parts of an expression that are evaluated, in order. */
module FormulaTrace {
  import opened Sequences
  import opened FormulaEval

  /** What a record shows: the text of the whole formula, or the printed form of an expression. */
  datatype Text = Formula(e: Expr) | Printed(e: Expr)

  /** What the caller says of the next call: which argument it evaluates, and under what name. */
  datatype Role = Role(arg: int, name: string)

  const NO_ROLE := Role(-1, "")
  const LEFT_OF_DOT := Role(0, "left.")
  const LEFT_OPERAND := Role(0, "left_OP")
  const RIGHT_OPERAND := Role(1, "OP_right")

  /** One record of a call. */
  datatype Info = Info(role: Role, counter: nat, level: nat, text: Text, value: Value, evaluated: bool)

  /** The records written, the number of the next call, and the calls left open, as an exception does. */
  datatype Log = Log(recs: seq<Info>, next: nat, left: seq<Info>)

  function Opening(role: Role, next: nat, level: nat, text: Text): Info {
    Info(role, next, level, text, Null, false)
  }

  function Closing(call: Info, v: Value): Info {
    call.(value := v, evaluated := true)
  }

  /** One log after another. */
  function Join(a: Log, b: Log): Log {
    Log(a.recs + b.recs, b.next, a.left + b.left)
  }

  /** A call, with its result and what it wrote itself. */
  function Enclose(call: Info, r: Result, inner: Log): Log {
    if r.Ok? then Log([call] + inner.recs + [Closing(call, r.v)], inner.next, [])
    else Log([call] + inner.recs, inner.next, [call] + inner.left)
  }

  /** The log of a call of `e`, at a level, numbered on from `next`. */
  function CallLog(ops: Ops, e: Expr, s: Scope, role: Role, next: nat, level: nat): Log
    decreases Size(e) + ScopeSize(s), 2
  {
    Enclose(Opening(role, next, level, Printed(e)), Eval(ops, e, s).0, PartsLog(ops, e, s, next + 1, level + 1))
  }

  /** The log of the parts of `e` that are evaluated; where-clauses are evaluated without the debugger. */
  function PartsLog(ops: Ops, e: Expr, s: Scope, next: nat, level: nat): Log
    decreases Size(e) + ScopeSize(s), 1
  {
    match e
    case Const(_) => Log([], next, [])
    case Id(_) => Log([], next, [])
    case Unary(_, x) => CallLog(ops, x, s, NO_ROLE, next, level)
    case Binary(_, l, r) => OperandsLog(ops, l, r, s, next, level)
    case Dot(l, r) =>
      var a := CallLog(ops, l, s, LEFT_OF_DOT, next, level);
      var (v, t) := Eval(ops, l, s);
      if v.Ok? && v.v.List? then
        BareSize(s, t);
        Join(a, CallLog(ops, r, DotScope(v.v.items, t), NO_ROLE, a.next, level))
      else a
    case Where(body, cs) => CallLog(ops, body, WhereScope(cs, s, map[]), NO_ROLE, next, level)
    case ListOf(xs) => ListLog(ops, xs, s, next, level)
  }

  function OperandsLog(ops: Ops, l: Expr, r: Expr, s: Scope, next: nat, level: nat): Log
    decreases Size(l) + Size(r) + ScopeSize(s), 3
  {
    var a := CallLog(ops, l, s, LEFT_OPERAND, next, level);
    var (v, t) := Eval(ops, l, s);
    if v == Error then a
    else
      BareSize(s, t);
      Join(a, CallLog(ops, r, t, RIGHT_OPERAND, a.next, level))
  }

  function ListLog(ops: Ops, xs: Exprs, s: Scope, next: nat, level: nat): Log
    decreases ListSize(xs) + ScopeSize(s), 3
  {
    if xs == Nil then Log([], next, [])
    else
      var a := CallLog(ops, xs.e, s, NO_ROLE, next, level);
      var (v, t) := Eval(ops, xs.e, s);
      if v == Error then a
      else
        BareSize(s, t);
        Join(a, ListLog(ops, xs.rest, t, a.next, level))
  }

  /** A whole formula: its own record stands around those of its expression. */
  function FormulaLog(ops: Ops, e: Expr, s: Scope, role: Role, next: nat, level: nat): Log {
    Enclose(Opening(role, next, level, Formula(e)), Eval(ops, e, s).0, CallLog(ops, e, s, NO_ROLE, next + 1, level + 1))
  }

  // ----- Reading a trace back -----

  /** The calls that are open, and the number of the next one. */
  datatype Calls = Calls(open: seq<Info>, next: nat) | Bad

  function Opened(i: Info): Info {
    i.(value := Null, evaluated := false)
  }

  /** Reads a trace: a record that is not evaluated opens the next call at the next level, one that is
      closes the innermost. */
  function Replay(t: seq<Info>, c: Calls): Calls {
    if t == [] || c == Bad then c
    else Replay(t[1..], ReplayOne(t[0], c))
  }

  function ReplayOne(i: Info, c: Calls): Calls {
    if c == Bad then Bad
    else if !i.evaluated then
      if i == Opened(i) && i.level == |c.open| && i.counter == c.next then Calls(c.open + [i], c.next + 1) else Bad
    else if c.open != [] && c.open[|c.open| - 1] == Opened(i) then Calls(c.open[..|c.open| - 1], c.next)
    else Bad
  }

  lemma {:induction false} ReplayAppends(t: seq<Info>, u: seq<Info>, c: Calls)
    ensures Replay(t + u, c) == Replay(u, Replay(t, c))
  {
    if t == [] {
      assert t + u == u;
    } else if c != Bad {
      assert (t + u)[1..] == t[1..] + u;
      ReplayAppends(t[1..], u, ReplayOne(t[0], c));
    } else {
      assert Replay(u, c) == c;
    }
  }

  lemma ReplaySingle(i: Info, c: Calls)
    ensures Replay([i], c) == ReplayOne(i, c)
  {
    assert Replay([i][1..], ReplayOne(i, c)) == ReplayOne(i, c);
  }

  /** A log reads back as calls numbered in order, each closed before the one around it; what is left open
      is left open. */
  ghost predicate Replays(log: Log, open: seq<Info>, next: nat) {
    Replay(log.recs, Calls(open, next)) == Calls(open + log.left, log.next)
  }

  lemma JoinReplays(a: Log, b: Log, open: seq<Info>, next: nat)
    requires Replays(a, open, next) && a.left == [] && Replays(b, open, a.next)
    ensures Replays(Join(a, b), open, next)
  {
    ReplayAppends(a.recs, b.recs, Calls(open, next));
    assert open + a.left == open && a.left + b.left == b.left;
  }

  lemma EncloseReplays(call: Info, r: Result, inner: Log, open: seq<Info>)
    requires call == Opened(call) && call.level == |open|
    requires Replays(inner, open + [call], call.counter + 1) && (r.Ok? ==> inner.left == [])
    ensures Replays(Enclose(call, r, inner), open, call.counter)
  {
    var c, d := Calls(open, call.counter), Calls(open + [call], call.counter + 1);
    ReplaySingle(call, c);
    ReplayAppends([call], inner.recs, c);
    if r.Ok? {
      var last := Closing(call, r.v);
      ReplayAppends([call] + inner.recs, [last], c);
      assert open + [call] + inner.left == open + [call] && (open + [call])[..|open|] == open;
      ReplaySingle(last, Calls(open + [call], inner.next));
      assert open + [] == open;
    } else {
      Associate(open, [call], inner.left);
    }
  }

  lemma {:induction false} CallReplays(ops: Ops, e: Expr, s: Scope, role: Role, next: nat, open: seq<Info>)
    ensures Replays(CallLog(ops, e, s, role, next, |open|), open, next)
    ensures CallLog(ops, e, s, role, next, |open|).left == [] <==> Eval(ops, e, s).0.Ok?
    decreases Size(e) + ScopeSize(s), 2
  {
    var call := Opening(role, next, |open|, Printed(e));
    PartsReplay(ops, e, s, next + 1, open + [call]);
    EncloseReplays(call, Eval(ops, e, s).0, PartsLog(ops, e, s, next + 1, |open| + 1), open);
  }

  lemma {:induction false} PartsReplay(ops: Ops, e: Expr, s: Scope, next: nat, open: seq<Info>)
    ensures Replays(PartsLog(ops, e, s, next, |open|), open, next)
    ensures Eval(ops, e, s).0.Ok? ==> PartsLog(ops, e, s, next, |open|).left == []
    decreases Size(e) + ScopeSize(s), 1
  {
    match e
    case Const(_) => assert open + [] == open;
    case Id(_) => assert open + [] == open;
    case Unary(_, x) => CallReplays(ops, x, s, NO_ROLE, next, open);
    case Binary(_, l, r) => BinaryReplays(ops, l, r, s, next, open);
    case Dot(l, r) => DotReplays(ops, l, r, s, next, open);
    case Where(body, cs) => CallReplays(ops, body, WhereScope(cs, s, map[]), NO_ROLE, next, open);
    case ListOf(xs) => ListReplays(ops, xs, s, next, open, []);
  }

  lemma {:induction false} BinaryReplays(ops: Ops, l: Expr, r: Expr, s: Scope, next: nat, open: seq<Info>)
    ensures var log := OperandsLog(ops, l, r, s, next, |open|);
            var (v, t) := Eval(ops, l, s);
            Replays(log, open, next) && (v.Ok? && Eval(ops, r, t).0.Ok? ==> log.left == [])
    decreases Size(l) + Size(r) + ScopeSize(s), 4
  {
    CallReplays(ops, l, s, LEFT_OPERAND, next, open);
    var a := CallLog(ops, l, s, LEFT_OPERAND, next, |open|);
    var (v, t) := Eval(ops, l, s);
    if v.Ok? {
      BareSize(s, t);
      CallReplays(ops, r, t, RIGHT_OPERAND, a.next, open);
      JoinReplays(a, CallLog(ops, r, t, RIGHT_OPERAND, a.next, |open|), open, next);
    }
  }

  lemma {:induction false} DotReplays(ops: Ops, l: Expr, r: Expr, s: Scope, next: nat, open: seq<Info>)
    ensures var log := PartsLog(ops, Dot(l, r), s, next, |open|);
            Replays(log, open, next) && (Eval(ops, Dot(l, r), s).0.Ok? ==> log.left == [])
    decreases Size(l) + Size(r) + ScopeSize(s), 3
  {
    CallReplays(ops, l, s, LEFT_OF_DOT, next, open);
    var a := CallLog(ops, l, s, LEFT_OF_DOT, next, |open|);
    var (v, t) := Eval(ops, l, s);
    if v.Ok? && v.v.List? {
      BareSize(s, t);
      CallReplays(ops, r, DotScope(v.v.items, t), NO_ROLE, a.next, open);
      JoinReplays(a, CallLog(ops, r, DotScope(v.v.items, t), NO_ROLE, a.next, |open|), open, next);
    }
  }

  lemma {:induction false} ListReplays(ops: Ops, xs: Exprs, s: Scope, next: nat, open: seq<Info>, done: seq<Value>)
    ensures Replays(ListLog(ops, xs, s, next, |open|), open, next)
    ensures EvalList(ops, xs, s, done).0.Ok? ==> ListLog(ops, xs, s, next, |open|).left == []
    decreases ListSize(xs) + ScopeSize(s), 3
  {
    if xs == Nil {
      assert open + [] == open;
    } else {
      CallReplays(ops, xs.e, s, NO_ROLE, next, open);
      var a := CallLog(ops, xs.e, s, NO_ROLE, next, |open|);
      var (v, t) := Eval(ops, xs.e, s);
      if v.Ok? {
        BareSize(s, t);
        ListReplays(ops, xs.rest, t, a.next, open, done + [v.v]);
        JoinReplays(a, ListLog(ops, xs.rest, t, a.next, |open|), open, next);
      }
    }
  }

  lemma FormulaReplays(ops: Ops, e: Expr, s: Scope, role: Role, next: nat, open: seq<Info>)
    ensures Replays(FormulaLog(ops, e, s, role, next, |open|), open, next)
    ensures FormulaLog(ops, e, s, role, next, |open|).left == [] <==> Eval(ops, e, s).0.Ok?
  {
    var call := Opening(role, next, |open|, Formula(e));
    CallReplays(ops, e, s, NO_ROLE, next + 1, open + [call]);
    EncloseReplays(call, Eval(ops, e, s).0, CallLog(ops, e, s, NO_ROLE, next + 1, |open| + 1), open);
  }

  /** The log of an operator between two values, record by record. */
  lemma OperatorRecords(ops: Ops, op: string, a: Value, b: Value, s: Scope)
    requires ops.binary(op, a, b).Ok?
    ensures var e := Binary(op, Const(a), Const(b));
            var v := ops.binary(op, a, b).v;
            FormulaLog(ops, e, s, Role(-1, ""), 0, 0).recs ==
            [Info(Role(-1, ""), 0, 0, Formula(e), Null, false),
             Info(Role(-1, ""), 1, 1, Printed(e), Null, false),
             Info(Role(0, "left_OP"), 2, 2, Printed(Const(a)), Null, false),
             Info(Role(0, "left_OP"), 2, 2, Printed(Const(a)), a, true),
             Info(Role(1, "OP_right"), 3, 2, Printed(Const(b)), Null, false),
             Info(Role(1, "OP_right"), 3, 2, Printed(Const(b)), b, true),
             Info(Role(-1, ""), 1, 1, Printed(e), v, true),
             Info(Role(-1, ""), 0, 0, Formula(e), v, true)]
  {
    var e := Binary(op, Const(a), Const(b));
    ConstRecords(ops, a, s, LEFT_OPERAND, 2, 2);
    ConstRecords(ops, b, s, RIGHT_OPERAND, 3, 2);
    var left, right := Opening(LEFT_OPERAND, 2, 2, Printed(Const(a))), Opening(RIGHT_OPERAND, 3, 2, Printed(Const(b)));
    var v, whole, call := ops.binary(op, a, b).v, Opening(NO_ROLE, 0, 0, Formula(e)),
        Opening(NO_ROLE, 1, 1, Printed(e));
    var inner := Log([left, Closing(left, a), right, Closing(right, b)], 4, []);
    assert PartsLog(ops, e, s, 2, 2) == inner;
    assert Eval(ops, e, s).0 == Ok(v);
    assert CallLog(ops, e, s, NO_ROLE, 1, 1) == Enclose(call, Ok(v), inner);
  }

  lemma ConstRecords(ops: Ops, v: Value, s: Scope, role: Role, next: nat, level: nat)
    ensures var call := Opening(role, next, level, Printed(Const(v)));
            CallLog(ops, Const(v), s, role, next, level) == Log([call, Closing(call, v)], next + 1, [])
  {
    var call := Opening(role, next, level, Printed(Const(v)));
    assert PartsLog(ops, Const(v), s, next + 1, level + 1) == Log([], next + 1, []);
    assert [call] + [] + [Closing(call, v)] == [call, Closing(call, v)];
  }

  /** A log that begins with the opening of a call. */
  predicate BeginsWith(log: Log, i: Info) {
    log.recs != [] && log.recs[0] == i
  }

  /** What the parts of the other expressions are called by: the left side of a dot as argument 0, the rest as none. */
  lemma OtherRoles(ops: Ops, op: string, r: Expr, e: Expr, cs: Clauses, xs: Exprs, s: Scope, next: nat, level: nat)
    ensures BeginsWith(PartsLog(ops, Dot(e, r), s, next, level),
                       Info(Role(0, "left."), next, level, Printed(e), Null, false))
    ensures var plain := Info(Role(-1, ""), next, level, Printed(e), Null, false);
            BeginsWith(PartsLog(ops, Unary(op, e), s, next, level), plain) &&
            BeginsWith(PartsLog(ops, Where(e, cs), s, next, level), plain) &&
            BeginsWith(PartsLog(ops, ListOf(Cons(e, xs)), s, next, level), plain)
  {
    assert BeginsWith(CallLog(ops, e, s, LEFT_OF_DOT, next, level), Opening(LEFT_OF_DOT, next, level, Printed(e)));
    assert BeginsWith(CallLog(ops, e, s, NO_ROLE, next, level), Opening(NO_ROLE, next, level, Printed(e)));
    assert BeginsWith(CallLog(ops, e, WhereScope(cs, s, map[]), NO_ROLE, next, level),
                      Opening(NO_ROLE, next, level, Printed(e)));
  }
}
