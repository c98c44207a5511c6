/** Evaluation under the debugger: the same values as without it, and just the records that belong into the trace. */
module FormulaDebugger {
  import opened Sequences
  import opened FormulaEval
  import opened FormulaTrace

  /** What a debugger holds: the trace, the open calls, the number and the role of the next call. */
  datatype Desk = Desk(trace: seq<Info>, open: seq<Info>, next: nat, role: Role)

  class Debugger {
    var callStack: seq<Info>
    var counter: nat
    var trace: seq<Info>
    var role: Role

    constructor ()
      ensures callStack == [] && trace == [] && counter == 0 && role == NO_ROLE
    {
      callStack, counter, trace, role := [], 0, [], NO_ROLE;
    }

    ghost function Now(): Desk
      reads this
    {
      Desk(trace, callStack, counter, role)
    }

    method AddDebugInfo(r: Role)
      modifies this`role
      ensures role == r
    {
      role := r;
    }

    method Push(text: Text)
      modifies this
      ensures callStack == old(callStack) + [Opening(old(role), old(counter), |old(callStack)|, text)]
      ensures counter == old(counter) + 1 && role == NO_ROLE && trace == old(trace) + [callStack[|callStack| - 1]]
    {
      callStack := callStack + [Info(role, counter, |callStack|, text, Null, false)];
      counter := counter + 1;
      role := NO_ROLE;
      trace := trace + [callStack[|callStack| - 1]];
    }

    method SetEvaluated(v: Value)
      requires callStack != []
      modifies this`callStack
      ensures var n := |old(callStack)| - 1;
              callStack == old(callStack)[n := old(callStack)[n].(value := v, evaluated := true)]
    {
      var n := |callStack| - 1;
      callStack := callStack[n := callStack[n].(value := v)];
      callStack := callStack[n := callStack[n].(evaluated := true)];
    }

    method Pop()
      requires callStack != []
      modifies this`callStack, this`trace
      ensures callStack == old(callStack)[..|old(callStack)| - 1]
      ensures trace == old(trace) + [old(callStack)[|old(callStack)| - 1]]
    {
      trace := trace + [callStack[|callStack| - 1]];
      callStack := callStack[..|callStack| - 1];
    }
  }

  /** The same after just this log was written. */
  function Written(desk: Desk, log: Log): Desk {
    Desk(desk.trace + log.recs, desk.open + log.left, log.next, NO_ROLE)
  }

  lemma WrittenBoth(desk: Desk, a: Log, b: Log)
    requires a.left == []
    ensures Written(desk, a).open == desk.open
    ensures Written(Written(desk, a), b) == Written(desk, Join(a, b))
  {
    Associate(desk.trace, a.recs, b.recs);
    NothingInFront(b.left);
    assert desk.open + [] == desk.open;
  }

  method EvaluateArgCallback(ops: Ops, e: Expr, s: Scope, d: Debugger) returns (r: Result, t: Scope)
    modifies d
    ensures (r, t) == Eval(ops, e, s)
    ensures d.Now() == Written(old(d.Now()), CallLog(ops, e, s, old(d.role), old(d.counter), |old(d.callStack)|))
    decreases Size(e) + ScopeSize(s), 2
  {
    ghost var desk := d.Now();
    ghost var call := Opening(desk.role, desk.next, |desk.open|, Printed(e));
    d.Push(Printed(e));
    r, t := Execute(ops, e, s, d);
    PartsLeft(ops, e, s, desk.next + 1, |desk.open| + 1);
    CloseCall(d, r, desk, call, PartsLog(ops, e, s, desk.next + 1, |desk.open| + 1));
  }

  lemma PartsLeft(ops: Ops, e: Expr, s: Scope, next: nat, level: nat)
    ensures Eval(ops, e, s).0.Ok? ==> PartsLog(ops, e, s, next, level).left == []
  {
    PartsReplay(ops, e, s, next, seq(level, i => Opening(NO_ROLE, 0, 0, Printed(e))));
  }

  /** The innermost call, if it has a value, gets it, and its record is closed; an exception leaves it as it is. */
  method CloseCall(d: Debugger, r: Result, ghost desk: Desk, ghost call: Info, ghost inner: Log)
    requires d.Now() == Written(Desk(desk.trace + [call], desk.open + [call], inner.next, NO_ROLE), inner)
    requires r.Ok? ==> inner.left == []
    modifies d`callStack, d`trace
    ensures d.Now() == Written(desk, Enclose(call, r, inner))
  {
    Associate(desk.trace, [call], inner.recs);
    Associate(desk.open, [call], inner.left);
    if r.Ok? {
      assert d.callStack == desk.open + [call];
      d.SetEvaluated(r.v);
      d.Pop();
      assert d.callStack == desk.open == desk.open + [];
      Associate(desk.trace, [call] + inner.recs, [Closing(call, r.v)]);
    }
  }

  method Evaluate(ops: Ops, e: Expr, s: Scope, d: Debugger?) returns (r: Result, t: Scope)
    modifies if d == null then {} else {d}
    ensures (r, t) == Eval(ops, e, s)
    ensures d != null ==>
              d.Now() == Written(old(d.Now()), CallLog(ops, e, s, old(d.role), old(d.counter), |old(d.callStack)|))
    decreases Size(e) + ScopeSize(s), 3
  {
    if d != null {
      r, t := EvaluateArgCallback(ops, e, s, d);
    } else {
      r, t := Execute(ops, e, s, null);
    }
  }

  method Execute(ops: Ops, e: Expr, s: Scope, d: Debugger?) returns (r: Result, t: Scope)
    requires d != null ==> d.role == NO_ROLE
    modifies if d == null then {} else {d}
    ensures (r, t) == Eval(ops, e, s)
    ensures d != null ==>
              d.Now() == Written(old(d.Now()), PartsLog(ops, e, s, old(d.counter), |old(d.callStack)|))
    decreases Size(e) + ScopeSize(s), 1
  {
    match e
    case Const(v) =>
      r, t := Ok(v), s;
    case Id(name) =>
      r, t := GetValue(ops, name, s);
    case Unary(op, x) =>
      r, t := ExecuteUnary(ops, op, x, s, d);
    case Binary(op, l, x) =>
      r, t := ExecuteBinary(ops, op, l, x, s, d);
    case Dot(l, x) =>
      r, t := ExecuteDot(ops, l, x, s, d);
    case Where(body, cs) =>
      r, t := Evaluate(ops, body, WhereScope(cs, s, map[]), d);
      t := t.base;
    case ListOf(xs) =>
      r, t := ExecuteList(ops, xs, s, d);
  }

  method ExecuteUnary(ops: Ops, op: string, x: Expr, s: Scope, d: Debugger?) returns (r: Result, t: Scope)
    requires d != null ==> d.role == NO_ROLE
    modifies if d == null then {} else {d}
    ensures (r, t) == Eval(ops, Unary(op, x), s)
    ensures d != null ==>
              d.Now() == Written(old(d.Now()), CallLog(ops, x, s, NO_ROLE, old(d.counter), |old(d.callStack)|))
    decreases Size(x) + ScopeSize(s), 4
  {
    r, t := Evaluate(ops, x, s, d);
    r := if r.Ok? then Apply1(ops, op, r.v) else Error;
  }

  /** A part of a call is evaluated, in a role that the debugger is told of. */
  method EvaluatePart(ops: Ops, e: Expr, s: Scope, d: Debugger?, role: Role) returns (r: Result, t: Scope)
    modifies if d == null then {} else {d}
    ensures (r, t) == Eval(ops, e, s) && ScopeSize(t) == ScopeSize(s)
    ensures d != null ==>
              d.Now() == Written(old(d.Now()), CallLog(ops, e, s, role, old(d.counter), |old(d.callStack)|))
    decreases Size(e) + ScopeSize(s), 4
  {
    if d != null {
      d.AddDebugInfo(role);
    }
    r, t := Evaluate(ops, e, s, d);
    BareSize(s, t);
  }

  method ExecuteBinary(ops: Ops, op: string, l: Expr, x: Expr, s: Scope, d: Debugger?) returns (r: Result, t: Scope)
    modifies if d == null then {} else {d}
    ensures (r, t) == Eval(ops, Binary(op, l, x), s)
    ensures d != null ==>
              d.Now() == Written(old(d.Now()), PartsLog(ops, Binary(op, l, x), s, old(d.counter), |old(d.callStack)|))
    decreases Size(l) + Size(x) + ScopeSize(s), 6
  {
    var left, right;
    left, right, t := EvaluateOperands(ops, l, x, s, d);
    EvalBinary(ops, op, l, x, s);
    r := if right.Ok? then Apply2(ops, op, left.v, right.v) else Error;
  }

  ghost function Operands(ops: Ops, l: Expr, x: Expr, s: Scope): (Result, Result, Scope) {
    var (left, mid) := Eval(ops, l, s);
    if left == Error then (left, Error, mid)
    else
      var (right, t) := Eval(ops, x, mid);
      (left, right, t)
  }

  lemma EvalBinary(ops: Ops, op: string, l: Expr, x: Expr, s: Scope)
    ensures var (left, right, t) := Operands(ops, l, x, s);
            (right.Ok? ==> left.Ok?) &&
            Eval(ops, Binary(op, l, x), s) == (if right.Ok? then Apply2(ops, op, left.v, right.v) else Error, t)
  {
  }

  /** The operands in order; the second one counts as failed if the first one did. */
  method EvaluateOperands(ops: Ops, l: Expr, x: Expr, s: Scope, d: Debugger?)
    returns (left: Result, right: Result, t: Scope)
    modifies if d == null then {} else {d}
    ensures (left, right, t) == Operands(ops, l, x, s)
    ensures d != null ==>
              d.Now() == Written(old(d.Now()), OperandsLog(ops, l, x, s, old(d.counter), |old(d.callStack)|))
    decreases Size(l) + Size(x) + ScopeSize(s), 5
  {
    ghost var desk := Before(d);
    left, t := EvaluatePart(ops, l, s, d, LEFT_OPERAND);
    if left == Error {
      right := Error;
    } else {
      ghost var a := CallLog(ops, l, s, LEFT_OPERAND, desk.next, |desk.open|);
      right, t := EvaluateNext(ops, x, t, d, RIGHT_OPERAND, desk, a);
    }
  }

  /** A further part of the same call. */
  method EvaluateNext(ops: Ops, e: Expr, s: Scope, d: Debugger?, role: Role, ghost desk: Desk, ghost before: Log)
    returns (r: Result, t: Scope)
    requires d != null ==> d.Now() == Written(desk, before) && before.left == []
    modifies if d == null then {} else {d}
    ensures (r, t) == Eval(ops, e, s) && ScopeSize(t) == ScopeSize(s)
    ensures d != null ==>
              d.Now() == Written(desk, Join(before, CallLog(ops, e, s, role, before.next, |desk.open|)))
    decreases Size(e) + ScopeSize(s), 5
  {
    r, t := EvaluatePart(ops, e, s, d, role);
    if d != null {
      WrittenBoth(desk, before, CallLog(ops, e, s, role, before.next, |desk.open|));
    }
  }

  /** What the debugger holds now, if there is one. */
  ghost method Before(d: Debugger?) returns (desk: Desk)
    ensures d != null ==> desk == d.Now()
  {
    desk := if d == null then Desk([], [], 0, NO_ROLE) else d.Now();
  }

  method ExecuteDot(ops: Ops, l: Expr, x: Expr, s: Scope, d: Debugger?) returns (r: Result, t: Scope)
    modifies if d == null then {} else {d}
    ensures (r, t) == Eval(ops, Dot(l, x), s)
    ensures d != null ==>
              d.Now() == Written(old(d.Now()), PartsLog(ops, Dot(l, x), s, old(d.counter), |old(d.callStack)|))
    decreases Size(l) + Size(x) + ScopeSize(s), 5
  {
    ghost var desk := Before(d);
    r, t := EvaluatePart(ops, l, s, d, LEFT_OF_DOT);
    if r.Ok? && r.v.List? {
      ghost var a := CallLog(ops, l, s, LEFT_OF_DOT, desk.next, |desk.open|);
      r, t := EvaluateNext(ops, x, DotScope(r.v.items, t), d, NO_ROLE, desk, a);
      t := t.base;
    }
  }

  method ExecuteList(ops: Ops, xs: Exprs, s: Scope, d: Debugger?) returns (r: Result, t: Scope)
    requires d != null ==> d.role == NO_ROLE
    modifies if d == null then {} else {d}
    ensures (r, t) == EvalList(ops, xs, s, [])
    ensures d != null ==>
              d.Now() == Written(old(d.Now()), ListLog(ops, xs, s, old(d.counter), |old(d.callStack)|))
    decreases ListSize(xs) + ScopeSize(s), 5
  {
    ghost var desk := Before(d);
    ghost var all, written := ListLog(ops, xs, s, desk.next, |desk.open|), Log([], desk.next, []);
    NothingWritten(desk, all);
    var todo, done := xs, [];
    t := s;
    while todo != Nil
      invariant EvalList(ops, todo, t, done) == EvalList(ops, xs, s, [])
      invariant ListSize(todo) <= ListSize(xs) && ScopeSize(t) == ScopeSize(s)
      invariant written.left == [] && Join(written, ListLog(ops, todo, t, written.next, |desk.open|)) == all
      invariant d != null ==> d.Now() == Written(desk, written)
      decreases ListSize(todo)
    {
      ghost var before, a := t, CallLog(ops, todo.e, t, NO_ROLE, written.next, |desk.open|);
      r, t := EvaluateNext(ops, todo.e, t, d, NO_ROLE, desk, written);
      ListLogNext(ops, todo, before, written, |desk.open|);
      if r == Error {
        return;
      }
      written := Join(written, a);
      done := done + [r.v];
      todo := todo.rest;
    }
    JoinNothing(written);
    r := Ok(List(done));
  }

  lemma NothingWritten(desk: Desk, log: Log)
    ensures desk.role == NO_ROLE ==> Written(desk, Log([], desk.next, [])) == desk
    ensures Join(Log([], desk.next, []), log) == log
  {
  }

  lemma JoinNothing(a: Log)
    ensures Join(a, Log([], a.next, [])) == a
  {
  }

  lemma ListLogNext(ops: Ops, xs: Exprs, s: Scope, written: Log, level: nat)
    requires xs != Nil
    ensures var a := CallLog(ops, xs.e, s, NO_ROLE, written.next, level);
            var (v, t) := Eval(ops, xs.e, s);
            Join(written, ListLog(ops, xs, s, written.next, level)) ==
            if v == Error then Join(written, a) else Join(Join(written, a), ListLog(ops, xs.rest, t, a.next, level))
  {
    var a := CallLog(ops, xs.e, s, NO_ROLE, written.next, level);
    var (v, t) := Eval(ops, xs.e, s);
    if v.Ok? {
      var b := ListLog(ops, xs.rest, t, a.next, level);
      Associate(written.recs, a.recs, b.recs);
      Associate(written.left, a.left, b.left);
    }
  }

  /** `query_value`; the clauses are evaluated without the debugger. */
  method GetValue(ops: Ops, name: string, s: Scope) returns (r: Result, t: Scope)
    ensures (r, t) == Get(ops, name, s)
    decreases ScopeSize(s), Depth(s)
  {
    match s
    case Global(vars) =>
      r, t := Ok(if name in vars then vars[name] else Null), s;
    case WhereScope(cs, base, memo) =>
      var clause := ClauseOf(cs, name);
      if clause != Nil {
        if name in memo {
          return Ok(memo[name]), s;
        }
        r, t := Evaluate(ops, clause.e, base, null);
        t := WhereScope(cs, t, if r.Ok? then memo[name := r.v] else memo);
      } else {
        r, t := GetValue(ops, name, base);
        t := WhereScope(cs, t, memo);
      }
    case DotScope(items, base) =>
      var v := ListValue(items, name);
      if v != Null {
        r, t := Ok(v), s;
      } else {
        r, t := GetValue(ops, name, base);
        t := DotScope(items, t);
      }
  }

  /** `evaluate_formula_callback`: a record for the formula stands around those of its expression. */
  method EvaluateFormulaCallback(ops: Ops, e: Expr, s: Scope, d: Debugger) returns (r: Result, t: Scope)
    modifies d
    ensures (r, t) == Eval(ops, e, s)
    ensures d.Now() == Written(old(d.Now()), FormulaLog(ops, e, s, old(d.role), old(d.counter), |old(d.callStack)|))
  {
    ghost var desk := d.Now();
    ghost var call := Opening(desk.role, desk.next, |desk.open|, Formula(e));
    d.Push(Formula(e));
    r, t := EvaluateArgCallback(ops, e, s, d);
    CloseCall(d, r, desk, call, CallLog(ops, e, s, NO_ROLE, desk.next + 1, |desk.open| + 1));
  }

  /** A whole evaluation under a debugger: the value that every clause bound at once gives, and just the records
      of the formula, its expression and the parts that were evaluated.  These read back as calls numbered in order
      and closed innermost first; without an exception all are closed. */
  method EvaluateFormula(ops: Ops, e: Expr, vars: map<string, Value>) returns (r: Result, d: Debugger)
    ensures fresh(d) && r == Eager(ops, e, map name | name in vars :: Ok(vars[name]))
    ensures d.trace == FormulaLog(ops, e, Global(vars), NO_ROLE, 0, 0).recs
    ensures Replay(d.trace, Calls([], 0)) == Calls(d.callStack, d.counter)
    ensures r.Ok? <==> d.callStack == []
  {
    d := new Debugger();
    var t;
    r, t := EvaluateFormulaCallback(ops, e, Global(vars), d);
    EvalIsEager(ops, e, Global(vars));
    var log := FormulaLog(ops, e, Global(vars), NO_ROLE, 0, 0);
    FormulaReplays(ops, e, Global(vars), NO_ROLE, 0, []);
    NothingInFront(log.recs);
    NothingInFront(log.left);
  }
}
