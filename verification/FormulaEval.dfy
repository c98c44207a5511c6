/** Evaluation of formulas: the `where` scopes with their memo tables, and the instrumented evaluator. */
module FormulaEval {

  datatype Value = Null | Num(n: int) | Str(s: string) | List(items: seq<Value>)

  /** `Error` is an exception. */
  datatype Result = Ok(v: Value) | Error

  datatype Expr =
    | Const(v: Value)
    | Id(name: string)
    | Unary(op: string, e: Expr)
    | Binary(op: string, l: Expr, r: Expr)
    | Dot(l: Expr, r: Expr)
    | Where(body: Expr, clauses: Clauses)
    | ListOf(items: Exprs)

  datatype Exprs = Nil | Cons(e: Expr, rest: Exprs)

  /** The table of a `where`. */
  datatype Clauses = None | Clause(name: string, e: Expr, rest: Clauses)

  /** What the operators do with their operands. Dice are not among them. */
  datatype Ops = Ops(unary: (string, Value) -> Result, binary: (string, Value, Value) -> Result)

  function Apply1(ops: Ops, op: string, v: Value): Result {
    ops.unary(op, v)
  }

  function Apply2(ops: Ops, op: string, v: Value, w: Value): Result {
    ops.binary(op, v, w)
  }

  /** The callables that a name is looked up in, from the innermost outwards, each `where` with the values
      it has found. */
  datatype Scope =
    | Global(vars: map<string, Value>)
    | WhereScope(clauses: Clauses, base: Scope, memo: map<string, Value>)
    | DotScope(items: seq<Value>, base: Scope)

  // ----- Sizes -----

  function Size(e: Expr): nat {
    match e
    case Const(_) => 1
    case Id(_) => 1
    case Unary(_, x) => 1 + Size(x)
    case Binary(_, l, r) => 1 + Size(l) + Size(r)
    case Dot(l, r) => 1 + Size(l) + Size(r)
    case Where(b, cs) => 1 + Size(b) + ClausesSize(cs)
    case ListOf(xs) => 1 + ListSize(xs)
  }

  function ListSize(xs: Exprs): nat {
    if xs == Nil then 0 else 1 + Size(xs.e) + ListSize(xs.rest)
  }

  function ClausesSize(cs: Clauses): nat {
    if cs == None then 0 else 1 + Size(cs.e) + ClausesSize(cs.rest)
  }

  function ScopeSize(s: Scope): nat {
    match s
    case Global(_) => 0
    case WhereScope(cs, base, _) => ClausesSize(cs) + ScopeSize(base)
    case DotScope(_, base) => ScopeSize(base)
  }

  function Depth(s: Scope): nat {
    if s.Global? then 0 else 1 + Depth(s.base)
  }

  // ----- Lookup -----

  function ClauseOf(cs: Clauses, name: string): (r: Exprs)
    ensures r.Cons? ==> r.rest == Nil && Size(r.e) < ClausesSize(cs)
  {
    if cs == None then Nil
    else if cs.name == name then Cons(cs.e, Nil)
    else ClauseOf(cs.rest, name)
  }

  /** The attributes of a list; `Null` for a name that it does not have. */
  function ListValue(items: seq<Value>, name: string): Value {
    if name == "size" then Num(|items|)
    else if name == "empty" then Num(if items == [] then 1 else 0)
    else if name == "first" then (if items == [] then Null else items[0])
    else if name == "last" then (if items == [] then Null else items[|items| - 1])
    else Null
  }

  /** A scope without the values it has found. */
  function Bare(s: Scope): (r: Scope)
    ensures ScopeSize(r) == ScopeSize(s) && Depth(r) == Depth(s)
  {
    match s
    case Global(_) => s
    case WhereScope(cs, base, _) => WhereScope(cs, Bare(base), map[])
    case DotScope(items, base) => DotScope(items, Bare(base))
  }

  function Get(ops: Ops, name: string, s: Scope): (r: (Result, Scope))
    ensures Bare(r.1) == Bare(s)
    decreases ScopeSize(s), Depth(s)
  {
    match s
    case Global(vars) => (Ok(if name in vars then vars[name] else Null), s)
    case WhereScope(cs, base, memo) =>
      var clause := ClauseOf(cs, name);
      if clause == Nil then
        var (v, b) := Get(ops, name, base);
        (v, WhereScope(cs, b, memo))
      else if name in memo then (Ok(memo[name]), s)
      else
        var (v, b) := Eval(ops, clause.e, base);
        (v, WhereScope(cs, b, if v.Ok? then memo[name := v.v] else memo))
    case DotScope(items, base) =>
      var v := ListValue(items, name);
      if v != Null then (Ok(v), s)
      else
        var (w, b) := Get(ops, name, base);
        (w, DotScope(items, b))
  }

  /** Evaluation in order, each `where` clause when its name is first asked for and then never again. */
  function Eval(ops: Ops, e: Expr, s: Scope): (r: (Result, Scope))
    ensures Bare(r.1) == Bare(s)
    decreases Size(e) + ScopeSize(s), 0
  {
    match e
    case Const(v) => (Ok(v), s)
    case Id(name) => Get(ops, name, s)
    case Unary(op, x) =>
      var (v, t) := Eval(ops, x, s);
      (if v.Ok? then Apply1(ops, op, v.v) else Error, t)
    case Binary(op, l, r) =>
      var (v, t) := Eval(ops, l, s);
      if v == Error then (Error, t)
      else
        BareSize(s, t);
        var (w, u) := Eval(ops, r, t);
        (if w.Ok? then Apply2(ops, op, v.v, w.v) else Error, u)
    case Dot(l, r) =>
      var (v, t) := Eval(ops, l, s);
      if v.Ok? && v.v.List? then
        BareSize(s, t);
        var (w, u) := Eval(ops, r, DotScope(v.v.items, t));
        (w, u.base)
      else (v, t)
    case Where(body, cs) =>
      var (v, t) := Eval(ops, body, WhereScope(cs, s, map[]));
      (v, t.base)
    case ListOf(xs) =>
      EvalList(ops, xs, s, [])
  }

  function EvalList(ops: Ops, xs: Exprs, s: Scope, done: seq<Value>): (r: (Result, Scope))
    ensures Bare(r.1) == Bare(s)
    decreases ListSize(xs) + ScopeSize(s), 1
  {
    if xs == Nil then (Ok(List(done)), s)
    else
      var (v, t) := Eval(ops, xs.e, s);
      if v == Error then (Error, t)
      else
        BareSize(s, t);
        EvalList(ops, xs.rest, t, done + [v.v])
  }

  lemma BareSize(s: Scope, t: Scope)
    requires Bare(s) == Bare(t)
    ensures ScopeSize(s) == ScopeSize(t) && Depth(s) == Depth(t)
  {
    assert ScopeSize(s) == ScopeSize(Bare(s)) && Depth(s) == Depth(Bare(s));
  }

  // ----- The plain meaning: every clause bound at once, in the enclosing scope -----

  function Eager(ops: Ops, e: Expr, env: map<string, Result>): Result {
    match e
    case Const(v) => Ok(v)
    case Id(name) => if name in env then env[name] else Ok(Null)
    case Unary(op, x) =>
      var v := Eager(ops, x, env);
      if v.Ok? then Apply1(ops, op, v.v) else Error
    case Binary(op, l, r) =>
      var v, w := Eager(ops, l, env), Eager(ops, r, env);
      if v.Ok? && w.Ok? then Apply2(ops, op, v.v, w.v) else Error
    case Dot(l, r) =>
      var v := Eager(ops, l, env);
      if v.Ok? && v.v.List? then Eager(ops, r, env + Attributes(v.v.items)) else v
    case Where(body, cs) => Eager(ops, body, env + Bound(ops, cs, env))
    case ListOf(xs) => EagerList(ops, xs, env, [])
  }

  function EagerList(ops: Ops, xs: Exprs, env: map<string, Result>, done: seq<Value>): Result {
    if xs == Nil then Ok(List(done))
    else
      var v := Eager(ops, xs.e, env);
      if v.Ok? then EagerList(ops, xs.rest, env, done + [v.v]) else Error
  }

  function Bound(ops: Ops, cs: Clauses, env: map<string, Result>): map<string, Result> {
    if cs == None then map[]
    else Bound(ops, cs.rest, env)[cs.name := Eager(ops, cs.e, env)]
  }

  function Attributes(items: seq<Value>): map<string, Result> {
    map name | name in {"size", "empty", "first", "last"} && ListValue(items, name) != Null ::
      Ok(ListValue(items, name))
  }

  /** What each name means in a scope. */
  function Flat(ops: Ops, s: Scope): map<string, Result> {
    match s
    case Global(vars) => map name | name in vars :: Ok(vars[name])
    case WhereScope(cs, base, _) => Flat(ops, base) + Bound(ops, cs, Flat(ops, base))
    case DotScope(items, base) => Flat(ops, base) + Attributes(items)
  }

  // ----- The memo tables change nothing -----

  /** Every value found so far is the value of its clause in the enclosing scope. */
  ghost predicate MemoOk(ops: Ops, s: Scope) {
    match s
    case Global(_) => true
    case WhereScope(cs, base, memo) =>
      MemoOk(ops, base) && forall n :: n in memo ==>
        ClauseOf(cs, n).Cons? && Found(ops, ClauseOf(cs, n).e, base, memo[n])
    case DotScope(_, base) => MemoOk(ops, base)
  }

  predicate Found(ops: Ops, e: Expr, base: Scope, v: Value) {
    Eager(ops, e, Flat(ops, base)) == Ok(v)
  }

  lemma {:induction false} FlatBare(ops: Ops, s: Scope)
    ensures Flat(ops, Bare(s)) == Flat(ops, s)
  {
    if !s.Global? {
      FlatBare(ops, s.base);
    }
  }

  lemma SameFlat(ops: Ops, s: Scope, t: Scope)
    requires Bare(s) == Bare(t)
    ensures Flat(ops, s) == Flat(ops, t)
  {
    FlatBare(ops, s);
    FlatBare(ops, t);
  }

  lemma {:induction false} BoundFinds(ops: Ops, cs: Clauses, env: map<string, Result>, name: string)
    ensures name in Bound(ops, cs, env) <==> ClauseOf(cs, name) != Nil
    ensures name in Bound(ops, cs, env) ==> Bound(ops, cs, env)[name] == Eager(ops, ClauseOf(cs, name).e, env)
  {
    if cs != None {
      BoundFinds(ops, cs.rest, env, name);
    }
  }

  lemma {:induction false} GetIsEager(ops: Ops, name: string, s: Scope)
    requires MemoOk(ops, s)
    ensures Get(ops, name, s).0 == Eager(ops, Id(name), Flat(ops, s))
    ensures MemoOk(ops, Get(ops, name, s).1)
    decreases ScopeSize(s), Depth(s)
  {
    match s
    case Global(_) =>
    case WhereScope(cs, base, memo) =>
      BoundFinds(ops, cs, Flat(ops, base), name);
      var clause := ClauseOf(cs, name);
      if clause == Nil {
        GetIsEager(ops, name, base);
        SameFlat(ops, base, Get(ops, name, base).1);
      } else if name !in memo {
        EvalIsEager(ops, clause.e, base);
        SameFlat(ops, base, Eval(ops, clause.e, base).1);
      }
    case DotScope(items, base) =>
      if ListValue(items, name) == Null {
        GetIsEager(ops, name, base);
      }
  }

  /** Looking clauses up lazily, once, and keeping what they gave, is the same as binding them all at once. */
  lemma {:induction false} EvalIsEager(ops: Ops, e: Expr, s: Scope)
    requires MemoOk(ops, s)
    ensures Eval(ops, e, s).0 == Eager(ops, e, Flat(ops, s))
    ensures MemoOk(ops, Eval(ops, e, s).1)
    decreases Size(e) + ScopeSize(s), 0
  {
    match e
    case Const(_) =>
    case Id(name) => GetIsEager(ops, name, s);
    case Unary(_, x) => EvalIsEager(ops, x, s);
    case Binary(_, l, r) => BinaryIsEager(ops, l, r, s);
    case Dot(l, r) => DotIsEager(ops, l, r, s);
    case Where(body, cs) =>
      EvalIsEager(ops, body, WhereScope(cs, s, map[]));
    case ListOf(xs) => ListIsEager(ops, xs, s, []);
  }

  lemma {:induction false} BinaryIsEager(ops: Ops, l: Expr, r: Expr, s: Scope)
    requires MemoOk(ops, s)
    ensures var (v, t) := Eval(ops, l, s);
            && v == Eager(ops, l, Flat(ops, s)) && MemoOk(ops, t)
            && (v.Ok? ==> Eval(ops, r, t).0 == Eager(ops, r, Flat(ops, s)) && MemoOk(ops, Eval(ops, r, t).1))
    decreases Size(l) + Size(r) + ScopeSize(s), 1
  {
    EvalIsEager(ops, l, s);
    var (v, t) := Eval(ops, l, s);
    BareSize(s, t);
    SameFlat(ops, s, t);
    EvalIsEager(ops, r, t);
  }

  lemma {:induction false} DotIsEager(ops: Ops, l: Expr, r: Expr, s: Scope)
    requires MemoOk(ops, s)
    ensures Eval(ops, Dot(l, r), s).0 == Eager(ops, Dot(l, r), Flat(ops, s))
    ensures MemoOk(ops, Eval(ops, Dot(l, r), s).1)
    decreases Size(l) + Size(r) + ScopeSize(s), 1
  {
    EvalIsEager(ops, l, s);
    var (v, t) := Eval(ops, l, s);
    if v.Ok? && v.v.List? {
      BareSize(s, t);
      SameFlat(ops, s, t);
      EvalIsEager(ops, r, DotScope(v.v.items, t));
    }
  }

  lemma {:induction false} ListIsEager(ops: Ops, xs: Exprs, s: Scope, done: seq<Value>)
    requires MemoOk(ops, s)
    ensures EvalList(ops, xs, s, done).0 == EagerList(ops, xs, Flat(ops, s), done)
    ensures MemoOk(ops, EvalList(ops, xs, s, done).1)
    decreases ListSize(xs) + ScopeSize(s), 1
  {
    if xs != Nil {
      EvalIsEager(ops, xs.e, s);
      var (v, t) := Eval(ops, xs.e, s);
      if v.Ok? {
        BareSize(s, t);
        SameFlat(ops, s, t);
        ListIsEager(ops, xs.rest, t, done + [v.v]);
      }
    }
  }

  /** What the attributes of a list are: its size, whether it is empty, its first and its last element; where there is
      none, or it is null, and for every other name, the enclosing scope answers. */
  lemma ListAttributes(ops: Ops, items: seq<Value>, name: string, s: Scope)
    ensures var r := Eval(ops, Dot(Const(List(items)), Id(name)), s).0;
            if name == "size" then r == Ok(Num(|items|))
            else if name == "empty" then r == Ok(Num(if |items| == 0 then 1 else 0))
            else if name == "first" && |items| > 0 && items[0] != Null then r == Ok(items[0])
            else if name == "last" && |items| > 0 && items[|items| - 1] != Null then r == Ok(items[|items| - 1])
            else r == Eval(ops, Id(name), s).0
  {
    assert Eval(ops, Const(List(items)), s) == (Ok(List(items)), s);
    assert Eval(ops, Id(name), DotScope(items, s)) == Get(ops, name, DotScope(items, s));
  }
}
