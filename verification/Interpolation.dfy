/** `do_interpolation`: variables and formulas in a string are replaced in place, from the last one to the first. */
module Interpolation {
  import opened Sequences

  /** Where values come from: variables by name, and formulas by text ("" for one that fails). */
  datatype Values = Values(variable: string -> string, formula: string -> string)

  predicate IsNameChar(c: char) {
    'a' <= c <= 'z' || 'A' <= c <= 'Z' || '0' <= c <= '9' || c == '.' || c == '_'
  }

  /** How far a name may extend: name characters, and brackets that do not close more than was opened. */
  function Extent(r: string, level: nat): (n: nat)
    ensures n <= |r|
  {
    if r == [] then 0
    else if r[0] == '[' then 1 + Extent(r[1..], level + 1)
    else if r[0] == ']' then (if level == 0 then 0 else 1 + Extent(r[1..], level - 1))
    else if IsNameChar(r[0]) then 1 + Extent(r[1..], level)
    else 0
  }

  /** The first of two dots in a row, or the length. */
  function TwoDots(r: string): (n: nat)
    ensures n <= |r|
  {
    if |r| < 2 then |r|
    else if r[0] == '.' && r[1] == '.' then 0
    else 1 + TwoDots(r[1..])
  }

  /** A dot at the end is not part of the name, unless a bracket stands before it. */
  function Undotted(r: string, n: nat): (m: nat)
    requires n <= |r|
    ensures m <= n
  {
    if n > 0 && r[n - 1] == '.' && !(n > 1 && r[n - 2] == ']') then n - 1 else n
  }

  function NameLength(r: string): (n: nat)
    ensures n <= |r|
  {
    Undotted(r, TwoDots(r[..Extent(r, 0)]))
  }

  /** The state of the scan for the closing parenthesis. */
  datatype Scan = Scan(level: int, inString: bool, inComment: bool)

  function Scanned(k: Scan, c: char): Scan {
    if c == '(' && !k.inString && !k.inComment then k.(level := k.level + 1)
    else if c == ')' && !k.inString && !k.inComment then k.(level := k.level - 1)
    else if c == '#' && !k.inString then k.(inComment := !k.inComment)
    else if c == '\'' && !k.inComment then k.(inString := !k.inString)
    else k
  }

  /** The length of the formula at the front, and whether its closing parenthesis is missing. */
  function FormulaLength(r: string, k: Scan): (n: (nat, bool))
    requires r != []
    ensures 1 <= n.0 <= |r|
  {
    var k' := Scanned(k, r[0]);
    if |r| == 1 || k'.level <= 0 then (1, k'.level > 0)
    else
      var (n, open) := FormulaLength(r[1..], k');
      (n + 1, open)
  }

  const AT_START := Scan(0, false, false)

  /** What takes the place of a dollar sign and the text after it. */
  function Expanded(r: string, v: Values): string {
    if r == [] then "$"
    else if r[0] == '(' then
      var (n, open) := FormulaLength(r, AT_START);
      if open then r[n..] else v.formula(r[1..n - 1]) + r[n..]
    else
      var n := NameLength(r);
      var m := if n < |r| && r[n] == '|' then n + 1 else n;
      VariableText(r[..n], v) + r[m..]
  }

  /** Without a name, the escape for a dollar sign. */
  function VariableText(name: string, v: Values): string {
    if name == "" then "$" else v.variable(name)
  }

  /** The walk to the front: what stands to the right is not looked for dollar signs any more. */
  function Walk(left: string, right: string, v: Values): string
    decreases |left|
  {
    if left == "" then right
    else
      var n := |left| - 1;
      if left[n] == '$' then Walk(left[..n], Expanded(right, v), v)
      else Walk(left[..n], [left[n]] + right, v)
  }

  // ----- Templates -----

  /** A literal, a variable with an end mark, or a formula; names and formulas may be put together from
      further pieces. */
  datatype Piece = Lit(text: string) | Ref(name: Template) | Form(body: Template)

  datatype Template = Empty | Snoc(init: Template, last: Piece)

  function Size(t: Template): nat {
    match t
    case Empty => 0
    case Snoc(init, Lit(_)) => Size(init) + 1
    case Snoc(init, Ref(name)) => Size(init) + Size(name) + 1
    case Snoc(init, Form(body)) => Size(init) + Size(body) + 1
  }

  function Render(t: Template): string {
    match t
    case Empty => ""
    case Snoc(init, Lit(text)) => Render(init) + text
    case Snoc(init, Ref(name)) => Render(init) + ("$" + Render(name) + "|")
    case Snoc(init, Form(body)) => Render(init) + ("$(" + Render(body) + ")")
  }

  /** Substitution: every piece stands for its value, and a value is never looked into. */
  function Subst(t: Template, v: Values): string {
    match t
    case Empty => ""
    case Snoc(init, Lit(text)) => Subst(init, v) + text
    case Snoc(init, Ref(name)) => Subst(init, v) + VariableText(Subst(name, v), v)
    case Snoc(init, Form(body)) => Subst(init, v) + v.formula(Subst(body, v))
  }

  /** A whole string is one name. */
  predicate IsName(w: string) {
    Extent(w, 0) == |w| && TwoDots(w) == |w| && Undotted(w, |w|) == |w|
  }

  /** A whole string is the inside of one pair of parentheses. */
  predicate IsFormula(w: string) {
    FormulaLength("(" + w + ")", AT_START) == (|w| + 2, false)
  }

  /** Literals have no dollar sign, and what stands for a name or a formula, once put together, is one. */
  predicate WellFormed(t: Template, v: Values) {
    match t
    case Empty => true
    case Snoc(init, Lit(text)) => WellFormed(init, v) && '$' !in text
    case Snoc(init, Ref(name)) => WellFormed(init, v) && WellFormed(name, v) && IsName(Subst(name, v))
    case Snoc(init, Form(body)) => WellFormed(init, v) && WellFormed(body, v) && IsFormula(Subst(body, v))
  }

  lemma {:induction false} ExtentStops(w: string, level: nat, tail: string)
    requires Extent(w, level) == |w|
    ensures Extent(w + "|" + tail, level) == |w|
  {
    var s := w + "|" + tail;
    if w == [] {
      assert s[0] == '|';
    } else {
      assert s[0] == w[0] && s[1..] == w[1..] + "|" + tail;
      ExtentStops(w[1..], if w[0] == '[' then level + 1 else if w[0] == ']' then level - 1 else level, tail);
    }
  }

  lemma {:induction false} FormulaStops(w: string, k: Scan, tail: string)
    requires w != [] && FormulaLength(w, k) == (|w|, false)
    ensures FormulaLength(w + tail, k) == (|w|, false)
  {
    var s := w + tail;
    assert s[0] == w[0] && s[1..] == w[1..] + tail;
    if |w| > 1 {
      FormulaStops(w[1..], Scanned(k, w[0]), tail);
    }
  }

  lemma NameIsReplaced(w: string, tail: string, v: Values)
    requires IsName(w)
    ensures Expanded(w + "|" + tail, v) == VariableText(w, v) + tail
  {
    var r := w + "|" + tail;
    ExtentStops(w, 0, tail);
    assert r[..|w|] == w && r[|w|] == '|' && r[|w| + 1..] == tail;
    if w != [] {
      assert r[0] == w[0];
    }
  }

  lemma FormulaIsReplaced(w: string, tail: string, v: Values)
    requires IsFormula(w)
    ensures Expanded("(" + w + ")" + tail, v) == v.formula(w) + tail
  {
    var x := "(" + w + ")";
    var r := x + tail;
    FormulaStops(x, AT_START, tail);
    assert r[1..|w| + 1] == w && r[|w| + 2..] == tail;
  }

  /** A stretch without dollar signs is passed over. */
  lemma {:induction false} WalkPasses(left: string, text: string, right: string, v: Values)
    requires '$' !in text
    ensures Walk(left + text, right, v) == Walk(left, text + right, v)
  {
    if text == "" {
      assert left + text == left && text + right == right;
    } else {
      var n := |text| - 1;
      assert (left + text)[..|left| + n] == left + text[..n];
      WalkPasses(left, text[..n], [text[n]] + right, v);
      assert text[..n] + ([text[n]] + right) == text + right;
    }
  }

  lemma WalkExpands(left: string, right: string, v: Values)
    ensures Walk(left + "$", right, v) == Walk(left, Expanded(right, v), v)
  {
    assert (left + "$")[..|left|] == left;
  }

  /** A template is rewritten to its substitution, and the walk goes on in front of it. What stands after it
      is arbitrary: it may hold dollar signs that came out of values. */
  lemma {:induction false} WalkSubstitutes(left: string, t: Template, right: string, v: Values)
    requires WellFormed(t, v)
    ensures Walk(left + Render(t), right, v) == Walk(left, Subst(t, v) + right, v)
    decreases Size(t), 0
  {
    match t
    case Empty =>
      assert left + "" == left && "" + right == right;
    case Snoc(init, Lit(text)) =>
      Associate(left, Render(init), text);
      WalkPasses(left + Render(init), text, right, v);
      WalkSubstitutes(left, init, text + right, v);
      Associate(Subst(init, v), text, right);
    case Snoc(init, Ref(name)) =>
      ReferenceSubstitutes(left + Render(init), name, right, v);
      var value := VariableText(Subst(name, v), v);
      WalkSubstitutes(left, init, value + right, v);
      Associate(left, Render(init), "$" + Render(name) + "|");
      Associate(Subst(init, v), value, right);
    case Snoc(init, Form(body)) =>
      FormulaSubstitutes(left + Render(init), body, right, v);
      var value := v.formula(Subst(body, v));
      WalkSubstitutes(left, init, value + right, v);
      Associate(left, Render(init), "$(" + Render(body) + ")");
      Associate(Subst(init, v), value, right);
  }

  lemma {:induction false} ReferenceSubstitutes(left: string, name: Template, right: string, v: Values)
    requires WellFormed(name, v) && IsName(Subst(name, v))
    ensures Walk(left + ("$" + Render(name) + "|"), right, v) == Walk(left, VariableText(Subst(name, v), v) + right, v)
    decreases Size(name), 1
  {
    WalkSubstitutes(left + "$", name, "|" + right, v);
    ReferenceStep(left, Render(name), Subst(name, v), right, v);
  }

  lemma ReferenceStep(left: string, n: string, w: string, right: string, v: Values)
    requires IsName(w) && Walk(left + "$" + n, "|" + right, v) == Walk(left + "$", w + ("|" + right), v)
    ensures Walk(left + ("$" + n + "|"), right, v) == Walk(left, VariableText(w, v) + right, v)
  {
    RegroupMark(left, "$", n, "|");
    WalkPasses(left + "$" + n, "|", right, v);
    WalkExpands(left, w + ("|" + right), v);
    Associate(w, "|", right);
    NameIsReplaced(w, right, v);
  }

  lemma {:induction false} FormulaSubstitutes(left: string, body: Template, right: string, v: Values)
    requires WellFormed(body, v) && IsFormula(Subst(body, v))
    ensures Walk(left + ("$(" + Render(body) + ")"), right, v) == Walk(left, v.formula(Subst(body, v)) + right, v)
    decreases Size(body), 1
  {
    WalkSubstitutes(left + "$(", body, ")" + right, v);
    FormulaStep(left, Render(body), Subst(body, v), right, v);
  }

  lemma FormulaStep(left: string, n: string, w: string, right: string, v: Values)
    requires IsFormula(w) && Walk(left + "$(" + n, ")" + right, v) == Walk(left + "$(", w + (")" + right), v)
    ensures Walk(left + ("$(" + n + ")"), right, v) == Walk(left, v.formula(w) + right, v)
  {
    RegroupMark(left, "$(", n, ")");
    WalkPasses(left + "$(" + n, ")", right, v);
    OpenExpands(left, w + (")" + right), v);
    RegroupOpen(w, right);
    FormulaIsReplaced(w, right, v);
  }

  lemma OpenExpands(left: string, right: string, v: Values)
    ensures Walk(left + "$(", right, v) == Walk(left, Expanded("(" + right, v), v)
  {
    assert left + "$(" == left + "$" + "(";
    WalkPasses(left + "$", "(", right, v);
    WalkExpands(left, "(" + right, v);
  }

  lemma RegroupMark(left: string, open: string, n: string, close: string)
    ensures left + (open + n + close) == left + open + n + close
  {
  }

  lemma RegroupOpen(w: string, right: string)
    ensures "(" + (w + (")" + right)) == "(" + w + ")" + right
  {
  }

  /** Interpolating a template gives its substitution. */
  lemma InterpolationIsSubstitution(t: Template, v: Values)
    requires WellFormed(t, v)
    ensures Walk(Render(t), "", v) == Subst(t, v)
  {
    WalkSubstitutes("", t, "", v);
    assert "" + Render(t) == Render(t) && Subst(t, v) + "" == Subst(t, v);
  }

  // ----- Names without an end mark -----

  /** Nothing that could continue, close or mark the end of a name. */
  predicate Stops(r: string) {
    r == "" || (!IsNameChar(r[0]) && r[0] != '[' && r[0] != ']' && r[0] != '|')
  }

  predicate Dots(r: string) {
    forall i :: 0 <= i < |r| ==> r[i] == '.'
  }

  function LevelAfter(level: nat, c: char): nat {
    if c == '[' then level + 1 else if c == ']' && level > 0 then level - 1 else level
  }

  lemma {:induction false} ExtentRuns(w: string, level: nat, r: string)
    requires Extent(w, level) == |w|
    ensures Extent(w + r, level) >= |w|
    ensures Stops(r) ==> Extent(w + r, level) == |w|
    ensures Dots(r) ==> Extent(w + r, level) == |w| + |r|
  {
    if w == [] {
      assert w + r == r;
      if Dots(r) {
        DotsAreName(r, level);
      }
    } else {
      assert (w + r)[0] == w[0] && (w + r)[1..] == w[1..] + r;
      ExtentRuns(w[1..], LevelAfter(level, w[0]), r);
    }
  }

  lemma {:induction false} DotsAreName(r: string, level: nat)
    requires Dots(r)
    ensures Extent(r, level) == |r|
  {
    if r != [] {
      DotsAreName(r[1..], level);
    }
  }

  lemma {:induction false} FirstTwoDots(w: string, r: string)
    requires TwoDots(w) == |w| && w != "" && w[|w| - 1] != '.'
    ensures |r| >= 2 && r[0] == r[1] == '.' ==> TwoDots(w + r) == |w|
    ensures r == "." ==> TwoDots(w + r) == |w| + 1
  {
    var s := w + r;
    assert s[0] == w[0] && s[1..] == w[1..] + r;
    if |w| == 1 {
      assert s[1..] == r;
    } else {
      assert s[1] == w[1];
      FirstTwoDots(w[1..], r);
    }
  }

  /** A name as it stands in most texts: whatever cannot belong to it ends it and is kept. */
  lemma OpenName(w: string, r: string, v: Values)
    requires IsName(w) && w != "" && Stops(r)
    ensures Expanded(w + r, v) == v.variable(w) + r
  {
    var s := w + r;
    ExtentRuns(w, 0, r);
    assert s[..|w|] == w && s[|w|..] == r && s[0] == w[0];
  }

  /** A full stop behind a name stays in the text. */
  lemma DotAfterName(w: string, r: string, v: Values)
    requires IsName(w) && w != "" && w[|w| - 1] != '.' && w[|w| - 1] != ']' && Stops(r)
    ensures Expanded(w + ("." + r), v) == v.variable(w) + ("." + r)
  {
    var s, d := w + ("." + r), w + ".";
    assert s == d + r;
    ExtentRuns(w, 0, ".");
    ExtentRuns(d, 0, r);
    FirstTwoDots(w, ".");
    assert s[..|d|] == d && s[..|w|] == w && s[|w|..] == "." + r;
    assert NameLength(s) == |w| by {
      assert s[|d| - 1] == '.' && (|w| > 0 ==> s[|d| - 2] == w[|w| - 1]);
    }
    assert s[0] == w[0] && s[|w|] == '.';
  }

  /** Two dots end a name, whatever comes behind them. */
  lemma TwoDotsAfterName(w: string, r: string, v: Values)
    requires IsName(w) && w != "" && w[|w| - 1] != '.'
    ensures Expanded(w + (".." + r), v) == v.variable(w) + (".." + r)
  {
    var s, d := w + (".." + r), w + "..";
    assert s == d + r;
    ExtentRuns(w, 0, "..");
    ExtentRuns(d, 0, r);
    var e := Extent(s, 0);
    var more := (".." + r)[..e - |w|];
    assert s[..e] == w + more;
    FirstTwoDots(w, more);
    assert s[..|w|] == w && s[|w|..] == ".." + r && s[0] == w[0] && s[|w|] == '.' && s[|w| - 1] == w[|w| - 1];
  }

  // ----- The source's loops, in place -----

  // ----- Names and formulas by their characters -----

  /** Letters, digits and underscores, at least one. */
  predicate PlainName(w: string) {
    w != "" && forall i :: 0 <= i < |w| ==>
      'a' <= w[i] <= 'z' || 'A' <= w[i] <= 'Z' || '0' <= w[i] <= '9' || w[i] == '_'
  }

  /** A character that ends a plain name. */
  predicate Ends(c: char) {
    !('a' <= c <= 'z') && !('A' <= c <= 'Z') && !('0' <= c <= '9') && c != '_' && c != '.' && c != '[' && c != ']'
  }

  lemma {:induction false} PlainExtent(w: string, level: nat)
    requires w == "" || PlainName(w)
    ensures Extent(w, level) == |w| && TwoDots(w) == |w|
  {
    if w != "" {
      assert w[0] != '.';
      PlainExtent(w[1..], level);
    }
  }

  lemma PlainIsName(w: string)
    requires PlainName(w)
    ensures IsName(w)
  {
    PlainExtent(w, 0);
    assert w[|w| - 1] != '.';
  }

  /** A plain name behind a dollar sign stands for the variable of that name, up to the first character that cannot
      belong to it; a bar there is taken along. */
  lemma NameEndsAt(w: string, c: char, rest: string, v: Values)
    requires PlainName(w) && Ends(c)
    ensures Expanded(w + [c] + rest, v) == v.variable(w) + (if c == '|' then rest else [c] + rest)
    ensures Expanded(w, v) == v.variable(w)
  {
    PlainIsName(w);
    OpenName(w, "", v);
    assert w + "" == w && v.variable(w) + "" == v.variable(w);
    if c == '|' {
      NameIsReplaced(w, rest, v);
    } else {
      OpenName(w, [c] + rest, v);
      Associate(w, [c], rest);
    }
  }

  /** The same in a text without other dollar signs; and what stands to the right of it, once put together, may hold
      anything. */
  lemma NameInText(left: string, w: string, c: char, rest: string, v: Values)
    requires '$' !in left && PlainName(w) && Ends(c)
    ensures Walk(left + "$", w + [c] + rest, v) == left + (v.variable(w) + (if c == '|' then rest else [c] + rest))
    ensures c != '$' && '$' !in rest ==>
              Walk(left + "$" + (w + [c] + rest), "", v) ==
              left + (v.variable(w) + (if c == '|' then rest else [c] + rest))
  {
    var text := w + [c] + rest;
    var value := v.variable(w) + (if c == '|' then rest else [c] + rest);
    NameEndsAt(w, c, rest, v);
    WalkExpands(left, text, v);
    WalkPasses("", left, value, v);
    NothingInFront(left);
    if c != '$' && '$' !in rest {
      NoDollar(w);
      WalkPasses(left + "$", text, "", v);
      assert text + "" == text;
    }
  }

  lemma NoDollar(w: string)
    requires PlainName(w)
    ensures '$' !in w
  {
  }

  /** A dollar sign with a bar directly behind it stands for itself, and so does one at the end. */
  lemma DollarEscaped(left: string, rest: string, v: Values)
    requires '$' !in left
    ensures Walk(left + "$", "|" + rest, v) == left + ("$" + rest) && Walk(left + "$", "", v) == left + "$"
  {
    assert IsName("") && VariableText("", v) == "$";
    NameIsReplaced("", rest, v);
    assert "" + "|" + rest == "|" + rest;
    WalkExpands(left, "|" + rest, v);
    WalkExpands(left, "", v);
    WalkPasses("", left, "$" + rest, v);
    WalkPasses("", left, "$", v);
    NothingInFront(left);
  }

  lemma {:induction false} ExtentJoins(w: string, level: nat, x: string)
    requires Extent(w, level) == |w| && forall n: nat :: Extent(x, n) == |x|
    ensures Extent(w + x, level) == |w| + |x|
  {
    if w == "" {
      assert w + x == x;
    } else {
      assert (w + x)[0] == w[0] && (w + x)[1..] == w[1..] + x;
      ExtentJoins(w[1..], LevelAfter(level, w[0]), x);
    }
  }

  lemma {:induction false} DotsJoin(w: string, x: string)
    requires TwoDots(w) == |w| && TwoDots(x) == |x| && (w == "" || w[|w| - 1] != '.')
    ensures TwoDots(w + x) == |w| + |x|
  {
    if w == "" {
      assert w + x == x;
    } else {
      var s := w + x;
      assert s[0] == w[0] && s[1..] == w[1..] + x;
      if |w| > 1 {
        assert s[1] == w[1];
        DotsJoin(w[1..], x);
      } else {
        assert s[1..] == x;
      }
    }
  }

  /** A name may go on with a dot and a plain name, or with a plain name in brackets. */
  lemma PathIsName(w: string, x: string)
    requires IsName(w) && w != "" && w[|w| - 1] != '.' && PlainName(x)
    ensures IsName(w + ("." + x)) && IsName(w + ("[" + x + "]"))
  {
    var dotted, indexed := "." + x, "[" + x + "]";
    forall n: nat
      ensures Extent(dotted, n) == |dotted| && TwoDots(dotted) == |dotted|
      ensures Extent(indexed, n) == |indexed| && TwoDots(indexed) == |indexed|
    {
      DottedExtent(x, n);
      IndexedExtent(x, n);
    }
    ExtentJoins(w, 0, dotted);
    ExtentJoins(w, 0, indexed);
    DotsJoin(w, dotted);
    DotsJoin(w, indexed);
    assert (w + dotted)[|w| + |dotted| - 1] == x[|x| - 1] != '.';
  }

  lemma DottedExtent(x: string, n: nat)
    requires PlainName(x)
    ensures Extent("." + x, n) == 1 + |x| && TwoDots("." + x) == 1 + |x|
  {
    var s := "." + x;
    assert s[1..] == x && s[1] == x[0] != '.';
    PlainExtent(x, n);
  }

  lemma IndexedExtent(x: string, n: nat)
    requires PlainName(x)
    ensures Extent("[" + x + "]", n) == |x| + 2 && TwoDots("[" + x + "]") == |x| + 2
  {
    var s := "[" + x + "]";
    assert s[0] == '[' && s[1..] == x + "]";
    PlainExtent(x, n + 1);
    ClosedExtent(x, n);
    DotsJoin(x, "]");
  }

  lemma {:induction false} ClosedExtent(x: string, n: nat)
    requires x == "" || PlainName(x)
    ensures Extent(x + "]", n + 1) == |x| + 1
  {
    if x == "" {
      assert x + "]" == "]" && "]"[1..] == "";
    } else {
      assert (x + "]")[0] == x[0] && (x + "]")[1..] == x[1..] + "]";
      ClosedExtent(x[1..], n);
    }
  }

  /** The inside of a formula: plain stretches, quoted strings, comments, and pairs of parentheses. */
  datatype Body = Nothing | Plain(rest: Body, text: string) | Quoted(rest: Body, text: string)
                | Commented(rest: Body, text: string) | Nested(rest: Body, inner: Body)

  function BodyText(b: Body): string {
    match b
    case Nothing => ""
    case Plain(rest, text) => BodyText(rest) + text
    case Quoted(rest, text) => BodyText(rest) + ("'" + text + "'")
    case Commented(rest, text) => BodyText(rest) + ("#" + text + "#")
    case Nested(rest, inner) => BodyText(rest) + ("(" + BodyText(inner) + ")")
  }

  predicate GoodBody(b: Body) {
    match b
    case Nothing => true
    case Plain(rest, text) => GoodBody(rest) && '(' !in text && ')' !in text && '#' !in text && '\'' !in text
    case Quoted(rest, text) => GoodBody(rest) && '\'' !in text
    case Commented(rest, text) => GoodBody(rest) && '#' !in text
    case Nested(rest, inner) => GoodBody(rest) && GoodBody(inner)
  }

  /** The scan over a text that does not end in it. */
  ghost predicate Passes(w: string, k: Scan, k': Scan) {
    forall rest: string :: rest != "" ==> Through(w, k, k', rest)
  }

  predicate Through(w: string, k: Scan, k': Scan, rest: string)
    requires rest != ""
  {
    FormulaLength(w + rest, k) == (|w| + FormulaLength(rest, k').0, FormulaLength(rest, k').1)
  }

  lemma PassesJoin(x: string, y: string, k: Scan, l: Scan, m: Scan)
    requires Passes(x, k, l) && Passes(y, l, m)
    ensures Passes(x + y, k, m)
  {
    forall rest: string | rest != ""
      ensures Through(x + y, k, m, rest)
    {
      assert Through(x, k, l, y + rest) && Through(y, l, m, rest);
      Associate(x, y, rest);
    }
  }

  lemma PassesOne(c: char, k: Scan)
    requires Scanned(k, c).level > 0
    ensures Passes([c], k, Scanned(k, c))
  {
    forall rest: string | rest != ""
      ensures Through([c], k, Scanned(k, c), rest)
    {
      assert ([c] + rest)[1..] == rest;
    }
  }

  /** Characters that leave the scan as it is. */
  lemma {:induction false} PassesIdle(w: string, k: Scan)
    requires k.level > 0 && forall i :: 0 <= i < |w| ==> Scanned(k, w[i]) == k
    ensures Passes(w, k, k)
  {
    if w == "" {
      forall rest: string | rest != ""
        ensures Through(w, k, k, rest)
      {
        NothingInFront(rest);
      }
    } else {
      PassesOne(w[0], k);
      PassesIdle(w[1..], k);
      PassesJoin([w[0]], w[1..], k, k, k);
      assert [w[0]] + w[1..] == w;
    }
  }

  /** Between two marks that turn a flag on and off. */
  lemma PassesMarked(mark: char, w: string, k: Scan)
    requires k.level > 0 && !k.inString && !k.inComment && (mark == '\'' || mark == '#') && mark !in w
    ensures Passes([mark] + w + [mark], k, k)
  {
    var l := Scanned(k, mark);
    PassesOne(mark, k);
    PassesIdle(w, l);
    PassesOne(mark, l);
    PassesJoin([mark], w, k, l, l);
    PassesJoin([mark] + w, [mark], k, l, k);
  }

  lemma {:induction false} BodyPasses(b: Body, level: int)
    requires GoodBody(b) && level > 0
    ensures Passes(BodyText(b), Scan(level, false, false), Scan(level, false, false))
    decreases b
  {
    var k := Scan(level, false, false);
    match b
    case Nothing => PassesIdle("", k);
    case Plain(rest, text) =>
      BodyPasses(rest, level);
      PassesIdle(text, k);
      PassesJoin(BodyText(rest), text, k, k, k);
    case Quoted(rest, text) =>
      BodyPasses(rest, level);
      PassesMarked('\'', text, k);
      PassesJoin(BodyText(rest), "'" + text + "'", k, k, k);
    case Commented(rest, text) =>
      BodyPasses(rest, level);
      PassesMarked('#', text, k);
      PassesJoin(BodyText(rest), "#" + text + "#", k, k, k);
    case Nested(rest, inner) =>
      BodyPasses(rest, level);
      BodyPasses(inner, level + 1);
      PassesNested(BodyText(inner), k);
      PassesJoin(BodyText(rest), "(" + BodyText(inner) + ")", k, k, k);
  }

  lemma PassesNested(w: string, k: Scan)
    requires k.level > 0 && !k.inString && !k.inComment
    requires Passes(w, k.(level := k.level + 1), k.(level := k.level + 1))
    ensures Passes("(" + w + ")", k, k)
  {
    var l := k.(level := k.level + 1);
    PassesOne('(', k);
    PassesOne(')', l);
    PassesJoin("(", w, k, l, l);
    PassesJoin("(" + w, ")", k, l, k);
  }

  /** A formula in parentheses behind a dollar sign is replaced by its value, whatever parentheses its strings and
      comments hold, and whatever follows. */
  lemma FormulaByItself(b: Body, rest: string, v: Values)
    requires GoodBody(b)
    ensures Expanded("(" + BodyText(b) + ")" + rest, v) == v.formula(BodyText(b)) + rest
  {
    BodyIsFormula(b);
    FormulaIsReplaced(BodyText(b), rest, v);
  }

  lemma BodyIsFormula(b: Body)
    requires GoodBody(b)
    ensures IsFormula(BodyText(b))
  {
    var w, k := BodyText(b), Scan(1, false, false);
    BodyPasses(b, 1);
    PassesOne('(', AT_START);
    PassesJoin("(", w, AT_START, k, k);
    assert Through("(" + w, AT_START, k, ")");
    Closed(k);
  }

  /** Where no parenthesis closes, the formula and all that follows is dropped. */
  lemma OpenFormulaDropped(w: string, v: Values)
    requires ')' !in w
    ensures Expanded("(" + w, v) == ""
  {
    assert ("(" + w)[1..] == w;
    if w != "" {
      NeverCloses(w, Scan(1, false, false));
    }
  }

  lemma {:induction false} NeverCloses(w: string, k: Scan)
    requires w != "" && ')' !in w && k.level > 0
    ensures FormulaLength(w, k) == (|w|, true)
  {
    if |w| > 1 {
      NeverCloses(w[1..], Scanned(k, w[0]));
    }
  }

  lemma Closed(k: Scan)
    requires k == Scan(1, false, false)
    ensures FormulaLength(")", k) == (1, false)
  {
  }

  method NameExtent(res: string, begin: nat) returns (end: nat)
    requires begin <= |res|
    ensures end == begin + Extent(res[begin..], 0)
  {
    ghost var r := res[begin..];
    var level := 0;
    end := begin;
    while end < |res|
      invariant begin <= end <= |res| && level >= 0
      invariant Extent(r, 0) == end - begin + Extent(res[end..], level)
    {
      assert res[end..][1..] == res[end + 1..];
      var c := res[end];
      if c == '[' {
        level := level + 1;
      } else if c == ']' {
        if level == 0 {
          break;
        }
        level := level - 1;
      } else if !IsNameChar(c) {
        break;
      }
      end := end + 1;
    }
  }

  /** `std::adjacent_find` for two dots. */
  method AdjacentDots(res: string, begin: nat, end: nat) returns (k: nat)
    requires begin <= end <= |res|
    ensures k == begin + TwoDots(res[begin..end])
  {
    ghost var name := res[begin..end];
    k := begin;
    while k + 1 < end && !(res[k] == '.' && res[k + 1] == '.')
      invariant begin <= k <= end
      invariant TwoDots(name) == k - begin + TwoDots(res[k..end])
    {
      assert res[k..end][1..] == res[k + 1..end];
      k := k + 1;
    }
    k := if k + 1 < end then k else end;
  }

  method NameEnd(res: string, begin: nat) returns (end: nat)
    requires begin <= |res|
    ensures end == begin + NameLength(res[begin..])
  {
    ghost var r := res[begin..];
    var extent := NameExtent(res, begin);
    assert res[begin..extent] == r[..extent - begin];
    end := AdjacentDots(res, begin, extent);
    if end > begin && res[end - 1] == '.' && !(end > begin + 1 && res[end - 2] == ']') {
      end := end - 1;
    }
  }

  method FormulaEnd(res: string, begin: nat) returns (end: nat, open: bool)
    requires begin < |res|
    ensures var (n, o) := FormulaLength(res[begin..], AT_START); end == begin + n && open == o
  {
    var k := AT_START;
    end := begin;
    k := Scanned(k, res[end]);
    end := end + 1;
    assert res[begin..][1..] == res[begin + 1..];
    while end < |res| && k.level > 0
      invariant begin < end <= |res|
      invariant var (n, o) := FormulaLength(res[begin..], AT_START);
                if end == |res| || k.level <= 0 then n == end - begin && o == (k.level > 0)
                else n == end - begin + FormulaLength(res[end..], k).0 && o == FormulaLength(res[end..], k).1
    {
      assert res[end..][1..] == res[end + 1..];
      k := Scanned(k, res[end]);
      end := end + 1;
    }
    open := k.level > 0;
  }

  method LastDollar(res: string, from: int) returns (p: int)
    requires -1 <= from <= |res|
    ensures p == -1 || (0 <= p <= from && p < |res| && res[p] == '$')
    ensures forall i :: p < i < Cut(res, from) ==> res[i] != '$'
  {
    p := if from < |res| then from else |res| - 1;
    while p >= 0 && res[p] != '$'
      invariant -1 <= p <= from && p < |res|
      invariant forall i :: p < i < Cut(res, from) ==> res[i] != '$'
    {
      p := p - 1;
    }
  }

  /** How much of the string the walk still has before it. */
  function Cut(res: string, from: int): (n: nat)
    requires -1 <= from <= |res|
    ensures n <= |res| && (from < |res| ==> n == from + 1)
  {
    if from < |res| then from + 1 else |res|
  }

  ghost predicate Walked(str: string, res: string, from: int, v: Values) {
    -1 <= from <= |res| && Walk(res[..Cut(res, from)], res[Cut(res, from)..], v) == Walk(str, "", v)
  }

  lemma WalkedToDollar(str: string, res: string, from: int, p: int, v: Values)
    requires Walked(str, res, from, v) && -1 <= p <= from && p < |res|
    requires forall i :: p < i < Cut(res, from) ==> res[i] != '$'
    ensures Walk(res[..p + 1], res[p + 1..], v) == Walk(str, "", v)
  {
    var cut := Cut(res, from);
    var text := res[p + 1..cut];
    assert res[..cut] == res[..p + 1] + text && res[p + 1..] == text + res[cut..];
    WalkPasses(res[..p + 1], text, res[cut..], v);
  }

  lemma WalkedOver(str: string, res: string, p: nat, next: string, v: Values)
    requires p < |res| && res[p] == '$' && Walk(res[..p + 1], res[p + 1..], v) == Walk(str, "", v)
    requires next == res[..p] + Expanded(res[p + 1..], v)
    ensures Walked(str, next, p - 1, v)
  {
    assert res[..p + 1] == res[..p] + "$";
    WalkExpands(res[..p], res[p + 1..], v);
    CutOff(res[..p], Expanded(res[p + 1..], v));
  }

  lemma CutOff(left: string, right: string)
    ensures (left + right)[..|left|] == left && (left + right)[|left|..] == right
  {
  }

  method ReplaceFormula(was: string, p: nat, v: Values) returns (res: string)
    requires p + 1 < |was| && was[p + 1] == '('
    ensures res == was[..p] + Expanded(was[p + 1..], v)
  {
    ghost var r := was[p + 1..];
    var end, open := FormulaEnd(was, p + 1);
    assert was[end..] == r[end - p - 1..];
    if open {
      return was[..p] + was[end..];
    }
    var inside := was[p + 2..end - 1];
    assert inside == r[1..end - p - 2];
    return was[..p] + (v.formula(inside) + was[end..]);
  }

  method ReplaceName(was: string, p: nat, v: Values) returns (res: string)
    requires p + 1 < |was| && was[p + 1] != '('
    ensures res == was[..p] + Expanded(was[p + 1..], v)
  {
    ghost var r := was[p + 1..];
    var end := NameEnd(was, p + 1);
    var name := was[p + 1..end];
    assert name == r[..end - p - 1];
    if end < |was| && was[end] == '|' {
      end := end + 1;
    }
    assert was[end..] == r[end - p - 1..];
    res := was[..p] + ((if name == "" then "$" else v.variable(name)) + was[end..]);
  }

  method DoInterpolation(str: string, v: Values) returns (res: string)
    ensures res == Walk(str, "", v)
  {
    res := str;
    var from: int := |res|;
    assert res[..|res|] == str && res[|res|..] == "";
    while from >= 0
      invariant Walked(str, res, from, v)
      decreases from
    {
      var p := LastDollar(res, from);
      WalkedToDollar(str, res, from, p, v);
      if p == -1 {
        from := -1;
        break;
      }
      ghost var was := res;
      if p + 1 == |res| {
        assert res == res[..p] + "$";
      } else if res[p + 1] == '(' {
        res := ReplaceFormula(res, p, v);
      } else {
        res := ReplaceName(res, p, v);
      }
      WalkedOver(str, was, p, res, v);
      from := p - 1;
    }
    assert res[..0] == "" && res[0..] == res;
  }
}
