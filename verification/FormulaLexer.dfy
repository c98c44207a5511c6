/** `get_token`, and `tokens_to_string` as its inverse. */
module FormulaLexer {
  import opened FormulaTokens

  /** The kind and the length of the first token, or the exception. */
  datatype Lexed = Lexed(kind: Kind, size: nat) | Error

  predicate IsWordChar(c: char) {
    'a' <= c <= 'z' || c == '_' || 'A' <= c <= 'Z'
  }

  predicate IsBlank(c: char) {
    c <= ' ' && c != '\n'
  }

  predicate IsDigit(c: char) {
    '0' <= c <= '9'
  }

  function RunWord(s: string): (n: nat)
    ensures n <= |s|
  {
    if s == [] || !IsWordChar(s[0]) then 0 else 1 + RunWord(s[1..])
  }

  function RunBlank(s: string): (n: nat)
    ensures n <= |s|
  {
    if s == [] || !IsBlank(s[0]) then 0 else 1 + RunBlank(s[1..])
  }

  /** Characters up to a closing mark. */
  function RunTo(s: string, mark: char): (n: nat)
    ensures n <= |s|
  {
    if s == [] || s[0] == mark then 0 else 1 + RunTo(s[1..], mark)
  }

  /** The rest of a number: digits with at most one dot in all; `Error` at a second dot. */
  function RunNumber(s: string, dot: bool): Lexed {
    if s == [] then Lexed(if dot then Decimal else Integer, 0)
    else if IsDigit(s[0]) then
      var r := RunNumber(s[1..], dot);
      if r == Error then Error else Lexed(r.kind, 1 + r.size)
    else if s[0] == '.' then
      if dot then Error
      else
        var r := RunNumber(s[1..], true);
        if r == Error then Error else Lexed(r.kind, 1 + r.size)
    else Lexed(if dot then Decimal else Integer, 0)
  }

  function WordKind(w: string): Kind {
    if w == "d" || w == "or" || w == "and" || w == "not" || w == "where" then Operator
    else if w == "def" || w == "fai" || w == "faiend" || w == "functions" then Keyword
    else Identifier
  }

  /** The second character, if any, extends the first to a longer token. */
  predicate SecondIn(s: string, chars: string) {
    |s| > 1 && s[1] in chars
  }

  function GetToken(s: string): Lexed
    requires s != []
  {
    var c := s[0];
    if c >= 'A' then
      if IsWordChar(c) then
        var n := RunWord(s);
        Lexed(WordKind(s[..n]), n)
      else if c == '[' then Lexed(LSquare, 1)
      else if c == ']' then Lexed(RSquare, 1)
      else if c == '^' then Lexed(Operator, 1)
      else Error
    else if c <= ' ' then
      if c == '\n' then Lexed(Eol, 1) else Lexed(Whitespace, RunBlank(s))
    else if c >= '0' then
      if c <= '9' then
        var r := RunNumber(s[1..], false);
        if r == Error then Error else Lexed(r.kind, 1 + r.size)
      else if c == ';' then Lexed(Semicolon, 1)
      else if c == '=' then Lexed(Operator, 1)
      else if c == '<' || c == '>' then Lexed(Operator, if SecondIn(s, "=") then 2 else 1)
      else Error
    else if c == ',' then Lexed(Comma, 1)
    else if c == '.' then Lexed(Operator, if SecondIn(s, "+-*/") then 2 else 1)
    else if c == '(' then Lexed(LParens, 1)
    else if c == ')' then Lexed(RParens, 1)
    else if c == '\'' then Quoted(s, '\'', StringLiteral)
    else if c == '#' then Quoted(s, '#', Comment)
    else if c == '+' || c == '*' || c == '/' || c == '%' then Lexed(Operator, 1)
    else if c == '-' then (if SecondIn(s, ">") then Lexed(Pointer, 2) else Lexed(Operator, 1))
    else if c == '!' then (if SecondIn(s, "=") then Lexed(Operator, 2) else Error)
    else Error
  }

  /** A token between two marks; without the second one it is an error. */
  function Quoted(s: string, mark: char, kind: Kind): Lexed
    requires s != []
  {
    var n := RunTo(s[1..], mark);
    if n + 1 < |s| then Lexed(kind, n + 2) else Error
  }

  lemma {:induction false} RunNumberSize(s: string, dot: bool)
    ensures RunNumber(s, dot) != Error ==> RunNumber(s, dot).size <= |s|
    ensures RunNumber(s, dot) != Error ==> RunNumber(s, dot).kind == Integer || RunNumber(s, dot).kind == Decimal
  {
    if s != [] {
      RunNumberSize(s[1..], dot);
      RunNumberSize(s[1..], true);
    }
  }

  /** A token is never empty and never longer than the input. */
  lemma TokenSize(s: string)
    requires s != [] && GetToken(s) != Error
    ensures 1 <= GetToken(s).size <= |s|
  {
    RunNumberSize(s[1..], false);
  }

  // ----- The source's loops over an iterator -----

  method GetTokenAt(text: string, begin: nat) returns (r: Lexed, i1: nat)
    requires begin < |text|
    ensures r == GetToken(text[begin..])
    ensures r != Error ==> i1 == begin + r.size <= |text|
  {
    ghost var s := text[begin..];
    var c := text[begin];
    assert s[0] == c;
    i1 := begin;
    if c >= 'A' {
      if IsWordChar(c) {
        while i1 < |text| && IsWordChar(text[i1])
          invariant begin <= i1 <= |text|
          invariant RunWord(s) == i1 - begin + RunWord(text[i1..])
        {
          assert text[i1..][1..] == text[i1 + 1..];
          i1 := i1 + 1;
        }
        assert text[begin..i1] == s[..i1 - begin];
        r := Lexed(WordKind(text[begin..i1]), i1 - begin);
        return;
      } else if c == '[' {
        r := Lexed(LSquare, 1);
      } else if c == ']' {
        r := Lexed(RSquare, 1);
      } else if c == '^' {
        r := Lexed(Operator, 1);
      } else {
        r := Error;
      }
    } else if c <= ' ' {
      if c == '\n' {
        r := Lexed(Eol, 1);
      } else {
        while i1 < |text| && text[i1] <= ' ' && text[i1] != '\n'
          invariant begin <= i1 <= |text|
          invariant RunBlank(s) == i1 - begin + RunBlank(text[i1..])
        {
          assert text[i1..][1..] == text[i1 + 1..];
          i1 := i1 + 1;
        }
        r := Lexed(Whitespace, i1 - begin);
        return;
      }
    } else if '0' <= c <= '9' {
      r := NumberAt(text, begin);
    } else if c == '\'' {
      r := QuotedAt(text, begin, '\'', StringLiteral);
    } else if c == '#' {
      r := QuotedAt(text, begin, '#', Comment);
    } else {
      r := SymbolAt(text, begin);
    }
    if r != Error {
      TokenSize(s);
      i1 := begin + r.size;
    }
  }

  method NumberAt(text: string, begin: nat) returns (r: Lexed)
    requires begin < |text| && IsDigit(text[begin])
    ensures r == GetToken(text[begin..])
  {
    ghost var s := text[begin..];
    assert s[1..] == text[begin + 1..];
    var i1, dot := begin + 1, false;
    while i1 < |text|
      invariant begin < i1 <= |text|
      invariant var all, rest := RunNumber(text[begin + 1..], false), RunNumber(text[i1..], dot);
                all == if rest == Error then Error else Lexed(rest.kind, i1 - begin - 1 + rest.size)
      decreases |text| - i1
    {
      assert text[i1..][1..] == text[i1 + 1..];
      if IsDigit(text[i1]) {
      } else if text[i1] == '.' {
        if !dot {
          dot := true;
        } else {
          return Error;
        }
      } else {
        break;
      }
      i1 := i1 + 1;
    }
    r := Lexed(if dot then Decimal else Integer, i1 - begin);
  }

  method QuotedAt(text: string, begin: nat, mark: char, kind: Kind) returns (r: Lexed)
    requires begin < |text|
    ensures r == Quoted(text[begin..], mark, kind)
  {
    ghost var s := text[begin..];
    assert s[1..] == text[begin + 1..];
    var i1 := begin + 1;
    while i1 < |text| && text[i1] != mark
      invariant begin < i1 <= |text|
      invariant RunTo(text[begin + 1..], mark) == i1 - begin - 1 + RunTo(text[i1..], mark)
    {
      assert text[i1..][1..] == text[i1 + 1..];
      i1 := i1 + 1;
    }
    if i1 < |text| {
      r := Lexed(kind, i1 - begin + 1);
    } else {
      r := Error;
    }
  }

  /** The tokens of one or two characters below 'A'. */
  method SymbolAt(text: string, begin: nat) returns (r: Lexed)
    requires begin < |text| && ' ' < text[begin] < 'A' && !IsDigit(text[begin])
    requires text[begin] != '\'' && text[begin] != '#'
    ensures r == GetToken(text[begin..])
  {
    var c := text[begin];
    var second := if begin + 1 < |text| then [text[begin + 1]] else [];
    assert |text[begin..]| > 1 ==> text[begin..][1] == text[begin + 1];
    match c
    case ';' => r := Lexed(Semicolon, 1);
    case '=' => r := Lexed(Operator, 1);
    case '<' => r := Lexed(Operator, if second == "=" then 2 else 1);
    case '>' => r := Lexed(Operator, if second == "=" then 2 else 1);
    case ',' => r := Lexed(Comma, 1);
    case '.' => r := Lexed(Operator, if second == "+" || second == "-" || second == "*" || second == "/" then 2 else 1);
    case '(' => r := Lexed(LParens, 1);
    case ')' => r := Lexed(RParens, 1);
    case '+' => r := Lexed(Operator, 1);
    case '-' => r := if second == ">" then Lexed(Pointer, 2) else Lexed(Operator, 1);
    case '*' => r := Lexed(Operator, 1);
    case '/' => r := Lexed(Operator, 1);
    case '%' => r := Lexed(Operator, 1);
    case '!' => r := if second == "=" then Lexed(Operator, 2) else Error;
    case _ => r := Error;
  }

  // ----- Whole texts -----

  datatype Tokens = Tokens(list: seq<Token>) | Bad

  function Tokenize(s: string): Tokens
    decreases |s|
  {
    if s == [] then Tokens([])
    else
      var r := GetToken(s);
      if r == Error then Bad
      else
        TokenSize(s);
        match Tokenize(s[r.size..])
        case Bad => Bad
        case Tokens(rest) => Tokens([Token(r.kind, s[..r.size])] + rest)
  }

  function Texts(ts: seq<Token>): string {
    if ts == [] then "" else ts[0].text + Texts(ts[1..])
  }

  /** The slices that the tokens are make up the whole text. */
  lemma {:induction false} SlicesCover(s: string)
    requires Tokenize(s).Tokens?
    ensures Texts(Tokenize(s).list) == s
    ensures forall t :: t in Tokenize(s).list ==> t.text != ""
    decreases |s|
  {
    if s != [] {
      TokenSize(s);
      var n := GetToken(s).size;
      SlicesCover(s[n..]);
      assert s[..n] + s[n..] == s;
    }
  }

  /** What the formula constructor passes on to the parser. */
  predicate Kept(t: Token) {
    t.kind != Whitespace && t.kind != Eol && t.kind != Comment
  }

  function Drop(ts: seq<Token>): seq<Token> {
    if ts == [] then [] else if Kept(ts[0]) then [ts[0]] + Drop(ts[1..]) else Drop(ts[1..])
  }

  function TokensToString(ts: seq<Token>): string {
    if ts == [] then "" else ts[0].text + " " + TokensToString(ts[1..])
  }

  // ----- A token in front of a space is read back unchanged -----

  lemma {:induction false} WordStays(s: string, tail: string)
    requires tail != [] && !IsWordChar(tail[0])
    ensures RunWord(s[..RunWord(s)] + tail) == RunWord(s)
  {
    var n := RunWord(s);
    if n == 0 {
      assert s[..0] + tail == tail;
    } else {
      WordStays(s[1..], tail);
      assert (s[..n] + tail)[1..] == s[1..][..n - 1] + tail;
    }
  }

  lemma {:induction false} NumberStays(s: string, dot: bool, tail: string)
    requires RunNumber(s, dot) != Error && RunNumber(s, dot).size <= |s|
    requires tail != [] && tail[0] == ' '
    ensures RunNumber(s[..RunNumber(s, dot).size] + tail, dot) == RunNumber(s, dot)
  {
    var n := RunNumber(s, dot).size;
    if n == 0 {
      assert s[..0] + tail == tail;
    } else {
      var dot' := dot || s[0] == '.';
      NumberStays(s[1..], dot', tail);
      assert (s[..n] + tail)[1..] == s[1..][..n - 1] + tail;
      assert (s[..n] + tail)[0] == s[0];
    }
  }

  lemma {:induction false} QuoteStays(s: string, mark: char, tail: string)
    requires RunTo(s, mark) < |s|
    ensures RunTo(s[..RunTo(s, mark) + 1] + tail, mark) == RunTo(s, mark)
  {
    var n := RunTo(s, mark);
    if n > 0 {
      QuoteStays(s[1..], mark, tail);
      assert (s[..n + 1] + tail)[1..] == s[1..][..n] + tail;
    }
  }

  lemma TokenStays(s: string, more: string)
    requires s != [] && GetToken(s) != Error && Kept(Token(GetToken(s).kind, ""))
    ensures GetToken(s).size <= |s|
    ensures GetToken(s[..GetToken(s).size] + " " + more) == GetToken(s)
  {
    TokenSize(s);
    var c, n := s[0], GetToken(s).size;
    var again := s[..n] + " " + more;
    assert again == s[..n] + (" " + more);
    assert again[0] == c;
    if IsWordChar(c) {
      WordStays(s, " " + more);
      assert again[..n] == s[..n];
    } else if IsDigit(c) {
      RunNumberSize(s[1..], false);
      NumberStays(s[1..], false, " " + more);
      assert again[1..] == s[1..][..n - 1] + (" " + more);
    } else if c == '\'' {
      QuoteStays(s[1..], c, " " + more);
      assert again[1..] == s[1..][..n - 1] + (" " + more);
    } else {
      assert n == 1 ==> again[1] == ' ';
      assert n == 2 ==> again[1] == s[1];
    }
  }

  /** The printer's space is read as one white space token, whatever token follows. */
  lemma SpaceReads(more: string)
    requires more == [] || more[0] > ' '
    ensures GetToken(" " + more) == Lexed(Whitespace, 1)
  {
    var s := " " + more;
    assert s[1..] == more && s[0] == ' ';
    assert RunBlank(more) == 0;
    assert RunBlank(s) == 1 + RunBlank(s[1..]);
  }

  /** A list of tokens, each of which was read from some text and is passed on to the parser. */
  ghost predicate Readable(ts: seq<Token>) {
    forall i :: 0 <= i < |ts| ==> Read(ts[i])
  }

  ghost predicate Read(t: Token) {
    Kept(t) && exists s: string :: s != [] && ReadFrom(t, s)
  }

  predicate ReadFrom(t: Token, s: string)
    requires s != []
  {
    var r := GetToken(s);
    r != Error && r.kind == t.kind && r.size <= |s| && s[..r.size] == t.text
  }

  lemma ReadStarts(t: Token)
    requires Read(t)
    ensures t.text != [] && t.text[0] > ' '
  {
    var s: string :| s != [] && ReadFrom(t, s);
    TokenSize(s);
    assert t.text[0] == s[0];
  }

  lemma {:induction false} DropReadable(s: string)
    requires Tokenize(s).Tokens?
    ensures Readable(Drop(Tokenize(s).list))
    decreases |s|
  {
    if s != [] {
      TokenSize(s);
      var n := GetToken(s).size;
      DropReadable(s[n..]);
      var t := Token(GetToken(s).kind, s[..n]);
      assert ReadFrom(t, s);
      var ts := Tokenize(s).list;
      assert ts[1..] == Tokenize(s[n..]).list;
    }
  }

  function Spaced(ts: seq<Token>): seq<Token> {
    if ts == [] then [] else [ts[0], Token(Whitespace, " ")] + Spaced(ts[1..])
  }

  lemma {:induction false} DropSpaced(ts: seq<Token>)
    requires forall i :: 0 <= i < |ts| ==> Kept(ts[i])
    ensures Drop(Spaced(ts)) == ts
  {
    if ts != [] {
      DropSpaced(ts[1..]);
      var x := Spaced(ts);
      assert x[1..][1..] == Spaced(ts[1..]);
    }
  }

  lemma {:induction false} PrintReads(ts: seq<Token>)
    requires Readable(ts)
    ensures Tokenize(TokensToString(ts)) == Tokens(Spaced(ts))
  {
    if ts != [] {
      var rest := TokensToString(ts[1..]);
      PrintReads(ts[1..]);
      if |ts| > 1 {
        ReadStarts(ts[1]);
        assert rest[0] == ts[1].text[0];
      }
      PrintOne(ts[0], rest);
      SpacedOne(ts);
    }
  }

  lemma SpacedOne(ts: seq<Token>)
    requires ts != []
    ensures Spaced(ts) == [ts[0]] + ([Token(Whitespace, " ")] + Spaced(ts[1..]))
  {
  }

  lemma PrintOne(t: Token, rest: string)
    requires Read(t) && (rest == [] || rest[0] > ' ') && Tokenize(rest).Tokens?
    ensures Tokenize(t.text + " " + rest) ==
            Tokens([t] + ([Token(Whitespace, " ")] + Tokenize(rest).list))
  {
    var s: string :| s != [] && ReadFrom(t, s);
    TokenStays(s, rest);
    TokenSize(s);
    SpaceReads(rest);
    PrintedSlices(t.text, rest);
    TokenizeOne(" " + rest, Whitespace, " ", rest);
    TokenizeOne(t.text + " " + rest, t.kind, t.text, " " + rest);
  }

  lemma PrintedSlices(text: string, rest: string)
    ensures var all, n := text + " " + rest, |text|; |all| > n && all[..n] == text && all[n..] == " " + rest
    ensures (" " + rest)[..1] == " " && (" " + rest)[1..] == rest
  {
  }

  lemma TokenizeOne(s: string, kind: Kind, text: string, rest: string)
    requires s != [] && GetToken(s) == Lexed(kind, |text|) && |text| <= |s| && s[..|text|] == text &&
             s[|text|..] == rest
    requires Tokenize(rest).Tokens?
    ensures Tokenize(s) == Tokens([Token(kind, text)] + Tokenize(rest).list)
  {
  }

  /** Printing the tokens that a text holds, and reading the print, gives the same tokens again. */
  lemma PrintedTokensReadBack(s: string)
    requires Tokenize(s).Tokens?
    ensures var kept := Drop(Tokenize(s).list);
            var again := Tokenize(TokensToString(kept));
            again.Tokens? && Drop(again.list) == kept
  {
    var kept := Drop(Tokenize(s).list);
    DropReadable(s);
    PrintReads(kept);
    DropSpaced(kept);
  }

  // ----- The tokens by their characters -----

  predicate Letter(c: char) {
    'a' <= c <= 'z' || 'A' <= c <= 'Z' || c == '_'
  }

  predicate Digits(w: string) {
    w != "" && forall i :: 0 <= i < |w| ==> '0' <= w[i] <= '9'
  }

  lemma {:induction false} WordRuns(w: string, rest: string)
    requires forall i :: 0 <= i < |w| ==> Letter(w[i])
    requires rest == "" || !Letter(rest[0])
    ensures RunWord(w + rest) == |w|
  {
    if w == "" {
      assert w + rest == rest;
    } else {
      assert (w + rest)[0] == w[0] && (w + rest)[1..] == w[1..] + rest;
      WordRuns(w[1..], rest);
    }
  }

  /** Letters and underscores as far as they go are one token: an operator, a keyword, or else a name. */
  lemma WordToken(w: string, rest: string)
    requires w != "" && (forall i :: 0 <= i < |w| ==> Letter(w[i])) && (rest == "" || !Letter(rest[0]))
    ensures GetToken(w + rest) ==
            Lexed(if w in {"d", "or", "and", "not", "where"} then Operator
                  else if w in {"def", "fai", "faiend", "functions"} then Keyword else Identifier, |w|)
  {
    WordRuns(w, rest);
    assert (w + rest)[0] == w[0] && (w + rest)[..|w|] == w;
  }

  lemma {:induction false} NumberRuns(w: string, rest: string, dot: bool)
    requires w == "" || Digits(w)
    requires rest == "" || !('0' <= rest[0] <= '9')
    ensures var r := RunNumber(rest, dot);
            RunNumber(w + rest, dot) == if r == Error then Error else Lexed(r.kind, |w| + r.size)
  {
    if w == "" {
      assert w + rest == rest;
    } else {
      assert (w + rest)[0] == w[0] && (w + rest)[1..] == w[1..] + rest;
      NumberRuns(w[1..], rest, dot);
    }
  }

  /** Digits are one number, with one dot among them a decimal one; a second dot is an error. */
  lemma NumberToken(w: string, x: string, rest: string)
    requires Digits(w) && (x == "" || Digits(x)) && (rest == "" || !('0' <= rest[0] <= '9'))
    ensures (rest == "" || rest[0] != '.') ==> GetToken(w + rest) == Lexed(Integer, |w|)
    ensures GetToken(w + ("." + (x + rest))) ==
            if rest != "" && rest[0] == '.' then Error else Lexed(Decimal, |w| + 1 + |x|)
  {
    assert (w + rest)[1..] == w[1..] + rest && (w + rest)[0] == w[0];
    NumberRuns(w[1..], rest, false);
    var more := "." + (x + rest);
    assert more[1..] == x + rest;
    NumberRuns(x, rest, true);
    assert (w + more)[1..] == w[1..] + more && (w + more)[0] == w[0];
    NumberRuns(w[1..], more, false);
  }

  /** The operators and brackets that are a token whatever follows. */
  lemma SymbolToken(rest: string)
    ensures forall c :: c in "=+*/%^" ==> GetToken([c] + rest) == Lexed(Operator, 1)
    ensures GetToken("(" + rest) == Lexed(LParens, 1) && GetToken(")" + rest) == Lexed(RParens, 1)
    ensures GetToken("[" + rest) == Lexed(LSquare, 1) && GetToken("]" + rest) == Lexed(RSquare, 1)
    ensures GetToken("," + rest) == Lexed(Comma, 1) && GetToken(";" + rest) == Lexed(Semicolon, 1)
    ensures GetToken("\n" + rest) == Lexed(Eol, 1)
  {
  }

  /** The pairs of characters that are one token, and their first characters where they stand alone. */
  lemma PairToken(rest: string)
    ensures GetToken("<=" + rest) == GetToken(">=" + rest) == GetToken("!=" + rest) == Lexed(Operator, 2)
    ensures forall c :: c in "+-*/" ==> GetToken(['.', c] + rest) == Lexed(Operator, 2)
    ensures GetToken("->" + rest) == Lexed(Pointer, 2)
    ensures rest == "" || rest[0] != '=' ==>
              GetToken("<" + rest) == GetToken(">" + rest) == Lexed(Operator, 1) && GetToken("!" + rest) == Error
    ensures rest == "" || rest[0] != '>' ==> GetToken("-" + rest) == Lexed(Operator, 1)
    ensures rest == "" || rest[0] !in "+-*/" ==> GetToken("." + rest) == Lexed(Operator, 1)
  {
    PairSecond("<", '=', rest);
    PairSecond(">", '=', rest);
    PairSecond("!", '=', rest);
    PairSecond("-", '>', rest);
    forall c | c in "+-*/"
      ensures (['.', c] + rest)[1] == c
    {
    }
    assert "<=" + rest == "<" + ("=" + rest);
    if rest != "" {
      assert ("<" + rest)[1] == (">" + rest)[1] == ("!" + rest)[1] == ("-" + rest)[1] == ("." + rest)[1] == rest[0];
    }
  }

  lemma PairSecond(c: string, d: char, rest: string)
    requires |c| == 1
    ensures (c + [d] + rest)[0] == c[0] && (c + [d] + rest)[1] == d
  {
  }

  lemma {:induction false} RunsTo(text: string, mark: char, rest: string)
    requires mark !in text
    ensures RunTo(text + [mark] + rest, mark) == |text|
    ensures RunTo(text, mark) == |text|
  {
    if text == "" {
      assert text + [mark] + rest == [mark] + rest;
    } else {
      assert (text + [mark] + rest)[0] == text[0] && (text + [mark] + rest)[1..] == text[1..] + [mark] + rest;
      RunsTo(text[1..], mark, rest);
    }
  }

  /** A string in quotes and a comment in number signs are one token each, and errors without the closing mark. */
  lemma QuotedToken(text: string, rest: string)
    ensures '\'' !in text ==> GetToken("'" + (text + "'" + rest)) == Lexed(StringLiteral, |text| + 2)
    ensures '#' !in text ==> GetToken("#" + (text + "#" + rest)) == Lexed(Comment, |text| + 2)
    ensures '\'' !in text ==> GetToken("'" + text) == Error
    ensures '#' !in text ==> GetToken("#" + text) == Error
  {
    if '\'' !in text {
      RunsTo(text, '\'', rest);
      assert ("'" + (text + "'" + rest))[1..] == text + "'" + rest && ("'" + text)[1..] == text;
    }
    if '#' !in text {
      RunsTo(text, '#', rest);
      assert ("#" + (text + "#" + rest))[1..] == text + "#" + rest && ("#" + text)[1..] == text;
    }
  }

  /** Printing puts the texts one after another, each with a space behind it. */
  lemma {:induction false} PrintedWithSpaces(ts: seq<Token>, t: Token)
    ensures TokensToString([]) == "" && TokensToString(ts + [t]) == TokensToString(ts) + t.text + " "
  {
    if ts == [] {
      assert ts + [t] == [t] && [t][1..] == [];
    } else {
      assert (ts + [t])[1..] == ts[1..] + [t];
      PrintedWithSpaces(ts[1..], t);
    }
  }
}
