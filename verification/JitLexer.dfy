/** The tokenizer of the expression compiler (`ReversePolishNotation::ReadToken` and its helpers),
    and what it yields on every text built from correctly spelled words. */
module JitLexer {
  import opened Decimals

  datatype Token =
    | Undefined
    | OpenBracket(args: int)
    | CloseBracket
    | Comma
    | Operation(sym: char)
    | Name(name: string)
    | Func(name: string)
    | Var(name: string)
    | Number(value: int)

  predicate IsAlpha(c: char) { 'a' <= c <= 'z' || 'A' <= c <= 'Z' }

  predicate IsWordChar(c: char) { IsAlpha(c) || IsDigit(c) }

  predicate IsOperator(c: char) { c == '+' || c == '-' || c == '*' }

  /** Characters that `ReadToken` skips: whitespace and every other character it does not know. */
  predicate IsSkipped(c: char) {
    !IsOperator(c) && c != '(' && c != ')' && c != ',' && !IsWordChar(c)
  }

  /** Length of the longest prefix of `s` that consists of digits. */
  function DigitRun(s: string): (n: nat)
    ensures n <= |s| && (forall c <- s[..n] :: IsDigit(c)) && (n < |s| ==> !IsDigit(s[n]))
  {
    if s == "" || !IsDigit(s[0]) then 0
    else assert s == [s[0]] + s[1..]; 1 + DigitRun(s[1..])
  }

  /** Length of the longest prefix of `s` that consists of letters and digits. */
  function WordRun(s: string): (n: nat)
    ensures n <= |s| && (forall c <- s[..n] :: IsWordChar(c)) && (n < |s| ==> !IsWordChar(s[n]))
  {
    if s == "" || !IsWordChar(s[0]) then 0
    else assert s == [s[0]] + s[1..]; 1 + WordRun(s[1..])
  }

  /** One `ReadToken` on the unread text `s`: the token and the text left unread. */
  function Scan(s: string): (r: (Token, string))
    ensures |r.1| <= |s|
    ensures s != "" ==> |r.1| < |s|
  {
    if s == "" then (Undefined, "")
    else if IsOperator(s[0]) then (Operation(s[0]), s[1..])
    else if s[0] == '(' then (OpenBracket(0), s[1..])
    else if s[0] == ')' then (CloseBracket, s[1..])
    else if s[0] == ',' then (Comma, s[1..])
    else if IsDigit(s[0]) then (Number(Decimal(s[..DigitRun(s)])), s[DigitRun(s)..])
    else if IsAlpha(s[0]) then (Name(s[..WordRun(s)]), s[WordRun(s)..])
    else Scan(s[1..])
  }

  /** The tokens the main loop reads, one after the other, until no text is unread. */
  function Tokens(s: string): seq<Token>
    decreases |s|
  {
    if s == "" then [] else [Scan(s).0] + Tokens(Scan(s).1)
  }

  // ---------------------------------------------------------------------------------------------
  // The reader object
  // ---------------------------------------------------------------------------------------------

  class Reader {
    var exprString: string
    var pointer: nat

    ghost predicate Valid()
      reads this
    {
      pointer <= |exprString|
    }

    /** The text not read so far. */
    ghost function Unread(): string
      reads this
      requires Valid()
    {
      exprString[pointer..]
    }

    constructor ()
      ensures Valid() && exprString == "" && Unread() == ""
    {
      exprString, pointer := "", 0;
    }

    method ReadChar() returns (c: char)
      requires Valid() && pointer < |exprString|
      modifies this`pointer
      ensures Valid() && pointer == old(pointer) + 1 && c == exprString[old(pointer)]
    {
      c := exprString[pointer];
      pointer := pointer + 1;
    }

    method ReadName() returns (name: string)
      requires Valid()
      modifies this`pointer
      ensures Valid()
      ensures name == old(Unread())[..WordRun(old(Unread()))]
      ensures Unread() == old(Unread())[WordRun(old(Unread()))..]
    {
      name := "";
      ghost var s := Unread();
      ghost var k := 0;
      while pointer < |exprString|
        invariant Valid() && k <= |s| && pointer == old(pointer) + k && name == s[..k]
        invariant s == exprString[old(pointer)..] && k + WordRun(s[k..]) == WordRun(s)
        decreases |exprString| - pointer
      {
        var c := ReadChar();
        assert s[k..][0] == c;
        if IsWordChar(c) {
          name := name + [c];
          assert s[k..][1..] == s[k + 1..];
          k := k + 1;
        } else {
          pointer := pointer - 1;
          break;
        }
      }
    }

    method ReadNumber() returns (value: int)
      requires Valid()
      modifies this`pointer
      ensures Valid()
      ensures value == Decimal(old(Unread())[..DigitRun(old(Unread()))])
      ensures Unread() == old(Unread())[DigitRun(old(Unread()))..]
    {
      value := 0;
      ghost var s := Unread();
      ghost var k := 0;
      while pointer < |exprString|
        invariant Valid() && k <= |s| && pointer == old(pointer) + k
        invariant s == exprString[old(pointer)..] && k + DigitRun(s[k..]) == DigitRun(s)
        invariant value == Decimal(s[..k])
        decreases |exprString| - pointer
      {
        var c := ReadChar();
        assert s[k..][0] == c;
        if IsDigit(c) {
          value := value * 10;
          value := value + (c as int - '0' as int);
          assert s[..k + 1][..k] == s[..k];
          assert s[k..][1..] == s[k + 1..];
          k := k + 1;
        } else {
          pointer := pointer - 1;
          break;
        }
      }
    }

    method ReadToken() returns (token: Token)
      requires Valid()
      modifies this`pointer
      ensures Valid()
      ensures (token, Unread()) == Scan(old(Unread()))
      decreases |exprString| - pointer
    {
      if pointer >= |exprString| {
        return Undefined;
      }
      ghost var s := Unread();
      var c := ReadChar();
      if IsOperator(c) {
        token := Operation(c);
      } else if c == '(' {
        token := OpenBracket(0);
      } else if c == ')' {
        token := CloseBracket;
      } else if c == ',' {
        token := Comma;
      } else if IsDigit(c) {
        pointer := pointer - 1;
        var value := ReadNumber();
        token := Number(value);
      } else if IsAlpha(c) {
        pointer := pointer - 1;
        var name := ReadName();
        token := Name(name);
      } else {
        token := ReadToken();
      }
    }
  }

  // ---------------------------------------------------------------------------------------------
  // Spelled text: every sequence of words, laid out with any skipped characters between them
  // ---------------------------------------------------------------------------------------------

  /** A word of the source text together with the token it stands for. */
  datatype Lexeme = Lexeme(text: string, token: Token)

  ghost predicate Spelled(w: Lexeme) {
    match w.token
    case OpenBracket(args) => args == 0 && w.text == "("
    case CloseBracket => w.text == ")"
    case Comma => w.text == ","
    case Operation(c) => IsOperator(c) && w.text == [c]
    case Name(name) => IsIdentifier(name) && w.text == name
    case Number(v) => IsNumeral(w.text) && v == Decimal(w.text)
    case _ => false
  }

  predicate IsIdentifier(s: string) {
    s != "" && IsAlpha(s[0]) && forall c <- s :: IsWordChar(c)
  }

  predicate IsGap(g: string) { forall c <- g :: IsSkipped(c) }

  /** Names and numbers must not touch each other. */
  ghost predicate IsRunOn(a: Token, b: Token) {
    (a.Name? || a.Number?) && (b.Name? || b.Number?)
  }

  ghost predicate Separable(ws: seq<Lexeme>) {
    && (forall w <- ws :: Spelled(w))
    && forall i :: 0 <= i < |ws| - 1 ==> !IsRunOn(ws[i].token, ws[i + 1].token)
  }

  /** The text that puts `gaps[i]` before word `i` and `gaps[|ws|]` at the end. */
  ghost function Layout(ws: seq<Lexeme>, gaps: seq<string>): string
    requires |gaps| == |ws| + 1
  {
    if ws == [] then gaps[0] else gaps[0] + ws[0].text + Layout(ws[1..], gaps[1..])
  }

  ghost function TokensOf(ws: seq<Lexeme>): (ts: seq<Token>)
    ensures |ts| == |ws| && forall i :: 0 <= i < |ws| ==> ts[i] == ws[i].token
  {
    seq(|ws|, i requires 0 <= i < |ws| => ws[i].token)
  }

  lemma {:induction false} ScanGap(g: string, s: string)
    requires IsGap(g)
    ensures Scan(g + s) == Scan(s)
  {
    if g == "" {
      assert g + s == s;
    } else {
      assert g == [g[0]] + g[1..];
      assert (g + s)[0] == g[0] && (g + s)[1..] == g[1..] + s;
      assert g[0] in g;
      ScanGap(g[1..], s);
    }
  }

  lemma {:induction false} WordRunOf(w: string, s: string)
    requires forall c <- w :: IsWordChar(c)
    requires s != "" ==> !IsWordChar(s[0])
    ensures WordRun(w + s) == |w|
  {
    if w == "" {
      assert w + s == s;
    } else {
      assert w == [w[0]] + w[1..];
      assert w[0] in w && (w + s)[1..] == w[1..] + s;
      WordRunOf(w[1..], s);
    }
  }

  lemma {:induction false} DigitRunOf(w: string, s: string)
    requires forall c <- w :: IsDigit(c)
    requires s != "" ==> !IsDigit(s[0])
    ensures DigitRun(w + s) == |w|
  {
    if w == "" {
      assert w + s == s;
    } else {
      assert w == [w[0]] + w[1..];
      assert w[0] in w && (w + s)[1..] == w[1..] + s;
      DigitRunOf(w[1..], s);
    }
  }

  /** A word that no letter or digit follows is read whole, whatever comes after. */
  lemma ScanWord(w: Lexeme, s: string)
    requires Spelled(w)
    requires (w.token.Name? || w.token.Number?) && s != "" ==> !IsWordChar(s[0])
    ensures Scan(w.text + s) == (w.token, s)
  {
    var t := w.text + s;
    assert t[0] == w.text[0] && t[|w.text|..] == s && t[..|w.text|] == w.text;
    assert w.text[0] in w.text;
    match w.token
    case Name(name) => WordRunOf(w.text, s);
    case Number(v) => DigitRunOf(w.text, s);
    case _ =>
  }

  /** What a layout starts with: a skipped character or the first character of its first word. */
  lemma LayoutHead(ws: seq<Lexeme>, gaps: seq<string>)
    requires |gaps| == |ws| + 1 && Separable(ws) && forall g <- gaps :: IsGap(g)
    requires ws != [] ==> !(ws[0].token.Name? || ws[0].token.Number?)
    ensures var t := Layout(ws, gaps) + " "; t != "" && !IsWordChar(t[0])
  {
    assert gaps[0] in gaps;
    if gaps[0] != "" {
      assert gaps[0][0] in gaps[0];
    } else if ws != [] {
      assert ws[0] in ws;
    }
  }

  lemma {:induction false} TokensOfGap(g: string)
    requires IsGap(g)
    ensures Tokens(g + " ") == [Undefined]
  {
    ScanGap(g + " ", "");
    assert g + " " + "" == g + " ";
    assert Tokens("") == [];
  }

  /** Tokenizing any layout of correctly spelled words gives back exactly their tokens. */
  lemma {:induction false} TokensOfLayout(ws: seq<Lexeme>, gaps: seq<string>)
    requires |gaps| == |ws| + 1 && Separable(ws) && forall g <- gaps :: IsGap(g)
    ensures Tokens(Layout(ws, gaps) + " ") == TokensOf(ws) + [Undefined]
  {
    assert gaps[0] in gaps;
    if ws == [] {
      TokensOfGap(gaps[0]);
      assert TokensOf(ws) + [Undefined] == [Undefined];
    } else {
      var rest := Layout(ws[1..], gaps[1..]) + " ";
      SeparableTail(ws);
      FirstWordEnds(ws, gaps);
      assert Layout(ws, gaps) + " " == gaps[0] + (ws[0].text + rest);
      hide Layout, Separable, Scan, IsGap, Spelled;
      ScanGap(gaps[0], ws[0].text + rest);
      ScanWord(ws[0], rest);
      TokensOfLayout(ws[1..], gaps[1..]);
      assert TokensOf(ws) == [ws[0].token] + TokensOf(ws[1..]);
    }
  }

  lemma SeparableTail(ws: seq<Lexeme>)
    requires Separable(ws) && ws != []
    ensures Separable(ws[1..]) && Spelled(ws[0])
  {
    assert ws[0] in ws;
    forall i | 0 <= i < |ws[1..]| - 1
      ensures !IsRunOn(ws[1..][i].token, ws[1..][i + 1].token)
    {
      assert !IsRunOn(ws[i + 1].token, ws[i + 2].token);
    }
  }

  /** No letter or digit touches a name or a number in a layout. */
  lemma FirstWordEnds(ws: seq<Lexeme>, gaps: seq<string>)
    requires |gaps| == |ws| + 1 && Separable(ws) && ws != [] && forall g <- gaps :: IsGap(g)
    ensures ws[0].token.Name? || ws[0].token.Number? ==> !IsWordChar((Layout(ws[1..], gaps[1..]) + " ")[0])
  {
    SeparableTail(ws);
    if ws[0].token.Name? || ws[0].token.Number? {
      if |ws| > 1 {
        assert !IsRunOn(ws[0].token, ws[1].token);
      }
      LayoutHead(ws[1..], gaps[1..]);
    }
  }
}
