/** What an emitted script does: an independent reader of the string expressions both
    script engines accept, and the proof that compiling a page keeps its meaning. */
module AspMeaning {
  import opened Text
  import opened AspScript
  import AspSize

  // ------------------------------------------------------- reading scripts back

  function StripPrefix(s: string, p: string): (r: Option<string>)
    ensures r.Some? ==> |r.value| == |s| - |p|
  {
    if p <= s then Some(s[|p|..]) else None
  }

  function JsEscape(c: char): Option<char> {
    if c == 'n' then Some('\n') else if c == 'r' then Some('\r')
    else if c == '"' || c == '\\' then Some(c) else None
  }

  /** A JScript string literal behind its opening quote: its value and what follows. */
  function JsString(s: string): (r: Option<(string, string)>)
    ensures r.Some? ==> |r.value.1| < |s|
  {
    if s == "" || IsReturn(s[0]) then None
    else if s[0] == '"' then Some(("", s[1..]))
    else if s[0] == '\\' then
      if |s| < 2 || JsEscape(s[1]).None? then None
      else
        var t := JsString(s[2..]);
        if t.None? then None else Some(([JsEscape(s[1]).value] + t.value.0, t.value.1))
    else
      var t := JsString(s[1..]);
      if t.None? then None else Some(([s[0]] + t.value.0, t.value.1))
  }

  /** A decimal number, read onto `acc`, and what follows. */
  function ReadNumber(s: string, acc: nat): (r: (nat, string))
    ensures |r.1| <= |s|
  {
    if s != "" && '0' <= s[0] <= '9' then ReadNumber(s[1..], acc * 10 + (s[0] as int - '0' as int))
    else (acc, s)
  }

  /** A VBScript string literal behind its opening quote; a doubled quote stands for one. */
  function VbString(s: string): (r: Option<(string, string)>)
    ensures r.Some? ==> |r.value.1| < |s|
  {
    if s == "" || IsReturn(s[0]) then None
    else if s[0] == '"' && At(s, 1) != '"' then Some(("", s[1..]))
    else
      var rest := if s[0] == '"' then s[2..] else s[1..];
      var t := VbString(rest);
      if t.None? then None else Some(([s[0]] + t.value.0, t.value.1))
  }

  /** A VBScript operand: a string literal or chr(n). */
  function VbOperand(s: string): (r: Option<(string, string)>)
    ensures r.Some? ==> |r.value.1| < |s|
  {
    if At(s, 0) == '"' then VbString(s[1..])
    else
      var a := StripPrefix(s, "chr(");
      if a.None? then None
      else
        var (n, rest) := ReadNumber(a.value, 0);
        if n < 256 && At(rest, 0) == ')' then Some(([n as char], rest[1..])) else None
  }

  /** Operands joined by '&'. */
  function VbExpr(s: string): (r: Option<(string, string)>)
    ensures r.Some? ==> |r.value.1| < |s|
    decreases |s|
  {
    var a := VbOperand(s);
    if a.None? then None
    else if At(a.value.1, 0) == '&' then
      var b := VbExpr(a.value.1[1..]);
      if b.None? then None else Some((a.value.0 + b.value.0, b.value.1))
    else a
  }

  function StringExpr(lang: ScriptLang, s: string): (r: Option<(string, string)>)
    ensures r.Some? ==> |r.value.1| < |s|
  {
    if lang.VBSCRIPT? then VbExpr(s)
    else if At(s, 0) == '"' then JsString(s[1..]) else None
  }

  function StatementEnd(lang: ScriptLang): char {
    if lang.VBSCRIPT? then ':' else ';'
  }

  predicate IsScriptBlank(lang: ScriptLang, c: char) {
    c == ' ' || IsReturn(c) || c == StatementEnd(lang)
  }

  /** Runs a script that consists of Response.Write statements over string expressions and
      returns what it sends; None if the script is anything else. */
  function RunWrites(lang: ScriptLang, s: string): Option<string>
    decreases |s|
  {
    if s == "" then Some("")
    else if IsScriptBlank(lang, s[0]) then RunWrites(lang, s[1..])
    else
      var a := StripPrefix(s, "Response.Write(");
      if a.None? then None
      else
        var v := StringExpr(lang, a.value);
        if v.None? || |v.value.1| < 2 || v.value.1[0] != ')' || v.value.1[1] != StatementEnd(lang) then None
        else
          var t := RunWrites(lang, v.value.1[2..]);
          if t.None? then None else Some(v.value.0 + t.value)
  }

  // ------------------------------------------------------- what a page stands for

  /** Text as it reaches the client: carriage returns dropped, line feeds sent as CRLF. */
  function Sent(s: string): string {
    if s == "" then "" else SentChar(s[0]) + Sent(s[1..])
  }

  function SentChar(c: char): string {
    if c == CR then "" else if c == LF then "\r\n" else [c]
  }

  datatype Effect = Output(text: string) | Evaluate(expr: string) | Execute(code: string)

  function CommandCode(body: string): string {
    body[WhiteLen(body)..]
  }

  function Effects(b: Block): seq<Effect> {
    match b
    case Text(s) => [Output(Sent(s))]
    case Command(body, _) =>
      var code := CommandCode(body);
      if At(code, 0) == '@' then []
      else if At(code, 0) == '=' then [Evaluate(code[1..])]
      else [Execute(code)]
  }

  function PageEffects(bs: seq<Block>): seq<Effect> {
    if bs == [] then [] else Effects(bs[0]) + PageEffects(bs[1..])
  }

  predicate Blank(lang: ScriptLang, s: string) {
    forall k :: 0 <= k < |s| ==> IsScriptBlank(lang, s[k])
  }

  /** Blank text that also ends the statement before it. */
  ghost predicate Ends(lang: ScriptLang, s: string) {
    Blank(lang, s) && exists k :: 0 <= k < |s| && s[k] != ' '
  }

  /** `s` is one piece of script with exactly effect `e`: leading blanks, the code
      character for character, and a terminator. */
  ghost predicate Does(lang: ScriptLang, s: string, e: Effect) {
    match e
    case Output(t) => RunWrites(lang, s) == Some(t)
    case Evaluate(x) =>
      exists i: nat, j: nat ::
        i <= j <= |s| && Blank(lang, s[..i]) && s[i..j] == "Response.Write(" + x + ")" && Ends(lang, s[j..])
    case Execute(c) =>
      exists i: nat, j: nat :: i <= j <= |s| && Blank(lang, s[..i]) && s[i..j] == c && Ends(lang, s[j..])
  }

  /** `s` is pieces of script with the effects `es`, in order. */
  ghost predicate Means(lang: ScriptLang, s: string, es: seq<Effect>)
    decreases es
  {
    if es == [] then Blank(lang, s)
    else exists k: nat :: k <= |s| && Does(lang, s[..k], es[0]) && Means(lang, s[k..], es[1..])
  }

  // ------------------------------------------------------------------ literals

  /** Puts `v` in front of a reading. */
  function Before(v: string, r: Option<(string, string)>): Option<(string, string)> {
    if r.None? then None else Some((v + r.value.0, r.value.1))
  }

  lemma JsCharReads(c: char, more: string)
    ensures JsString(EscapeChar(JSCRIPT, c) + more) == Before(SentChar(c), JsString(more))
  {
    var s := EscapeChar(JSCRIPT, c) + more;
    if c == LF {
      assert s[2..] == "\\n" + more;
      assert ("\\n" + more)[2..] == more;
      assert JsString("\\n" + more) == Before("\n", JsString(more));
      assert JsString(s) == Before("\r", JsString("\\n" + more));
      if JsString(more).Some? {
        assert "\r" + ("\n" + JsString(more).value.0) == "\r\n" + JsString(more).value.0;
      }
    } else if c == CR {
      assert s == more;
      if JsString(more).Some? {
        assert "" + JsString(more).value.0 == JsString(more).value.0;
      }
    } else if c == '"' || c == '\\' {
      assert s[2..] == more;
    } else {
      assert s[1..] == more;
    }
  }

  lemma {:induction false} JsStringReads(s: string, rest: string)
    ensures JsString(Escape(JSCRIPT, s) + "\"" + rest) == Some((Sent(s), rest))
  {
    if s == "" {
      assert Escape(JSCRIPT, s) + "\"" + rest == "\"" + rest;
      assert ("\"" + rest)[1..] == rest;
    } else {
      JsStringReads(s[1..], rest);
      var e, t := EscapeChar(JSCRIPT, s[0]), Escape(JSCRIPT, s[1..]);
      hide JsString, EscapeChar, SentChar;
      JsCharReads(s[0], t + "\"" + rest);
      assert Escape(JSCRIPT, s) == e + t;
      assert (e + t) + "\"" + rest == e + (t + "\"" + rest);
    }
  }

  /** Reading on inside a VBScript string literal, to the end of the expression. */
  function VbInside(s: string): Option<(string, string)> {
    var a := VbString(s);
    if a.None? then None
    else if At(a.value.1, 0) == '&' then Before(a.value.0, VbExpr(a.value.1[1..]))
    else a
  }

  lemma VbExprOpens(s: string)
    ensures VbExpr("\"" + s) == VbInside(s)
  {
    assert ("\"" + s)[1..] == s;
  }

  lemma VbOrdinary(c: char, s: string)
    requires c != '"' && !IsReturn(c)
    ensures VbInside([c] + s) == Before([c], VbInside(s))
  {
    assert ([c] + s)[1..] == s;
    var a := VbString(s);
    if a.Some? && At(a.value.1, 0) == '&' {
      var b := VbExpr(a.value.1[1..]);
      if b.Some? {
        assert ([c] + a.value.0) + b.value.0 == [c] + (a.value.0 + b.value.0);
      }
    }
  }

  /** A chr(n) operand with a two-digit code. */
  lemma VbChr(x: char, y: char, s: string)
    requires '0' <= x <= '9' && '0' <= y <= '9'
    ensures VbOperand("chr(" + ([x, y] + (")" + s)))
         == Some(([((x as int - '0' as int) * 10 + (y as int - '0' as int)) as char], s))
  {
    var t := [x, y] + (")" + s);
    assert StripPrefix("chr(" + t, "chr(") == Some(t) by { assert ("chr(" + t)[4..] == t; }
    assert t[1..] == [y] + (")" + s);
    assert ([y] + (")" + s))[1..] == ")" + s;
    var n := x as int - '0' as int;
    assert ReadNumber(")" + s, n * 10 + (y as int - '0' as int)) == (n * 10 + (y as int - '0' as int), ")" + s);
    assert ReadNumber([y] + (")" + s), n) == ReadNumber(")" + s, n * 10 + (y as int - '0' as int));
    assert ReadNumber(t, 0) == ReadNumber([y] + (")" + s), n);
    assert (")" + s)[1..] == s;
    assert ("chr(" + t)[0] == 'c';
  }

  /** A chr(n) operand followed by another operand. */
  lemma VbChrThen(x: char, y: char, s: string)
    requires '0' <= x <= '9' && '0' <= y <= '9'
    ensures VbExpr("chr(" + ([x, y] + (")" + ("&" + s))))
         == Before([((x as int - '0' as int) * 10 + (y as int - '0' as int)) as char], VbExpr(s))
  {
    hide VbOperand;
    VbChr(x, y, "&" + s);
    assert ("&" + s)[1..] == s;
  }

  /** Leaving a literal for another operand. */
  lemma VbCloses(s: string)
    ensures VbInside("\"&" + s) == Before("", VbExpr(s))
  {
    var t := "\"&" + s;
    assert t[1..] == "&" + s;
    assert ("&" + s)[1..] == s;
  }

  lemma BeforeTwice(a: string, b: string, r: Option<(string, string)>)
    ensures Before(a, Before(b, r)) == Before(a + b, r)
  {
    if r.Some? {
      assert a + (b + r.value.0) == (a + b) + r.value.0;
    }
  }

  lemma VbCharReads(c: char, s: string)
    ensures VbInside(EscapeChar(VBSCRIPT, c) + s) == Before(SentChar(c), VbInside(s))
  {
    hide VbInside, VbExpr;
    if c == '"' {
      var t := "\"" + s;
      var u := "chr(" + (['3', '4'] + (")" + ("&" + t)));
      assert VB_DOUBLE_QUOTE_REPLACEMENT + s == "\"&" + u;
      VbCloses(u);
      VbChrThen('3', '4', t);
      VbExprOpens(s);
      BeforeTwice("", "\"", VbInside(s));
      assert "" + "\"" == SentChar(c);
      assert 34 as char == '"';
    } else if c == LF {
      var t := "\"" + s;
      var u := "chr(" + (['1', '0'] + (")" + ("&" + t)));
      var v := "chr(" + (['1', '3'] + (")" + ("&" + u)));
      assert VB_NEWLINE + s == "\"&" + v;
      VbCloses(v);
      VbChrThen('1', '3', u);
      VbChrThen('1', '0', t);
      VbExprOpens(s);
      BeforeTwice("\r", "\n", VbInside(s));
      BeforeTwice("", "\r" + "\n", VbInside(s));
      assert "" + ("\r" + "\n") == "\r\n";
      assert 13 as char == '\r' && 10 as char == '\n';
    } else if c == CR {
      assert EscapeChar(VBSCRIPT, c) + s == s;
      if VbInside(s).Some? {
        assert "" + VbInside(s).value.0 == VbInside(s).value.0;
      }
    } else {
      VbOrdinary(c, s);
    }
  }

  lemma {:induction false} VbStringReads(s: string, rest: string)
    requires At(rest, 0) != '"' && At(rest, 0) != '&'
    ensures VbInside(Escape(VBSCRIPT, s) + "\"" + rest) == Some((Sent(s), rest))
  {
    if s == "" {
      var t := "\"" + rest;
      assert Escape(VBSCRIPT, s) + "\"" + rest == t;
      assert t[1..] == rest;
    } else {
      VbStringReads(s[1..], rest);
      var e, t := EscapeChar(VBSCRIPT, s[0]), Escape(VBSCRIPT, s[1..]);
      hide VbInside, EscapeChar, SentChar;
      VbCharReads(s[0], t + "\"" + rest);
      assert Escape(VBSCRIPT, s) == e + t;
      assert (e + t) + "\"" + rest == e + (t + "\"" + rest);
    }
  }

  // ---------------------------------------------------------------- text blocks

  lemma StringReads(lang: ScriptLang, s: string, rest: string)
    requires At(rest, 0) == ')'
    ensures StringExpr(lang, "\"" + (Escape(lang, s) + "\"" + rest)) == Some((Sent(s), rest))
  {
    hide VbExpr, VbInside, JsString, Escape;
    var t := Escape(lang, s) + "\"" + rest;
    assert ("\"" + t)[1..] == t;
    if lang.VBSCRIPT? {
      VbStringReads(s, rest);
      VbExprOpens(t);
    } else {
      JsStringReads(s, rest);
    }
  }

  lemma {:induction false} RunBlanks(lang: ScriptLang, b: string, s: string)
    requires Blank(lang, b)
    ensures RunWrites(lang, b + s) == RunWrites(lang, s)
  {
    if b == "" {
      assert b + s == s;
    } else {
      assert (b + s)[1..] == b[1..] + s;
      RunBlanks(lang, b[1..], s);
    }
  }

  /** What runs after `v` has been sent. */
  function Send(v: string, r: Option<string>): Option<string> {
    if r.None? then None else Some(v + r.value)
  }

  lemma RunCall(lang: ScriptLang, expr: string, v: string, rest: string)
    requires StringExpr(lang, expr) == Some((v, ")" + ([StatementEnd(lang)] + rest)))
    ensures RunWrites(lang, "Response.Write(" + expr) == Send(v, RunWrites(lang, rest))
  {
    hide StringExpr;
    var s := "Response.Write(" + expr;
    assert s[0] == 'R' && !IsScriptBlank(lang, s[0]);
    assert s[|"Response.Write("|..] == expr;
    var t := ")" + ([StatementEnd(lang)] + rest);
    assert t[0] == ')' && t[1] == StatementEnd(lang) && t[2..] == rest;
  }

  lemma StatementShape(lang: ScriptLang, e: string, rest: string)
    ensures WRITE_HTML_BEGIN + e + HtmlEnd(lang) + rest
         == " " + ("Response.Write(" + ("\"" + (e + "\"" + (")" + ([StatementEnd(lang)] + ("    " + rest))))))
  {
    assert WRITE_HTML_BEGIN == " " + ("Response.Write(" + "\"");
    assert HtmlEnd(lang) == "\"" + (")" + ([StatementEnd(lang)] + "    "));
  }

  /** One emitted statement sends its text, then the rest of the script runs. */
  lemma RunStatement(lang: ScriptLang, c: string, rest: string)
    ensures RunWrites(lang, WRITE_HTML_BEGIN + Escape(lang, c) + HtmlEnd(lang) + rest)
         == Send(Sent(c), RunWrites(lang, rest))
  {
    hide RunWrites, StringExpr, Escape, Sent;
    var tail := ")" + ([StatementEnd(lang)] + ("    " + rest));
    var expr := "\"" + (Escape(lang, c) + "\"" + tail);
    StatementShape(lang, Escape(lang, c), rest);
    RunBlanks(lang, " ", "Response.Write(" + expr);
    StringReads(lang, c, tail);
    RunCall(lang, expr, Sent(c), "    " + rest);
    RunBlanks(lang, "    ", rest);
  }

  lemma {:induction false} SentConcat(a: string, b: string)
    ensures Sent(a + b) == Sent(a) + Sent(b)
  {
    if a == "" {
      assert a + b == b;
    } else {
      assert (a + b)[1..] == a[1..] + b;
      SentConcat(a[1..], b);
      assert SentChar(a[0]) + (Sent(a[1..]) + Sent(b)) == (SentChar(a[0]) + Sent(a[1..])) + Sent(b);
    }
  }

  lemma {:induction false} CrLfsBlank(lang: ScriptLang, n: nat)
    ensures Blank(lang, CrLfs(n))
  {
    if n > 0 {
      CrLfsBlank(lang, n - 1);
    }
  }

  lemma {:induction false} RunStatements(lang: ScriptLang, s: string, tail: string)
    requires Blank(lang, tail)
    ensures RunWrites(lang, Statements(lang, s) + tail) == Some(Sent(s))
  {
    hide RunWrites, Escape, FirstChunk, Sent;
    if s == "" {
      assert Statements(lang, s) + tail == tail + "";
      RunBlanks(lang, tail, "");
      assert RunWrites(lang, "") == Some("") && Sent("") == "" by { RunNothing(lang); }
    } else {
      var n := FirstChunk(lang, s);
      var rest := Statements(lang, s[n..]) + tail;
      RunStatements(lang, s[n..], tail);
      RunStatement(lang, s[..n], rest);
      assert Statements(lang, s) + tail == WRITE_HTML_BEGIN + Escape(lang, s[..n]) + HtmlEnd(lang) + rest;
      assert s == s[..n] + s[n..];
      SentConcat(s[..n], s[n..]);
    }
  }

  lemma RunNothing(lang: ScriptLang)
    ensures RunWrites(lang, "") == Some("") && Sent("") == ""
  {
  }

  /** The script of a text block sends the block's text and nothing else, over however
      many statements VBScript needs. */
  lemma TextMeans(lang: ScriptLang, s: string)
    ensures RunWrites(lang, Out(lang, Text(s))) == Some(Sent(s))
  {
    CrLfsBlank(lang, Count(s, LF));
    RunStatements(lang, s, CrLfs(Count(s, LF)));
  }

  // ---------------------------------------------------------------- whole pages

  lemma ReturnsBlank(lang: ScriptLang, s: string)
    ensures Blank(lang, Returns(s))
  {
    ReturnsKeepsLines(s);
  }

  lemma TrailEnds(lang: ScriptLang, trail: string)
    ensures Ends(lang, Returns(trail) + Separator(lang, trail))
  {
    ReturnsKeepsLines(trail);
    var s := Returns(trail) + Separator(lang, trail);
    assert s[0] != ' ';
  }

  lemma BlankThenEnds(lang: ScriptLang, a: string, b: string)
    requires Blank(lang, a) && Ends(lang, b)
    ensures Ends(lang, a + b)
  {
    var k :| 0 <= k < |b| && b[k] != ' ';
    assert (a + b)[|a| + k] == b[k];
  }

  lemma DoesExecute(lang: ScriptLang, a: string, c: string, b: string)
    requires Blank(lang, a) && Ends(lang, b)
    ensures Does(lang, a + c + b, Execute(c))
  {
    var s := a + c + b;
    var i, j := |a|, |a| + |c|;
    assert s[..i] == a && s[i..j] == c && s[j..] == b;
  }

  lemma DoesEvaluate(lang: ScriptLang, a: string, x: string, b: string)
    requires Blank(lang, a) && Ends(lang, b)
    ensures Does(lang, a + ("Response.Write(" + x + ")") + b, Evaluate(x))
  {
    var c := "Response.Write(" + x + ")";
    var s := a + c + b;
    var i, j := |a|, |a| + |c|;
    assert s[..i] == a && s[i..j] == c && s[j..] == b;
  }

  lemma ExpressionShape(lang: ScriptLang, a: string, x: string, b: string)
    ensures a + (WRITE_EXP_BEGIN + x + ExpEnd(lang)) + b
         == (a + " ") + ("Response.Write(" + x + ")") + ([StatementEnd(lang)] + "  " + b)
  {
    assert WRITE_EXP_BEGIN == " " + "Response.Write(";
    assert ExpEnd(lang) == ")" + ([StatementEnd(lang)] + "  ");
    var w, e := "Response.Write(", [StatementEnd(lang)] + "  ";
    assert a + ((" " + w) + x + (")" + e)) + b == (a + " ") + (w + x + ")") + (e + b);
  }

  /** The script of a command that is not a directive does what the command says. */
  lemma CommandMeans(lang: ScriptLang, body: string, trail: string)
    requires At(CommandCode(body), 0) != '@'
    ensures Does(lang, Out(lang, Command(body, trail)), Effects(Command(body, trail))[0])
  {
    hide Returns, WhiteLen, Does, Separator, Blank, Ends, ExpEnd;
    var n := WhiteLen(body);
    var code := body[n..];
    var a, b := Returns(body[..n]), Returns(trail) + Separator(lang, trail);
    ReturnsBlank(lang, body[..n]);
    TrailEnds(lang, trail);
    assert Out(lang, Command(body, trail)) == a + CodeOut(lang, code) + b;
    if At(code, 0) == '=' {
      BlanksAround(lang, a, b);
      DoesEvaluate(lang, a + " ", code[1..], [StatementEnd(lang)] + "  " + b);
      ExpressionShape(lang, a, code[1..], b);
    } else {
      DoesExecute(lang, a, code, b);
    }
  }

  lemma BlanksAround(lang: ScriptLang, a: string, b: string)
    requires Blank(lang, a) && Ends(lang, b)
    ensures Blank(lang, a + " ") && Ends(lang, [StatementEnd(lang)] + "  " + b)
  {
    assert Blank(lang, [StatementEnd(lang)] + "  ");
    BlankThenEnds(lang, [StatementEnd(lang)] + "  ", b);
  }

  lemma DirectiveMeans(lang: ScriptLang, body: string, trail: string)
    requires At(CommandCode(body), 0) == '@'
    ensures Blank(lang, Out(lang, Command(body, trail)))
  {
    var n := WhiteLen(body);
    ReturnsBlank(lang, body[..n]);
    ReturnsBlank(lang, body[n..]);
    TrailEnds(lang, trail);
  }

  lemma Prepend(b: string, s: string, i: nat, j: nat)
    requires i <= j <= |s|
    ensures b + s == (b + s[..i]) + s[i..j] + s[j..]
  {
    assert s == s[..i] + s[i..j] + s[j..];
  }

  lemma BlankConcat(lang: ScriptLang, a: string, b: string)
    requires Blank(lang, a) && Blank(lang, b)
    ensures Blank(lang, a + b)
  {
  }

  lemma BlankBeforeDoes(lang: ScriptLang, b: string, s: string, e: Effect)
    requires Blank(lang, b) && Does(lang, s, e)
    ensures Does(lang, b + s, e)
  {
    hide RunWrites, Blank, Ends;
    match e
    case Output(t) => RunBlanks(lang, b, s);
    case Evaluate(x) =>
      var i: nat, j: nat :| i <= j <= |s| && Blank(lang, s[..i]) && s[i..j] == "Response.Write(" + x + ")" && Ends(lang, s[j..]);
      Prepend(b, s, i, j);
      BlankConcat(lang, b, s[..i]);
      DoesEvaluate(lang, b + s[..i], x, s[j..]);
    case Execute(c) =>
      var i: nat, j: nat :| i <= j <= |s| && Blank(lang, s[..i]) && s[i..j] == c && Ends(lang, s[j..]);
      Prepend(b, s, i, j);
      BlankConcat(lang, b, s[..i]);
      DoesExecute(lang, b + s[..i], c, s[j..]);
  }

  lemma MeansCons(lang: ScriptLang, a: string, e: Effect, s: string, es: seq<Effect>)
    requires Does(lang, a, e) && Means(lang, s, es)
    ensures Means(lang, a + s, [e] + es)
  {
    hide Does;
    assert (a + s)[..|a|] == a && (a + s)[|a|..] == s;
    assert ([e] + es)[1..] == es;
  }

  lemma BlankBeforeMeans(lang: ScriptLang, b: string, s: string, es: seq<Effect>)
    requires Blank(lang, b) && Means(lang, s, es)
    ensures Means(lang, b + s, es)
  {
    hide Does;
    if es != [] {
      var k: nat :| k <= |s| && Does(lang, s[..k], es[0]) && Means(lang, s[k..], es[1..]);
      BlankBeforeDoes(lang, b, s[..k], es[0]);
      MeansCons(lang, b + s[..k], es[0], s[k..], es[1..]);
      assert b + s == (b + s[..k]) + s[k..];
      assert es == [es[0]] + es[1..];
    }
  }

  lemma {:induction false} BlocksMean(lang: ScriptLang, bs: seq<Block>)
    ensures Means(lang, OutAll(lang, bs), PageEffects(bs))
  {
    hide Does, Out, RunWrites;
    if bs != [] {
      var rest, es := OutAll(lang, bs[1..]), PageEffects(bs[1..]);
      BlocksMean(lang, bs[1..]);
      match bs[0]
      case Text(s) =>
        TextMeans(lang, s);
        assert Does(lang, Out(lang, bs[0]), Output(Sent(s))) by { DoesOutput(lang, Out(lang, bs[0]), Sent(s)); }
        MeansCons(lang, Out(lang, bs[0]), Output(Sent(s)), rest, es);
      case Command(body, trail) =>
        if At(CommandCode(body), 0) == '@' {
          DirectiveMeans(lang, body, trail);
          BlankBeforeMeans(lang, Out(lang, bs[0]), rest, es);
          assert [] + es == es;
        } else {
          CommandMeans(lang, body, trail);
          MeansCons(lang, Out(lang, bs[0]), Effects(bs[0])[0], rest, es);
        }
    }
  }

  lemma DoesOutput(lang: ScriptLang, s: string, t: string)
    requires RunWrites(lang, s) == Some(t)
    ensures Does(lang, s, Output(t))
  {
  }

  /** Compiling a page preserves its meaning: the script is made of pieces that send each
      text block, evaluate each <%= %> expression and run each <% %> block, in page order. */
  lemma PageMeans(lang: ScriptLang, lead: LeadByte, d: string)
    requires Script(lang, lead, d).Some?
    ensures Means(lang, Script(lang, lead, d).value, PageEffects(Parse(lead, d, WhiteLen(d), 2).value))
  {
    var bs := Parse(lead, d, WhiteLen(d), 2).value;
    BlocksMean(lang, bs);
    ReturnsBlank(lang, d[..WhiteLen(d)]);
    BlankBeforeMeans(lang, Returns(d[..WhiteLen(d)]), OutAll(lang, bs), PageEffects(bs));
  }

  // -------------------------------------------------------------------- lines

  lemma {:induction false} EscapeOneLine(lang: ScriptLang, s: string)
    ensures Count(Escape(lang, s), LF) == 0
  {
    if s != "" {
      EscapeOneLine(lang, s[1..]);
      CountConcat(EscapeChar(lang, s[0]), Escape(lang, s[1..]), LF);
      CharOneLine(lang, s[0]);
    }
  }

  lemma {:induction false} NoLines(s: string)
    requires LF !in s
    ensures Count(s, LF) == 0
  {
    if s != "" {
      NoLines(s[1..]);
    }
  }

  lemma CharOneLine(lang: ScriptLang, c: char)
    ensures Count(EscapeChar(lang, c), LF) == 0
  {
    NoLines(EscapeChar(lang, c));
  }

  lemma CountThree(a: string, b: string, c: string)
    ensures Count(a + b + c, LF) == Count(a, LF) + Count(b, LF) + Count(c, LF)
  {
    CountConcat(a + b, c, LF);
    CountConcat(a, b, LF);
  }

  /** The fixed pieces of emitted statements contain no line feed. */
  lemma FixedOneLine(lang: ScriptLang)
    ensures Count(WRITE_HTML_BEGIN, LF) == Count(HtmlEnd(lang), LF) == 0
    ensures Count(WRITE_EXP_BEGIN, LF) == Count(ExpEnd(lang), LF) == 0
    ensures Count(BEGIN_COMMAND, LF) == Count(END_COMMAND, LF) == Count("=", LF) == 0
  {
    hide Count;
    NoLines(WRITE_HTML_BEGIN); NoLines(HtmlEnd(lang));
    NoLines(WRITE_EXP_BEGIN); NoLines(ExpEnd(lang));
    NoLines(BEGIN_COMMAND); NoLines(END_COMMAND); NoLines("=");
  }

  lemma {:induction false} StatementsOneLine(lang: ScriptLang, s: string)
    ensures Count(Statements(lang, s), LF) == 0
  {
    if s != "" {
      hide Escape, FirstChunk, Count, HtmlEnd;
      var n := FirstChunk(lang, s);
      var a, e, z := WRITE_HTML_BEGIN, Escape(lang, s[..n]), HtmlEnd(lang);
      StatementsOneLine(lang, s[n..]);
      EscapeOneLine(lang, s[..n]);
      FixedOneLine(lang);
      CountThree(a, e, z);
      CountConcat(a + e + z, Statements(lang, s[n..]), LF);
    }
  }

  lemma {:induction false} CrLfsLines(n: nat)
    ensures Count(CrLfs(n), LF) == n
  {
    if n > 0 {
      CrLfsLines(n - 1);
      assert CrLfs(n)[1..][1..] == CrLfs(n - 1);
    }
  }

  lemma CodeLines(lang: ScriptLang, code: string)
    ensures Count(CodeOut(lang, code), LF) == Count(code, LF)
  {
    if At(code, 0) == '@' {
      ReturnsKeepsLines(code);
    } else if At(code, 0) == '=' {
      assert Count(code, LF) == Count(code[1..], LF);
      hide Count, ExpEnd;
      FixedOneLine(lang);
      CountThree(WRITE_EXP_BEGIN, code[1..], ExpEnd(lang));
    }
  }

  /** Every block's script has as many lines as the block. */
  lemma BlockLines(lang: ScriptLang, b: Block)
    ensures Count(Out(lang, b), LF) == Count(Source(b), LF)
  {
    hide Returns, CodeOut, Statements, CrLfs, Count, WhiteLen;
    match b
    case Text(s) =>
      CountConcat(Statements(lang, s), CrLfs(Count(s, LF)), LF);
      StatementsOneLine(lang, s);
      CrLfsLines(Count(s, LF));
    case Command(body, trail) =>
      var n := WhiteLen(body);
      var code := body[n..];
      var sep := Separator(lang, trail);
      CountConcat(Returns(body[..n]) + CodeOut(lang, code), Returns(trail) + sep, LF);
      CountConcat(Returns(body[..n]), CodeOut(lang, code), LF);
      CountConcat(Returns(trail), sep, LF);
      NoLines(sep); NoLines(BEGIN_COMMAND); NoLines(END_COMMAND);
      ReturnsKeepsLines(body[..n]); ReturnsKeepsLines(trail);
      CodeLines(lang, code);
      assert body == body[..n] + code;
      CountConcat(body[..n], code, LF);
      CountConcat(BEGIN_COMMAND, body, LF);
      CountConcat(BEGIN_COMMAND + body, END_COMMAND, LF);
      CountConcat(BEGIN_COMMAND + body + END_COMMAND, trail, LF);
  }

  lemma {:induction false} BlocksLines(lang: ScriptLang, bs: seq<Block>)
    ensures Count(OutAll(lang, bs), LF) == Count(SourceAll(bs), LF)
  {
    if bs != [] {
      hide Out, Source, Count;
      BlockLines(lang, bs[0]);
      BlocksLines(lang, bs[1..]);
      CountConcat(Out(lang, bs[0]), OutAll(lang, bs[1..]), LF);
      CountConcat(Source(bs[0]), SourceAll(bs[1..]), LF);
    }
  }

  lemma {:induction false} AllConcat(lang: ScriptLang, a: seq<Block>, b: seq<Block>)
    ensures SourceAll(a + b) == SourceAll(a) + SourceAll(b)
    ensures OutAll(lang, a + b) == OutAll(lang, a) + OutAll(lang, b)
  {
    hide Out, Source;
    if a == [] {
      assert a + b == b;
    } else {
      assert (a + b)[1..] == a[1..] + b;
      AllConcat(lang, a[1..], b);
    }
  }

  /** What precedes a command's code on the page and in the script. */
  function CodePrefix(lang: ScriptLang, body: string): (string, string) {
    var w := body[..WhiteLen(body)];
    (BEGIN_COMMAND + w + (if At(CommandCode(body), 0) == '=' then "=" else ""),
     Returns(w) + (if At(CommandCode(body), 0) == '=' then WRITE_EXP_BEGIN else ""))
  }

  /** The code itself, as both copy it. */
  function CodeText(body: string): string {
    if At(CommandCode(body), 0) == '=' then CommandCode(body)[1..] else CommandCode(body)
  }

  lemma PrefixLines(lang: ScriptLang, body: string)
    ensures Count(CodePrefix(lang, body).0, LF) == Count(CodePrefix(lang, body).1, LF)
  {
    hide Returns, WhiteLen, Count;
    var w := body[..WhiteLen(body)];
    ReturnsKeepsLines(w);
    FixedOneLine(lang);
    var eq := At(CommandCode(body), 0) == '=';
    var x, y := if eq then "=" else "", if eq then WRITE_EXP_BEGIN else "";
    assert Count("", LF) == 0 by { NoLines(""); }
    CountThree(BEGIN_COMMAND, w, x);
    CountConcat(Returns(w), y, LF);
  }

  lemma CodeCopied(lang: ScriptLang, body: string, trail: string)
    requires At(CommandCode(body), 0) != '@'
    ensures var (p, q) := CodePrefix(lang, body);
            && p + CodeText(body) <= Source(Command(body, trail))
            && q + CodeText(body) <= Out(lang, Command(body, trail))
  {
    hide Returns, WhiteLen, Separator, ExpEnd;
    var n := WhiteLen(body);
    var w, code := body[..n], body[n..];
    assert body == w + code;
    var r, tail := Returns(w), Returns(trail) + Separator(lang, trail);
    if At(code, 0) == '=' {
      var x := code[1..];
      assert code == "=" + x;
      ThreeThenMore(BEGIN_COMMAND, w, "=", x, END_COMMAND, trail);
      TwoThenMore(r, WRITE_EXP_BEGIN, x, ExpEnd(lang), tail);
    } else {
      ThreeThenMore(BEGIN_COMMAND, w, "", code, END_COMMAND, trail);
      assert "" + code == code;
      TwoThenMore(r, "", code, "", tail);
      assert "" + code + "" == code;
    }
  }

  lemma ThreeThenMore(a: string, b: string, c: string, x: string, y: string, z: string)
    ensures (a + b + c) + x <= a + (b + (c + x)) + y + z
  {
    assert (a + b + c) + x == a + (b + (c + x));
  }

  lemma TwoThenMore(a: string, b: string, x: string, y: string, z: string)
    ensures (a + b) + x <= a + (b + x + y) + z
  {
    assert a + (b + x + y) + z == ((a + b) + x) + (y + z);
  }

  /** The script has exactly as many lines as the page. */
  lemma PageLines(lang: ScriptLang, lead: LeadByte, d: string)
    requires Script(lang, lead, d).Some?
    ensures Count(Script(lang, lead, d).value, LF) == Count(d, LF)
  {
    hide Parse, Count, WhiteLen, Returns, OutAll, SourceAll;
    var w, t := d[..WhiteLen(d)], d[WhiteLen(d)..];
    assert d == w + t;
    var bs := Parse(lead, d, WhiteLen(d), 2).value;
    AspSize.ParsePartitions(lead, d, WhiteLen(d));
    BlocksLines(lang, bs);
    ReturnsKeepsLines(w);
    CountConcat(Returns(w), OutAll(lang, bs), LF);
    CountConcat(w, t, LF);
  }

  /** Character `j` belongs to the code of block `i`, a command that is not a directive. */
  ghost predicate IsCodeAt(lead: LeadByte, d: string, i: nat, j: nat) {
    var r := Parse(lead, d, WhiteLen(d), 2);
    && r.Some? && i < |r.value| && r.value[i].Command?
    && At(CommandCode(r.value[i].body), 0) != '@' && j < |CodeText(r.value[i].body)|
  }

  /** Offsets of character `j` of command `i`'s code, on the page and in the script. */
  function CodeOffsets(lang: ScriptLang, d: string, bs: seq<Block>, i: nat, j: nat): (nat, nat)
    requires i < |bs| && bs[i].Command?
  {
    var (p, q) := CodePrefix(lang, bs[i].body);
    (WhiteLen(d) + |SourceAll(bs[..i])| + |p| + j,
     |Returns(d[..WhiteLen(d)])| + |OutAll(lang, bs[..i])| + |q| + j)
  }

  lemma Inside(s: string, a: string, b: string, c: string, j: nat)
    requires a + b + c <= s && j < |c|
    ensures |a| + |b| + j < |s| && s[|a| + |b| + j] == c[j]
    ensures s[..|a| + |b| + j] == a + b + c[..j]
  {
    assert s[..|a + b + c|] == a + b + c;
    assert (a + b + c)[..|a| + |b| + j] == a + b + c[..j];
  }

  /** A command's code begins at the given offsets of the page and of the script. */
  lemma CodeBegins(lang: ScriptLang, lead: LeadByte, d: string, bs: seq<Block>, i: nat)
    requires Parse(lead, d, WhiteLen(d), 2) == Some(bs)
    requires i < |bs| && bs[i].Command? && At(CommandCode(bs[i].body), 0) != '@'
    ensures var (p, q) := CodePrefix(lang, bs[i].body);
            var w := d[..WhiteLen(d)];
            && (w + SourceAll(bs[..i])) + p + CodeText(bs[i].body) <= d
            && (Returns(w) + OutAll(lang, bs[..i])) + q + CodeText(bs[i].body) <= Script(lang, lead, d).value
  {
    hide Parse, WhiteLen, CodePrefix, CodeText, Out, Source, Returns, CommandCode;
    AspSize.ParsePartitions(lead, d, WhiteLen(d));
    var w, pre, b := d[..WhiteLen(d)], bs[..i], bs[i];
    var tail := [b] + bs[i + 1..];
    assert bs == pre + tail && tail[1..] == bs[i + 1..];
    AllConcat(lang, pre, tail);
    CodeCopied(lang, b.body, b.trail);
    var (p, q) := CodePrefix(lang, b.body);
    assert d == w + d[WhiteLen(d)..];
    Prefixes(w, SourceAll(pre), p, CodeText(b.body), Source(b), SourceAll(bs[i + 1..]));
    Prefixes(Returns(w), OutAll(lang, pre), q, CodeText(b.body), Out(lang, b), OutAll(lang, bs[i + 1..]));
  }

  /** Every character of script code sits on the same line of the page and of the script. */
  lemma CodeKeepsItsLine(lang: ScriptLang, lead: LeadByte, d: string, i: nat, j: nat)
    requires Script(lang, lead, d).Some? && IsCodeAt(lead, d, i, j)
    ensures var bs := Parse(lead, d, WhiteLen(d), 2).value;
            var script := Script(lang, lead, d).value;
            var (from, to) := CodeOffsets(lang, d, bs, i, j);
            && from < |d| && to < |script|
            && d[from] == script[to] == CodeText(bs[i].body)[j]
            && Count(d[..from], LF) == Count(script[..to], LF)
  {
    hide Parse, Count, WhiteLen, CodePrefix, CodeText, OutAll, SourceAll, Returns, CommandCode;
    var bs := Parse(lead, d, WhiteLen(d), 2).value;
    var script := Script(lang, lead, d).value;
    var pre, code := bs[..i], CodeText(bs[i].body);
    CodeBegins(lang, lead, d, bs, i);
    var (p, q) := CodePrefix(lang, bs[i].body);
    var w := d[..WhiteLen(d)];
    var a, b := w + SourceAll(pre), Returns(w) + OutAll(lang, pre);
    Inside(d, a, p, code, j);
    Inside(script, b, q, code, j);
    CountThree(a, p, code[..j]);
    CountThree(b, q, code[..j]);
    CountConcat(w, SourceAll(pre), LF);
    CountConcat(Returns(w), OutAll(lang, pre), LF);
    BlocksLines(lang, pre);
    ReturnsKeepsLines(w);
    PrefixLines(lang, bs[i].body);
  }

  lemma Prefixes(w: string, s: string, p: string, c: string, b: string, e: string)
    requires p + c <= b
    ensures (w + s) + p + c <= w + (s + (b + e))
  {
    assert (w + s) + p + c == w + (s + (p + c));
  }
}
