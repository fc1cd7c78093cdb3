/** The two passes of the page compiler: the writer's blocks partition the page, the
    sizer sees the same blocks, and how the bytes written compare with the bytes reserved. */
module AspSize {
  import opened Text
  import opened AspScript

  // ------------------------------------------------- both passes, same blocks

  lemma CommandSource(d: string, p: nat, e: nat, f: nat)
    requires p + 2 <= e && e + 2 <= f <= |d|
    requires d[p..p + 2] == BEGIN_COMMAND && d[e..e + 2] == END_COMMAND
    ensures BEGIN_COMMAND + d[p + 2..e] + END_COMMAND + d[e + 2..f] == d[p..f]
  {
    assert d[p..e] == d[p..p + 2] + d[p + 2..e];
    assert d[p..e + 2] == d[p..e] + d[e..e + 2];
    assert d[p..f] == d[p..e + 2] + d[e + 2..f];
  }

  /** A block is exactly the bytes between two offsets, and never empty. */
  lemma NextBlockSource(lead: LeadByte, d: string, p: nat)
    requires p < |d|
    ensures var r := NextBlock(lead, d, p, 2);
            r.Some? ==> && Source(r.value.0) == d[p..r.value.1]
                        && (r.value.0.Text? ==> r.value.0.text != "")
  {
    hide FindFrom, Find, WhiteLen, TextEnd;
    if !IsCommandAt(d, p) {
      assert NextBlock(lead, d, p, 2) == Some((Text(d[p..TextEnd(lead, d, p)]), TextEnd(lead, d, p)));
    } else {
      var e := Find(lead, d, p + 2, END_COMMAND);
      if e.Some? {
        var q := e.value + 2;
        var n := WhiteLen(d[q..]);
        CommandSource(d, p, e.value, q + n);
        assert NextBlock(lead, d, p, 2) == Some((Command(d[p + 2..e.value], d[q..q + n]), q + n));
      }
    }
  }

  ghost predicate NonEmptyTexts(bs: seq<Block>) {
    forall b :: b in bs && b.Text? ==> b.text != ""
  }

  /** Reading a page into blocks loses nothing. */
  lemma {:induction false} ParsePartitions(lead: LeadByte, d: string, p: nat)
    requires p <= |d|
    ensures var r := Parse(lead, d, p, 2); r.Some? ==> SourceAll(r.value) == d[p..] && NonEmptyTexts(r.value)
    decreases |d| - p
  {
    if p < |d| {
      NextBlockSource(lead, d, p);
      hide NextBlock, Source;
      var b := NextBlock(lead, d, p, 2);
      if b.Some? {
        ParsePartitions(lead, d, b.value.1);
        var rest := Parse(lead, d, b.value.1, 2);
        if rest.Some? { SourceCons(b.value.0, rest.value); }
        hide SourceAll, NonEmptyTexts;
        assert d[p..] == d[p..b.value.1] + d[b.value.1..];
      } else {
        hide SourceAll, NonEmptyTexts;
      }
    }
  }

  lemma SourceCons(b: Block, bs: seq<Block>)
    ensures SourceAll([b] + bs) == Source(b) + SourceAll(bs)
    ensures NonEmptyTexts(bs) && (b.Text? ==> b.text != "") ==> NonEmptyTexts([b] + bs)
  {
    hide Source;
    assert ([b] + bs)[1..] == bs;
  }

  /** The opening delimiter at `p` shares its '%' with a closing one: "<%>". */
  predicate BareCloseAt(d: string, p: nat) {
    IsCommandAt(d, p) && At(d, p + 2) == '>'
  }

  /** No command met while walking the blocks from `p` is a "<%>". */
  predicate NoBareClose(lead: LeadByte, d: string, p: nat)
    requires p <= |d|
    decreases |d| - p
  {
    p < |d| ==>
      && !BareCloseAt(d, p)
      && var b := NextBlock(lead, d, p, 2);
         (b.Some? ==> NoBareClose(lead, d, b.value.1))
  }

  /** The sizer looks for the closing delimiter from the opening one, the writer from
      behind it: that differs exactly at a "<%>". */
  lemma FindFromOpening(lead: LeadByte, d: string, p: nat)
    requires IsCommandAt(d, p)
    ensures BareCloseAt(d, p) ==> Find(lead, d, p, END_COMMAND) == Some(p + 1)
    ensures !BareCloseAt(d, p) ==> Find(lead, d, p, END_COMMAND) == Find(lead, d, p + 2, END_COMMAND)
  {
    hide Find, FindFrom;
    FindIsFirst(lead, d, p, END_COMMAND);
    FindIsFirst(lead, d, p + 2, END_COMMAND);
    CloseInOpening(lead, d, p);
    hide MatchAt;
    if !BareCloseAt(d, p) {
      forall j: nat | p + 2 <= j
        ensures MatchAt(lead, d, p, END_COMMAND, j) <==> MatchAt(lead, d, p + 2, END_COMMAND, j)
      {
        MatchBehind(lead, d, p, j);
      }
      var a, b := Find(lead, d, p, END_COMMAND), Find(lead, d, p + 2, END_COMMAND);
      assert a.Some? ==> MatchAt(lead, d, p + 2, END_COMMAND, a.value);
      assert b.Some? ==> MatchAt(lead, d, p, END_COMMAND, b.value);
    }
  }

  lemma CloseInOpening(lead: LeadByte, d: string, p: nat)
    requires IsCommandAt(d, p)
    ensures !MatchAt(lead, d, p, END_COMMAND, p)
    ensures MatchAt(lead, d, p, END_COMMAND, p + 1) <==> BareCloseAt(d, p)
  {
    assert d[p] == '<' && d[p + 1] == '%' by { assert d[p..p + 2][0] == '<' && d[p..p + 2][1] == '%'; }
    assert d[p..p + 1] == [d[p]];
    if p + 3 <= |d| { assert d[p + 1..p + 3] == [d[p + 1], d[p + 2]]; }
  }

  lemma MatchBehind(lead: LeadByte, d: string, p: nat, j: nat)
    requires IsCommandAt(d, p) && p + 2 <= j
    ensures MatchAt(lead, d, p, END_COMMAND, j) <==> MatchAt(lead, d, p + 2, END_COMMAND, j)
  {
    assert d[p..p + 2] == BEGIN_COMMAND;
    assert d[p] == '<' && d[p + 1] == '%' by { assert d[p..p + 2][0] == '<' && d[p..p + 2][1] == '%'; }
    assert NUL !in d[p..p + 2];
    if j <= |d| { assert d[p..j] == d[p..p + 2] + d[p + 2..j]; }
  }

  lemma NextBlockAgrees(lead: LeadByte, d: string, p: nat)
    requires p < |d|
    ensures !BareCloseAt(d, p) ==> NextBlock(lead, d, p, 0) == NextBlock(lead, d, p, 2)
    ensures BareCloseAt(d, p) ==> NextBlock(lead, d, p, 0).Some?
    ensures BareCloseAt(d, p) && NextBlock(lead, d, p, 2).Some? ==>
              NextBlock(lead, d, p, 0).value.0 != NextBlock(lead, d, p, 2).value.0
  {
    hide FindFrom, Find, WhiteLen, TextEnd;
    if IsCommandAt(d, p) {
      FindFromOpening(lead, d, p);
      var e := Find(lead, d, p + 2, END_COMMAND);
      if BareCloseAt(d, p) && e.Some? {
        assert d[e.value] == '%' by { assert d[e.value..e.value + 2][0] == '%'; }
        assert e.value > p + 2;
      }
    }
  }

  /** Once the sizer accepts a page, the writer finds the same blocks exactly when no
      command is a "<%>". */
  lemma {:induction false} PassesSeeSameBlocks(lead: LeadByte, d: string, p: nat)
    requires p <= |d|
    ensures NoBareClose(lead, d, p) ==> Parse(lead, d, p, 0) == Parse(lead, d, p, 2)
    ensures Parse(lead, d, p, 0).Some? ==>
              (NoBareClose(lead, d, p) <==> Parse(lead, d, p, 0) == Parse(lead, d, p, 2))
    decreases |d| - p
  {
    hide NextBlock, BareCloseAt;
    if p < |d| {
      NextBlockAgrees(lead, d, p);
      var b := NextBlock(lead, d, p, 2);
      if b.Some? && !BareCloseAt(d, p) {
        PassesSeeSameBlocks(lead, d, b.value.1);
        var s, w := Parse(lead, d, b.value.1, 0), Parse(lead, d, b.value.1, 2);
        if s.Some? && w.Some? && [b.value.0] + s.value == [b.value.0] + w.value {
          assert s.value == ([b.value.0] + s.value)[1..];
          assert w.value == ([b.value.0] + w.value)[1..];
        }
      } else if b.Some? {
        var s, w := Parse(lead, d, p, 0), Parse(lead, d, p, 2);
        assert s.Some? && w.Some? ==> s.value[0] != w.value[0];
      }
    }
  }

  // ------------------------------------------------------------ exact surplus

  /** Bytes reserved but not used for a text block; negative when too few were. */
  function TextSurplus(lang: ScriptLang, s: string): int {
    match lang
    case JSCRIPT => Count(s, LF) + Count(s, CR)
    case VBSCRIPT =>
      Count(s, '"') + Count(s, LF) + Count(s, CR)
      - STRING_WRITE_ADD * (Chunks(lang, s) - 1 - |s| / MAX_VB_STRING)
  }

  function Surplus(lang: ScriptLang, b: Block): int {
    match b
    case Text(s) => TextSurplus(lang, s)
    case Command(body, trail) =>
      var n := WhiteLen(body);
      var code := body[n..];
      (n - |Returns(body[..n])|) + (|trail| - |Returns(trail)|)
      + (if At(code, 0) == '@' then |code| - |Returns(code)| else if At(code, 0) == '=' then 1 else 0)
      + 4 - (if Returns(trail) == "" then 1 else 0)
  }

  function SurplusAll(lang: ScriptLang, bs: seq<Block>): int {
    if bs == [] then 0 else Surplus(lang, bs[0]) + SurplusAll(lang, bs[1..])
  }

  lemma {:induction false} EscapeSize(lang: ScriptLang, s: string)
    ensures lang.VBSCRIPT? ==> |Escape(lang, s)| + Count(s, CR) == |s| + 10 * Count(s, '"') + 18 * Count(s, LF)
    ensures lang.JSCRIPT? ==>
              |Escape(lang, s)| + Count(s, CR) == |s| + Count(s, '"') + Count(s, '\\') + 3 * Count(s, LF)
    ensures lang.VBSCRIPT? ==> CharsExtra(lang, s) == 11 * Count(s, '"') + 21 * Count(s, LF)
    ensures lang.JSCRIPT? ==> CharsExtra(lang, s) == Count(s, '"') + Count(s, '\\') + 6 * Count(s, LF)
  {
    if s != "" {
      EscapeSize(lang, s[1..]);
    }
  }

  lemma {:induction false} EscapeConcat(lang: ScriptLang, a: string, b: string)
    ensures Escape(lang, a + b) == Escape(lang, a) + Escape(lang, b)
  {
    if a == "" {
      assert a + b == b;
    } else {
      assert (a + b)[1..] == a[1..] + b;
      EscapeConcat(lang, a[1..], b);
      assert EscapeChar(lang, a[0]) + (Escape(lang, a[1..]) + Escape(lang, b))
          == (EscapeChar(lang, a[0]) + Escape(lang, a[1..])) + Escape(lang, b);
    }
  }

  lemma {:induction false} StatementsSize(lang: ScriptLang, s: string)
    ensures |Statements(lang, s)| == |Escape(lang, s)| + STRING_WRITE_ADD * Chunks(lang, s)
  {
    if s != "" {
      hide Escape, FirstChunk;
      var n := FirstChunk(lang, s);
      assert s == s[..n] + s[n..];
      EscapeConcat(lang, s[..n], s[n..]);
      StatementsSize(lang, s[n..]);
    }
  }

  /** JScript text is never split. */
  lemma {:induction false} JScriptChunkIsWhole(s: string, w: nat)
    ensures ChunkLen(JSCRIPT, s, w) == |s|
  {
    if s != "" {
      JScriptChunkIsWhole(s[1..], w + |EscapeChar(JSCRIPT, s[0])|);
    }
  }

  lemma TextSize(lang: ScriptLang, s: string)
    requires s != ""
    ensures |Out(lang, Text(s))| + TextSurplus(lang, s) == |s| + Extra(lang, Text(s))
  {
    EscapeSize(lang, s);
    StatementsSize(lang, s);
    if lang.JSCRIPT? {
      JScriptChunkIsWhole(s, |WRITE_HTML_BEGIN|);
      assert s[|s|..] == "" && Chunks(lang, s) == 1;
    }
    hide Statements, Escape, CharsExtra, Chunks, Count;
  }

  lemma CommandSize(lang: ScriptLang, body: string, trail: string)
    ensures var b := Command(body, trail);
            |Out(lang, b)| + Surplus(lang, b) == |body| + |trail| + 4 + Extra(lang, b)
  {
    hide Returns, WhiteLen;
    var n := WhiteLen(body);
    assert At(body, n) == At(body[n..], 0);
  }

  /** Bytes written plus surplus are source bytes plus bytes reserved, for one block. */
  lemma BlockSize(lang: ScriptLang, b: Block)
    requires b.Text? ==> b.text != ""
    ensures |Out(lang, b)| + Surplus(lang, b) == |Source(b)| + Extra(lang, b)
  {
    hide Out, Extra;
    match b
    case Text(s) => TextSize(lang, s);
    case Command(body, trail) => CommandSize(lang, body, trail);
  }

  lemma {:induction false} BlocksSize(lang: ScriptLang, bs: seq<Block>)
    requires NonEmptyTexts(bs)
    ensures |OutAll(lang, bs)| + SurplusAll(lang, bs) == |SourceAll(bs)| + ExtraAll(lang, bs)
  {
    if bs != [] {
      assert bs[0] in bs;
      BlockSize(lang, bs[0]);
      assert forall b :: b in bs[1..] ==> b in bs;
      BlocksSize(lang, bs[1..]);
    }
  }

  /** Surplus of a whole page the writing pass accepts. */
  function PageSurplus(lang: ScriptLang, lead: LeadByte, d: string): int
    requires Script(lang, lead, d).Some?
  {
    var n := WhiteLen(d);
    n - |Returns(d[..n])| + SurplusAll(lang, Parse(lead, d, n, 2).value)
  }

  /** Conservation: script bytes plus surplus are page bytes plus the bytes the writer's blocks ask
      for, which are those reserved when no command is a "<%>".  So the script and its terminator fit
      the allocation exactly when the surplus makes up for what was not reserved. */
  lemma ScriptSize(lang: ScriptLang, lead: LeadByte, d: string)
    requires Script(lang, lead, d).Some?
    ensures var asked := ExtraAll(lang, Parse(lead, d, WhiteLen(d), 2).value);
            && |Script(lang, lead, d).value| + PageSurplus(lang, lead, d) == |d| + asked
            && (NoBareClose(lead, d, WhiteLen(d)) ==> BufferExtra(lang, lead, d) == Some(asked))
    ensures BufferExtra(lang, lead, d).Some? ==>
              var asked := ExtraAll(lang, Parse(lead, d, WhiteLen(d), 2).value);
              var reserved := BufferExtra(lang, lead, d).value;
              |Script(lang, lead, d).value| + 1 <= |d| + reserved + 1 <==> PageSurplus(lang, lead, d) + reserved >= asked
  {
    var n := WhiteLen(d);
    PassesSeeSameBlocks(lead, d, n);
    ParsePartitions(lead, d, n);
    BlocksSize(lang, Parse(lead, d, n, 2).value);
  }

  // ------------------------------------- the sizer reserves what the writer asks for

  lemma CloseAt(d: string, e: nat)
    requires e + 2 <= |d| && d[e..e + 2] == END_COMMAND
    ensures d[e] == '%' && d[e + 1] == '>'
  {
    assert d[e..e + 2][0] == '%' && d[e..e + 2][1] == '>';
  }

  lemma NoNulIn(d: string, from: nat, w: nat)
    requires from <= w <= |d| && forall k :: from <= k < w ==> d[k] != NUL
    ensures NUL !in d[from..w]
  {
  }

  lemma NoNulAt(d: string, from: nat, e: nat)
    requires from <= e <= |d| && NUL !in d[from..e]
    ensures forall k :: from <= k < e ==> d[k] != NUL
  {
    forall k | from <= k < e
      ensures d[k] != NUL
    {
      assert d[from..e][k - from] == d[k];
    }
  }

  lemma NoNulWithin(d: string, from: nat, e: nat, s: nat, t: nat)
    requires from <= s <= t <= e <= |d| && NUL !in d[from..e]
    ensures NUL !in d[s..t]
  {
    NoNulAt(d, from, e);
    NoNulIn(d, s, t);
  }

  /** A command opened inside the writer's command ends with it. */
  lemma CommandCatchesUp(lead: LeadByte, d: string, from: nat, e: nat, s: nat)
    requires Find(lead, d, from, END_COMMAND) == Some(e) && from <= s < e && IsCommandAt(d, s)
    ensures Find(lead, d, s, END_COMMAND) == Some(e)
  {
    hide Find, FindFrom;
    FindIsFirst(lead, d, from, END_COMMAND);
    FindIsFirst(lead, d, s, END_COMMAND);
    assert d[s] == '<' by { assert d[s..s + 2][0] == '<'; }
    NoNulWithin(d, from, e, s, e);
    var r := Find(lead, d, s, END_COMMAND);
    assert MatchAt(lead, d, s, END_COMMAND, e);
    CloseAt(d, r.value);
    NoNulWithin(d, from, e, from, r.value);
    assert MatchAt(lead, d, from, END_COMMAND, r.value);
  }

  /** What follows the writer's command with its closing delimiter at `e`. */
  function Behind(d: string, e: nat): (w: nat)
    requires e + 2 <= |d|
    ensures e + 2 <= w <= |d|
  {
    e + 2 + WhiteLen(d[e + 2..])
  }

  lemma BehindIsWhite(d: string, e: nat)
    requires e + 2 <= |d|
    ensures forall k :: e + 2 <= k < Behind(d, e) ==> IsSpace(d[k])
  {
    WhiteLenMeaning(d[e + 2..]);
    hide WhiteLen;
    forall k | e + 2 <= k < Behind(d, e)
      ensures IsSpace(d[k])
    {
      assert d[e + 2..][k - e - 2] == d[k];
    }
  }

  /** The closing delimiter and the white space behind it hold no terminator, opening delimiter
      or lead byte. */
  lemma CommandTail(lead: LeadByte, d: string, from: nat, e: nat)
    requires Find(lead, d, from, END_COMMAND) == Some(e)
    ensures var w := Behind(d, e);
            NUL !in d[from..w] && !lead(d[w - 1]) && forall k :: e <= k < w ==> d[k] != '<'
  {
    FindIsFirst(lead, d, from, END_COMMAND);
    hide Find, FindFrom, Behind;
    CloseAt(d, e);
    BehindIsWhite(d, e);
    NoNulAt(d, from, e);
    NoNulIn(d, from, Behind(d, e));
  }

  lemma TextStopsAtCommand(lead: LeadByte, d: string, s: nat, w: nat)
    requires s < w <= |d| && !IsCommandAt(d, s) && NUL !in d[s..w] && !lead(d[w - 1])
    ensures IsCommandAt(d, w) ==> TextEnd(lead, d, s) <= w
  {
    hide Find, FindFrom;
    FindIsFirst(lead, d, s, BEGIN_COMMAND);
    if IsCommandAt(d, w) { assert MatchAt(lead, d, s, BEGIN_COMMAND, w); }
  }

  /** Text begun inside the writer's command ends at a command inside it, at its end, or where
      the writer's next text block ends. */
  lemma TextCatchesUp(lead: LeadByte, d: string, from: nat, e: nat, s: nat)
    requires Find(lead, d, from, END_COMMAND) == Some(e) && from <= s <= e && !IsCommandAt(d, s)
    ensures var w, t := Behind(d, e), TextEnd(lead, d, s);
            && (t < w ==> t < e && IsCommandAt(d, t))
            && (t > w ==> !IsCommandAt(d, w) && TextEnd(lead, d, w) == t)
  {
    CommandTail(lead, d, from, e);
    hide Find, FindFrom, WhiteLen;
    FindIsFirst(lead, d, s, BEGIN_COMMAND);
    var w, t := Behind(d, e), TextEnd(lead, d, s);
    if t < w {
      assert d[t] == '<' by { assert d[t..t + 2][0] == '<'; }
    } else if t > w {
      NoNulWithin(d, from, w, s, w);
      TextStopsAtCommand(lead, d, s, w);
      hide MatchAt;
      forall j: nat | w < j
        ensures MatchAt(lead, d, s, BEGIN_COMMAND, j) <==> MatchAt(lead, d, w, BEGIN_COMMAND, j)
      {
        MatchFurther(lead, d, s, w, j);
      }
      SameFirst(lead, d, s, w);
    }
  }

  lemma MatchFurther(lead: LeadByte, d: string, s: nat, w: nat, j: nat)
    requires s <= w < j && w <= |d| && NUL !in d[s..w]
    ensures MatchAt(lead, d, s, BEGIN_COMMAND, j) <==> MatchAt(lead, d, w, BEGIN_COMMAND, j)
  {
    if j <= |d| { assert d[s..j] == d[s..w] + d[w..j]; }
  }

  lemma SameFirst(lead: LeadByte, d: string, s: nat, w: nat)
    requires s <= w && !IsCommandAt(d, w)
    requires forall j: nat :: w < j ==>
               (MatchAt(lead, d, s, BEGIN_COMMAND, j) <==> MatchAt(lead, d, w, BEGIN_COMMAND, j))
    requires var r := Find(lead, d, s, BEGIN_COMMAND); r.Some? ==> r.value > w
    ensures Find(lead, d, s, BEGIN_COMMAND) == Find(lead, d, w, BEGIN_COMMAND)
  {
    FindIsFirst(lead, d, s, BEGIN_COMMAND);
    FindIsFirst(lead, d, w, BEGIN_COMMAND);
    hide Find, FindFrom;
    var a, b := Find(lead, d, s, BEGIN_COMMAND), Find(lead, d, w, BEGIN_COMMAND);
    assert b.Some? ==> b.value != w;
    assert a.Some? ==> MatchAt(lead, d, w, BEGIN_COMMAND, a.value);
    assert b.Some? ==> MatchAt(lead, d, s, BEGIN_COMMAND, b.value);
  }

  /** The bytes asked for by a page's first block and by the rest. */
  lemma ExtraFirst(lang: ScriptLang, lead: LeadByte, d: string, p: nat, skip: nat)
    requires p < |d| && (skip == 0 || skip == 2) && Parse(lead, d, p, skip).Some?
    ensures var b := NextBlock(lead, d, p, skip);
            && b.Some? && Parse(lead, d, b.value.1, skip).Some?
            && ExtraAll(lang, Parse(lead, d, p, skip).value)
                 == Extra(lang, b.value.0) + ExtraAll(lang, Parse(lead, d, b.value.1, skip).value)
  {
    hide NextBlock, Extra;
    var b := NextBlock(lead, d, p, skip);
    assert ([b.value.0] + Parse(lead, d, b.value.1, skip).value)[1..] == Parse(lead, d, b.value.1, skip).value;
  }

  lemma {:induction false} CharsExtraSuffix(lang: ScriptLang, s: string, n: nat)
    requires n <= |s|
    ensures CharsExtra(lang, s[n..]) <= CharsExtra(lang, s)
  {
    if n > 0 {
      CharsExtraSuffix(lang, s[1..], n - 1);
      assert s[1..][n - 1..] == s[n..];
    }
  }

  /** A longer text asks for no less. */
  lemma TextSuffix(lang: ScriptLang, d: string, s: nat, w: nat, t: nat)
    requires s <= w <= t <= |d|
    ensures Extra(lang, Text(d[w..t])) <= Extra(lang, Text(d[s..t]))
  {
    CharsExtraSuffix(lang, d[s..t], w - s);
    assert d[s..t][w - s..] == d[w..t];
    hide CharsExtra;
    assert |d[w..t]| / MAX_VB_STRING <= |d[s..t]| / MAX_VB_STRING;
  }

  /** The sizer's step from inside the writer's command: to the writer, to a command still inside,
      or over a text that ends where the writer's next text does. */
  lemma SizerStep(lang: ScriptLang, lead: LeadByte, d: string, from: nat, e: nat, s: nat)
    requires Find(lead, d, from, END_COMMAND) == Some(e) && from <= s <= e
    ensures var b, w := NextBlock(lead, d, s, 0), Behind(d, e);
            && b.Some?
            && (b.value.1 < w ==> s < b.value.1 < e)
            && (b.value.1 > w ==>
                  var c := NextBlock(lead, d, w, 2);
                  c.Some? && c.value.1 == b.value.1 && Extra(lang, c.value.0) <= Extra(lang, b.value.0))
  {
    hide Find, FindFrom, WhiteLen, Extra, TextEnd;
    CloseAt(d, e);
    if IsCommandAt(d, s) {
      assert d[s] == '<' by { assert d[s..s + 2][0] == '<'; }
      CommandCatchesUp(lead, d, from, e, s);
    } else {
      TextCatchesUp(lead, d, from, e, s);
      var w, t := Behind(d, e), TextEnd(lead, d, s);
      if t > w { TextSuffix(lang, d, s, w, t); }
    }
  }

  /** A sizer still inside the writer's command meets the writer again behind it or at the end of
      the text that follows, and has asked for enough by then; the writer gets from its command to
      there. */
  lemma SizerCatchesUp(lang: ScriptLang, lead: LeadByte, d: string, from: nat, e: nat, s: nat) returns (t: nat)
    requires Find(lead, d, from, END_COMMAND) == Some(e) && from <= s <= e && Parse(lead, d, s, 0).Some?
    ensures Behind(d, e) <= t <= |d| && Parse(lead, d, t, 0).Some?
    ensures Parse(lead, d, Behind(d, e), 2).Some? <==> Parse(lead, d, t, 2).Some?
    ensures OpenBareClose(lead, d, Behind(d, e)) <==> OpenBareClose(lead, d, t)
    ensures Parse(lead, d, t, 2).Some? ==>
              ExtraAll(lang, Parse(lead, d, Behind(d, e), 2).value) - ExtraAll(lang, Parse(lead, d, t, 2).value)
                <= ExtraAll(lang, Parse(lead, d, s, 0).value) - ExtraAll(lang, Parse(lead, d, t, 0).value)
    decreases e - s
  {
    hide Find, Behind, Extra, ExtraAll, Parse, NextBlock, OpenBareClose;
    SizerStep(lang, lead, d, from, e, s);
    ExtraFirst(lang, lead, d, s, 0);
    t := NextBlock(lead, d, s, 0).value.1;
    if t < Behind(d, e) {
      t := SizerCatchesUp(lang, lead, d, from, e, t);
    } else if t > Behind(d, e) {
      WriterStep(lead, d, Behind(d, e));
      if Parse(lead, d, t, 2).Some? { ExtraFirst(lang, lead, d, Behind(d, e), 2); }
    }
  }

  /** The writer's walk over the blocks from `p` ends at a "<%>" behind which no closing delimiter
      follows. */
  predicate OpenBareClose(lead: LeadByte, d: string, p: nat)
    requires p <= |d|
    decreases |d| - p
  {
    p < |d| &&
      var b := NextBlock(lead, d, p, 2);
      if b.None? then BareCloseAt(d, p) else OpenBareClose(lead, d, b.value.1)
  }

  lemma WriterStep(lead: LeadByte, d: string, p: nat)
    requires p < |d|
    ensures var b := NextBlock(lead, d, p, 2);
            if b.None? then
              Parse(lead, d, p, 2).None? && (OpenBareClose(lead, d, p) <==> BareCloseAt(d, p))
            else
              && (Parse(lead, d, p, 2).Some? <==> Parse(lead, d, b.value.1, 2).Some?)
              && (OpenBareClose(lead, d, p) <==> OpenBareClose(lead, d, b.value.1))
  {
    hide NextBlock;
  }

  /** At a "<%>" the sizer goes on inside the writer's command, for which nothing is asked. */
  lemma BareCloseBlocks(lang: ScriptLang, lead: LeadByte, d: string, p: nat) returns (e: nat, s: nat)
    requires p < |d| && BareCloseAt(d, p) && NextBlock(lead, d, p, 2).Some?
    ensures Find(lead, d, p + 2, END_COMMAND) == Some(e) && p + 2 < s <= e && NextBlock(lead, d, p, 0).Some?
    ensures NextBlock(lead, d, p, 0).value.1 == s
    ensures NextBlock(lead, d, p, 2).value.1 == Behind(d, e)
    ensures Extra(lang, NextBlock(lead, d, p, 2).value.0) == 0
  {
    hide Find, FindFrom;
    FindFromOpening(lead, d, p);
    e := Find(lead, d, p + 2, END_COMMAND).value;
    s := p + 3 + WhiteLen(d[p + 3..]);
    CloseAt(d, e);
    WhiteLenMeaning(d[p + 3..]);
    assert forall k :: p + 3 <= k < |d| ==> d[k] == d[p + 3..][k - p - 3];
    assert d[p + 2..e][0] == '>';
    assert WhiteLen(d[p + 2..e]) == 0;
  }

  /** Once the sizer accepts a page, the writer finds no end for a command exactly when it is a
      "<%>" with no closing delimiter behind it. */
  lemma {:induction false} NullEndIsOpenBareClose(lang: ScriptLang, lead: LeadByte, d: string, p: nat)
    requires p <= |d| && Parse(lead, d, p, 0).Some?
    ensures Parse(lead, d, p, 2).None? <==> OpenBareClose(lead, d, p)
    decreases |d| - p
  {
    if p < |d| {
      WriterStep(lead, d, p);
      ExtraFirst(lang, lead, d, p, 0);
      NextBlockAgrees(lead, d, p);
      if NextBlock(lead, d, p, 2).Some? {
        if BareCloseAt(d, p) {
          var e, s := BareCloseBlocks(lang, lead, d, p);
          hide Find, NextBlock, Parse, Extra, ExtraAll, OpenBareClose;
          var t := SizerCatchesUp(lang, lead, d, p + 2, e, s);
          NullEndIsOpenBareClose(lang, lead, d, t);
        } else {
          hide NextBlock, Parse, Extra, ExtraAll, OpenBareClose;
          NullEndIsOpenBareClose(lang, lead, d, NextBlock(lead, d, p, 2).value.1);
        }
      }
    }
  }

  /** The same for a whole page. */
  lemma NullEnd(lang: ScriptLang, lead: LeadByte, d: string)
    ensures BufferExtra(lang, lead, d).Some? ==>
              (Script(lang, lead, d).None? <==> OpenBareClose(lead, d, WhiteLen(d)))
  {
    if BufferExtra(lang, lead, d).Some? { NullEndIsOpenBareClose(lang, lead, d, WhiteLen(d)); }
  }

  /** The shortest such page. */
  lemma LoneBareClose(lang: ScriptLang, lead: LeadByte)
    ensures BufferExtra(lang, lead, "<%>").Some? && Script(lang, lead, "<%>").None?
    ensures OpenBareClose(lead, "<%>", 0)
  {
    var d := "<%>";
    assert d[0..2] == "<%" && d[1..3] == "%>" && WhiteLen(d) == 0;
    FindFromOpening(lead, d, 0);
    assert Find(lead, d, 2, END_COMMAND).None?;
    assert WhiteLen(d[3..]) == 0 && d[3..3] == "";
    hide Find, FindFrom, WhiteLen;
    assert NextBlock(lead, d, 0, 0) == Some((Command("", ""), 3));
    assert Parse(lead, d, 3, 0).Some?;
  }

  /** When both passes accept a page, the sizer reserves at least what the writer's blocks ask for,
      although it sees others behind a "<%>". */
  lemma {:induction false} ReservesEnough(lang: ScriptLang, lead: LeadByte, d: string, p: nat)
    requires p <= |d| && Parse(lead, d, p, 0).Some? && Parse(lead, d, p, 2).Some?
    ensures ExtraAll(lang, Parse(lead, d, p, 2).value) <= ExtraAll(lang, Parse(lead, d, p, 0).value)
    decreases |d| - p
  {
    if p < |d| {
      ExtraFirst(lang, lead, d, p, 0);
      ExtraFirst(lang, lead, d, p, 2);
      NextBlockAgrees(lead, d, p);
      if BareCloseAt(d, p) {
        var e, s := BareCloseBlocks(lang, lead, d, p);
        hide Find, NextBlock, Parse, Extra, ExtraAll;
        var t := SizerCatchesUp(lang, lead, d, p + 2, e, s);
        ReservesEnough(lang, lead, d, t);
      } else {
        hide NextBlock, Extra, ExtraAll;
        ReservesEnough(lang, lead, d, NextBlock(lead, d, p, 2).value.1);
      }
    }
  }

  /** A block is safe on its own when the statements beyond those the sizer predicts are
      paid for by quotes and line ends. */
  ghost predicate EnoughRoom(lang: ScriptLang, bs: seq<Block>) {
    lang.VBSCRIPT? ==>
      forall b :: b in bs && b.Text? ==>
        STRING_WRITE_ADD * (Chunks(lang, b.text) - 1 - |b.text| / MAX_VB_STRING)
          <= Count(b.text, '"') + Count(b.text, LF) + Count(b.text, CR)
  }

  lemma {:induction false} SurplusNotNegative(lang: ScriptLang, bs: seq<Block>)
    requires EnoughRoom(lang, bs)
    ensures SurplusAll(lang, bs) >= 0
  {
    if bs != [] {
      assert bs[0] in bs;
      assert Surplus(lang, bs[0]) >= 0 by { hide Count, Chunks, Returns; }
      assert EnoughRoom(lang, bs[1..]) by { assert forall b :: b in bs[1..] ==> b in bs; hide Count, Chunks; }
      SurplusNotNegative(lang, bs[1..]);
    }
  }

  /** Every JScript page that both passes accept fits, and every VBScript page whose text blocks
      have enough room. */
  lemma ScriptFits(lang: ScriptLang, lead: LeadByte, d: string)
    requires BufferExtra(lang, lead, d).Some? && Script(lang, lead, d).Some?
    requires lang.VBSCRIPT? ==> EnoughRoom(lang, Parse(lead, d, WhiteLen(d), 2).value)
    ensures |Script(lang, lead, d).value| + 1 <= |d| + BufferExtra(lang, lead, d).value + 1
  {
    ReservesEnough(lang, lead, d, WhiteLen(d));
    ScriptSize(lang, lead, d);
    SurplusNotNegative(lang, Parse(lead, d, WhiteLen(d), 2).value);
  }

  // --------------------------------------------- statement size and an overrun

  /** A VBScript statement's literal stays within 1001 bytes, so under the documented
      maximum of 1022 even with its quotes. */
  lemma {:induction false} ChunkPayload(s: string, w: nat)
    requires w < MAX_VB_STRING
    ensures w + |Escape(VBSCRIPT, s[..ChunkLen(VBSCRIPT, s, w)])| <= MAX_VB_STRING + 18
  {
    if s != "" {
      var n := ChunkLen(VBSCRIPT, s, w);
      var w' := w + |EscapeChar(VBSCRIPT, s[0])|;
      if w' < MAX_VB_STRING {
        ChunkPayload(s[1..], w');
        assert s[..n][1..] == s[1..][..n - 1];
      } else {
        assert Escape(VBSCRIPT, s[..1]) == EscapeChar(VBSCRIPT, s[0]) + Escape(VBSCRIPT, s[..1][1..]);
      }
    }
  }

  lemma VbPayloadBound(s: string)
    ensures |Escape(VBSCRIPT, s[..FirstChunk(VBSCRIPT, s)])| <= 1001
  {
    ChunkPayload(s, |WRITE_HTML_BEGIN|);
  }

  function Repeat(c: char, n: nat): (s: string)
    ensures |s| == n && forall k :: 0 <= k < n ==> s[k] == c
  {
    seq(n, _ => c)
  }

  lemma {:induction false} PlainChunk(n: nat, w: nat)
    requires w < MAX_VB_STRING
    ensures ChunkLen(VBSCRIPT, Repeat('a', n), w) == if n <= MAX_VB_STRING - w then n else MAX_VB_STRING - w
    decreases n
  {
    if n > 0 {
      assert Repeat('a', n)[1..] == Repeat('a', n - 1);
      if w + 1 < MAX_VB_STRING {
        PlainChunk(n - 1, w + 1);
      }
    }
  }

  lemma {:induction false} PlainCounts(n: nat, c: char)
    requires c != 'a'
    ensures Count(Repeat('a', n), c) == 0
  {
    if n > 0 {
      assert Repeat('a', n)[1..] == Repeat('a', n - 1);
      PlainCounts(n - 1, c);
    }
  }

  lemma {:induction false} PlainFind(lead: LeadByte, n: nat, i: nat)
    requires i <= n
    ensures FindFrom(lead, Repeat('a', n), 0, BEGIN_COMMAND, i).None?
    decreases n - i
  {
    var d := Repeat('a', n);
    if i + 2 <= n {
      assert d[i..i + 2][0] == 'a';
      PlainFind(lead, n, i + 1);
    }
  }

  /** A page of plain letters is one text block. */
  lemma PlainPage(lead: LeadByte, n: nat)
    requires n > 1
    ensures var d := Repeat('a', n); Parse(lead, d, 0, 0) == Some([Text(d)]) && NoBareClose(lead, d, 0)
  {
    var d := Repeat('a', n);
    assert WhiteLen(d) == 0 && !IsCommandAt(d, 0) by {
      assert d[0] == 'a' && d[0..2][0] == 'a';
    }
    PlainFind(lead, n, 0);
    assert TextEnd(lead, d, 0) == n;
    assert Parse(lead, d, n, 0) == Some([]);
    assert d[0..n] == d;
    assert [Text(d)] + [] == [Text(d)];
    assert NoBareClose(lead, d, n);
  }

  /** It takes two chunks when one statement cannot hold it. */
  lemma PlainChunks(n: nat)
    requires 984 <= n < MAX_VB_STRING
    ensures Chunks(VBSCRIPT, Repeat('a', n)) == 2
  {
    var d, m := Repeat('a', n), MAX_VB_STRING - |WRITE_HTML_BEGIN|;
    PlainChunk(n, |WRITE_HTML_BEGIN|);
    assert d[m..] == Repeat('a', n - m);
    PlainChunk(n - m, |WRITE_HTML_BEGIN|);
    assert d[m..][n - m..] == "";
    assert Chunks(VBSCRIPT, d[m..]) == 1 + Chunks(VBSCRIPT, "");
  }

  /** A VBScript page of 984 to 999 plain letters needs a second statement the sizing pass
      does not count on: 24 bytes more are written than reserved. */
  lemma PlainPageOverruns(lead: LeadByte, n: nat)
    requires 984 <= n < MAX_VB_STRING
    ensures var d := Repeat('a', n);
            && Script(VBSCRIPT, lead, d).Some? && BufferExtra(VBSCRIPT, lead, d).Some?
            && |Script(VBSCRIPT, lead, d).value| == |d| + BufferExtra(VBSCRIPT, lead, d).value + 24
  {
    hide Parse, NoBareClose, Repeat, Chunks, Count;
    var d := Repeat('a', n);
    PlainPage(lead, n);
    PassesSeeSameBlocks(lead, d, 0);
    PlainChunks(n);
    PlainCounts(n, '"'); PlainCounts(n, LF); PlainCounts(n, CR);
    ScriptSize(VBSCRIPT, lead, d);
    assert [Text(d)][1..] == [];
    assert SurplusAll(VBSCRIPT, [Text(d)]) == Surplus(VBSCRIPT, Text(d)) + SurplusAll(VBSCRIPT, []);
  }
}
