/** What the ASP page compiler computes (PRIVATE/SERVERS/ASP/CORE/parser.cpp):
    how a page falls into text blocks and <% %> commands, the script text emitted
    for each block, and the number of extra bytes the sizing pass reserves. */
module AspScript {
  import opened Text

  datatype ScriptLang = VBSCRIPT | JSCRIPT

  const WRITE_HTML_BEGIN := " Response.Write(\""
  const WRITE_HTML_END_VB := "\"):    "
  const WRITE_HTML_END_JS := "\");    "
  const WRITE_EXP_BEGIN := " Response.Write("
  const WRITE_EXP_END_VB := "):  "
  const WRITE_EXP_END_JS := ");  "
  const MAX_VB_STRING := 1000
  const VB_NEWLINE := "\"&chr(13)&chr(10)&\""
  const JS_NEWLINE := "\\r\\n"
  const VB_DOUBLE_QUOTE_REPLACEMENT := "\"&chr(34)&\""
  const BEGIN_COMMAND := "<%"
  const END_COMMAND := "%>"

  /** isleadbyte of the active code page: any predicate that is false of ASCII characters,
      as in every double-byte code page. */
  type LeadByte = f: char -> bool | forall c: char :: c < '\U{0080}' ==> !f(c) witness (c: char) => false

  // ---------------------------------------------------------------- searching

  /** `pat` occurs at `i`, reached from `start` without crossing a terminator, and is
      not the trail byte of a double-byte character. */
  ghost predicate MatchAt(lead: LeadByte, d: string, start: nat, pat: string, i: nat) {
    && start <= i && i + |pat| <= |d|
    && NUL !in d[start..i]
    && d[i..i + |pat|] == pat
    && (i == start || !lead(d[i - 1]))
  }

  /** MyStrStr, as a function: the first match at or after `i`. */
  function FindFrom(lead: LeadByte, d: string, start: nat, pat: string, i: nat): (r: Option<nat>)
    requires start <= i && pat != ""
    ensures r.Some? ==> i <= r.value && r.value + |pat| <= |d| && d[r.value..r.value + |pat|] == pat
    decreases |d| - i
  {
    if i + |pat| > |d| then None
    else if d[i..i + |pat|] == pat && (i == start || !lead(d[i - 1])) then Some(i)
    else if d[i] == NUL then None
    else FindFrom(lead, d, start, pat, i + 1)
  }

  function Find(lead: LeadByte, d: string, start: nat, pat: string): (r: Option<nat>)
    requires pat != ""
    ensures r.Some? ==> start <= r.value && r.value + |pat| <= |d| && d[r.value..r.value + |pat|] == pat
  {
    FindFrom(lead, d, start, pat, start)
  }

  /** The search returns the first match there is, and None only when there is none. */
  lemma {:induction false} FindFromIsFirst(lead: LeadByte, d: string, start: nat, pat: string, i: nat)
    requires start <= i && pat != "" && NUL !in pat
    requires i <= |d| ==> NUL !in d[start..i]
    ensures var r := FindFrom(lead, d, start, pat, i);
            && (r.Some? ==> MatchAt(lead, d, start, pat, r.value))
            && (forall j :: i <= j && MatchAt(lead, d, start, pat, j) ==> r.Some? && r.value <= j)
    decreases |d| - i
  {
    if i + |pat| > |d| {
    } else if d[i..i + |pat|] == pat && (i == start || !lead(d[i - 1])) {
    } else if d[i] == NUL {
      assert d[i..i + |pat|][0] == NUL;
      assert forall j :: i < j && j + |pat| <= |d| ==> d[start..j][i - start] == NUL;
    } else {
      assert d[start..i + 1] == d[start..i] + [d[i]];
      FindFromIsFirst(lead, d, start, pat, i + 1);
    }
  }

  lemma FindIsFirst(lead: LeadByte, d: string, start: nat, pat: string)
    requires pat != "" && NUL !in pat
    ensures var r := Find(lead, d, start, pat);
            && (r.Some? ==> MatchAt(lead, d, start, pat, r.value))
            && (forall j :: MatchAt(lead, d, start, pat, j) ==> r.Some? && r.value <= j)
  {
    FindFromIsFirst(lead, d, start, pat, start);
  }

  // ------------------------------------------------------------------- blocks

  /** A page is leading white space followed by blocks.  `trail` is the white space
      skipped behind a command's closing delimiter. */
  datatype Block = Text(text: string) | Command(body: string, trail: string)

  function Source(b: Block): string {
    match b
    case Text(s) => s
    case Command(body, trail) => BEGIN_COMMAND + body + END_COMMAND + trail
  }

  function SourceAll(bs: seq<Block>): string {
    if bs == [] then "" else Source(bs[0]) + SourceAll(bs[1..])
  }

  predicate IsCommandAt(d: string, p: nat) {
    p + 2 <= |d| && d[p..p + 2] == BEGIN_COMMAND
  }

  /** Where the text block starting at `p` ends. */
  function TextEnd(lead: LeadByte, d: string, p: nat): (e: nat)
    requires p < |d| && !IsCommandAt(d, p)
    ensures p < e <= |d|
  {
    var r := Find(lead, d, p, BEGIN_COMMAND);
    if r.Some? then r.value else |d|
  }

  /** The block at offset `p` and the offset behind it; `skip` is how far behind the first
      byte of an opening delimiter the search for the closing one starts: 2 in the writing
      pass, 0 in the sizing pass.  None when a command is not terminated. */
  function NextBlock(lead: LeadByte, d: string, p: nat, skip: nat): (r: Option<(Block, nat)>)
    requires p < |d| && (skip == 0 || skip == 2)
    ensures r.Some? ==> p < r.value.1 <= |d|
  {
    if IsCommandAt(d, p) then
      var e := Find(lead, d, p + skip, END_COMMAND);
      if e.None? then None
      else
        var q := e.value + 2;
        var n := WhiteLen(d[q..]);
        Some((Command(if e.value < p + 2 then "" else d[p + 2..e.value], d[q..q + n]), q + n))
    else
      var e := TextEnd(lead, d, p);
      Some((Text(d[p..e]), e))
  }

  /** The blocks from offset `p` on. */
  function Parse(lead: LeadByte, d: string, p: nat, skip: nat): (r: Option<seq<Block>>)
    requires p <= |d| && (skip == 0 || skip == 2)
    decreases |d| - p
  {
    if p == |d| then Some([])
    else
      var b := NextBlock(lead, d, p, skip);
      if b.None? then None
      else
        var rest := Parse(lead, d, b.value.1, skip);
        if rest.None? then None else Some([b.value.0] + rest.value)
  }

  // --------------------------------------------------------- the writing pass

  function EscapeChar(lang: ScriptLang, c: char): string {
    if c == '"' then (if lang.VBSCRIPT? then VB_DOUBLE_QUOTE_REPLACEMENT else "\\\"")
    else if c == '\\' && lang.JSCRIPT? then "\\\\"
    else if c == LF then (if lang.VBSCRIPT? then VB_NEWLINE else JS_NEWLINE)
    else if c == CR then ""
    else [c]
  }

  function Escape(lang: ScriptLang, s: string): string {
    if s == "" then "" else EscapeChar(lang, s[0]) + Escape(lang, s[1..])
  }

  /** How many characters of `s` the current statement still takes when `w` bytes of it
      have been written: VBScript statements are closed once they reach MAX_VB_STRING. */
  function ChunkLen(lang: ScriptLang, s: string, w: nat): (n: nat)
    ensures n <= |s| && (s != "" ==> n > 0)
  {
    if s == "" then 0
    else
      var w' := w + |EscapeChar(lang, s[0])|;
      if lang.VBSCRIPT? && w' >= MAX_VB_STRING then 1
      else 1 + ChunkLen(lang, s[1..], w')
  }

  function FirstChunk(lang: ScriptLang, s: string): (n: nat)
    ensures n <= |s| && (s != "" ==> n > 0)
  {
    ChunkLen(lang, s, |WRITE_HTML_BEGIN|)
  }

  function HtmlEnd(lang: ScriptLang): string {
    if lang.VBSCRIPT? then WRITE_HTML_END_VB else WRITE_HTML_END_JS
  }

  function ExpEnd(lang: ScriptLang): string {
    if lang.VBSCRIPT? then WRITE_EXP_END_VB else WRITE_EXP_END_JS
  }

  /** The Response.Write statements of a text block. */
  function Statements(lang: ScriptLang, s: string): string {
    if s == "" then ""
    else
      var n := FirstChunk(lang, s);
      WRITE_HTML_BEGIN + Escape(lang, s[..n]) + HtmlEnd(lang) + Statements(lang, s[n..])
  }

  function Chunks(lang: ScriptLang, s: string): nat {
    if s == "" then 0 else 1 + Chunks(lang, s[FirstChunk(lang, s)..])
  }

  /** Script text for the part of a command behind its leading white space. */
  function CodeOut(lang: ScriptLang, code: string): string {
    if At(code, 0) == '@' then Returns(code)
    else if At(code, 0) == '=' then WRITE_EXP_BEGIN + code[1..] + ExpEnd(lang)
    else code
  }

  function Separator(lang: ScriptLang, trail: string): string {
    if Returns(trail) != "" then "" else if lang.VBSCRIPT? then ":" else ";"
  }

  function CommandOut(lang: ScriptLang, body: string): string {
    var n := WhiteLen(body);
    Returns(body[..n]) + CodeOut(lang, body[n..])
  }

  function Out(lang: ScriptLang, b: Block): string {
    match b
    case Text(s) => Statements(lang, s) + CrLfs(Count(s, LF))
    case Command(body, trail) => CommandOut(lang, body) + (Returns(trail) + Separator(lang, trail))
  }

  function OutAll(lang: ScriptLang, bs: seq<Block>): string {
    if bs == [] then "" else Out(lang, bs[0]) + OutAll(lang, bs[1..])
  }

  /** The whole script, or None when the writing pass finds no closing delimiter. */
  function Script(lang: ScriptLang, lead: LeadByte, d: string): Option<string> {
    var n := WhiteLen(d);
    var bs := Parse(lead, d, n, 2);
    if bs.None? then None else Some(Returns(d[..n]) + OutAll(lang, bs.value))
  }

  // ---------------------------------------------------------- the sizing pass

  const EXP_WRITE_ADD := 20
  const STRING_WRITE_ADD := 24

  /** The reserves are the lengths of what one statement adds, in either language. */
  lemma WriteAdds()
    ensures EXP_WRITE_ADD == |WRITE_EXP_BEGIN| + |WRITE_EXP_END_JS| == |WRITE_EXP_BEGIN| + |WRITE_EXP_END_VB|
    ensures STRING_WRITE_ADD == |WRITE_HTML_BEGIN| + |WRITE_HTML_END_JS| == |WRITE_HTML_BEGIN| + |WRITE_HTML_END_VB|
  {
  }

  function CharExtra(lang: ScriptLang, c: char): nat {
    (if c == '"' then (if lang.VBSCRIPT? then |VB_DOUBLE_QUOTE_REPLACEMENT| else 1) else 0)
    + (if c == LF then (if lang.VBSCRIPT? then |VB_NEWLINE| else |JS_NEWLINE|) + 2 else 0)
    + (if c == '\\' && lang.JSCRIPT? then 1 else 0)
  }

  function CharsExtra(lang: ScriptLang, s: string): nat {
    if s == "" then 0 else CharExtra(lang, s[0]) + CharsExtra(lang, s[1..])
  }

  function Extra(lang: ScriptLang, b: Block): nat {
    match b
    case Text(s) =>
      STRING_WRITE_ADD * (if lang.VBSCRIPT? then 1 + |s| / MAX_VB_STRING else 1) + CharsExtra(lang, s)
    case Command(body, _) =>
      if At(body, WhiteLen(body)) == '=' then EXP_WRITE_ADD else 0
  }

  function ExtraAll(lang: ScriptLang, bs: seq<Block>): nat {
    if bs == [] then 0 else Extra(lang, bs[0]) + ExtraAll(lang, bs[1..])
  }

  /** The value of CalculateBufferSize; None stands for its -1. */
  function BufferExtra(lang: ScriptLang, lead: LeadByte, d: string): Option<nat> {
    var bs := Parse(lead, d, WhiteLen(d), 0);
    if bs.None? then None else Some(ExtraAll(lang, bs.value))
  }
}
