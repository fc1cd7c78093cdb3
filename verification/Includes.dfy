/** Include files of an ASP page (PRIVATE/SERVERS/ASP/PARSEEXT/parseext.cpp): the table of
    include directives, the merged page, and the map from merged lines back to files. */
module Includes {
  import opened Text
  import opened AspScript

  const MAX_INCLUDE_FILES := 16
  const MAX_PATH := 260
  const COMMENT_BEGIN := "<!--"
  const COMMENT_END := "-->"

  datatype IncError = BadInclude | MaxInclude | MultipleIncLine | FileOpen | NoVirtualDir | CommentUnterminated

  datatype Result<+T> = Ok(value: T) | Err(error: IncError)

  /** What opening an include file yields. */
  datatype Opened = PathFails | OpenFails | File(contents: string)

  type FileSystem = (bool, string) -> Opened

  /** INCLUDE_INFO; `contents` is what reading m_hFile gives, so m_dwFileSize bytes. */
  datatype Info = Info(name: string, start: nat, end: nat, contents: string, startLine: int, lines: int)

  /** Line of the byte behind `s`, counting carriage returns from 1. */
  function LineAfter(s: string): nat {
    1 + Count(s, CR)
  }

  /** GetLineNumber between two offsets. */
  function GetLine(d: string, from: nat, to: nat): nat
    requires from <= to <= |d|
  {
    LineAfter(d[from..to])
  }

  // -------------------------------------------------------- finding directives

  /** _memicmp of the bytes at `p` with a word given in lower case. */
  predicate WordAt(d: string, p: nat, word: string) {
    p + |word| <= |d| && forall k :: 0 <= k < |word| ==> Lower(d[p + k]) == word[k]
  }

  function SkipWhite(d: string, p: nat): (q: nat)
    requires p <= |d|
    ensures p <= q <= |d|
  {
    p + WhiteLen(d[p..])
  }

  predicate IsQuote(c: char) {
    c == '"' || c == '\''
  }

  /** First quote at or behind `p`; None when the terminator comes first. */
  function QuoteFrom(d: string, p: nat): (r: Option<nat>)
    ensures r.Some? ==> p <= r.value < |d| && IsQuote(d[r.value])
    decreases |d| - p
  {
    if p >= |d| || d[p] == NUL then None
    else if IsQuote(d[p]) then Some(p)
    else QuoteFrom(d, p + 1)
  }

  datatype Reference = Reference(fFile: bool, from: nat, to: nat)

  /** The file a directive names, from behind "#include" on. */
  function ParseReference(d: string, p: nat): (r: Result<Reference>)
    requires p <= |d|
    ensures r.Ok? ==> p <= r.value.from <= r.value.to < |d|
  {
    var a := SkipWhite(d, p);
    if !WordAt(d, a, "file") && !WordAt(d, a, "virtual") then Err(BadInclude)
    else
      var fFile := WordAt(d, a, "file");
      var b := SkipWhite(d, a + (if fFile then 4 else 7));
      if At(d, b) != '=' then Err(BadInclude)
      else
        var c := SkipWhite(d, b + 1);
        if !IsQuote(At(d, c)) then Err(BadInclude)
        else
          var e := QuoteFrom(d, c + 1);
          if e.None? then Err(BadInclude)
          else if e.value - (c + 1) > MAX_PATH - 1 then Err(FileOpen)
          else Ok(Reference(fFile, c + 1, e.value))
  }

  /** Where the word "#include" of a comment starting at `c` would be. */
  function HashAt(d: string, c: nat): (p: nat)
    requires c + 4 <= |d|
    ensures c + 4 <= p <= |d|
  {
    SkipWhite(d, c + |COMMENT_BEGIN|)
  }

  /** The page changes in place, but only single quotes become double quotes. */
  ghost predicate SameButQuotes(d: string, d': string) {
    |d| == |d'| && forall k :: 0 <= k < |d| ==> d'[k] == d[k] || (d[k] == '\'' && d'[k] == '"')
  }

  function LastEnd(infos: seq<Info>): nat {
    if infos == [] then 0 else infos[|infos| - 1].end
  }

  /** One directive whose comment starts at `c`: its table entry and the page, in which the
      closing quote has become a double quote. */
  function ReadDirective(lead: LeadByte, fs: FileSystem, d: string, infos: seq<Info>, c: nat): (r: Result<(string, Info)>)
    requires c + 4 <= |d| && WordAt(d, HashAt(d, c), "#include")
    requires LastEnd(infos) <= c
    ensures r.Ok? ==> |r.value.0| == |d| && r.value.1.start == c && HashAt(d, c) + 8 < r.value.1.end <= |d|
  {
    var t := HashAt(d, c);
    if infos != [] && GetLine(d, LastEnd(infos), t) == 1 then Err(MultipleIncLine)
    else if |infos| == MAX_INCLUDE_FILES then Err(MaxInclude)
    else
      var ref := ParseReference(d, t + 8);
      if ref.Err? then Err(ref.error)
      else
        var name := d[ref.value.from..ref.value.to];
        var file := fs(ref.value.fFile, name);
        if file.PathFails? then Err(NoVirtualDir)
        else if file.OpenFails? then Err(FileOpen)
        else
          var d' := d[ref.value.to := '"'];
          var z := Find(lead, d', ref.value.from, COMMENT_END);
          if z.None? then Err(CommentUnterminated)
          else
            var end := z.value + |COMMENT_END|;
            var cmd := Find(lead, d', end, BEGIN_COMMAND);
            if cmd.Some? && GetLine(d', end, cmd.value) == 1 then Err(MultipleIncLine)
            else Ok((d', Info(name, c, end, file.contents, 0, 1)))
  }

  /** FindIncludeFiles from offset `p` on: the page and the table it leaves behind. */
  function Scan(lead: LeadByte, fs: FileSystem, d: string, p: nat, infos: seq<Info>): Result<(string, seq<Info>)>
    requires LastEnd(infos) <= p <= |d|
    decreases |d| - p
  {
    var c := Find(lead, d, p, COMMENT_BEGIN);
    if c.None? then Ok((d, infos))
    else if !WordAt(d, HashAt(d, c.value), "#include") then Scan(lead, fs, d, HashAt(d, c.value), infos)
    else
      var e := ReadDirective(lead, fs, d, infos, c.value);
      if e.Err? then Err(e.error)
      else Scan(lead, fs, e.value.0, e.value.1.end, infos + [e.value.1])
  }

  // -------------------------------------------------------------- tables

  /** The shape every accepted table has: at most 16 directives in page order, each from a
      comment's start to a comment's end. */
  ghost predicate TableOk(d: string, infos: seq<Info>) {
    && |infos| <= MAX_INCLUDE_FILES
    && (forall i :: 0 <= i < |infos| ==> infos[i].start < infos[i].end <= |d|)
    && (forall i, j :: 0 <= i < j < |infos| ==> infos[i].end <= infos[j].start)
  }

  /** Include `i` does not start on the line of the page on which the one before it ends. */
  ghost predicate OwnLineAt(d: string, infos: seq<Info>, i: nat)
    requires TableOk(d, infos) && 0 < i < |infos|
  {
    GetLine(d, infos[i - 1].end, infos[i].start) > 1
  }

  ghost predicate OnOwnLines(d: string, infos: seq<Info>)
    requires TableOk(d, infos)
  {
    forall i :: 0 < i < |infos| ==> OwnLineAt(d, infos, i)
  }

  /** No include directive spans lines. */
  ghost predicate OneLineDirectives(d: string, infos: seq<Info>)
    requires TableOk(d, infos)
  {
    forall i :: 0 <= i < |infos| ==> CR !in d[infos[i].start..infos[i].end]
  }

  /** Behind each directive the first command starts on a later line. */
  ghost predicate CommandsBelow(lead: LeadByte, d: string, infos: seq<Info>)
    requires TableOk(d, infos)
  {
    forall i :: 0 <= i < |infos| ==>
      var t := Find(lead, d, infos[i].end, BEGIN_COMMAND);
      t.Some? ==> GetLine(d, infos[i].end, t.value) > 1
  }

  function Growth(infos: seq<Info>): int {
    if infos == [] then 0
    else |infos[0].contents| - (infos[0].end - infos[0].start) + Growth(infos[1..])
  }

  // -------------------------------------------------------------- the merged page

  /** Where the page text in front of include `i` starts. */
  function GapStart(infos: seq<Info>, i: nat): nat
    requires i <= |infos|
  {
    if i == 0 then 0 else infos[i - 1].end
  }

  /** The merged page up to include `i`, without the page text directly in front of it. */
  function Before(d: string, infos: seq<Info>, i: nat): string
    requires TableOk(d, infos) && i <= |infos|
  {
    if i == 0 then ""
    else Before(d, infos, i - 1) + d[GapStart(infos, i - 1)..infos[i - 1].start] + infos[i - 1].contents
  }

  /** The merged page up to the text of include `i`. */
  function BeforeFile(d: string, infos: seq<Info>, i: nat): string
    requires TableOk(d, infos) && i < |infos|
  {
    Before(d, infos, i) + d[GapStart(infos, i)..infos[i].start]
  }

  function Merged(d: string, infos: seq<Info>): string
    requires TableOk(d, infos)
  {
    Before(d, infos, |infos|) + d[GapStart(infos, |infos|)..]
  }

  /** The line numbers of entry `i`: where its text starts in the merged page, and its size. */
  ghost predicate NumberedAt(d: string, infos: seq<Info>, i: nat)
    requires TableOk(d, infos) && i < |infos|
  {
    && infos[i].startLine == LineAfter(BeforeFile(d, infos, i))
    && infos[i].lines == LineAfter(infos[i].contents)
  }

  ghost predicate Numbered(d: string, infos: seq<Info>)
    requires TableOk(d, infos)
  {
    forall i :: 0 <= i < |infos| ==> NumberedAt(d, infos, i)
  }

  /** GetIncErrorInfo from entry `i` on, with `total` lines taken up by earlier includes; no
      file name stands for the page itself. */
  function ErrorInfo(infos: seq<Info>, line: int, i: nat, total: int): (Option<string>, int)
    requires i <= |infos|
    decreases |infos| - i
  {
    if i == |infos| then (None, line - total)
    else if line < infos[i].startLine then (None, line - total)
    else if line < infos[i].startLine + infos[i].lines then (Some(infos[i].name), line - infos[i].startLine + 1)
    else ErrorInfo(infos, line, i + 1, total + infos[i].lines - 1)
  }
}
