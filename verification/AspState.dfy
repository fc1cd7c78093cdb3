/** The page compiler itself: the cursor-advancing loops of
    PRIVATE/SERVERS/ASP/CORE/parser.cpp, proved against `AspScript`.

    A store past the end of m_pszScriptData is dropped here, so that the methods are
    defined on every page; `script` records every byte stored, and the final cursor says
    whether all of them had room. */
module AspState {
  import opened Text
  import opened AspScript
  import AspSize
  import opened Includes
  import IncludeProofs

  datatype Outcome =
    | Compiled
    | NoTerminator  // IDS_E_NO_SCRIPT_TERMINATOR
    | NullSubEnd    // the writing pass is handed a null end of command

  /** A plain strstr is a search that knows no double-byte characters. */
  const SINGLE_BYTE: LeadByte := (c: char) => false

  lemma {:induction false} SkipToMatch(lead: LeadByte, d: string, start: nat, from: nat, pat: string, i: nat)
    requires start <= i && from <= i && pat != ""
    ensures var r := FindFrom(SINGLE_BYTE, d, from, pat, i);
            FindFrom(lead, d, start, pat, i) == if r.None? then None else FindFrom(lead, d, start, pat, r.value)
    decreases |d| - i
  {
    if i + |pat| <= |d| && d[i..i + |pat|] != pat && d[i] != NUL {
      SkipToMatch(lead, d, start, from, pat, i + 1);
    }
  }

  method StrStr(d: string, pszStart: nat, pszSearch: string) returns (r: Option<nat>)
    requires pszSearch != ""
    ensures r == Find(SINGLE_BYTE, d, pszStart, pszSearch)
  {
    var i := pszStart;
    while i + |pszSearch| <= |d|
      invariant pszStart <= i
      invariant Find(SINGLE_BYTE, d, pszStart, pszSearch) == FindFrom(SINGLE_BYTE, d, pszStart, pszSearch, i)
    {
      if d[i..i + |pszSearch|] == pszSearch { return Some(i); }
      if d[i] == NUL { return None; }
      i := i + 1;
    }
    return None;
  }

  /** A match behind a lead byte is passed over. */
  lemma PassOver(lead: LeadByte, d: string, start: nat, pat: string, i: nat)
    requires start < i && pat != "" && NUL !in pat && i + |pat| <= |d|
    requires d[i..i + |pat|] == pat && lead(d[i - 1])
    ensures FindFrom(lead, d, start, pat, i) == FindFrom(lead, d, start, pat, i + 1)
  {
    assert d[i..i + |pat|][0] in pat;
  }

  method MyStrStr(lead: LeadByte, d: string, pszStart: nat, pszSearch: string) returns (r: Option<nat>)
    requires pszSearch != "" && NUL !in pszSearch
    ensures r == Find(lead, d, pszStart, pszSearch)
  {
    hide FindFrom;
    var psz := StrStr(d, pszStart, pszSearch);
    SkipToMatch(lead, d, pszStart, pszStart, pszSearch, pszStart);
    while psz.Some?
      invariant psz.Some? ==>
                  && pszStart <= psz.value && psz.value + |pszSearch| <= |d|
                  && d[psz.value..psz.value + |pszSearch|] == pszSearch
      invariant Find(lead, d, pszStart, pszSearch)
             == if psz.None? then None else FindFrom(lead, d, pszStart, pszSearch, psz.value)
      decreases if psz.Some? then |d| - psz.value else -1
    {
      // at beginning of string, must be leading byte
      if psz.value == pszStart || !lead(d[psz.value - 1]) {
        MatchEnds(lead, d, pszStart, pszSearch, psz.value);
        return psz;
      }
      PassOver(lead, d, pszStart, pszSearch, psz.value);
      var next := psz.value + 1;
      psz := StrStr(d, next, pszSearch);
      SkipToMatch(lead, d, pszStart, next, pszSearch, next);
    }
    return None;
  }

  lemma MatchEnds(lead: LeadByte, d: string, start: nat, pat: string, i: nat)
    requires start <= i && pat != "" && i + |pat| <= |d|
    requires d[i..i + |pat|] == pat && (i == start || !lead(d[i - 1]))
    ensures FindFrom(lead, d, start, pat, i) == Some(i)
  {
  }

  // ------------------------------------------------------------------ positions

  lemma WhiteStep(d: string, p: nat)
    requires p < |d|
    ensures IsSpace(d[p]) ==> WhiteLen(d[p..]) == 1 + WhiteLen(d[p + 1..])
    ensures !IsSpace(d[p]) ==> WhiteLen(d[p..]) == 0
  {
    assert d[p..][1..] == d[p + 1..];
  }

  /** The white space at the start of a command's body is the white space met from there on:
      the closing delimiter is not white. */
  lemma WhiteInCommand(d: string, p: nat, e: nat)
    requires p <= e && e + 2 <= |d| && d[e..e + 2] == END_COMMAND
    ensures WhiteLen(d[p..]) == WhiteLen(d[p..e])
  {
    assert d[e] == d[e..e + 2][0];
    WhiteLenMeaning(d[p..e]);
    var n := WhiteLen(d[p..e]);
    if n < e - p { assert d[p..][n] == d[p..e][n]; }
    WhiteLenIs(d[p..], n);
  }

  lemma SliceStep(d: string, p: nat, e: nat)
    requires p < e <= |d|
    ensures d[p..e] == [d[p]] + d[p + 1..e] && d[p..e][1..] == d[p + 1..e]
  {
  }

  /** svsutil_SkipWhiteSpace. */
  method SkipWhiteSpace(d: string, pszTrav: nat) returns (p: nat)
    requires pszTrav <= |d|
    ensures p == pszTrav + WhiteLen(d[pszTrav..])
  {
    p := pszTrav;
    while IsSpace(At(d, p))
      invariant pszTrav <= p <= |d|
      invariant p + WhiteLen(d[p..]) == pszTrav + WhiteLen(d[pszTrav..])
      decreases |d| - p
    {
      WhiteStep(d, p);
      p := p + 1;
    }
    if p < |d| { WhiteStep(d, p); }
  }

  // ---------------------------------------------------------------- sizing pass

  lemma CharsExtraStep(lang: ScriptLang, d: string, p: nat, e: nat)
    requires p < e <= |d|
    ensures CharsExtra(lang, d[p..e]) == CharExtra(lang, d[p]) + CharsExtra(lang, d[p + 1..e])
  {
    SliceStep(d, p, e);
  }

  /** `n` is the reserve of the blocks before offset `p`. */
  ghost predicate SizedTo(lang: ScriptLang, lead: LeadByte, d: string, p: nat, n: nat)
    requires p <= |d|
  {
    var all, rest := Parse(lead, d, WhiteLen(d), 0), Parse(lead, d, p, 0);
    && (all.None? <==> rest.None?)
    && (all.Some? ==> ExtraAll(lang, all.value) == n + ExtraAll(lang, rest.value))
  }

  lemma SizedStep(lang: ScriptLang, lead: LeadByte, d: string, p: nat, n: nat, b: Block, q: nat)
    requires p < |d| && SizedTo(lang, lead, d, p, n) && NextBlock(lead, d, p, 0) == Some((b, q))
    ensures SizedTo(lang, lead, d, q, n + Extra(lang, b))
  {
    hide NextBlock, Extra, WhiteLen;
    var rest := Parse(lead, d, q, 0);
    if rest.Some? {
      assert ([b] + rest.value)[1..] == rest.value;
    }
  }

  lemma SizedDone(lang: ScriptLang, lead: LeadByte, d: string, n: nat)
    requires SizedTo(lang, lead, d, |d|, n)
    ensures BufferExtra(lang, lead, d) == Some(n)
  {
  }

  lemma SizedStuck(lang: ScriptLang, lead: LeadByte, d: string, p: nat, n: nat)
    requires p < |d| && SizedTo(lang, lead, d, p, n) && NextBlock(lead, d, p, 0).None?
    ensures BufferExtra(lang, lead, d).None?
  {
  }

  lemma Unterminated(lead: LeadByte, d: string, p: nat, skip: nat)
    requires IsCommandAt(d, p) && (skip == 0 || skip == 2)
    requires Find(lead, d, p + skip, END_COMMAND).None?
    ensures NextBlock(lead, d, p, skip).None?
  {
  }

  lemma TextBlockAt(lead: LeadByte, d: string, p: nat, skip: nat, r: Option<nat>)
    requires p < |d| && !IsCommandAt(d, p) && (skip == 0 || skip == 2)
    requires r == Find(lead, d, p, BEGIN_COMMAND)
    ensures var e := if r.None? then |d| else r.value;
            p < e <= |d| && NextBlock(lead, d, p, skip) == Some((Text(d[p..e]), e))
  {
    hide Find;
    var e := if r.None? then |d| else r.value;
    assert e == TextEnd(lead, d, p);
  }

  /** The sizer's count over one text block. */
  method SizeText(d: string, from: nat, pszSubEnd: nat, scriptLang: ScriptLang) returns (n: nat)
    requires from <= pszSubEnd <= |d|
    ensures n == Extra(scriptLang, Text(d[from..pszSubEnd]))
  {
    hide CharsExtra;
    var nNewLineAdd := (if scriptLang.VBSCRIPT? then |VB_NEWLINE| else |JS_NEWLINE|) + |"\r\n"|;
    var nDoubleQuote := if scriptLang.VBSCRIPT? then |VB_DOUBLE_QUOTE_REPLACEMENT| else 1;
    n := STRING_WRITE_ADD * (if scriptLang.VBSCRIPT? then 1 + (pszSubEnd - from) / MAX_VB_STRING else 1);
    ghost var base := n;
    var pszTrav := from;
    while pszTrav < pszSubEnd
      invariant from <= pszTrav <= pszSubEnd
      invariant n + CharsExtra(scriptLang, d[pszTrav..pszSubEnd]) == base + CharsExtra(scriptLang, d[from..pszSubEnd])
    {
      CharsExtraStep(scriptLang, d, pszTrav, pszSubEnd);
      if d[pszTrav] == '"' { n := n + nDoubleQuote; }
      if d[pszTrav] == LF { n := n + nNewLineAdd; }
      if d[pszTrav] == '\\' && scriptLang.JSCRIPT? { n := n + 1; }
      pszTrav := pszTrav + 1;
    }
    assert d[pszSubEnd..pszSubEnd] == "";
    NoExtra(scriptLang);
  }

  /** The sizer's step over one command. */
  method SizeCommand(lead: LeadByte, d: string, from: nat, pszSubEnd: nat, scriptLang: ScriptLang)
    returns (n: nat, pszTrav: nat)
    requires IsCommandAt(d, from) && Find(lead, d, from, END_COMMAND) == Some(pszSubEnd)
    ensures var b := NextBlock(lead, d, from, 0);
            b.Some? && b.value.1 == pszTrav && n == Extra(scriptLang, b.value.0)
  {
    hide Find, FindFrom, WhiteLen, NextBlock, Extra;
    CommandReserve(lead, d, from, pszSubEnd, scriptLang);
    n := 0;
    pszTrav := SkipWhiteSpace(d, from + |BEGIN_COMMAND|);
    if At(d, pszTrav) == '=' { n := EXP_WRITE_ADD; }
    pszTrav := SkipWhiteSpace(d, pszSubEnd + |END_COMMAND|);
  }

  /** The sizing pass returns the reserve of the page's blocks, or -1 exactly when a command
      is not terminated. */
  method CalculateBufferSize(lead: LeadByte, d: string, scriptLang: ScriptLang) returns (nTotalExtra: int)
    ensures var r := BufferExtra(scriptLang, lead, d); nTotalExtra == if r.None? then -1 else r.value
  {
    hide FindFrom, Find, WhiteLen, Extra, SizedTo, BufferExtra, NextBlock, Parse, TextEnd;
    nTotalExtra := 0;
    var pszTrav := SkipWhiteSpace(d, 0);
    assert d[0..] == d;
    SizedStart(scriptLang, lead, d);
    while pszTrav < |d|
      invariant pszTrav <= |d| && nTotalExtra >= 0
      invariant SizedTo(scriptLang, lead, d, pszTrav, nTotalExtra)
      decreases |d| - pszTrav
    {
      ghost var at, before := pszTrav, nTotalExtra;
      if pszTrav + 2 <= |d| && d[pszTrav..pszTrav + 2] == BEGIN_COMMAND {
        var pszSubEnd := MyStrStr(lead, d, pszTrav, END_COMMAND);
        if pszSubEnd.None? {
          Unterminated(lead, d, at, 0);
          SizedStuck(scriptLang, lead, d, at, before);
          return -1;
        }
        var n;
        n, pszTrav := SizeCommand(lead, d, pszTrav, pszSubEnd.value, scriptLang);
        nTotalExtra := nTotalExtra + n;
      } else {
        var r := MyStrStr(lead, d, pszTrav, BEGIN_COMMAND);
        var pszSubEnd := if r.None? then |d| else r.value;
        TextBlockAt(lead, d, at, 0, r);
        var n := SizeText(d, pszTrav, pszSubEnd, scriptLang);
        nTotalExtra := nTotalExtra + n;
        pszTrav := pszSubEnd;
      }
      ghost var b := NextBlock(lead, d, at, 0).value.0;
      SizedStep(scriptLang, lead, d, at, before, b, pszTrav);
    }
    SizedDone(scriptLang, lead, d, nTotalExtra);
  }

  lemma SizedStart(lang: ScriptLang, lead: LeadByte, d: string)
    ensures SizedTo(lang, lead, d, WhiteLen(d), 0)
  {
  }

  lemma NoExtra(lang: ScriptLang)
    ensures CharsExtra(lang, "") == 0
  {
  }

  /** What the sizer adds for a command is the reserve of the command's block. */
  lemma CommandReserve(lead: LeadByte, d: string, p: nat, e: nat, lang: ScriptLang)
    requires IsCommandAt(d, p) && Find(lead, d, p, END_COMMAND) == Some(e)
    ensures e + 2 <= |d|
    ensures var b := Command(if e < p + 2 then "" else d[p + 2..e], d[e + 2..e + 2 + WhiteLen(d[e + 2..])]);
            && NextBlock(lead, d, p, 0) == Some((b, e + 2 + WhiteLen(d[e + 2..])))
            && Extra(lang, b) == if At(d, p + 2 + WhiteLen(d[p + 2..])) == '=' then EXP_WRITE_ADD else 0
  {
    hide FindFrom, Find, WhiteLen;
    if e < p + 2 {
      BareBody(d, p, e);
    } else {
      WhiteInCommand(d, p + 2, e);
      assert d[e] == d[e..e + 2][0] == '%';
    }
  }

  lemma BareBody(d: string, p: nat, e: nat)
    requires p <= e < p + 2 && e + 2 <= |d| && d[p..p + 2] == BEGIN_COMMAND && d[e..e + 2] == END_COMMAND
    ensures At(d, p + 2 + WhiteLen(d[p + 2..])) == '>' && WhiteLen("") == 0
  {
    assert d[p] == d[p..p + 2][0] && d[p + 1] == d[p..p + 2][1];
    assert d[e] == d[e..e + 2][0] && d[e + 1] == d[e..e + 2][1];
    assert e == p + 1 && d[p + 2..][0] == '>';
  }

  // --------------------------------------------------------------- writing pass

  lemma ReturnsStep(d: string, p: nat, e: nat)
    requires p < e <= |d|
    ensures Returns(d[p..e]) == (if IsReturn(d[p]) then [d[p]] else "") + Returns(d[p + 1..e])
  {
    SliceStep(d, p, e);
    assert "" + Returns(d[p + 1..e]) == Returns(d[p + 1..e]);
  }

  /** One character's contribution moves from what is still to be written to what is. */
  lemma ReturnsMoves(script: string, d: string, p: nat, e: nat)
    requires p < e <= |d|
    ensures (if IsReturn(d[p]) then script + [d[p]] else script) + Returns(d[p + 1..e]) == script + Returns(d[p..e])
  {
    hide Returns;
    ReturnsStep(d, p, e);
    Assoc(script, [d[p]], Returns(d[p + 1..e]));
    EmptyEnds(Returns(d[p + 1..e]));
  }

  lemma SubSlices(d: string, a: nat, b: nat, c: nat)
    requires a <= b <= c <= |d|
    ensures d[a..b] == d[a..c][..b - a] && d[b..c] == d[a..c][b - a..]
  {
  }

  lemma TerminatorNotSpace(d: string, p: nat)
    ensures IsSpace(At(d, p)) ==> p < |d|
  {
  }

  lemma NothingLeft(script: string, d: string, e: nat)
    requires e <= |d|
    ensures script + Returns(d[e..e]) == script
  {
    assert d[e..e] == "";
  }

  lemma CountStep(d: string, from: nat, p: nat)
    requires from <= p < |d|
    ensures Count(d[from..p + 1], LF) == Count(d[from..p], LF) + (if d[p] == LF then 1 else 0)
  {
    assert d[from..p + 1] == d[from..p] + [d[p]];
    CountConcat(d[from..p], [d[p]], LF);
    assert [d[p]][1..] == "";
  }

  class CASPState {
    const lead: LeadByte
    var m_pszFileData: string
    var m_scriptLang: ScriptLang
    var m_pszScriptData: array<char>
    var m_cbScriptData: nat
    var m_pIncludeInfo: seq<Info>  // empty stands for a null table
    ghost var script: string  // all bytes stored by the writing pass, in order

    constructor (lead: LeadByte, fileData: string, lang: ScriptLang)
      ensures this.lead == lead && m_pszFileData == fileData && m_scriptLang == lang && m_pIncludeInfo == []
      ensures fresh(m_pszScriptData)
    {
      this.lead := lead;
      m_pszFileData := fileData;
      m_scriptLang := lang;
      m_pszScriptData := new char[0];
      m_cbScriptData := 0;
      m_pIncludeInfo := [];
      script := "";
    }

    /** The allocation holds the bytes stored so far, as far as it reaches. */
    ghost predicate Holds()
      reads this, m_pszScriptData
    {
      forall i :: 0 <= i < |script| && i < m_pszScriptData.Length ==> m_pszScriptData[i] == script[i]
    }

    /** Stores one byte, unless `i` lies outside the allocation. */
    method Store(i: int, c: char)
      modifies m_pszScriptData
      ensures forall k :: 0 <= k < m_pszScriptData.Length ==>
                m_pszScriptData[k] == if k == i then c else old(m_pszScriptData[k])
    {
      if 0 <= i < m_pszScriptData.Length { m_pszScriptData[i] := c; }
    }

    /** *pszWrite++ = c */
    method Put(pszWrite: nat, c: char) returns (w: nat)
      requires Holds() && pszWrite == |script|
      modifies `script, m_pszScriptData
      ensures Holds() && script == old(script) + [c] && w == |script|
    {
      Store(pszWrite, c);
      script := script + [c];
      w := pszWrite + 1;
    }

    /** memcpy to pszWrite, which is then advanced. */
    method MemCpy(pszWrite: nat, s: string) returns (w: nat)
      requires Holds() && pszWrite == |script|
      modifies `script, m_pszScriptData
      ensures Holds() && script == old(script) + s && w == |script|
    {
      w := pszWrite;
      var i := 0;
      while i < |s|
        invariant 0 <= i <= |s|
        invariant Holds() && script == old(script) + s[..i] && w == |script|
      {
        w := Put(w, s[i]);
        i := i + 1;
      }
    }

    /** strcpy to pszWrite, which is then advanced to the terminator. */
    method StrCpy(pszWrite: nat, s: string) returns (w: nat)
      requires Holds() && pszWrite == |script|
      modifies `script, m_pszScriptData
      ensures Holds() && script == old(script) + s && w == |script|
    {
      w := MemCpy(pszWrite, s);
      Store(w, NUL);
    }

    method SkipWhiteWriteReturns(pszRead: nat, pszWrite: nat) returns (fRet: bool, r: nat, w: nat)
      requires Holds() && pszWrite == |script| && pszRead <= |m_pszFileData|
      modifies `script, m_pszScriptData
      ensures Holds() && w == |script|
      ensures r == pszRead + WhiteLen(m_pszFileData[pszRead..])
      ensures script == old(script) + Returns(m_pszFileData[pszRead..r])
      ensures fRet <==> Returns(m_pszFileData[pszRead..r]) != ""
    {
      hide Returns, WhiteLen, IsSpace;
      ghost var d := m_pszFileData;
      ghost var end := pszRead + WhiteLen(d[pszRead..]);
      ghost var whole := script + Returns(d[pszRead..end]);
      fRet, r, w := false, pszRead, pszWrite;
      while IsSpace(At(m_pszFileData, r))
        invariant pszRead <= r <= end && end == r + WhiteLen(d[r..])
        invariant Holds() && w == |script|
        invariant script + Returns(d[r..end]) == whole
        invariant fRet <==> |script| > |old(script)|
        invariant |script| >= |old(script)|
        decreases end - r
      {
        TerminatorNotSpace(d, r);
        WhiteStep(d, r);
        ReturnsMoves(script, d, r, end);
        if m_pszFileData[r] == CR || m_pszFileData[r] == LF {
          fRet := true;
          w := Put(w, m_pszFileData[r]);
        }
        r := r + 1;
      }
      if r < |d| { WhiteStep(d, r); }
      NothingLeft(script, d, end);
    }

    method SkipToEndWriteReturns(pszRead: nat, pszWrite: nat, pszEnd: nat) returns (r: nat, w: nat)
      requires Holds() && pszWrite == |script| && pszRead <= pszEnd <= |m_pszFileData|
      modifies `script, m_pszScriptData
      ensures Holds() && w == |script| && r == pszEnd
      ensures script == old(script) + Returns(m_pszFileData[pszRead..pszEnd])
    {
      hide Returns;
      ghost var d := m_pszFileData;
      ghost var whole := script + Returns(d[pszRead..pszEnd]);
      r, w := pszRead, pszWrite;
      while r < pszEnd
        invariant pszRead <= r <= pszEnd
        invariant Holds() && w == |script|
        invariant script + Returns(d[r..pszEnd]) == whole
      {
        ReturnsMoves(script, d, r, pszEnd);
        if m_pszFileData[r] == CR || m_pszFileData[r] == LF {
          w := Put(w, m_pszFileData[r]);
        }
        r := r + 1;
      }
      NothingLeft(script, d, pszEnd);
    }

    /** Behind a command's leading white space: a directive keeps only its line ends, an
        expression is wrapped in Response.Write, anything else is copied. */
    method CopyCode(pszRead: nat, pszWrite: nat, pszSubEnd: nat) returns (r: nat, w: nat)
      requires Holds() && pszWrite == |script|
      requires pszRead <= pszSubEnd < |m_pszFileData|
      requires m_pszFileData[pszSubEnd] == '%'
      modifies `script, m_pszScriptData
      ensures Holds() && w == |script| && r == pszSubEnd
      ensures script == old(script) + CodeOut(m_scriptLang, m_pszFileData[pszRead..pszSubEnd])
    {
      hide Returns;
      r, w := pszRead, pszWrite;
      ghost var code := m_pszFileData[r..pszSubEnd];
      if At(m_pszFileData, r) == '@' {
        r, w := SkipToEndWriteReturns(r, w, pszSubEnd);
      } else if At(m_pszFileData, r) == '=' {
        w := StrCpy(w, WRITE_EXP_BEGIN);
        r := r + 1;
        w := MemCpy(w, m_pszFileData[r..pszSubEnd]);
        ghost var x := m_pszFileData[r..pszSubEnd];
        var end := if m_scriptLang.VBSCRIPT? then WRITE_EXP_END_VB else WRITE_EXP_END_JS;
        w := StrCpy(w, end);
        Assoc(old(script), WRITE_EXP_BEGIN, x);
        Assoc(old(script), WRITE_EXP_BEGIN + x, end);
        assert x == code[1..];
      } else {
        w := MemCpy(w, m_pszFileData[r..pszSubEnd]);
      }
      r := pszSubEnd;
    }

    method CopyScriptText(pszRead: nat, pszWrite: nat, pszSubEnd: nat) returns (r: nat, w: nat)
      requires Holds() && pszWrite == |script|
      requires pszRead <= pszSubEnd && pszSubEnd + 2 <= |m_pszFileData|
      requires m_pszFileData[pszSubEnd..pszSubEnd + 2] == END_COMMAND
      modifies `script, m_pszScriptData
      ensures Holds() && w == |script| && r == pszSubEnd
      ensures script == old(script) + CommandOut(m_scriptLang, m_pszFileData[pszRead..pszSubEnd])
    {
      hide Returns, WhiteLen, CodeOut;
      ghost var d := m_pszFileData;
      ghost var body := d[pszRead..pszSubEnd];
      WhiteInCommand(d, pszRead, pszSubEnd);
      var fRet;
      fRet, r, w := SkipWhiteWriteReturns(pszRead, pszWrite);
      ghost var white, code := d[pszRead..r], d[r..pszSubEnd];
      SubSlices(d, pszRead, r, pszSubEnd);
      assert d[pszSubEnd] == '%' by { assert d[pszSubEnd..pszSubEnd + 2][0] == '%'; }
      r, w := CopyCode(r, w, pszSubEnd);
      Assoc(old(script), Returns(white), CodeOut(m_scriptLang, code));
    }

    /** Writes one character of a text block: quotes, backslashes and line ends specially. */
    method PutEscaped(pszWrite: nat, c: char) returns (w: nat)
      requires Holds() && pszWrite == |script|
      modifies `script, m_pszScriptData
      ensures Holds() && w == |script| && script == old(script) + EscapeChar(m_scriptLang, c)
    {
      w := pszWrite;
      if c == '"' {
        if m_scriptLang.VBSCRIPT? {
          w := StrCpy(w, VB_DOUBLE_QUOTE_REPLACEMENT);
        } else {
          w := MemCpy(w, "\\\"");
        }
      } else if c == '\\' && m_scriptLang.JSCRIPT? {
        w := MemCpy(w, "\\\\");
      } else if c == LF {
        w := StrCpy(w, if m_scriptLang.VBSCRIPT? then VB_NEWLINE else JS_NEWLINE);
      } else if c == CR {
        // do nothing
        EmptyEnds(script);
      } else {
        w := Put(w, c);
      }
    }

    /** Emits one statement of a text block: as much of it as FirstChunk allows. */
    method CopyChunk(pszRead: nat, pszWrite: nat, pszSubEnd: nat, nLineFeeds: nat)
      returns (r: nat, w: nat, lines: nat)
      requires Holds() && pszWrite == |script| && pszRead < pszSubEnd <= |m_pszFileData|
      modifies `script, m_pszScriptData
      ensures Holds() && w == |script|
      ensures r == pszRead + FirstChunk(m_scriptLang, m_pszFileData[pszRead..pszSubEnd])
      ensures lines == nLineFeeds + Count(m_pszFileData[pszRead..r], LF)
      ensures script == old(script)
                        + (WRITE_HTML_BEGIN + Escape(m_scriptLang, m_pszFileData[pszRead..r]) + HtmlEnd(m_scriptLang))
    {
      hide Escape, Count, ChunkLen, HtmlEnd;
      ghost var d, lang := m_pszFileData, m_scriptLang;
      var pszWriteOrg := pszWrite;
      w := StrCpy(pszWrite, WRITE_HTML_BEGIN);
      r, lines := pszRead, nLineFeeds;
      ghost var base := script;
      ghost var n := FirstChunk(lang, d[pszRead..pszSubEnd]);
      assert d[pszRead..pszRead] == "";
      NoText(lang);
      EmptyEnds(base);
      while r < pszSubEnd
        invariant pszRead <= r <= pszSubEnd
        invariant Holds() && w == |script|
        invariant script == base + Escape(lang, d[pszRead..r])
        invariant lines == nLineFeeds + Count(d[pszRead..r], LF)
        invariant pszWriteOrg <= w
        invariant r - pszRead + ChunkLen(lang, d[r..pszSubEnd], w - pszWriteOrg) == n
      {
        ghost var c, so := d[r], w - pszWriteOrg;
        CountStep(d, pszRead, r);
        EscapeStep(lang, d, pszRead, r);
        ChunkStep(lang, d, r, pszSubEnd, so);
        w := PutEscaped(w, m_pszFileData[r]);
        if m_pszFileData[r] == LF { lines := lines + 1; }
        Assoc(base, Escape(lang, d[pszRead..r]), EscapeChar(lang, c));
        r := r + 1;
        if m_scriptLang.VBSCRIPT? && w >= pszWriteOrg + MAX_VB_STRING {
          break;
        }
      }
      if r == pszSubEnd { ChunkDone(lang, d, r, w - pszWriteOrg); }
      ghost var e := Escape(lang, d[pszRead..r]);
      w := StrCpy(w, if m_scriptLang.VBSCRIPT? then WRITE_HTML_END_VB else WRITE_HTML_END_JS);
      assert script == base + e + HtmlEnd(lang) by { HtmlEnds(); }
      Assoc(old(script), WRITE_HTML_BEGIN, e);
      Assoc(old(script), WRITE_HTML_BEGIN + e, HtmlEnd(lang));
    }

    /** A whole text block: its statements, then a CRLF for each of its line feeds. */
    method CopyPlainText(pszRead: nat, pszWrite: nat, pszSubEnd: nat) returns (r: nat, w: nat)
      requires Holds() && pszWrite == |script| && pszRead <= pszSubEnd <= |m_pszFileData|
      modifies `script, m_pszScriptData
      ensures Holds() && w == |script| && r == pszSubEnd
      ensures script == old(script) + Out(m_scriptLang, Text(m_pszFileData[pszRead..pszSubEnd]))
    {
      hide Escape, Count, FirstChunk, HtmlEnd, Statements;
      ghost var d, lang := m_pszFileData, m_scriptLang;
      ghost var all := Statements(lang, d[pszRead..pszSubEnd]);
      var nLineFeeds := 0;
      r, w := pszRead, pszWrite;
      assert d[pszRead..pszRead] == "";
      NoText(lang);
      while r < pszSubEnd
        invariant pszRead <= r <= pszSubEnd
        invariant Holds() && w == |script|
        invariant nLineFeeds == Count(d[pszRead..r], LF)
        invariant script + Statements(lang, d[r..pszSubEnd]) == old(script) + all
      {
        ghost var from, written := r, script;
        StatementsStep(lang, d, from, pszSubEnd);
        r, w, nLineFeeds := CopyChunk(r, w, pszSubEnd, nLineFeeds);
        ghost var stmt := WRITE_HTML_BEGIN + Escape(lang, d[from..r]) + HtmlEnd(lang);
        Assoc(written, stmt, Statements(lang, d[r..pszSubEnd]));
        CountSlices(d, pszRead, from, r);
      }
      NoStatements(lang, d, pszSubEnd);
      EmptyEnds(script);
      ghost var n := nLineFeeds;
      Assoc(old(script), all, CrLfs(n));
      while nLineFeeds > 0
        invariant Holds() && w == |script| && nLineFeeds >= 0
        invariant script + CrLfs(nLineFeeds) == old(script) + (all + CrLfs(n))
      {
        ghost var written := script;
        w := Put(w, CR);
        w := Put(w, LF);
        nLineFeeds := nLineFeeds - 1;
        assert written + ("\r\n" + CrLfs(nLineFeeds)) == script + CrLfs(nLineFeeds);
      }
      EmptyEnds(script);
    }

    /** A command from behind its opening delimiter up to the next block: its body, the
        line ends of the white space behind it, and a separator if there are none. */
    method CopyCommand(pszRead: nat, pszWrite: nat, pszSubEnd: nat) returns (r: nat, w: nat)
      requires Holds() && pszWrite == |script|
      requires pszRead <= pszSubEnd && pszSubEnd + 2 <= |m_pszFileData|
      requires m_pszFileData[pszSubEnd..pszSubEnd + 2] == END_COMMAND
      modifies `script, m_pszScriptData
      ensures Holds() && w == |script|
      ensures r == pszSubEnd + 2 + WhiteLen(m_pszFileData[pszSubEnd + 2..]) <= |m_pszFileData|
      ensures script == old(script)
                + Out(m_scriptLang, Command(m_pszFileData[pszRead..pszSubEnd], m_pszFileData[pszSubEnd + 2..r]))
    {
      hide Returns, WhiteLen, CommandOut;
      var fRet;
      r, w := CopyScriptText(pszRead, pszWrite, pszSubEnd);
      r := r + 2;  // skip past trailing %>
      fRet, r, w := SkipWhiteWriteReturns(r, w);
      ghost var body, trail := m_pszFileData[pszRead..pszSubEnd], m_pszFileData[pszSubEnd + 2..r];
      if !fRet {
        w := Put(w, if m_scriptLang.VBSCRIPT? then ':' else ';');
      } else {
        EmptyEnds(script);
      }
      CommandOutIs(m_scriptLang, old(script), body, trail);
    }

    /** The writing pass: leading white space, then block after block. */
    method WriteScript(cb: nat) returns (ret: Outcome, pszWrite: nat)
      requires cb == |m_pszFileData| && script == ""
      modifies `script, m_pszScriptData
      ensures Holds() && pszWrite == |script|
      ensures ret == if Script(m_scriptLang, lead, m_pszFileData).None? then NullSubEnd else Compiled
      ensures ret.Compiled? ==> Script(m_scriptLang, lead, m_pszFileData) == Some(script)
    {
      hide FindFrom, Find, WhiteLen, Returns, NextBlock, TextEnd, Out, Parse, Script, WrittenTo;
      ghost var d, lang := m_pszFileData, m_scriptLang;
      var fRet, pszRead;
      fRet, pszRead, pszWrite := SkipWhiteWriteReturns(0, 0);
      assert d[0..] == d && d[0..pszRead] == d[..pszRead];
      EmptyEnds(Returns(d[..pszRead]));
      ScriptStarts(lang, lead, d);
      while pszRead < cb
        invariant pszRead <= cb == |d|
        invariant Holds() && pszWrite == |script|
        invariant WrittenTo(lang, lead, d, pszRead, script)
        decreases cb - pszRead
      {
        ghost var at, before := pszRead, script;
        if pszRead + 2 <= |m_pszFileData| && m_pszFileData[pszRead..pszRead + 2] == BEGIN_COMMAND {
          pszRead := pszRead + 2;  // skip <%
          var pszSubEnd := MyStrStr(lead, m_pszFileData, pszRead, END_COMMAND);
          if pszSubEnd.None? {
            Unterminated(lead, d, at, 2);
            WrittenStuck(lang, lead, d, at, before);
            return NullSubEnd, pszWrite;
          }
          CommandBlockAt(lead, d, at, pszSubEnd.value);
          pszRead, pszWrite := CopyCommand(pszRead, pszWrite, pszSubEnd.value);
        } else {
          var r := MyStrStr(lead, m_pszFileData, pszRead, BEGIN_COMMAND);
          var pszSubEnd := if r.None? then |m_pszFileData| else r.value;
          TextBlockAt(lead, d, at, 2, r);
          pszRead, pszWrite := CopyPlainText(pszRead, pszWrite, pszSubEnd);
        }
        WrittenStep(lang, lead, d, at, before, NextBlock(lead, d, at, 2).value.0, pszRead);
      }
      WrittenDone(lang, lead, d, script);
      ret := Compiled;
    }

    /** ConvertToScript.  When the sizing pass accepts the page, the allocation has the reserved
        size and the writing pass produces the page's script, unless it meets a "<%>" with no
        closing delimiter behind it; the buffer holds all of the script, with its terminator,
        exactly when the final cursor is inside the allocation. */
    method ConvertToScript() returns (ret: Outcome)
      modifies this
      ensures m_pszFileData == old(m_pszFileData) && m_scriptLang == old(m_scriptLang)
      ensures m_pIncludeInfo == old(m_pIncludeInfo)
      ensures ret.NoTerminator? <==> BufferExtra(m_scriptLang, lead, m_pszFileData).None?
      ensures ret.NullSubEnd? <==>
                && BufferExtra(m_scriptLang, lead, m_pszFileData).Some?
                && AspSize.OpenBareClose(lead, m_pszFileData, WhiteLen(m_pszFileData))
      ensures ret.Compiled? ==>
                && Script(m_scriptLang, lead, m_pszFileData) == Some(script)
                && fresh(m_pszScriptData)
                && m_pszScriptData.Length == |m_pszFileData| + BufferExtra(m_scriptLang, lead, m_pszFileData).value + 1
                && m_cbScriptData == |script|
                && Holds()
                && (m_cbScriptData < m_pszScriptData.Length ==>
                      m_pszScriptData[..m_cbScriptData] == script && m_pszScriptData[m_cbScriptData] == NUL)
    {
      AspSize.NullEnd(m_scriptLang, lead, m_pszFileData);
      hide Script, BufferExtra, AspSize.OpenBareClose;
      var cb := |m_pszFileData|;
      var nNewBytes := CalculateBufferSize(lead, m_pszFileData, m_scriptLang);
      if nNewBytes == -1 { return NoTerminator; }
      m_pszScriptData := new char[cb + nNewBytes + 1];
      Store(cb + nNewBytes - 1, NUL);
      script := "";
      var pszWrite;
      ret, pszWrite := WriteScript(cb);
      if ret.Compiled? {
        Store(pszWrite, NUL);
        m_cbScriptData := pszWrite;
      }
    }

    // ----------------------------------------------------------- include files

    /** FindIncludeFiles.  On success the table is the scan's and the bytes to add are the
        growth of the page; nothing is promised of the state after an error. */
    method FindIncludeFiles(fs: FileSystem) returns (err: Option<IncError>, nNewChars: int)
      requires m_pIncludeInfo == []
      modifies `m_pszFileData, `m_pIncludeInfo
      ensures var r := Scan(lead, fs, old(m_pszFileData), 0, []);
              if r.Ok? then err.None? && (m_pszFileData, m_pIncludeInfo) == r.value && nNewChars == Growth(m_pIncludeInfo)
              else err == Some(r.error)
    {
      hide Scan, ReadDirective, HashAt, WordAt, Find, FindFrom, Growth, LastEnd;
      GrowthEmpty();
      ghost var goal := Scan(lead, fs, m_pszFileData, 0, []);
      var pszTrav := 0;
      nNewChars := 0;
      var psz := MyStrStr(lead, m_pszFileData, pszTrav, COMMENT_BEGIN);
      while psz.Some?
        invariant LastEnd(m_pIncludeInfo) <= pszTrav <= |m_pszFileData|
        invariant goal == Scan(lead, fs, m_pszFileData, pszTrav, m_pIncludeInfo)
        invariant psz == Find(lead, m_pszFileData, pszTrav, COMMENT_BEGIN)
        invariant nNewChars == Growth(m_pIncludeInfo)
        decreases |m_pszFileData| - pszTrav
      {
        ScanStep(lead, fs, m_pszFileData, pszTrav, m_pIncludeInfo);
        var pszSubBegin := psz.value;
        var hash := SkipWhiteSpace(m_pszFileData, pszSubBegin + |COMMENT_BEGIN|);
        assert hash == HashAt(m_pszFileData, pszSubBegin) by { HashIs(m_pszFileData, pszSubBegin); }
        if !WordAt(m_pszFileData, hash, "#include") {
          // a regular comment
          pszTrav := hash;
        } else {
          var e := TakeDirective(fs, pszSubBegin, hash);
          if e.Err? { return Some(e.error), 0; }
          pszTrav := e.value.end;
          LastEndAppend(m_pIncludeInfo, e.value);
          GrowthAppend(m_pIncludeInfo, e.value);
          m_pIncludeInfo := m_pIncludeInfo + [e.value];
          nNewChars := nNewChars + (|e.value.contents| - (e.value.end - pszSubBegin));
        }
        psz := MyStrStr(lead, m_pszFileData, pszTrav, COMMENT_BEGIN);
      }
      ScanEnds(lead, fs, m_pszFileData, pszTrav, m_pIncludeInfo);
      err := None;
    }

    /** The loop body behind a directive's "#include". */
    method TakeDirective(fs: FileSystem, pszSubBegin: nat, hash: nat) returns (r: Result<Info>)
      requires pszSubBegin + 4 <= |m_pszFileData| && hash == HashAt(m_pszFileData, pszSubBegin)
      requires WordAt(m_pszFileData, hash, "#include") && LastEnd(m_pIncludeInfo) <= pszSubBegin
      modifies `m_pszFileData
      ensures var e := ReadDirective(lead, fs, old(m_pszFileData), m_pIncludeInfo, pszSubBegin);
              if e.Ok? then r == Ok(e.value.1) && m_pszFileData == e.value.0 else r == Err(e.error)
    {
      hide HashAt, WordAt, Find, FindFrom, LastEnd, GetLine, ParseReference;
      if m_pIncludeInfo != [] {
        var n := GetLineNumber(m_pszFileData, LastEnd(m_pIncludeInfo), hash);
        if n == 1 { return Err(MultipleIncLine); }
      }
      if |m_pIncludeInfo| == MAX_INCLUDE_FILES { return Err(MaxInclude); }
      WordFits(m_pszFileData, hash);
      var ref := ReadReference(m_pszFileData, hash + |"#include"|);
      if ref.Err? { return Err(ref.error); }
      var pszTrav, pszSubEnd := ref.value.from, ref.value.to;
      var name := m_pszFileData[pszTrav..pszSubEnd];
      var file := fs(ref.value.fFile, name);
      if file.PathFails? { return Err(NoVirtualDir); }
      if file.OpenFails? { return Err(FileOpen); }
      // put the closing quote back in place
      m_pszFileData := m_pszFileData[pszSubEnd := '"'];
      var z := MyStrStr(lead, m_pszFileData, pszTrav, COMMENT_END);
      if z.None? { return Err(CommentUnterminated); }
      var end := z.value + |COMMENT_END|;
      var cmd := MyStrStr(lead, m_pszFileData, end, BEGIN_COMMAND);
      if cmd.Some? {
        var n := GetLineNumber(m_pszFileData, end, cmd.value);
        if n == 1 { return Err(MultipleIncLine); }
      }
      r := Ok(Info(name, pszSubBegin, end, file.contents, 0, 1));
    }

    /** ReadIncludeFiles: the page becomes the merged page, and every entry gets the line its
        text starts on there and its number of lines. */
    method ReadIncludeFiles(nNewChars: int)
      requires TableOk(m_pszFileData, m_pIncludeInfo) && nNewChars == Growth(m_pIncludeInfo)
      modifies `m_pszFileData, `m_pIncludeInfo
      ensures m_pszFileData == Merged(old(m_pszFileData), old(m_pIncludeInfo))
      ensures |m_pszFileData| == |old(m_pszFileData)| + nNewChars
      ensures IncludeProofs.SamePlaces(old(m_pIncludeInfo), m_pIncludeInfo)
      ensures TableOk(old(m_pszFileData), m_pIncludeInfo) && Numbered(old(m_pszFileData), m_pIncludeInfo)
    {
      hide Before, Count, Growth, IncludeProofs.NumberedEntry, IncludeProofs.SamePlaces, Numbered, Merged;
      ghost var d, infos := m_pszFileData, m_pIncludeInfo;
      IncludeProofs.MergedSize(d, infos);
      var cb := |m_pszFileData|;
      var pszNewFileData := new char[cb + nNewChars + 1];
      var pszRead, pszWrite, nLines, i := 0, 0, 0, 0;
      StartMerge(d, infos);
      while i < |m_pIncludeInfo|
        invariant 0 <= i <= |infos| == |m_pIncludeInfo| && m_pszFileData == d
        invariant pszRead == GapStart(infos, i) <= |d| && nLines == Count(Before(d, infos, i), CR)
        invariant pszWrite == |Before(d, infos, i)| <= pszNewFileData.Length
        invariant pszNewFileData[..pszWrite] == Before(d, infos, i)
        invariant forall k :: i <= k < |infos| ==> m_pIncludeInfo[k] == infos[k]
        invariant forall k :: 0 <= k < i ==> m_pIncludeInfo[k] == IncludeProofs.NumberedEntry(d, infos, k)
      {
        ghost var done := Before(d, infos, i);
        BeforeStep(d, infos, i);
        var e := m_pIncludeInfo[i];
        var gapLines := GetLineNumber(m_pszFileData, pszRead, e.start);
        nLines := nLines + gapLines;
        var cLines := GetLineNumber(e.contents, 0, |e.contents|);
        m_pIncludeInfo := m_pIncludeInfo[i := e.(startLine := nLines, lines := cLines)];
        nLines := nLines + cLines - 2;
        pszWrite := CopyBoth(pszNewFileData, pszWrite, m_pszFileData[pszRead..e.start], e.contents);
        pszRead := e.end;
        i := i + 1;
      }
      EndMerge(d, infos);
      CopyTo(pszNewFileData, pszWrite, m_pszFileData[pszRead..]);
      m_pszFileData := pszNewFileData[..cb + nNewChars];
      IncludeProofs.NumberedTable(d, infos, m_pIncludeInfo);
    }

    /** GetIncErrorInfo. */
    method GetIncErrorInfo(iScriptErrLine: int) returns (iFileErrLine: int, fileName: Option<string>)
      ensures (fileName, iFileErrLine) == ErrorInfo(m_pIncludeInfo, iScriptErrLine, 0, 0)
    {
      fileName := None;  // as ServerError sets it before the call
      var iTotalIncLines, i := 0, 0;
      while i < |m_pIncludeInfo|
        invariant 0 <= i <= |m_pIncludeInfo| && fileName.None?
        invariant ErrorInfo(m_pIncludeInfo, iScriptErrLine, 0, 0) == ErrorInfo(m_pIncludeInfo, iScriptErrLine, i, iTotalIncLines)
      {
        if iScriptErrLine < m_pIncludeInfo[i].startLine {
          return iScriptErrLine - iTotalIncLines, None;
        }
        if iScriptErrLine < m_pIncludeInfo[i].startLine + m_pIncludeInfo[i].lines {
          return iScriptErrLine - m_pIncludeInfo[i].startLine + 1, Some(m_pIncludeInfo[i].name);
        }
        iTotalIncLines := iTotalIncLines + m_pIncludeInfo[i].lines - 1;
        i := i + 1;
      }
      iFileErrLine := iScriptErrLine - iTotalIncLines;
    }

    /** ParseIncludes: on success the page is the merge of the scanned page, and its include table
        is the scanned one, checked and numbered. */
    method ParseIncludes(fs: FileSystem) returns (err: Option<IncError>, ghost page: string)
      requires m_pIncludeInfo == []
      modifies `m_pszFileData, `m_pIncludeInfo
      ensures err.None? <==> Scan(lead, fs, old(m_pszFileData), 0, []).Ok?
      ensures err.None? ==>
                && page == Scan(lead, fs, old(m_pszFileData), 0, []).value.0 && SameButQuotes(old(m_pszFileData), page)
                && IncludeProofs.SamePlaces(Scan(lead, fs, old(m_pszFileData), 0, []).value.1, m_pIncludeInfo)
                && IncludeProofs.Checked(lead, page, m_pIncludeInfo)
                && TableOk(page, m_pIncludeInfo) && Numbered(page, m_pIncludeInfo)
                && (OneLineDirectives(page, m_pIncludeInfo) ==> OnOwnLines(page, m_pIncludeInfo))
                && CommandsBelow(lead, page, m_pIncludeInfo)
                && m_pszFileData == Merged(page, m_pIncludeInfo)
    {
      hide Scan, Merged, Numbered;
      ghost var d := m_pszFileData;
      var nNewChars;
      err, nNewChars := FindIncludeFiles(fs);
      page := m_pszFileData;
      if err.None? {
        IncludeProofs.ScanChecks(lead, fs, d, 0, []);
        IncludeProofs.ScannedTable(lead, page, m_pIncludeInfo);
        ghost var table := m_pIncludeInfo;
        if m_pIncludeInfo != [] {
          ReadIncludeFiles(nNewChars);
          MergedPlaces(lead, page, table, m_pIncludeInfo);
          IncludeProofs.SamePlacesChecked(lead, page, table, m_pIncludeInfo);
        } else {
          NothingMerged(page);
        }
      }
    }
  }

  // ------------------------------------------------------- the main loop's lemmas

  lemma StatementsStep(lang: ScriptLang, d: string, p: nat, e: nat)
    requires p < e <= |d|
    ensures var q := p + FirstChunk(lang, d[p..e]);
            && p < q <= e
            && Statements(lang, d[p..e]) ==
                 WRITE_HTML_BEGIN + Escape(lang, d[p..q]) + HtmlEnd(lang) + Statements(lang, d[q..e])
  {
    hide FirstChunk, Escape;
    var q := p + FirstChunk(lang, d[p..e]);
    SubSlices(d, p, q, e);
  }

  lemma NoStatements(lang: ScriptLang, d: string, e: nat)
    requires e <= |d|
    ensures Statements(lang, d[e..e]) == ""
  {
  }

  lemma CountSlices(d: string, a: nat, b: nat, c: nat)
    requires a <= b <= c <= |d|
    ensures Count(d[a..c], LF) == Count(d[a..b], LF) + Count(d[b..c], LF)
  {
    assert d[a..c] == d[a..b] + d[b..c];
    CountConcat(d[a..b], d[b..c], LF);
  }

  /** `s` is the script up to the block at offset `p`. */
  ghost predicate WrittenTo(lang: ScriptLang, lead: LeadByte, d: string, p: nat, s: string)
    requires p <= |d|
  {
    var rest := Parse(lead, d, p, 2);
    Script(lang, lead, d) == if rest.None? then None else Some(s + OutAll(lang, rest.value))
  }

  lemma ScriptStarts(lang: ScriptLang, lead: LeadByte, d: string)
    ensures WrittenTo(lang, lead, d, WhiteLen(d), Returns(d[..WhiteLen(d)]))
  {
  }

  lemma WrittenStep(lang: ScriptLang, lead: LeadByte, d: string, p: nat, s: string, b: Block, q: nat)
    requires p < |d| && WrittenTo(lang, lead, d, p, s) && NextBlock(lead, d, p, 2) == Some((b, q))
    ensures WrittenTo(lang, lead, d, q, s + Out(lang, b))
  {
    hide NextBlock, Out, WhiteLen, Returns;
    var rest := Parse(lead, d, q, 2);
    if rest.Some? {
      assert ([b] + rest.value)[1..] == rest.value;
      Assoc(s, Out(lang, b), OutAll(lang, rest.value));
    }
  }

  lemma WrittenStuck(lang: ScriptLang, lead: LeadByte, d: string, p: nat, s: string)
    requires p < |d| && WrittenTo(lang, lead, d, p, s) && NextBlock(lead, d, p, 2).None?
    ensures Script(lang, lead, d).None?
  {
    hide Script;
  }

  lemma WrittenDone(lang: ScriptLang, lead: LeadByte, d: string, s: string)
    requires WrittenTo(lang, lead, d, |d|, s)
    ensures Script(lang, lead, d) == Some(s)
  {
    hide Script;
    EmptyEnds(s);
  }

  lemma CommandBlockAt(lead: LeadByte, d: string, p: nat, e: nat)
    requires IsCommandAt(d, p) && Find(lead, d, p + 2, END_COMMAND) == Some(e)
    ensures e + 2 <= |d| && p + 2 <= e
    ensures var q := e + 2 + WhiteLen(d[e + 2..]);
            NextBlock(lead, d, p, 2) == Some((Command(d[p + 2..e], d[e + 2..q]), q))
  {
    hide FindFrom, Find, WhiteLen;
  }

  /** A command's script is written in two or three pieces. */
  lemma CommandOutIs(lang: ScriptLang, s: string, body: string, trail: string)
    ensures s + Out(lang, Command(body, trail)) ==
              ((s + CommandOut(lang, body)) + Returns(trail)) + Separator(lang, trail)
  {
    hide CommandOut, Returns, Separator;
    Assoc(CommandOut(lang, body), Returns(trail), Separator(lang, trail));
    Assoc(s, CommandOut(lang, body), Returns(trail) + Separator(lang, trail));
    Assoc(s + CommandOut(lang, body), Returns(trail), Separator(lang, trail));
  }

  lemma NoText(lang: ScriptLang)
    ensures Escape(lang, "") == "" && Count("", LF) == 0
  {
  }

  lemma HtmlEnds()
    ensures HtmlEnd(VBSCRIPT) == WRITE_HTML_END_VB && HtmlEnd(JSCRIPT) == WRITE_HTML_END_JS
  {
  }

  lemma EscapeStep(lang: ScriptLang, d: string, from: nat, p: nat)
    requires from <= p < |d|
    ensures Escape(lang, d[from..p + 1]) == Escape(lang, d[from..p]) + EscapeChar(lang, d[p])
  {
    assert d[from..p + 1] == d[from..p] + [d[p]];
    AspSize.EscapeConcat(lang, d[from..p], [d[p]]);
    assert [d[p]][1..] == "";
    EmptyEnds(EscapeChar(lang, d[p]));
  }

  lemma ChunkStep(lang: ScriptLang, d: string, p: nat, e: nat, w: nat)
    requires p < e <= |d|
    ensures var w' := w + |EscapeChar(lang, d[p])|;
            ChunkLen(lang, d[p..e], w) ==
              if lang.VBSCRIPT? && w' >= MAX_VB_STRING then 1 else 1 + ChunkLen(lang, d[p + 1..e], w')
  {
    SliceStep(d, p, e);
  }

  lemma ChunkDone(lang: ScriptLang, d: string, p: nat, w: nat)
    requires p <= |d|
    ensures ChunkLen(lang, d[p..p], w) == 0
  {
  }

  // -------------------------------------------------------- lemmas for includes

  /** GetLineNumber. */
  method GetLineNumber(d: string, pszStart: nat, pszEnd: nat) returns (nLines: nat)
    requires pszStart <= pszEnd <= |d|
    ensures nLines == GetLine(d, pszStart, pszEnd)
  {
    nLines := 1;
    var pszTrav := pszStart;
    assert d[pszStart..pszStart] == "";
    while pszTrav < pszEnd
      invariant pszStart <= pszTrav <= pszEnd
      invariant nLines == 1 + Count(d[pszStart..pszTrav], CR)
    {
      IncludeProofs.CountSlices(d, pszStart, pszTrav, pszTrav + 1);
      assert d[pszTrav..pszTrav + 1] == [d[pszTrav]] && [d[pszTrav]][1..] == "";
      if d[pszTrav] == CR { nLines := nLines + 1; }
      pszTrav := pszTrav + 1;
    }
  }

  /** The file name part of a directive. */
  method ReadReference(d: string, p: nat) returns (r: Result<Reference>)
    requires p <= |d|
    ensures r == ParseReference(d, p)
  {
    hide WhiteLen, QuoteFrom, WordAt;
    KeywordsFit(d, SkipWhite(d, p));
    var pszTrav := SkipWhiteSpace(d, p);
    var fFile;
    if WordAt(d, pszTrav, "file") {
      pszTrav, fFile := pszTrav + 4, true;
    } else if WordAt(d, pszTrav, "virtual") {
      pszTrav, fFile := pszTrav + 7, false;
    } else {
      return Err(BadInclude);
    }
    pszTrav := SkipWhiteSpace(d, pszTrav);
    if At(d, pszTrav) != '=' { return Err(BadInclude); }
    pszTrav := SkipWhiteSpace(d, pszTrav + 1);
    if At(d, pszTrav) != '"' && At(d, pszTrav) != '\'' { return Err(BadInclude); }
    pszTrav := pszTrav + 1;
    var pszSubEnd := NextQuote(d, pszTrav);
    if pszSubEnd.None? { return Err(BadInclude); }
    if pszSubEnd.value - pszTrav > MAX_PATH - 1 { return Err(FileOpen); }
    r := Ok(Reference(fFile, pszTrav, pszSubEnd.value));
  }

  /** The closing quote, unless the page ends first. */
  method NextQuote(d: string, pszTrav: nat) returns (r: Option<nat>)
    requires pszTrav <= |d|
    ensures r == QuoteFrom(d, pszTrav)
  {
    var pszSubEnd := pszTrav;
    while At(d, pszSubEnd) != NUL
      invariant pszTrav <= pszSubEnd <= |d|
      invariant QuoteFrom(d, pszTrav) == QuoteFrom(d, pszSubEnd)
      decreases |d| - pszSubEnd
    {
      if d[pszSubEnd] == '"' || d[pszSubEnd] == '\'' { return Some(pszSubEnd); }
      pszSubEnd := pszSubEnd + 1;
    }
    return None;
  }

  /** memcpy into the new page. */
  method CopyTo(a: array<char>, w: nat, s: string)
    requires w + |s| <= a.Length
    modifies a
    ensures a[..w + |s|] == old(a[..w]) + s
  {
    var i := 0;
    while i < |s|
      invariant 0 <= i <= |s|
      invariant a[..w + i] == old(a[..w]) + s[..i]
    {
      a[w + i] := s[i];
      i := i + 1;
      assert a[..w + i] == a[..w + i - 1] + [s[i - 1]];
    }
  }

  /** The page text in front of an include, then the include. */
  method CopyBoth(a: array<char>, w: nat, gap: string, file: string) returns (w': nat)
    requires w + |gap| + |file| <= a.Length
    modifies a
    ensures w' == w + |gap| + |file| && a[..w'] == old(a[..w]) + gap + file
  {
    CopyTo(a, w, gap);
    CopyTo(a, w + |gap|, file);
    w' := w + |gap| + |file|;
  }

  lemma KeywordsFit(d: string, p: nat)
    ensures WordAt(d, p, "file") ==> p + 4 <= |d|
    ensures WordAt(d, p, "virtual") ==> p + 7 <= |d|
  {
  }

  lemma WordFits(d: string, p: nat)
    requires WordAt(d, p, "#include")
    ensures p + |"#include"| <= |d|
  {
  }

  lemma HashIs(d: string, c: nat)
    requires c + 4 <= |d|
    ensures HashAt(d, c) == c + 4 + WhiteLen(d[c + 4..])
  {
  }

  lemma ScanStep(lead: LeadByte, fs: FileSystem, d: string, p: nat, infos: seq<Info>)
    requires LastEnd(infos) <= p <= |d| && Find(lead, d, p, COMMENT_BEGIN).Some?
    ensures var c := Find(lead, d, p, COMMENT_BEGIN).value;
            && HashAt(d, c) > p
            && (!WordAt(d, HashAt(d, c), "#include") ==>
                  Scan(lead, fs, d, p, infos) == Scan(lead, fs, d, HashAt(d, c), infos))
            && (WordAt(d, HashAt(d, c), "#include") ==>
                  var e := ReadDirective(lead, fs, d, infos, c);
                  if e.Err? then Scan(lead, fs, d, p, infos) == Err(e.error)
                  else Scan(lead, fs, d, p, infos) == Scan(lead, fs, e.value.0, e.value.1.end, infos + [e.value.1]))
  {
    hide ReadDirective, WordAt, Find, FindFrom, HashAt;
  }

  lemma ScanEnds(lead: LeadByte, fs: FileSystem, d: string, p: nat, infos: seq<Info>)
    requires LastEnd(infos) <= p <= |d| && Find(lead, d, p, COMMENT_BEGIN).None?
    ensures Scan(lead, fs, d, p, infos) == Ok((d, infos))
  {
    hide Find;
  }

  lemma LastEndAppend(infos: seq<Info>, e: Info)
    ensures LastEnd(infos + [e]) == e.end
  {
  }

  lemma GrowthEmpty()
    ensures Growth([]) == 0 && LastEnd([]) == 0
  {
  }

  lemma {:induction false} GrowthAppend(infos: seq<Info>, e: Info)
    ensures Growth(infos + [e]) == Growth(infos) + (|e.contents| - (e.end - e.start))
  {
    if infos == [] {
      assert [] + [e] == [e] && [e][1..] == [];
    } else {
      assert (infos + [e])[1..] == infos[1..] + [e];
      GrowthAppend(infos[1..], e);
    }
  }

  lemma StartMerge(d: string, infos: seq<Info>)
    requires TableOk(d, infos)
    ensures Before(d, infos, 0) == "" && Count("", CR) == 0
  {
  }

  /** One step of the merge: lengths, lines and the entry it fills in. */
  lemma BeforeStep(d: string, infos: seq<Info>, i: nat)
    requires TableOk(d, infos) && i < |infos|
    ensures var g, e := GapStart(infos, i), infos[i];
            var gap := d[g..e.start];
            && Before(d, infos, i + 1) == Before(d, infos, i) + gap + e.contents
            && |Before(d, infos, i + 1)| <= |Merged(d, infos)|
            && Count(Before(d, infos, i + 1), CR) == Count(Before(d, infos, i), CR) + Count(gap, CR) + Count(e.contents, CR)
            && e.contents[0..|e.contents|] == e.contents
            && IncludeProofs.NumberedEntry(d, infos, i) ==
                 e.(startLine := 1 + Count(Before(d, infos, i), CR) + Count(gap, CR), lines := 1 + Count(e.contents, CR))
  {
    hide Count, Merged;
    var gap := d[GapStart(infos, i)..infos[i].start];
    CountConcat(Before(d, infos, i), gap, CR);
    CountConcat(Before(d, infos, i) + gap, infos[i].contents, CR);
    IncludeProofs.BeforeIsPrefix(d, infos, i + 1);
  }

  lemma EndMerge(d: string, infos: seq<Info>)
    requires TableOk(d, infos)
    ensures GapStart(infos, |infos|) <= |d|
    ensures Merged(d, infos) == Before(d, infos, |infos|) + d[GapStart(infos, |infos|)..]
  {
  }

  lemma NothingMerged(d: string)
    ensures TableOk(d, []) && Merged(d, []) == d && Numbered(d, [])
  {
  }

  lemma MergedPlaces(lead: LeadByte, d: string, a: seq<Info>, b: seq<Info>)
    requires TableOk(d, a) && TableOk(d, b) && IncludeProofs.SamePlaces(a, b) && CommandsBelow(lead, d, a)
    requires OneLineDirectives(d, a) ==> OnOwnLines(d, a)
    ensures Merged(d, a) == Merged(d, b) && CommandsBelow(lead, d, b)
    ensures OneLineDirectives(d, b) ==> OnOwnLines(d, b)
  {
    IncludeProofs.SamePlacesBefore(d, a, b, |a|);
    hide Merged, Before, Find, GetLine;
    assert OneLineDirectives(d, b) ==> OneLineDirectives(d, a);
    if OneLineDirectives(d, b) {
      forall i | 0 < i < |b| ensures OwnLineAt(d, b, i) { assert OwnLineAt(d, a, i); }
    }
  }
}
