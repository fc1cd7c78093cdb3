/** ParseHeaders and ParseMethod as clients of the tokenizer
    (PRIVATE/SERVERS/HTTP/PARSER/parser.cpp:254-311, 371-415). */
module HttpHeaders {
  import opened Text
  import opened HttpBuffer

  // ------------------------------------------------------- where headers end

  /** The line at `p` has no header name: nothing but blanks in front of a line end. */
  predicate NoName(b: string, p: nat)
    requires p <= |b|
  {
    var i := TokenStart(b, p);
    i == |b| || IsReturn(b[i])
  }

  /** Behind the first line without a header name, counted from the line at `p`. */
  function HeadersEnd(b: string, p: nat): (e: Option<nat>)
    requires p <= |b|
    ensures e.Some? ==> e.value <= |b|
    decreases |b| - p
  {
    var q := NextLineStart(b, p);
    if q.None? || NoName(b, p) then q else HeadersEnd(b, q.value)
  }

  /** How many header lines stand in front of that line. */
  function HeaderCount(b: string, p: nat): nat
    requires p <= |b|
    decreases |b| - p
  {
    var q := NextLineStart(b, p);
    if q.None? || NoName(b, p) then 0 else 1 + HeaderCount(b, q.value)
  }

  /** The same for a whole request, whose first line is the request line. */
  function RequestEnd(b: string, p: nat): Option<nat>
    requires p <= |b|
  {
    var q := NextLineStart(b, p);
    if q.None? then None else HeadersEnd(b, q.value)
  }

  lemma NextLineStartIs(b: string, p: nat, k: nat)
    requires p <= k && k + 2 <= |b| && b[k] == CR && b[k + 1] == LF
    ensures NextLineStart(b, p).Some? && NextLineStart(b, p).value <= k + 2
  {
    if NextLineStart(b, p).None? {
      NoNextLine(b, p, k);
    }
  }

  lemma {:induction false} NoNextLine(b: string, p: nat, k: nat)
    requires p <= k && k + 2 <= |b| && b[k] == CR && b[k + 1] == LF
    ensures NextLineStart(b, p).Some?
    decreases k - p
  {
    if p < k { NoNextLine(b, p + 1, k); }
  }

  /** From a line in front of an empty line one gets to a line that still is, or to that empty
      line itself. */
  lemma LineBefore(b: string, p: nat, k: nat)
    requires EndAt(b, k) && p <= k
    ensures var q := NextLineStart(b, p);
            q.Some? && p < q.value && (q.value <= k || (q.value == k + 2 && NoName(b, k + 2)))
    ensures NextLineStart(b, k + 2) == Some(k + 4)
  {
    NextLineStartIs(b, p, k);
    assert NextLineStart(b, p).value != k + 1;
    hide NextLineStart;
    TokenStartIs(b, k + 2, k + 2);
  }

  /** Headers that the receive loop takes for complete are complete for the parser: it needs no
      byte behind the first empty line. */
  lemma {:induction false} CompleteHeadersEnd(b: string, p: nat, k: nat)
    requires EndAt(b, k) && (p <= k || (p == k + 2 && NoName(b, p)))
    ensures HeadersEnd(b, p).Some? && HeadersEnd(b, p).value <= k + 4
    decreases k + 2 - p
  {
    LineBefore(b, if p <= k then p else k, k);
    hide NextLineStart, NoName, EndAt;
    if p <= k && !NoName(b, p) {
      CompleteHeadersEnd(b, NextLineStart(b, p).value, k);
    }
  }

  /** A receive that ends with complete headers leaves a buffer whose headers the parser finds. */
  lemma ReceivedIsParsable(all: string)
    requires HeadersDone(all)
    ensures RequestEnd(Trimmed(all), 0).Some?
  {
    var b := Trimmed(all);
    var k :| EndAt(b, k) && 0 <= k;
    LineBefore(b, 0, k);
    hide NextLineStart, NoName, EndAt, HeadersEnd, Trimmed;
    CompleteHeadersEnd(b, NextLineStart(b, 0).value, k);
  }

  // -------------------------------------------------- tokens stay in their line

  /** No line end between `p` and `i`. */
  ghost predicate SameLine(b: string, p: nat, i: nat) {
    p <= i <= |b| && forall k :: p <= k < i ==> !IsReturn(b[k])
  }

  lemma TokenInLine(b: string, p: nat, i: nat, fWS: bool, fColon: bool)
    requires SameLine(b, p, i)
    ensures SameLine(b, p, TokenEnd(b, TokenStart(b, i), fWS, fColon))
  {
    var start := TokenStart(b, i);
    var end := TokenEnd(b, start, fWS, fColon);
    forall k | p <= k < end
      ensures !IsReturn(b[k])
    {
      if i <= k < start { assert IsBlank(b[k]); }
      if start <= k { assert !Stops(b, k, fWS, fColon); }
    }
  }

  lemma {:induction false} LineFrom(b: string, p: nat, i: nat)
    requires SameLine(b, p, i)
    ensures NextLineStart(b, p) == NextLineStart(b, i)
    decreases i - p
  {
    if p < i { LineFrom(b, p + 1, i); }
  }

  /** At the start of a line, the tokenizer finds a header name unless there is none. */
  lemma NameToken(b: string, p: nat)
    requires p <= |b| && (p > 0 ==> b[p - 1] == LF)
    ensures var i := TokenStart(b, p);
            TokenEnd(b, i, false, true) == i <==> NoName(b, p)
  {
  }

  // ------------------------------------------------------------- the parser

  /** What the parser consults: whether a URL is acceptable, whether a version can be read, and
      what the handler of the n-th header does, given its name: which tokens it reads, up to a
      blank (true) or up to the end of the line (false), and whether it accepts the header. */
  datatype Handlers = Handlers(
    crackUrl: string -> bool, version: string -> bool, header: (nat, string) -> (seq<bool>, bool))

  /** The end of the C string at `i`, in a token that ends at `end`. */
  function CEnd(b: string, i: nat, end: nat): (n: nat)
    requires i <= end <= |b|
    ensures i <= n <= end && (n < end ==> b[n] == NUL) && forall k :: i <= k < n ==> b[k] != NUL
    decreases end - i
  {
    if i == end || b[i] == NUL then i else CEnd(b, i + 1, end)
  }

  /** The last blank from `i` up to `n`. */
  function LastBlank(b: string, i: nat, n: nat): (k: Option<nat>)
    requires i <= n <= |b|
    ensures k.Some? ==> i <= k.value < n && b[k.value] == ' ' && forall j :: k.value < j < n ==> b[j] != ' '
    ensures k.None? ==> forall j :: i <= j < n ==> b[j] != ' '
  {
    if i == n then None
    else if b[n - 1] == ' ' then Some(n - 1)
    else LastBlank(b, i, n - 1)
  }

  /** URL and version between `i` and `end`, as one token. */
  datatype Target = Target(url: string, blank: Option<nat>, version: string)

  function TargetAt(b: string, i: nat, end: nat): (t: Target)
    requires i <= end <= |b|
    ensures t.blank.Some? ==> i <= t.blank.value < end && b[t.blank.value] == ' '
  {
    var n := CEnd(b, i, end);
    var k := LastBlank(b, i, n);
    if k.None? then Target(b[i..n], k, "") else Target(b[i..k.value], k, b[k.value + 1..n])
  }

  predicate TargetOk(h: Handlers, t: Target) {
    h.crackUrl(t.url) && (t.blank.Some? ==> h.version(t.version))
  }

  /** The URL stays cut off: there is a version behind it, and it is refused. */
  predicate StaysCut(h: Handlers, t: Target) {
    t.blank.Some? && !h.crackUrl(t.url)
  }

  function CutBytes(h: Handlers, b: string, t: Target): string
    requires t.blank.Some? ==> t.blank.value < |b|
  {
    if StaysCut(h, t) then b[t.blank.value := NUL] else b
  }

  /** The bytes change exactly if the URL stays cut off, and an accepted target never does. */
  lemma CutBytesDiffer(h: Handlers, b: string, i: nat, end: nat)
    requires i <= end <= |b|
    ensures CutBytes(h, b, TargetAt(b, i, end)) != b <==> StaysCut(h, TargetAt(b, i, end))
    ensures TargetOk(h, TargetAt(b, i, end)) ==> !StaysCut(h, TargetAt(b, i, end))
  {
    var t := TargetAt(b, i, end);
    if StaysCut(h, t) { assert CutBytes(h, b, t)[t.blank.value] == NUL; }
  }

  /** strrchr for a blank in the C string at `i`, which ends at `n`. */
  method StrRChr(buf: array<char>, i: nat, ghost b: string, ghost end: nat) returns (k: Option<nat>, n: nat)
    requires i <= end <= |b| && end < buf.Length && buf[end] == NUL && forall j :: i <= j < end ==> buf[j] == b[j]
    ensures n == CEnd(b, i, end) && k == LastBlank(b, i, n)
  {
    k, n := None, i;
    while buf[n] != NUL
      invariant i <= n <= end && forall j :: i <= j < n ==> b[j] != NUL
      invariant k == LastBlank(b, i, n)
      decreases end - n
    {
      if buf[n] == ' ' { k := Some(n); }
      n := n + 1;
    }
    CEndIs(b, i, end, n);
  }

  lemma CEndIs(b: string, i: nat, end: nat, n: nat)
    requires i <= n <= end <= |b| && (n < end ==> b[n] == NUL) && forall k :: i <= k < n ==> b[k] != NUL
    ensures CEnd(b, i, end) == n
  {
  }

  /** ParseMethod, from behind the method name: the URL is cut off by a terminator that goes
      again, except exactly when there is a version behind it and the URL is refused. */
  method ParseMethod(buf: CBuffer, h: Handlers) returns (ret: bool)
    requires buf.Valid()
    modifies buf`m_iNextOut, buf`m_chSaved, buf.m_pszBuf
    ensures buf.Valid()
    ensures var b := old(buf.Bytes());
            var i := TokenStart(b, old(buf.m_iNextOut));
            var end := TokenEnd(b, i, false, false);
            && buf.m_iNextOut == end
            && ret == (i < end && TargetOk(h, TargetAt(b, i, end)))
            && buf.Bytes() == CutBytes(h, b, TargetAt(b, i, end))
  {
    hide TokenStart, TokenEnd, TargetAt, CutBytes, TargetOk;
    ghost var b := buf.Bytes();
    var ok, pszTok, iLen := buf.NextToken(false, false);
    if !ok {
      EmptyTarget(h, b, pszTok);
      return false;
    }
    ret := ParseTarget(buf, h, pszTok, b);
  }

  lemma EmptyTarget(h: Handlers, b: string, i: nat)
    requires i <= |b|
    ensures CutBytes(h, b, TargetAt(b, i, i)) == b
  {
  }

  /** The same for the token found. */
  method ParseTarget(buf: CBuffer, h: Handlers, pszTok: nat, ghost b: string) returns (ret: bool)
    requires buf.Valid() && buf.m_pszBuf != null && buf.Bytes() == b && pszTok <= buf.m_iNextOut <= |b|
    requires buf.Raw()[pszTok..buf.m_iNextOut] == b[pszTok..buf.m_iNextOut] && buf.m_pszBuf[buf.m_iNextOut] == NUL
    modifies buf.m_pszBuf
    ensures buf.Valid() && ret == TargetOk(h, TargetAt(b, pszTok, buf.m_iNextOut))
    ensures buf.Bytes() == CutBytes(h, b, TargetAt(b, pszTok, buf.m_iNextOut))
  {
    hide LastBlank, CEnd, CBuffer.Bytes;
    ghost var raw := buf.Raw();
    SliceChars(raw, b, pszTok, buf.m_iNextOut);
    var pszTok2, end := StrRChr(buf.m_pszBuf, pszTok, b, buf.m_iNextOut);
    if pszTok2.None? {
      SubSlice(raw, b, pszTok, buf.m_iNextOut, pszTok, end);
      ret := h.crackUrl(buf.m_pszBuf[pszTok..end]);
    } else {
      SubSlice(raw, b, pszTok, buf.m_iNextOut, pszTok, pszTok2.value);
      SubSlice(raw, b, pszTok, buf.m_iNextOut, pszTok2.value + 1, end);
      ret := CutUrl(buf, pszTok, pszTok2.value, end, h);
    }
  }

  lemma SliceChars(a: string, b: string, i: nat, end: nat)
    requires i <= end <= |a| && end <= |b| && a[i..end] == b[i..end]
    ensures forall k :: i <= k < end ==> a[k] == b[k]
  {
    forall k | i <= k < end
      ensures a[k] == b[k]
    {
      assert a[i..end][k - i] == b[i..end][k - i];
    }
  }

  lemma SubSlice(a: string, b: string, i: nat, end: nat, j: nat, k: nat)
    requires i <= end <= |a| && end <= |b| && a[i..end] == b[i..end] && i <= j <= k <= end
    ensures a[j..k] == b[j..k]
  {
    SliceChars(a, b, i, end);
  }

  /** The URL and the version around the blank at `k`. */
  method CutUrl(buf: CBuffer, pszTok: nat, k: nat, end: nat, h: Handlers) returns (ret: bool)
    requires buf.Valid() && buf.m_pszBuf != null && pszTok <= k < end <= buf.m_iNextOut && buf.m_pszBuf[k] == ' '
    modifies buf.m_pszBuf
    ensures buf.Valid()
    ensures var url, version := old(buf.m_pszBuf[pszTok..k]), old(buf.m_pszBuf[k + 1..end]);
            && ret == (h.crackUrl(url) && h.version(version))
            && buf.Bytes() == if h.crackUrl(url) then old(buf.Bytes()) else old(buf.Bytes())[k := NUL]
  {
    ghost var was := buf.m_pszBuf[..];
    buf.m_pszBuf[k] := NUL;
    assert buf.m_pszBuf[pszTok..k] == was[pszTok..k] && buf.m_pszBuf[k + 1..end] == was[k + 1..end];
    if !h.crackUrl(buf.m_pszBuf[pszTok..k]) {
      assert buf.m_pszBuf[..] == was[k := NUL];
      return false;
    }
    ret := h.version(buf.m_pszBuf[k + 1..end]);
    buf.m_pszBuf[k] := ' ';
    assert buf.m_pszBuf[..] == was;
  }

  /** A header's handler, on its part of the line from `p` on. */
  method ParseHeader(buf: CBuffer, calls: seq<bool>, ghost p: nat)
    requires buf.Valid() && SameLine(buf.Bytes(), p, buf.m_iNextOut)
    modifies buf`m_iNextOut, buf`m_chSaved, buf.m_pszBuf
    ensures buf.Valid() && buf.Bytes() == old(buf.Bytes()) && SameLine(buf.Bytes(), p, buf.m_iNextOut)
  {
    var c := 0;
    while c < |calls|
      invariant buf.Valid() && buf.Bytes() == old(buf.Bytes()) && SameLine(buf.Bytes(), p, buf.m_iNextOut)
    {
      TokenInLine(buf.Bytes(), p, buf.m_iNextOut, calls[c], false);
      var _, _, _ := buf.NextToken(calls[c], false);
      c := c + 1;
    }
  }

  /** The bytes after parsing a request line from `p` on. */
  function RequestLineBytes(h: Handlers, b: string, p: nat): string
    requires p <= |b|
  {
    var i := TokenStart(b, p);
    var q := TokenEnd(b, i, true, false);
    if i == q then b
    else
      var t := TokenStart(b, q);
      CutBytes(h, b, TargetAt(b, t, TokenEnd(b, t, false, false)))
  }

  /** ParseHeaders: the buffer holds the bytes received, except that a refused URL with a version
      behind it stays cut off.  On success the cursor stands behind the first line without a
      header name, and one line was read for each header in front of it, whatever the handlers do. */
  method ParseHeaders(buf: CBuffer, h: Handlers) returns (ret: bool, ghost n: nat)
    requires buf.Valid()
    modifies buf`m_iNextOut, buf`m_chSaved, buf.m_pszBuf
    ensures buf.Valid() && buf.Bytes() == RequestLineBytes(h, old(buf.Bytes()), old(buf.m_iNextOut))
    ensures ret ==> buf.Bytes() == old(buf.Bytes()) && buf.m_chSaved == NUL
    ensures ret ==> RequestEnd(buf.Bytes(), old(buf.m_iNextOut)) == Some(buf.m_iNextOut)
    ensures ret ==> n == HeaderCount(buf.Bytes(), NextLineStart(buf.Bytes(), old(buf.m_iNextOut)).value)
  {
    hide HeadersEnd, HeaderCount, NextLineStart, RequestLineBytes;
    n := 0;
    ghost var b, p := buf.Bytes(), buf.m_iNextOut;
    ret := ParseRequestLine(buf, h);
    if ret {
      AfterLine(b, p);
      ret, n := ParseLines(buf, h);
    }
  }

  lemma AfterLine(b: string, p: nat)
    ensures var q := NextLineStart(b, p);
            q.Some? ==> 0 < q.value <= |b| && p < q.value && b[q.value - 1] == LF
  {
  }

  /** The request line. */
  method ParseRequestLine(buf: CBuffer, h: Handlers) returns (ret: bool)
    requires buf.Valid()
    modifies buf`m_iNextOut, buf`m_chSaved, buf.m_pszBuf
    ensures buf.Valid()
    ensures buf.Bytes() == RequestLineBytes(h, old(buf.Bytes()), old(buf.m_iNextOut))
    ensures ret ==>
              buf.Bytes() == old(buf.Bytes()) && NextLineStart(buf.Bytes(), old(buf.m_iNextOut)) == Some(buf.m_iNextOut)
  {
    hide NextLineStart, TokenStart, TokenEnd, TargetAt, CutBytes, TargetOk;
    ghost var b, p := buf.Bytes(), buf.m_iNextOut;
    var ok, pszTok, iLen := buf.NextToken(true, false);
    if !ok { return false; }
    TokenInLine(b, p, p, true, false);
    TokenInLine(b, p, buf.m_iNextOut, false, false);
    ghost var t := TokenStart(b, buf.m_iNextOut);
    CutBytesDiffer(h, b, t, TokenEnd(b, t, false, false));
    ok := ParseMethod(buf, h);
    if !ok { return false; }
    LineFrom(b, p, buf.m_iNextOut);
    ret := buf.NextLine();
  }

  /** One header line, from behind the header name, the `i`-th. */
  method ParseLine(buf: CBuffer, h: Handlers, i: nat, szName: string, ghost p: nat) returns (ret: bool)
    requires buf.Valid() && SameLine(buf.Bytes(), p, buf.m_iNextOut)
    modifies buf`m_iNextOut, buf`m_chSaved, buf.m_pszBuf
    ensures buf.Valid() && buf.Bytes() == old(buf.Bytes())
    ensures ret ==> NextLineStart(buf.Bytes(), p) == Some(buf.m_iNextOut) && buf.m_chSaved == NUL
  {
    hide NextLineStart;
    var r := h.header(i, szName);
    ParseHeader(buf, r.0, p);
    if !r.1 { return false; }
    LineFrom(buf.Bytes(), p, buf.m_iNextOut);
    ret := buf.NextLine();
  }

  /** The header name at the start of a line. */
  method NextName(buf: CBuffer) returns (ok: bool, szName: string)
    requires buf.Valid() && buf.m_iNextOut > 0 && buf.Bytes()[buf.m_iNextOut - 1] == LF
    modifies buf`m_iNextOut, buf`m_chSaved, buf.m_pszBuf
    ensures buf.Valid() && buf.Bytes() == old(buf.Bytes()) && ok == !NoName(buf.Bytes(), old(buf.m_iNextOut))
    ensures SameLine(buf.Bytes(), old(buf.m_iNextOut), buf.m_iNextOut)
  {
    NameToken(buf.Bytes(), buf.m_iNextOut);
    TokenInLine(buf.Bytes(), buf.m_iNextOut, buf.m_iNextOut, false, true);
    hide TokenStart, TokenEnd, NoName;
    var pszTok, iLen;
    ok, pszTok, iLen := buf.NextToken(false, true);
    szName := if ok then buf.m_pszBuf[pszTok..pszTok + iLen] else "";
  }

  /** The loop over the header lines. */
  method ParseLines(buf: CBuffer, h: Handlers) returns (ret: bool, ghost n: nat)
    requires buf.Valid() && buf.m_iNextOut > 0 && buf.Bytes()[buf.m_iNextOut - 1] == LF
    modifies buf`m_iNextOut, buf`m_chSaved, buf.m_pszBuf
    ensures buf.Valid() && buf.Bytes() == old(buf.Bytes())
    ensures ret ==> HeadersEnd(buf.Bytes(), old(buf.m_iNextOut)) == Some(buf.m_iNextOut) && buf.m_chSaved == NUL
    ensures ret ==> n == HeaderCount(buf.Bytes(), old(buf.m_iNextOut))
  {
    hide NextLineStart, NoName, HeadersEnd, HeaderCount;
    ghost var b, p0, p := buf.Bytes(), buf.m_iNextOut, buf.m_iNextOut;
    n := 0;
    var i: nat := 0;
    var ok, szName := NextName(buf);
    while ok
      invariant buf.Valid() && buf.Bytes() == b && 0 < p && SameLine(b, p, buf.m_iNextOut)
      invariant ok == !NoName(b, p)
      invariant HeadersEnd(b, p0) == HeadersEnd(b, p) && HeaderCount(b, p0) == n + HeaderCount(b, p)
      decreases |b| - p
    {
      var next := ParseLine(buf, h, i, szName, p);
      if !next { return false, n; }
      AfterLine(b, p);
      OneLine(b, p);
      i, n, p := i + 1, n + 1, buf.m_iNextOut;
      ok, szName := NextName(buf);
    }
    LineFrom(b, p, buf.m_iNextOut);
    LastLine(b, p);
    ret := buf.NextLine();
  }

  lemma OneLine(b: string, p: nat)
    requires p <= |b| && !NoName(b, p) && NextLineStart(b, p).Some?
    ensures var q := NextLineStart(b, p).value;
            HeadersEnd(b, p) == HeadersEnd(b, q) && HeaderCount(b, p) == 1 + HeaderCount(b, q)
  {
    hide NoName;
  }

  lemma LastLine(b: string, p: nat)
    requires p <= |b| && NoName(b, p)
    ensures HeadersEnd(b, p) == NextLineStart(b, p) && HeaderCount(b, p) == 0
  {
    hide NoName;
  }
}
