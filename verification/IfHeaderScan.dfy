/** CheckLockHeader as it runs: pointers into a copy of the header that is cut by terminators
    and mended again (PRIVATE/SERVERS/HTTP/WEBDAV/davlock.cpp:410-612). */
module IfHeaderScan {
  import opened Text
  import opened PathNames
  import opened LockTable
  import opened LockToken
  import opened IfHeader
  import opened IfHeaderProofs

  /** A header value without its line end. */
  type HeaderText = s: string | NUL !in s witness ""

  // -------------------------------------------------------------- C strings

  /** There is a terminator at or behind `i`. */
  ghost predicate Ends(b: seq<char>, i: nat) {
    i < |b| && NUL in b[i..]
  }

  /** The C string at `i`. */
  ghost function CStr(b: seq<char>, i: nat): string
    requires Ends(b, i)
  {
    b[i..][..IndexOf(b[i..], NUL)]
  }

  lemma CStrIs(b: seq<char>, i: nat, n: nat)
    requires i + n < |b| && b[i + n] == NUL && forall k :: i <= k < i + n ==> b[k] != NUL
    ensures Ends(b, i) && CStr(b, i) == b[i..i + n]
  {
    assert b[i..][n] == NUL;
    IndexIs(b[i..], NUL, n);
    assert b[i..][..n] == b[i..i + n];
  }

  lemma CStrMeans(b: seq<char>, i: nat)
    requires Ends(b, i)
    ensures var t := CStr(b, i);
            && i + |t| < |b| && b[i + |t|] == NUL && t == b[i..i + |t|]
            && forall k :: i <= k < i + |t| ==> b[k] != NUL && b[k] == t[k - i]
  {
    var s := b[i..];
    var n := IndexOf(s, NUL);
    var m :| 0 <= m < |s| && s[m] == NUL;
    assert n <= m;
    assert s[n] == NUL && forall k :: 0 <= k < n ==> s[k] != NUL;
    hide IndexOf;
    assert forall k :: i <= k < |b| ==> b[k] == s[k - i];
    assert s[..n] == b[i..i + n];
  }

  /** Moving a pointer within the string drops its front. */
  lemma CStrDrop(b: seq<char>, i: nat, n: nat)
    requires Ends(b, i) && n <= |CStr(b, i)|
    ensures i + n < |b| && Ends(b, i + n) && CStr(b, i + n) == CStr(b, i)[n..] && b[i + n] == At(CStr(b, i), n)
    ensures b[i + n] == NUL <==> n == |CStr(b, i)|
  {
    CStrMeans(b, i);
    var t := CStr(b, i);
    hide CStr, Ends;
    CStrIs(b, i + n, |t| - n);
    assert b[i..i + |t|][n..] == b[i + n..i + |t|];
  }

  /** A terminator written into the string cuts it there. */
  lemma CStrCut(b: seq<char>, i: nat, n: nat)
    requires Ends(b, i) && n < |CStr(b, i)|
    ensures i + n < |b|
    ensures Ends(b[i + n := NUL], i) && CStr(b[i + n := NUL], i) == CStr(b, i)[..n]
  {
    CStrMeans(b, i);
    var t := CStr(b, i);
    hide CStr, Ends;
    CStrIs(b[i + n := NUL], i, n);
    assert b[i + n := NUL][i..i + n] == b[i..i + |t|][..n];
  }

  method StrLen(buf: array<char>, i: nat) returns (n: nat)
    requires Ends(buf[..], i)
    ensures n == |CStr(buf[..], i)| && i + n < buf.Length && buf[..][i..i + n] == CStr(buf[..], i)
  {
    ghost var b := buf[..];
    CStrMeans(b, i);
    hide CStr, Ends;
    n := 0;
    while buf[i + n] != NUL
      invariant n <= |CStr(b, i)|
      decreases |CStr(b, i)| - n
    {
      n := n + 1;
    }
  }

  method StrChr(buf: array<char>, i: nat, c: char) returns (k: int)
    requires Ends(buf[..], i) && c != NUL
    ensures var t := CStr(buf[..], i);
            k == if IndexOf(t, c) < |t| then i + IndexOf(t, c) else -1
  {
    ghost var b := buf[..];
    ghost var t := CStr(b, i);
    CStrMeans(b, i);
    hide CStr, Ends, IndexOf;
    k := i;
    while buf[k] != c && buf[k] != NUL
      invariant i <= k <= i + |t| && forall m :: 0 <= m < k - i ==> t[m] != c
      decreases i + |t| - k
    {
      k := k + 1;
    }
    FirstIndex(t, c, k - i);
    if buf[k] != c { k := -1; }
  }

  lemma FirstIndex(s: string, c: char, i: nat)
    requires i <= |s| && (i < |s| ==> s[i] == c) && forall m :: 0 <= m < i ==> s[m] != c
    ensures IndexOf(s, c) == i
  {
  }

  lemma IndexFound(s: string, c: char)
    ensures IndexOf(s, c) <= |s| && (IndexOf(s, c) < |s| ==> s[IndexOf(s, c)] == c)
  {
  }

  method SkipWhiteSpace(buf: array<char>, i: nat) returns (j: nat)
    requires Ends(buf[..], i)
    ensures i <= j <= i + |CStr(buf[..], i)| && j < buf.Length
    ensures Ends(buf[..], j) && CStr(buf[..], j) == SkipWhite(CStr(buf[..], i))
  {
    ghost var b := buf[..];
    ghost var t := CStr(b, i);
    CStrMeans(b, i);
    hide CStr, Ends, SkipWhite;
    j := i;
    while IsSpace(buf[j])
      invariant i <= j <= i + |t| && forall m {:trigger t[m]} :: 0 <= m < j - i ==> IsSpace(t[m])
      decreases i + |t| - j
    {
      j := j + 1;
    }
    WhiteSkipped(t, j - i);
    CStrDrop(b, i, j - i);
  }

  lemma WhiteSkipped(t: string, n: nat)
    requires n <= |t| && (n < |t| ==> !IsSpace(t[n])) && forall m :: 0 <= m < n ==> IsSpace(t[m])
    ensures SkipWhite(t) == t[n..]
  {
    WhiteLenIs(t, n);
  }

  method SkipHTTPPrefixAndHostName(buf: array<char>, szURL: nat) returns (k: int)
    requires Ends(buf[..], szURL)
    ensures var p := HostEnd(CStr(buf[..], szURL)); k == if p.None? then -1 else szURL + p.value
  {
    ghost var b := buf[..];
    ghost var url := CStr(b, szURL);
    CStrDrop(b, szURL, 0);
    IndexFound(url, '/');
    HostIs(url);
    hide IndexOf, CStr, Ends, NameEnd, HostEnd;
    if buf[szURL] == '/' { return szURL; }
    var szSlash := StrChr(buf, szURL, '/');
    if szSlash == -1 { return -1; }
    k := SkipSlashes(buf, szURL, szSlash, url);
    k := SkipName(buf, k, url, k - szURL);
  }

  /** Past the one or two slashes in front of the host name. */
  method SkipSlashes(buf: array<char>, szURL: nat, szSlash: nat, ghost url: string) returns (k: nat)
    requires Ends(buf[..], szURL) && url == CStr(buf[..], szURL) && szURL <= szSlash < szURL + |url|
    ensures Ends(buf[..], k) && k == szSlash + if At(url, szSlash - szURL + 1) == '/' then 2 else 1
    ensures szURL <= k <= szURL + |url| && CStr(buf[..], k) == url[k - szURL..]
  {
    hide CStr, Ends;
    CStrDrop(buf[..], szURL, szSlash + 1 - szURL);
    k := szSlash + if buf[szSlash + 1] == '/' then 2 else 1;
    CStrDrop(buf[..], szURL, k - szURL);
  }

  lemma HostIs(url: string)
    ensures At(url, 0) == '/' ==> HostEnd(url) == Some(0)
    ensures At(url, 0) != '/' && IndexOf(url, '/') == |url| ==> HostEnd(url) == None
    ensures At(url, 0) != '/' && IndexOf(url, '/') < |url| ==>
              var k := IndexOf(url, '/');
              var from := if At(url, k + 1) == '/' then k + 2 else k + 1;
              from <= |url| && HostEnd(url) == Some(NameEnd(url, from))
  {
    hide IndexOf, NameEnd;
  }

  /** From behind the slashes to the end of the host name. */
  method SkipName(buf: array<char>, szSlash: nat, ghost url: string, ghost from: nat) returns (k: nat)
    requires Ends(buf[..], szSlash) && from <= |url| && from <= szSlash && CStr(buf[..], szSlash) == url[from..]
    ensures k == szSlash - from + NameEnd(url, from)
  {
    var szFinalURL := StrChr(buf, szSlash, '/');
    IndexFound(url[from..], '/');
    hide IndexOf;
    k := if szFinalURL == -1 then szSlash else szFinalURL;
  }

  // ------------------------------------------------------------ the evaluator

  class CWebDav {
    const ctx: Context
    var m_lockIds: seq<int>
    var m_rs: Status  // Fine until an error status is set

    constructor (ctx: Context)
      ensures this.ctx == ctx && m_lockIds == [] && m_rs == Fine
    {
      this.ctx := ctx;
      m_lockIds := [];
      m_rs := Fine;
    }

    method CheckTokenExpression(buf: array<char>, start: nat, szPath: Option<Path>) returns (ok: bool)
      requires Ends(buf[..], start)
      modifies `m_lockIds
      ensures var id := TokenId(ctx, szPath, CStr(buf[..], start));
              ok == (id != 0) && m_lockIds == old(m_lockIds) + if ok then [id] else []
    {
      hide LockIdOf, IsFileAssociatedWithLockId, SkipWhite, CStr, Ends;
      var szToken := SkipWhiteSpace(buf, start);
      CStrDrop(buf[..], szToken, 0);
      if buf[szToken] == '"' || buf[szToken] == '<' {
        CStrDrop(buf[..], szToken, 1);
        szToken := szToken + 1;
      }
      var n := StrLen(buf, szToken);
      var iLockId := LockIdOf(ctx.guid, buf[..][szToken..szToken + n]);
      if iLockId == 0 { return false; }
      if szPath.Some? && !IsFileAssociatedWithLockId(ctx.fold, ctx.table, szPath.value, iLockId) { return false; }
      m_lockIds := m_lockIds + [iLockId];
      ok := true;
    }

    method CheckETagExpression(buf: array<char>, start: nat, szPath: Option<Path>) returns (ok: bool)
      requires Ends(buf[..], start)
      ensures ok == TagMatches(ctx, szPath, CStr(buf[..], start))
    {
      hide SkipWhite, CStr, Ends;
      var szToken := SkipWhiteSpace(buf, start);
      var etag := ctx.etagOf(szPath);
      if etag.None? { return false; }
      ghost var t := CStr(buf[..], szToken);
      CStrDrop(buf[..], szToken, 0);
      if buf[szToken] == 'W' {
        CStrDrop(buf[..], szToken, 1);
        if buf[szToken + 1] == '/' {
          CStrDrop(buf[..], szToken + 1, 0);
          CStrDrop(buf[..], szToken, 2);
          szToken := szToken + 2;
        }
      }
      var n := StrLen(buf, szToken);
      ok := buf[..][szToken..szToken + n] == etag.value;
    }

    /** The bracketed part `r` of a condition: a terminator replaces its closing bracket at
        position `k` of it meanwhile. */
    method CheckBracketed(buf: array<char>, szTrav: nat, szEnd: nat, szPath: Option<Path>, ghost r: string, ghost k: nat)
      returns (fSuccess: bool, ghost got: seq<int>)
      requires Ends(buf[..], szTrav) && r == CStr(buf[..], szTrav) && r != "" && (r[0] == '<' || r[0] == '[')
      requires k == IndexOf(r, Closer(r[0])) && 0 < k < |r| && szEnd == szTrav + k
      modifies `m_lockIds, buf
      ensures buf[..] == old(buf[..]) && m_lockIds == old(m_lockIds) + got
      ensures var id := if r[0] == '<' then TokenId(ctx, szPath, r[1..k]) else 0;
              && got == (if id != 0 then [id] else [])
              && fSuccess == if r[0] == '<' then id != 0 else TagMatches(ctx, szPath, r[1..k])
    {
      hide TokenId, TagMatches, CStr, Ends;
      ghost var b := buf[..];
      IndexFound(r, Closer(r[0]));
      CStrDrop(b, szTrav, 0);
      CStrDrop(b, szTrav, k);
      hide IndexOf;
      var close := Closer(buf[szTrav]);
      CStrCut(b, szTrav, k);
      CStrDrop(b[szEnd := NUL], szTrav, 1);
      CStrDrop(b[szEnd := NUL], szTrav, 0);
      assert b[szEnd := NUL][szEnd := close] == b;
      buf[szEnd] := NUL;
      assert buf[..] == b[szEnd := NUL];
      got := [];
      if buf[szTrav] == '<' {
        fSuccess := CheckTokenExpression(buf, szTrav + 1, szPath);
        got := if fSuccess then [TokenId(ctx, szPath, r[1..k])] else [];
      } else {
        fSuccess := CheckETagExpression(buf, szTrav + 1, szPath);
      }
      buf[szEnd] := close;
      assert buf[..] == b;
    }

    /** The word Not in front of a condition. */
    method ReadNot(buf: array<char>, start: nat) returns (fNot: bool, szTrav: nat)
      requires Ends(buf[..], start)
      ensures start <= szTrav <= start + |CStr(buf[..], start)| && szTrav < buf.Length && Ends(buf[..], szTrav)
      ensures var s := CStr(buf[..], start);
              fNot == StartsWith(s, "not") && CStr(buf[..], szTrav) == (if fNot then SkipWhite(s[3..]) else s)
    {
      hide SkipWhite, StartsWith, CStr;
      NotLonger(CStr(buf[..], start));
      var n := StrLen(buf, start);
      fNot := StartsWith(buf[..][start..start + n], "not");
      szTrav := start;
      if fNot {
        CStrDrop(buf[..], start, 3);
        szTrav := SkipWhiteSpace(buf, start + 3);
      }
    }

    /** One round of the inner loop, on the text `s`; `t` is what it leaves. */
    method CheckCondition(buf: array<char>, start: nat, szPath: Option<Path>, ghost s: string)
      returns (status: Status, szTrav: nat, ghost t: string, ghost got: seq<int>)
      requires Ends(buf[..], start) && s == CStr(buf[..], start) && s != ""
      modifies `m_lockIds, buf
      ensures buf[..] == old(buf[..]) && m_lockIds == old(m_lockIds) + got
      ensures status != Fine ==> EvalConds(ctx, szPath, s) == Verdict(status, got)
      ensures status == Fine ==> start < szTrav <= start + |s| && Ends(buf[..], szTrav) && t == CStr(buf[..], szTrav)
      ensures status == Fine ==>
                var v := EvalConds(ctx, szPath, t);
                EvalConds(ctx, szPath, s) == Verdict(v.status, got + v.ids)
    {
      hide IndexOf, TokenId, TagMatches, SkipWhite, StartsWith, EvalConds, CStr, Ends;
      ghost var b := buf[..];
      var fNot;
      fNot, szTrav := ReadNot(buf, start);
      ghost var r := CStr(b, szTrav);
      t, got := "", [];
      CStrDrop(b, szTrav, 0);
      StringAt(b, start, szTrav);
      if buf[szTrav] != '<' && buf[szTrav] != '[' {
        NoBracket(ctx, szPath, s, fNot, r);
        return Malformed, szTrav, t, got;
      }
      var szEnd := StrChr(buf, szTrav, Closer(buf[szTrav]));
      if szEnd == -1 {
        NoClosing(ctx, szPath, s, fNot, r);
        return Malformed, szTrav, t, got;
      }
      ghost var k := szEnd - szTrav;
      IndexFound(r, Closer(r[0]));
      var fSuccess;
      fSuccess, got := CheckBracketed(buf, szTrav, szEnd, szPath, r, k);
      EvalStep(ctx, szPath, s, fNot, r, k);
      if fSuccess == fNot { return PreconditionFailed, szTrav, t, got; }
      CStrDrop(b, szTrav, k + 1);
      szTrav := SkipWhiteSpace(buf, szEnd + 1);
      t := CStr(b, szTrav);
      status := Fine;
    }

    /** The inner loop: the conditions of one list, which a terminator at `szEnd` cuts off. */
    method CheckList(buf: array<char>, start: nat, szEnd: nat, szPath: Option<Path>, ghost s: string)
      returns (status: Status, ghost ids: seq<int>)
      requires Ends(buf[..], start) && s == CStr(buf[..], start) && szEnd == start + |s|
      modifies `m_lockIds, buf
      ensures buf[..] == old(buf[..]) && m_lockIds == old(m_lockIds) + ids
      ensures EvalConds(ctx, szPath, s) == Verdict(status, ids)
    {
      hide EvalConds, CStr, Ends;
      ghost var b, t := buf[..], s;
      ids := [];
      var szTrav := start;
      while szTrav < szEnd
        invariant szTrav <= szEnd && buf[..] == b && m_lockIds == old(m_lockIds) + ids
        invariant Ends(b, szTrav) && t == CStr(b, szTrav) && szEnd == szTrav + |t|
        invariant var w := EvalConds(ctx, szPath, t); EvalConds(ctx, szPath, s) == Verdict(w.status, ids + w.ids)
      {
        ghost var got, was;
        was := szTrav;
        status, szTrav, t, got := CheckCondition(buf, szTrav, szPath, t);
        ids := ids + got;
        if status != Fine { return; }
        StringAt(b, was, szTrav);
      }
      NothingLeft(ctx, szPath);
      status := Fine;
    }

    /** The tag of a group, after its opening bracket: the file it names and where its list
        should begin. */
    method CheckTag(buf: array<char>, start: nat, ghost url: string) returns (ok: bool, szPath: Option<Path>, szTrav: nat)
      requires Ends(buf[..], start) && url == CStr(buf[..], start)
      modifies buf
      ensures buf[..] == old(buf[..])
      ensures ok ==> start < szTrav <= start + |url| && Ends(buf[..], szTrav)
      ensures ReadTag(ctx, url) == if ok then Opening(szPath, CStr(buf[..], szTrav)) else Unreadable
    {
      hide IndexOf, HostEnd, SkipWhite, ReadTag, CStr, Ends;
      ghost var b := buf[..];
      szPath, szTrav := None, start;
      var k := SkipHTTPPrefixAndHostName(buf, start);
      if k == -1 {
        NoTag(ctx, url);
        return false, None, start;
      }
      ghost var p := k - start;
      HostInside(url);
      CStrDrop(b, start, p);
      var szEndOfUrl := StrChr(buf, k, '>');
      if szEndOfUrl == -1 {
        NoTag(ctx, url);
        return false, None, start;
      }
      ghost var e := szEndOfUrl - start;
      szPath := CopyUrl(buf, k, szEndOfUrl, url[p..]);
      MiddleOf(url, p, e);
      CStrDrop(b, start, e + 1);
      szTrav := SkipWhiteSpace(buf, szEndOfUrl + 1);
      ReadStep(ctx, url, p, e);
      ok := true;
    }

    /** The file a URL names; a terminator replaces its closing bracket meanwhile. */
    method CopyUrl(buf: array<char>, k: nat, szEndOfUrl: nat, ghost u: string) returns (szPath: Option<Path>)
      requires Ends(buf[..], k) && u == CStr(buf[..], k) && IndexOf(u, '>') < |u| && szEndOfUrl == k + IndexOf(u, '>')
      modifies buf
      ensures buf[..] == old(buf[..]) && szPath == ctx.toPath(u[..szEndOfUrl - k])
    {
      ghost var b := buf[..];
      IndexFound(u, '>');
      hide IndexOf, CStr, Ends;
      CStrCut(b, k, szEndOfUrl - k);
      CStrDrop(b, k, szEndOfUrl - k);
      buf[szEndOfUrl] := NUL;
      assert buf[..] == b[szEndOfUrl := NUL];
      var n := StrLen(buf, k);
      szPath := ctx.toPath(buf[..][k..k + n]);
      buf[szEndOfUrl] := '>';
      assert b[szEndOfUrl := NUL][szEndOfUrl := '>'] == b;
      assert buf[..] == b;
    }

    /** The part of a group in front of its list. */
    method CheckOpening(buf: array<char>, start: nat, ghost s: string)
      returns (ok: bool, szPath: Option<Path>, szTrav: nat)
      requires Ends(buf[..], start) && s == CStr(buf[..], start)
      modifies buf
      ensures buf[..] == old(buf[..])
      ensures ok ==> start <= szTrav <= start + |s| && Ends(buf[..], szTrav)
      ensures Open(ctx, s) == if ok then Opening(szPath, CStr(buf[..], szTrav)) else Unreadable
    {
      hide SkipWhite, ReadTag, CStr, Ends;
      szTrav := SkipWhiteSpace(buf, start);
      ghost var t := CStr(buf[..], szTrav);
      StringAt(buf[..], start, szTrav);
      CStrDrop(buf[..], szTrav, 0);
      if buf[szTrav] != '<' {
        ok, szPath := true, None;
      } else {
        CStrDrop(buf[..], szTrav, 1);
        ok, szPath, szTrav := CheckTag(buf, szTrav + 1, t[1..]);
      }
    }

    /** One round of the outer loop, on the text `s`; `t` is what it leaves. */
    method CheckGroup(buf: array<char>, start: nat, ghost s: string)
      returns (status: Status, szTrav: nat, ghost t: string, ghost got: seq<int>)
      requires Ends(buf[..], start) && s == CStr(buf[..], start) && s != ""
      modifies `m_lockIds, buf
      ensures buf[..] == old(buf[..]) && m_lockIds == old(m_lockIds) + got
      ensures status != Fine ==> EvalGroups(ctx, s) == Verdict(status, got)
      ensures status == Fine ==> start < szTrav <= start + |s| && Ends(buf[..], szTrav) && t == CStr(buf[..], szTrav)
      ensures status == Fine ==>
                var v := EvalGroups(ctx, t);
                EvalGroups(ctx, s) == Verdict(v.status, got + v.ids)
    {
      hide SkipWhite, Open, EvalGroups, EvalConds, IndexOf, CStr, Ends;
      ghost var b := buf[..];
      var ok, szPath, at := CheckOpening(buf, start, s);
      szTrav, t, got := at, "", [];
      if !ok {
        NoList(ctx, s);
        return Malformed, szTrav, t, got;
      }
      ghost var o := CStr(b, at);
      StringAt(b, start, at);
      CStrDrop(b, at, 0);
      if buf[szTrav] != '(' {
        NoList(ctx, s);
        return Malformed, szTrav, t, got;
      }
      CStrDrop(b, at, 1);
      szTrav := SkipWhiteSpace(buf, szTrav + 1);
      ghost var u := CStr(b, szTrav);
      var szEnd := StrChr(buf, szTrav, ')');
      if szEnd == -1 {
        NoListEnd(ctx, s, szPath, o, u);
        return Malformed, szTrav, t, got;
      }
      ghost var e := szEnd - szTrav;
      StringAt(b, start, szTrav);
      RoundStep(ctx, s, szPath, o, u, e);
      status, got := CheckCut(buf, szTrav, szEnd, szPath, u);
      if status != Fine { return; }
      CStrDrop(b, szTrav, e + 1);
      szTrav := SkipWhiteSpace(buf, szEnd + 1);
      StringAt(b, start, szTrav);
      t := CStr(b, szTrav);
    }

    /** The inner loop on a list whose closing parenthesis a terminator replaces meanwhile. */
    method CheckCut(buf: array<char>, szTrav: nat, szEnd: nat, szPath: Option<Path>, ghost u: string)
      returns (status: Status, ghost got: seq<int>)
      requires Ends(buf[..], szTrav) && u == CStr(buf[..], szTrav)
      requires IndexOf(u, ')') < |u| && szEnd == szTrav + IndexOf(u, ')')
      modifies `m_lockIds, buf
      ensures buf[..] == old(buf[..]) && m_lockIds == old(m_lockIds) + got
      ensures EvalConds(ctx, szPath, u[..szEnd - szTrav]) == Verdict(status, got)
    {
      ghost var b := buf[..];
      IndexFound(u, ')');
      hide EvalConds, CStr, Ends, IndexOf;
      CStrCut(b, szTrav, szEnd - szTrav);
      CStrDrop(b, szTrav, szEnd - szTrav);
      buf[szEnd] := NUL;
      assert buf[..] == b[szEnd := NUL];
      status, got := CheckList(buf, szTrav, szEnd, szPath, u[..szEnd - szTrav]);
      buf[szEnd] := ')';
      assert b[szEnd := NUL][szEnd := ')'] == b;
      assert buf[..] == b;
    }

    /** CheckLockHeader: no header is fine; else the verdict on its text, a failure setting the
        response status. */
    method CheckLockHeader(szHeader: Option<HeaderText>) returns (fRet: bool)
      modifies this
      ensures szHeader.None? ==> fRet && m_lockIds == old(m_lockIds) && m_rs == old(m_rs)
      ensures szHeader.Some? ==>
                var v := EvalGroups(ctx, szHeader.value);
                && fRet == (v.status == Fine)
                && m_lockIds == old(m_lockIds) + v.ids
                && m_rs == if fRet then old(m_rs) else v.status
    {
      hide EvalGroups, CStr, Ends;
      if szHeader.None? { return true; }
      ghost var s: string := szHeader.value;
      var buf := MySzDupA(szHeader.value);
      ghost var b, t, ids: seq<int> := buf[..], s, [];
      var szTrav := 0;
      CStrDrop(b, 0, 0);
      while buf[szTrav] != NUL
        invariant szTrav < |b| && buf[..] == b && m_lockIds == old(m_lockIds) + ids && m_rs == old(m_rs)
        invariant Ends(b, szTrav) && t == CStr(b, szTrav) && (b[szTrav] == NUL <==> t == "")
        invariant var w := EvalGroups(ctx, t); EvalGroups(ctx, s) == Verdict(w.status, ids + w.ids)
        decreases |b| - szTrav
      {
        var status;
        ghost var got;
        status, szTrav, t, got := CheckGroup(buf, szTrav, t);
        ids := ids + got;
        if status != Fine {
          m_rs := status;
          return false;
        }
        CStrDrop(b, szTrav, 0);
      }
      NoGroupsLeft(ctx);
      fRet := true;
    }
  }

  /** A terminated copy. */
  method MySzDupA(s: HeaderText) returns (buf: array<char>)
    ensures fresh(buf) && buf.Length == |s| + 1 && Ends(buf[..], 0) && CStr(buf[..], 0) == s
  {
    buf := new char[|s| + 1](i => At(s, i));
    CStrIs(buf[..], 0, |s|);
    assert buf[..][0..|s|] == s;
  }

  /** Two pointers into one string that share its end. */
  lemma StringAt(b: seq<char>, i: nat, j: nat)
    requires Ends(b, i) && Ends(b, j) && i <= j <= i + |CStr(b, i)|
    ensures j + |CStr(b, j)| == i + |CStr(b, i)| && j < |b|
  {
    CStrDrop(b, i, j - i);
  }

  lemma NotLonger(s: string)
    ensures StartsWith(s, "not") ==> |s| >= 3
  {
  }

  lemma MiddleOf(s: string, p: nat, e: nat)
    requires p <= e <= |s|
    ensures s[p..][..e - p] == s[p..e]
  {
  }

  // ------------------------------------------------- the ways a header can fail

  lemma NothingLeft(ctx: Context, path: Option<Path>)
    ensures EvalConds(ctx, path, "") == Verdict(Fine, [])
  {
  }

  lemma NoBracket(ctx: Context, path: Option<Path>, s: string, negated: bool, r: string)
    requires s != "" && StartsWith(s, "not") == negated && (if negated then SkipWhite(s[3..]) else s) == r
    requires r == "" || (r[0] != '<' && r[0] != '[')
    ensures EvalConds(ctx, path, s) == Verdict(Malformed, [])
  {
    hide StartsWith, SkipWhite;
  }

  lemma NoClosing(ctx: Context, path: Option<Path>, s: string, negated: bool, r: string)
    requires s != "" && StartsWith(s, "not") == negated && (if negated then SkipWhite(s[3..]) else s) == r
    requires r != "" && (r[0] == '<' || r[0] == '[') && IndexOf(r, Closer(r[0])) >= |r|
    ensures EvalConds(ctx, path, s) == Verdict(Malformed, [])
  {
    IndexFound(r, Closer(r[0]));
    hide StartsWith, SkipWhite, IndexOf;
  }

  lemma NoTag(ctx: Context, url: string)
    requires var p := HostEnd(url); p.None? || (p.value <= |url| && IndexOf(url[p.value..], '>') >= |url| - p.value)
    ensures ReadTag(ctx, url) == Unreadable
  {
    hide HostEnd;
  }

  lemma NoGroupsLeft(ctx: Context)
    ensures EvalGroups(ctx, "") == Verdict(Fine, [])
  {
  }

  lemma NoList(ctx: Context, s: string)
    requires s != ""
    requires var o := Open(ctx, s); o.Unreadable? || o.rest == "" || o.rest[0] != '('
    ensures EvalGroups(ctx, s) == Verdict(Malformed, [])
  {
    hide Open;
  }

  lemma NoListEnd(ctx: Context, s: string, path: Option<Path>, o: string, b: string)
    requires s != "" && Open(ctx, s) == Opening(path, o) && o != "" && o[0] == '(' && b == SkipWhite(o[1..])
    requires IndexOf(b, ')') >= |b|
    ensures EvalGroups(ctx, s) == Verdict(Malformed, [])
  {
    IndexFound(b, ')');
    hide Open, SkipWhite, IndexOf;
  }
}
