/** The HTTP receive buffer: one allocation holds a request, the tokenizer patches it in place,
    and the start of a further request found behind a body is carried over
    (PRIVATE/SERVERS/HTTP/PARSER/buffio.h and buffio.cpp, the paths of a plain socket). */
module HttpBuffer {
  import opened Text

  const MINBUFSIZE := 1024
  const MAX_WHITESPACE_READ := 8

  datatype HrInput = INPUT_OK | INPUT_TIMEOUT | INPUT_ERROR | INPUT_NOCHANGE

  /** What one round of a receive loop meets: select times out or fails, the amount waiting
      cannot be asked for, or `bytes` are to be had, `available` of them announced, with or
      without memory for them. No bytes stand for the end of the stream. */
  datatype NetEvent =
    | Timeout
    | SelectFails
    | QueryFails
    | Arrived(available: nat, bytes: string, memory: bool)
    | RecvFails(reset: bool)

  /** What recv takes when asked for at most `n` bytes. */
  function Taken(bytes: string, n: nat): (r: string)
    ensures |r| <= n
  {
    if |bytes| <= n then bytes else bytes[..n]
  }

  /** TrimWhiteSpace's effect on what has been received: white space in front goes, unless there
      is nothing else or too much of it. */
  function Trimmed(s: string): (r: string)
    ensures |r| <= |s|
  {
    if Started(s) then s[WhiteLen(s)..] else s
  }

  /** Something other than white space has come, after not too much of it. */
  predicate Started(s: string) {
    WhiteLen(s) < |s| && WhiteLen(s) < MAX_WHITESPACE_READ
  }

  /** An empty line ends at position `i + 4`. */
  predicate EndAt(s: string, i: nat) {
    i + 4 <= |s| && s[i] == CR && s[i + 1] == LF && s[i + 2] == CR && s[i + 3] == LF
  }

  /** The headers are complete: something other than white space is there, not too much of it
      comes first, and an empty line follows. */
  ghost predicate HeadersDone(s: string) {
    Started(s) && exists i :: EndAt(Trimmed(s), i)
  }

  // ------------------------------------------------------------------- tokens

  /** Where the next token starts: past blanks. */
  function TokenStart(b: string, p: nat): (i: nat)
    requires p <= |b|
    ensures p <= i <= |b| && (i < |b| ==> !IsBlank(b[i])) && forall k :: p <= k < i ==> IsBlank(b[k])
    decreases |b| - p
  {
    if p < |b| && IsBlank(b[p]) then TokenStart(b, p + 1) else p
  }

  /** A line end stops every token; a blank does if `fWS`, the end of a header name if `fColon`. */
  predicate Stops(b: string, j: nat, fWS: bool, fColon: bool)
    requires j < |b|
  {
    IsReturn(b[j]) || (fWS && IsBlank(b[j])) || (fColon && j > 0 && b[j - 1] == ':')
  }

  function TokenEnd(b: string, i: nat, fWS: bool, fColon: bool): (j: nat)
    requires i <= |b|
    ensures i <= j <= |b| && (j < |b| ==> Stops(b, j, fWS, fColon)) && forall k :: i <= k < j ==> !Stops(b, k, fWS, fColon)
    decreases |b| - i
  {
    if i < |b| && !Stops(b, i, fWS, fColon) then TokenEnd(b, i + 1, fWS, fColon) else i
  }

  lemma TokenStartIs(b: string, p: nat, i: nat)
    requires p <= i <= |b| && (i < |b| ==> !IsBlank(b[i])) && forall k :: p <= k < i ==> IsBlank(b[k])
    ensures TokenStart(b, p) == i
  {
  }

  lemma TokenEndIs(b: string, i: nat, fWS: bool, fColon: bool, j: nat)
    requires i <= j <= |b| && (j < |b| ==> Stops(b, j, fWS, fColon)) && forall k :: i <= k < j ==> !Stops(b, k, fWS, fColon)
    ensures TokenEnd(b, i, fWS, fColon) == j
  {
  }

  /** Behind the first CRLF at or after `p`. */
  function NextLineStart(b: string, p: nat): (q: Option<nat>)
    ensures q.Some? ==> p + 2 <= q.value <= |b| && b[q.value - 2] == CR && b[q.value - 1] == LF
    ensures q.Some? ==> forall k :: p <= k < q.value - 2 ==> !(b[k] == CR && b[k + 1] == LF)
    decreases |b| - p
  {
    if p + 1 >= |b| then None
    else if b[p] == CR && b[p + 1] == LF then Some(p + 2)
    else NextLineStart(b, p + 1)
  }

  lemma LineStep(b: string, i: nat)
    requires i + 1 < |b|
    ensures NextLineStart(b, i) == if b[i] == CR && b[i + 1] == LF then Some(i + 2) else NextLineStart(b, i + 1)
  {
  }

  lemma NoLine(b: string, i: nat)
    requires |b| <= i + 1
    ensures NextLineStart(b, i) == None
  {
  }

  class CBuffer {
    var m_pszBuf: array?<char>
    var m_iSize: nat
    var m_iNextOut: nat
    var m_iNextIn: nat
    var m_iNextInFollow: nat
    var m_chSaved: char
    var m_iNextRequestBegin: nat
    var m_iNextRequestSize: nat
    var m_chNextRequestSaved: char

    constructor ()
      ensures Valid() && Bytes() == "" && Carry() == "" && Ready() && m_pszBuf == null
    {
      m_pszBuf := null;
      m_iSize, m_iNextOut, m_iNextIn, m_iNextInFollow := 0, 0, 0, 0;
      m_chSaved, m_chNextRequestSaved := NUL, NUL;
      m_iNextRequestBegin, m_iNextRequestSize := 0, 0;
    }

    /** BufferConsistencyChecks, with room for a terminator, the saved byte and the saved request. */
    ghost predicate Valid()
      reads this, m_pszBuf
    {
      && m_iSize == (if m_pszBuf == null then 0 else m_pszBuf.Length)
      && (if m_pszBuf == null then m_iNextIn == 0 else m_iNextIn < m_iSize)
      && m_iNextOut <= m_iNextIn && m_iNextInFollow <= m_iNextIn
      && (m_chSaved != NUL ==> m_pszBuf != null && m_pszBuf[m_iNextOut] == NUL)
      && (m_iNextRequestBegin != 0 ==>
            m_pszBuf != null && m_iNextRequestSize > 0 && m_iNextRequestBegin + m_iNextRequestSize <= m_iSize)
    }

    /** All cursors at the start, as Reset leaves them. */
    ghost predicate Ready()
      reads this
    {
      m_iNextOut == 0 && m_iNextInFollow == 0 && m_chSaved == NUL
    }

    ghost function Raw(): string
      reads this, m_pszBuf
    {
      if m_pszBuf == null then "" else m_pszBuf[..]
    }

    /** The bytes received, with the one under the tokenizer's terminator put back. */
    ghost function Bytes(): string
      requires Valid()
      reads this, m_pszBuf
    {
      (if m_chSaved == NUL then Raw() else Raw()[m_iNextOut := m_chSaved])[..m_iNextIn]
    }

    /** The bytes of a further request that wait behind the current one. */
    ghost function Carry(): string
      requires Valid()
      reads this, m_pszBuf
    {
      if m_iNextRequestBegin == 0 then ""
      else [m_chNextRequestSaved] + Raw()[m_iNextRequestBegin + 1..m_iNextRequestBegin + m_iNextRequestSize]
    }

    method Reset()
      requires Valid()
      modifies `m_iNextInFollow, `m_iNextOut, `m_iNextIn, `m_chSaved
      ensures Valid() && Ready() && Bytes() == "" && Carry() == old(Carry())
    {
      ghost var raw := Raw();
      m_iNextInFollow, m_iNextOut, m_iNextIn, m_chSaved := 0, 0, 0, NUL;
      assert Raw() == raw;
      assert Bytes() == raw[..0];
    }

    method InvalidateNextRequestIfAlreadyRead()
      requires Valid()
      modifies `m_iNextRequestBegin
      ensures Valid() && Carry() == "" && Bytes() == old(Bytes())
    {
      m_iNextRequestBegin := 0;
    }

    /** AllocMem: room for `dwLen` more bytes behind those received. */
    method AllocMem(dwLen: nat, fMemory: bool) returns (ok: bool)
      requires Valid()
      modifies this
      ensures Valid() && Bytes() == old(Bytes()) && Carry() == old(Carry())
      ensures m_iNextIn == old(m_iNextIn) && m_iNextRequestBegin == old(m_iNextRequestBegin)
      ensures m_iNextRequestSize == old(m_iNextRequestSize) && m_chNextRequestSaved == old(m_chNextRequestSaved)
      ensures ok ==> m_pszBuf != null && m_iNextIn + dwLen <= m_iSize
      ensures m_iNextOut == old(m_iNextOut) && m_iNextInFollow == old(m_iNextInFollow) && m_chSaved == old(m_chSaved)
      ensures old(Raw()) <= Raw() && (m_pszBuf == old(m_pszBuf) || fresh(m_pszBuf))
    {
      var dwAlloc := if dwLen > MINBUFSIZE then dwLen else MINBUFSIZE;
      if m_pszBuf == null {
        if !fMemory {
          m_iNextInFollow, m_iSize, m_iNextOut, m_iNextIn, m_chSaved := 0, 0, 0, 0, NUL;
          return false;
        }
        m_pszBuf := new char[dwAlloc](_ => NUL);
        m_iSize := dwAlloc;
      } else if m_iSize - m_iNextIn <= dwLen {
        if !fMemory { return false; }
        Grow(dwAlloc);
      }
      ok := true;
    }

    /** MyRgReAlloc: `more` further bytes. */
    method Grow(more: nat)
      requires Valid() && m_pszBuf != null
      modifies `m_pszBuf, `m_iSize
      ensures Valid() && m_pszBuf != null && fresh(m_pszBuf) && m_iSize == old(m_iSize) + more
      ensures Bytes() == old(Bytes()) && Carry() == old(Carry()) && old(Raw()) <= Raw()
    {
      ghost var was := m_pszBuf[..];
      var pszTemp := Copy(m_pszBuf, more);
      m_pszBuf := pszTemp;
      m_iSize := m_iSize + more;
      ghost var now := m_pszBuf[..];
      assert was == now[..|was|];
      LongerAgrees(was, now, m_iNextIn);
      LongerAgreesAt(was, now, m_iNextIn, m_iNextOut, m_chSaved);
      if m_iNextRequestBegin != 0 {
        LongerAgreesWithin(was, now, m_iNextRequestBegin + 1, m_iNextRequestBegin + m_iNextRequestSize);
      }
      assert Raw() == now;
    }

    // ------------------------------------------------------------- receiving

    /** The bytes at `i..i + n` moved to the front, one by one. */
    method MoveDown(from: nat, i: nat, n: nat)
      requires m_pszBuf != null && from <= n && 0 < i && i + n <= m_pszBuf.Length
      modifies m_pszBuf
      ensures m_pszBuf[..n] == old(m_pszBuf[..from]) + old(m_pszBuf[i + from..i + n])
    {
      ghost var was := m_pszBuf[..];
      var j := from;
      while j < n
        invariant from <= j <= n
        invariant forall k :: from <= k < j ==> m_pszBuf[k] == was[k + i]
        invariant forall k :: 0 <= k < from || j <= k < m_pszBuf.Length ==> m_pszBuf[k] == was[k]
      {
        m_pszBuf[j] := m_pszBuf[j + i];
        j := j + 1;
      }
    }

    /** TrimWhiteSpace */
    method TrimWhiteSpace() returns (ok: bool, fAbort: bool)
      requires Valid() && Ready() && m_pszBuf != null
      modifies `m_iNextIn, m_pszBuf
      ensures Valid() && (m_iNextRequestBegin == 0 ==> Carry() == "")
      ensures Bytes() == Trimmed(old(Bytes()))
      ensures var w := WhiteLen(old(Bytes()));
              fAbort == (w >= MAX_WHITESPACE_READ) && ok == (!fAbort && (w == 0 || w < |old(Bytes())|))
    {
      ghost var s := Bytes();
      var i := 0;
      while IsSpace(m_pszBuf[i]) && i < m_iNextIn && i < MAX_WHITESPACE_READ
        invariant 0 <= i <= m_iNextIn && i <= MAX_WHITESPACE_READ
        invariant forall k :: 0 <= k < i ==> IsSpace(s[k])
      {
        i := i + 1;
      }
      WhiteFrom(s, i);
      fAbort := i == MAX_WHITESPACE_READ;
      if fAbort { return false, true; }
      if i == 0 { return true, false; }
      if i == m_iNextIn { return false, false; }
      MoveDown(0, i, m_iNextIn - i);
      m_iNextIn := m_iNextIn - i;
      ok := true;
    }

    /** The start of a further request, moved to the front of the buffer. */
    method RestoreCarry()
      requires Valid() && Ready() && m_iNextRequestBegin != 0
      modifies this, m_pszBuf
      ensures Valid() && Ready() && m_pszBuf == old(m_pszBuf) && m_iNextRequestBegin == 0
      ensures Bytes() == old(Carry())
    {
      ghost var carried := m_pszBuf[m_iNextRequestBegin + 1..m_iNextRequestBegin + m_iNextRequestSize];
      m_pszBuf[0] := m_chNextRequestSaved;
      assert m_pszBuf[m_iNextRequestBegin + 1..m_iNextRequestBegin + m_iNextRequestSize] == carried;
      assert m_pszBuf[..1] == [m_chNextRequestSaved];
      MoveDown(1, m_iNextRequestBegin, m_iNextRequestSize);
      assert m_pszBuf[..m_iNextRequestSize] == [m_chNextRequestSaved] + carried;
      m_iNextIn := m_iNextRequestSize;
      m_iNextRequestBegin, m_iNextRequestSize := 0, 0;
      m_chNextRequestSaved := NUL;
    }

    /** The search for an empty line, from `iScan` on. */
    method ScanHeaders(iScan: nat) returns (found: bool, i: nat)
      requires Valid() && m_chSaved == NUL && iScan <= m_iNextIn
      requires forall k :: 0 <= k < iScan ==> !EndAt(Bytes(), k)
      ensures found ==> EndAt(Bytes(), i)
      ensures !found ==> forall k :: 0 <= k ==> !EndAt(Bytes(), k)
      ensures iScan <= i <= m_iNextIn && (i == iScan || i + 3 <= m_iNextIn)
    {
      i := iScan;
      while i + 3 < m_iNextIn
        invariant iScan <= i <= m_iNextIn && (i == iScan || i + 3 <= m_iNextIn)
        invariant forall k :: 0 <= k < i ==> !EndAt(Bytes(), k)
      {
        if m_pszBuf[i] == CR && m_pszBuf[i + 1] == LF && m_pszBuf[i + 2] == CR && m_pszBuf[i + 3] == LF {
          return true, i;
        }
        i := i + 1;
      }
      found := false;
    }

    /** recv: bytes behind those received. */
    method Append(bytes: string)
      requires Valid() && m_chSaved == NUL && (bytes == "" || (m_pszBuf != null && m_iNextIn + |bytes| < m_iSize))
      modifies `m_iNextIn, m_pszBuf
      ensures Valid() && Bytes() == old(Bytes()) + bytes
    {
      if m_pszBuf == null { return; }
      StoreBytes(m_pszBuf, m_iNextIn, bytes);
      m_iNextIn := m_iNextIn + |bytes|;
    }

    /** The end of RecvToBuf: a terminator behind the bytes. */
    method Terminate()
      requires Valid() && m_chSaved == NUL
      modifies m_pszBuf
      ensures Valid() && Bytes() == old(Bytes())
      ensures m_pszBuf != null ==> m_pszBuf[m_iNextIn] == NUL
      ensures m_iNextRequestBegin != 0 && m_iNextRequestBegin == m_iNextIn ==> Carry() == old(Carry())
    {
      if m_pszBuf != null { m_pszBuf[m_iNextIn] := NUL; }
    }

    /** The top of the loop for headers: white space goes and the empty line is looked for. */
    method LookForEnd(ghost all: string, iScan: nat) returns (found: bool, fAbort: bool, i: nat)
      requires Valid() && Ready() && m_iNextRequestBegin == 0 && (iScan > 0 ==> iScan + 3 <= m_iNextIn)
      requires Bytes() == all || Bytes() == Trimmed(all)
      requires iScan > 0 ==> Started(all) && Bytes() == Trimmed(all)
      requires forall k :: 0 <= k < iScan ==> !EndAt(Bytes(), k)
      modifies `m_iNextIn, m_pszBuf
      ensures Valid() && Ready() && Bytes() == Trimmed(all) && (i > 0 ==> i + 3 <= m_iNextIn)
      ensures fAbort == (WhiteLen(all) >= MAX_WHITESPACE_READ)
      ensures found == (!fAbort && HeadersDone(all))
      ensures i > 0 ==> Started(all)
      ensures !found ==> forall k :: 0 <= k < i ==> !EndAt(Bytes(), k)
    {
      var fScan := true;
      fAbort, found, i := false, false, iScan;
      TrimmedIs(all);
      if iScan == 0 && m_iNextIn != 0 {
        fScan, fAbort := TrimWhiteSpace();
        if fAbort { return; }
      }
      hide WhiteLen, Trimmed;
      if fScan {
        found, i := ScanHeaders(iScan);
      }
    }

    /** One round of the network: at most `n` bytes, for which there is room; no result when the
        loop goes on. */
    method Receive(e: NetEvent, n: nat) returns (ret: Option<HrInput>, ghost got: string, ghost eof: bool)
      requires Valid() && m_chSaved == NUL && (n > 0 ==> m_pszBuf != null && m_iNextIn + n < m_iSize)
      modifies `m_iNextIn, m_pszBuf
      ensures Valid() && Bytes() == old(Bytes()) + got && |got| <= n
      ensures ret == None ==> got != ""
      ensures ret != None ==> got == "" && ret.value != INPUT_NOCHANGE
      ensures eof == (ret == Some(INPUT_OK)) && (eof ==> Bytes() != "")
      ensures ret == Some(INPUT_TIMEOUT) && (e.Timeout? || e.Arrived?) ==> Bytes() == ""
    {
      got, eof := "", false;
      match e
      case Timeout => ret := Some(if m_iNextIn != 0 then INPUT_ERROR else INPUT_TIMEOUT);
      case SelectFails => ret := Some(INPUT_ERROR);
      case QueryFails => ret := Some(INPUT_ERROR);
      case RecvFails(reset) => ret := Some(if reset then INPUT_TIMEOUT else INPUT_ERROR);
      case Arrived(_, bytes, _) =>
        var r := Taken(bytes, n);
        if r == "" {
          eof := m_iNextIn != 0;
          ret := Some(if m_iNextIn != 0 then INPUT_OK else INPUT_TIMEOUT);
        } else {
          Append(r);
          got := r;
          ret := None;
        }
    }

    /** How much to ask for next, and room for it and a terminator. */
    method MakeRoom(e: NetEvent, dwMax: nat) returns (ok: bool, n: nat)
      requires Valid() && Ready() && m_iNextIn < dwMax
      modifies this
      ensures Valid() && Ready() && Bytes() == old(Bytes()) && m_iNextRequestBegin == old(m_iNextRequestBegin)
      ensures m_pszBuf == old(m_pszBuf) || fresh(m_pszBuf)
      ensures m_iNextIn == old(m_iNextIn) && m_iNextIn + n <= dwMax
      ensures ok && n > 0 ==> m_pszBuf != null && m_iNextIn + n < m_iSize
    {
      ok, n := true, 0;
      if e.Arrived? {
        n := if e.available + m_iNextIn > dwMax then dwMax - m_iNextIn else e.available;
        ok := AllocMem(n + 1, e.memory);
      }
    }

    /** The loop of RecvToBuf for headers, on a buffer that holds `start`. */
    method ReadHeaders(net: nat -> NetEvent, dwMax: nat, ghost start: string)
      returns (ret: HrInput, ghost got: string, ghost eof: bool)
      requires Valid() && Ready() && m_iNextRequestBegin == 0 && Bytes() == start
      modifies this, m_pszBuf
      ensures Valid() && Ready() && m_iNextRequestBegin == 0 && (m_pszBuf == old(m_pszBuf) || fresh(m_pszBuf))
      ensures Bytes() == Trimmed(start + got)
      ensures ret == INPUT_OK && !eof ==> HeadersDone(start + got)
      ensures eof ==> ret == INPUT_OK && Bytes() != "" && !HeadersDone(start + got)
      ensures ret != INPUT_NOCHANGE
    {
      hide HeadersDone, Trimmed, Started;
      got, eof := "", false;
      assert start + got == start;
      var t: nat, iScan: nat := 0, 0;
      while true
        invariant Valid() && Ready() && m_iNextRequestBegin == 0 && (m_pszBuf == old(m_pszBuf) || fresh(m_pszBuf))
        invariant (iScan > 0 ==> iScan + 3 <= m_iNextIn) && !eof
        invariant Bytes() == start + got || Bytes() == Trimmed(start + got)
        invariant iScan > 0 ==> Started(start + got) && Bytes() == Trimmed(start + got)
        invariant forall k :: 0 <= k < iScan ==> !EndAt(Bytes(), k)
        decreases dwMax + MAX_WHITESPACE_READ - |start + got|
      {
        var found, fAbort;
        found, fAbort, iScan := LookForEnd(start + got, iScan);
        if fAbort { return INPUT_ERROR, got, eof; }
        if found { return INPUT_OK, got, eof; }
        if dwMax <= m_iNextIn { return INPUT_ERROR, got, eof; }
        var ok, n := MakeRoom(net(t), dwMax);
        if !ok { return INPUT_ERROR, got, eof; }
        ghost var was := Bytes();
        var r;
        ghost var more;
        r, more, eof := Receive(net(t), n);
        if r.Some? { return r.value, got, eof; }
        t := t + 1;
        TrimmedAppend(start + got, more);
        EndsBefore(was, more);
        Assoc(start, got, more);
        got := got + more;
      }
    }

    /** RecvHeaders: RecvToBuf for the headers of a request. */
    method RecvHeaders(net: nat -> NetEvent, dwMax: nat) returns (ret: HrInput, ghost got: string, ghost eof: bool)
      requires Valid() && Ready()
      modifies this, m_pszBuf
      ensures Valid() && Ready() && Carry() == "" && (m_pszBuf == old(m_pszBuf) || fresh(m_pszBuf))
      ensures Bytes() == Trimmed((if old(m_iNextRequestBegin) == 0 then old(Bytes()) else old(Carry())) + got)
      ensures ret == INPUT_OK && !eof ==>
                HeadersDone((if old(m_iNextRequestBegin) == 0 then old(Bytes()) else old(Carry())) + got)
      ensures eof ==> ret == INPUT_OK && Bytes() != ""
      ensures m_pszBuf != null ==> m_pszBuf[m_iNextIn] == NUL
    {
      if m_iNextRequestBegin != 0 { RestoreCarry(); }
      ret, got, eof := ReadHeaders(net, dwMax, Bytes());
      Terminate();
    }

    /** A body that has come with the headers: the buffer is cut behind it, and what follows is
        set aside when it is more than a line end. */
    method CutBody(dwLength: nat, fFirstPostRead: bool)
      requires Valid() && m_chSaved == NUL && m_pszBuf != null && m_iNextIn - m_iNextOut >= dwLength
      modifies `m_iNextRequestBegin, `m_iNextRequestSize, `m_chNextRequestSaved, `m_iNextIn, `m_iNextInFollow, m_pszBuf
      ensures Valid() && m_iNextIn == m_iNextOut + dwLength == m_iNextInFollow
      ensures Bytes() == old(Bytes())[..m_iNextOut + dwLength] && m_pszBuf[m_iNextIn] == NUL
      ensures fFirstPostRead && old(m_iNextIn) - m_iNextOut > dwLength + 2 && m_iNextOut + dwLength > 0 ==>
                m_iNextRequestBegin == m_iNextIn && Carry() == old(Bytes())[m_iNextOut + dwLength..]
      ensures !(fFirstPostRead && old(m_iNextIn) - m_iNextOut > dwLength + 2) ==>
                m_iNextRequestBegin == old(m_iNextRequestBegin)
    {
      if fFirstPostRead && m_iNextIn - m_iNextOut > dwLength + 2 {
        SetAside(dwLength);
      } else {
        m_iNextIn := m_iNextOut + dwLength;
        m_iNextInFollow := m_iNextIn;
      }
      Terminate();
    }

    /** The bytes behind the body become a further request. */
    method SetAside(dwLength: nat)
      requires Valid() && m_chSaved == NUL && m_pszBuf != null && m_iNextIn - m_iNextOut > dwLength
      modifies `m_iNextRequestBegin, `m_iNextRequestSize, `m_chNextRequestSaved, `m_iNextIn, `m_iNextInFollow
      ensures Valid() && m_iNextRequestBegin == m_iNextIn == m_iNextOut + dwLength == m_iNextInFollow
      ensures Bytes() == old(Bytes())[..m_iNextOut + dwLength]
      ensures m_iNextOut + dwLength > 0 ==> Carry() == old(Bytes())[m_iNextOut + dwLength..]
    {
      ghost var was, last := m_pszBuf[..], m_iNextIn;
      m_iNextRequestBegin := m_iNextOut + dwLength;
      m_iNextRequestSize := m_iNextIn - m_iNextRequestBegin;
      m_iNextIn := m_iNextRequestBegin;
      m_iNextInFollow := m_iNextIn;
      m_chNextRequestSaved := m_pszBuf[m_iNextIn];
      SplitOff(was, m_iNextIn, last);
    }

    /** RecvBody: RecvToBuf for `dwLength` bytes of a body; unless a filter asks, what has come
        with the headers counts. */
    method RecvBody(net: nat -> NetEvent, memory: bool, dwLength: nat, fFromFilter: bool, fFirstPostRead: bool)
      returns (ret: HrInput, ghost got: string, ghost eof: bool)
      requires Valid() && m_chSaved == NUL && m_pszBuf != null
      modifies this, m_pszBuf
      ensures Valid() && m_chSaved == NUL && m_iNextOut == old(m_iNextOut)
      ensures m_pszBuf != null && m_pszBuf[m_iNextIn] == NUL && (m_pszBuf == old(m_pszBuf) || fresh(m_pszBuf))
      ensures !fFromFilter && old(m_iNextIn - m_iNextOut) >= dwLength ==>
                && ret == INPUT_NOCHANGE && got == "" && !eof
                && Bytes() == old(Bytes())[..m_iNextOut + dwLength]
                && (fFirstPostRead && old(m_iNextIn) - m_iNextOut > dwLength + 2 && m_iNextOut + dwLength > 0 ==>
                      m_iNextRequestBegin != 0 && Carry() == old(Bytes())[m_iNextOut + dwLength..])
                && (!(fFirstPostRead && old(m_iNextIn) - m_iNextOut > dwLength + 2) ==>
                      m_iNextRequestBegin == old(m_iNextRequestBegin))
      ensures fFromFilter || old(m_iNextIn - m_iNextOut) < dwLength ==>
                && Bytes() == old(Bytes()) + got && m_iNextInFollow == old(m_iNextIn)
                && ret != INPUT_NOCHANGE
                && var need := if fFromFilter then dwLength else dwLength - old(m_iNextIn - m_iNextOut);
                   |got| <= need && (ret == INPUT_OK && !eof ==> |got| == need) && (eof ==> ret == INPUT_OK)
    {
      got, eof := "", false;
      var dwRest := dwLength;
      if !fFromFilter {
        if m_iNextIn - m_iNextOut >= dwLength {
          CutBody(dwLength, fFirstPostRead);
          return INPUT_NOCHANGE, "", false;
        }
        dwRest := dwLength - (m_iNextIn - m_iNextOut);
      }
      m_iNextInFollow := m_iNextIn;
      var ok := AllocMem(dwRest + 1, memory);
      if ok {
        ret, got, eof := ReadBody(net, dwRest);
      } else {
        ret := INPUT_ERROR;
      }
      Terminate();
    }

    /** The loop of RecvToBuf for a body, for which there is room. */
    method ReadBody(net: nat -> NetEvent, dwLength: nat) returns (ret: HrInput, ghost got: string, ghost eof: bool)
      requires Valid() && m_chSaved == NUL && m_pszBuf != null && m_iNextIn + dwLength < m_iSize
      modifies `m_iNextIn, m_pszBuf
      ensures Valid() && Bytes() == old(Bytes()) + got && |got| <= dwLength && ret != INPUT_NOCHANGE
      ensures (ret == INPUT_OK && !eof ==> |got| == dwLength) && (eof ==> ret == INPUT_OK)
    {
      got, eof := "", false;
      var dwRemaining: nat, t: nat := dwLength, 0;
      while dwRemaining != 0
        invariant Valid() && m_iNextIn + dwRemaining < m_iSize && !eof && t >= 0
        invariant Bytes() == old(Bytes()) + got && |got| + dwRemaining == dwLength
      {
        var e := net(t);
        var n := if e.Arrived? && e.available < dwRemaining then e.available else dwRemaining;
        var before := m_iNextIn;
        var r;
        ghost var more;
        r, more, eof := Receive(e, n);
        if r.Some? { return r.value, got, eof; }
        Assoc(old(Bytes()), got, more);
        got := got + more;
        t := t + 1;
        dwRemaining := dwRemaining - (m_iNextIn - before);
      }
      ret := INPUT_OK;
    }

    // ------------------------------------------------------------ tokenizing

    /** Puts the byte under the last token's terminator back. */
    method RestoreSaved()
      requires Valid()
      modifies `m_chSaved, m_pszBuf
      ensures Valid() && m_chSaved == NUL && Bytes() == old(Bytes())
    {
      if m_chSaved != NUL {
        m_pszBuf[m_iNextOut] := m_chSaved;
        m_chSaved := NUL;
      }
    }

    /** NextToken: the next token of the line, terminated in place; the bytes received are the
        same once the terminator is undone. */
    method NextToken(fWS: bool, fColon: bool) returns (ok: bool, pszTok: nat, iLen: nat)
      requires Valid()
      modifies `m_iNextOut, `m_chSaved, m_pszBuf
      ensures Valid() && Bytes() == old(Bytes())
      ensures pszTok == TokenStart(Bytes(), old(m_iNextOut))
      ensures m_iNextOut == TokenEnd(Bytes(), pszTok, fWS, fColon) == pszTok + iLen
      ensures ok == (iLen > 0) && (!ok ==> m_chSaved == NUL)
      ensures ok ==> m_pszBuf != null && Raw()[pszTok..m_iNextOut] == Bytes()[pszTok..m_iNextOut] && Raw()[m_iNextOut] == NUL
    {
      RestoreSaved();
      var j;
      pszTok, j := FindToken(fWS, fColon);
      m_iNextOut := j;
      iLen := j - pszTok;
      ok := pszTok != j;
      if ok { Patch(); }
    }

    /** The two scans of NextToken. */
    method FindToken(fWS: bool, fColon: bool) returns (i: nat, j: nat)
      requires Valid() && m_chSaved == NUL
      ensures i == TokenStart(Bytes(), m_iNextOut) && j == TokenEnd(Bytes(), i, fWS, fColon)
    {
      hide TokenStart, TokenEnd;
      ghost var b := Bytes();
      i := m_iNextOut;
      while i < m_iNextIn
        invariant m_iNextOut <= i <= m_iNextIn && forall k :: m_iNextOut <= k < i ==> IsBlank(b[k])
      {
        if !IsBlank(m_pszBuf[i]) { break; }
        i := i + 1;
      }
      TokenStartIs(b, m_iNextOut, i);
      j := i;
      while j < m_iNextIn
        invariant i <= j <= m_iNextIn && forall k :: i <= k < j ==> !Stops(b, k, fWS, fColon)
      {
        if m_pszBuf[j] == CR || m_pszBuf[j] == LF { break; }
        if fWS && IsBlank(m_pszBuf[j]) { break; }
        if fColon && j > 0 && m_pszBuf[j - 1] == ':' { break; }
        j := j + 1;
      }
      TokenEndIs(b, i, fWS, fColon, j);
    }

    /** A terminator at the cursor, over a byte that is saved. */
    method Patch()
      requires Valid() && m_chSaved == NUL && m_pszBuf != null
      modifies `m_chSaved, m_pszBuf
      ensures Valid() && Bytes() == old(Bytes()) && Raw()[m_iNextOut] == NUL
      ensures Raw()[..m_iNextOut] == Bytes()[..m_iNextOut]
    {
      m_chSaved := m_pszBuf[m_iNextOut];
      m_pszBuf[m_iNextOut] := NUL;
    }

    /** NextLine: past the next CRLF, if there is one. */
    method NextLine() returns (ok: bool)
      requires Valid()
      modifies `m_iNextOut, `m_chSaved, m_pszBuf
      ensures Valid() && Bytes() == old(Bytes()) && m_chSaved == NUL
      ensures var q := NextLineStart(Bytes(), old(m_iNextOut));
              ok == q.Some? && m_iNextOut == if ok then q.value else old(m_iNextOut)
    {
      RestoreSaved();
      var q := FindLine();
      ok := q.Some?;
      if ok { m_iNextOut := q.value; }
    }

    /** The scan of NextLine. */
    method FindLine() returns (q: Option<nat>)
      requires Valid() && m_chSaved == NUL
      ensures q == NextLineStart(Bytes(), m_iNextOut)
    {
      hide NextLineStart;
      ghost var b := Bytes();
      var i, j := m_iNextOut, m_iNextOut + 1;
      while j < m_iNextIn
        invariant m_iNextOut <= i && j == i + 1 && NextLineStart(b, m_iNextOut) == NextLineStart(b, i)
      {
        LineStep(b, i);
        if m_pszBuf[i] == CR && m_pszBuf[j] == LF { return Some(j + 1); }
        i, j := i + 1, j + 1;
      }
      NoLine(b, i);
      q := None;
    }

    /** AppendData: the same bytes with `pszData` behind them, if there is memory. */
    method AppendData(pszData: string, memory: bool) returns (ok: bool)
      requires Valid() && m_chSaved == NUL
      modifies this, m_pszBuf
      ensures Valid() && Bytes() == old(Bytes()) + if ok then pszData else ""
    {
      ok := AllocMem(|pszData| + 1, memory);
      if ok { Append(pszData); }
    }
  }

  /** A keep-alive session at the end of a request whose body came with its headers: the read of
      the body, Reset, and the read of the next headers. When more than a line end followed the
      body, exactly those bytes stand at the front of the next request, ahead of what the network
      brings; nothing is lost or doubled but white space in front. */
  method KeepAlive(buf: CBuffer, bodyNet: nat -> NetEvent, net: nat -> NetEvent, memory: bool, dwLength: nat, dwMax: nat)
    returns (ret: HrInput, ghost got: string, ghost eof: bool)
    requires buf.Valid() && buf.m_chSaved == NUL && buf.m_pszBuf != null && buf.m_iNextOut + dwLength > 0
    requires buf.m_iNextIn - buf.m_iNextOut > dwLength + 2
    modifies buf, buf.m_pszBuf
    ensures buf.Valid() && buf.Bytes() == Trimmed(old(buf.Bytes()[buf.m_iNextOut + dwLength..]) + got)
    ensures ret == INPUT_OK && !eof ==> HeadersDone(old(buf.Bytes()[buf.m_iNextOut + dwLength..]) + got)
  {
    hide Trimmed, HeadersDone;
    ghost var rest := buf.Bytes()[buf.m_iNextOut + dwLength..];
    var first, _, _ := buf.RecvBody(bodyNet, memory, dwLength, false, true);
    assert buf.Carry() == rest && buf.m_iNextRequestBegin != 0;
    buf.Reset();
    ret, got, eof := buf.RecvHeaders(net, dwMax);
  }

  lemma TrimmedAppend(a: string, b: string)
    requires WhiteLen(a) < MAX_WHITESPACE_READ
    ensures Started(a) ==> Started(a + b) && Trimmed(a + b) == Trimmed(a) + b
    ensures !Started(a) ==> Trimmed(a) == a
    ensures |a| <= |Trimmed(a)| + MAX_WHITESPACE_READ - 1
  {
    if Started(a) {
      WhiteAppend(a, b);
      DropAppend(a, b, WhiteLen(a));
    }
    hide WhiteLen;
  }

  lemma WhiteAppend(a: string, b: string)
    requires WhiteLen(a) < |a|
    ensures WhiteLen(a + b) == WhiteLen(a)
  {
    WhiteLenMeaning(a);
    hide WhiteLen;
    assert forall k :: 0 <= k < |a| ==> (a + b)[k] == a[k];
    WhiteLenIs(a + b, WhiteLen(a));
  }

  lemma DropAppend(a: string, b: string, w: nat)
    requires w <= |a|
    ensures (a + b)[w..] == a[w..] + b
  {
  }

  /** More bytes end no line that was not ended before, except at the last three positions. */
  lemma EndsBefore(a: string, b: string)
    ensures forall k :: 0 <= k && k + 4 <= |a| ==> (EndAt(a + b, k) <==> EndAt(a, k))
  {
  }

  lemma LongerAgrees(a: string, b: string, n: nat)
    requires n <= |a| <= |b| && a == b[..|a|]
    ensures a <= b && a[..n] == b[..n]
  {
  }

  lemma LongerAgreesAt(a: string, b: string, n: nat, at: nat, c: char)
    requires n <= |a| <= |b| && at < |a| && a == b[..|a|]
    ensures a[at := c][..n] == b[at := c][..n]
  {
    var x, y := a[at := c], b[at := c];
    assert forall k :: 0 <= k < n ==> x[k] == y[k];
  }

  lemma LongerAgreesWithin(a: string, b: string, i: nat, n: nat)
    requires i <= n <= |a| <= |b| && a == b[..|a|]
    ensures a[i..n] == b[i..n]
  {
  }

  lemma SplitOff(s: string, i: nat, n: nat)
    requires i < n <= |s|
    ensures [s[i]] + s[i + 1..n] == s[..n][i..] && s[..n][..i] == s[..i]
  {
  }

  method StoreBytes(buf: array<char>, at: nat, bytes: string)
    requires at + |bytes| <= buf.Length
    modifies buf
    ensures buf[..at + |bytes|] == old(buf[..at]) + bytes
  {
    var i := 0;
    while i < |bytes|
      invariant 0 <= i <= |bytes| && buf[..at + i] == old(buf[..at]) + bytes[..i]
    {
      buf[at + i] := bytes[i];
      i := i + 1;
    }
    assert bytes[..i] == bytes;
  }

  method Copy(buf: array<char>, more: nat) returns (r: array<char>)
    ensures fresh(r) && r.Length == buf.Length + more && r[..buf.Length] == buf[..]
  {
    r := new char[buf.Length + more](_ => NUL);
    forall i | 0 <= i < buf.Length { r[i] := buf[i]; }
  }

  lemma TrimmedIs(s: string)
    ensures if Started(s) then WhiteLen(Trimmed(s)) == 0 && Trimmed(s) != "" else Trimmed(s) == s
    ensures Trimmed(Trimmed(s)) == Trimmed(s)
  {
    WhiteLenMeaning(s);
    if Started(s) {
      WhiteLenIs(Trimmed(s), 0);
    }
  }

  lemma WhiteFrom(s: string, i: nat)
    requires i <= |s| && i <= MAX_WHITESPACE_READ && (forall k :: 0 <= k < i ==> IsSpace(s[k]))
    requires i < |s| && i < MAX_WHITESPACE_READ ==> !IsSpace(s[i])
    ensures i < MAX_WHITESPACE_READ ==> WhiteLen(s) == i
    ensures i == MAX_WHITESPACE_READ ==> WhiteLen(s) >= MAX_WHITESPACE_READ
  {
    WhiteLenMeaning(s);
  }
}
