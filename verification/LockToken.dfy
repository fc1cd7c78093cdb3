/** Lock tokens: printing and parsing (PRIVATE/SERVERS/HTTP/WEBDAV/davlock.cpp:285-337). */
module LockToken {
  import opened Text

  const OPAQUE_PREFIX := "opaquelocktoken:"
  const GUID_LENGTH := 36

  /** The server's GUID as text. */
  type Guid = s: string | |s| == GUID_LENGTH && NUL !in s witness seq(GUID_LENGTH, i => '0')

  /** `_strnicmp(s, p, |p|) == 0` for a `p` without a terminator. */
  predicate StartsWith(s: string, p: string) {
    |p| <= |s| && forall k :: 0 <= k < |p| ==> Lower(s[k]) == Lower(p[k])
  }

  // ------------------------------------------------------------------ numbers

  const TWO63: int := 0x8000_0000_0000_0000
  const TWO64: int := 0x1_0000_0000_0000_0000

  /** Two's complement, 64 bits. */
  function Wrap64(x: int): (r: int)
    ensures -TWO63 <= r < TWO63 && (-TWO63 <= x < TWO63 ==> r == x)
  {
    (x + TWO63) % TWO64 - TWO63
  }

  predicate IsDigit(c: char) {
    '0' <= c <= '9'
  }

  function DigitChar(d: nat): char
    requires d < 10
  {
    '0' + d as char
  }

  function DigitValue(c: char): nat
    requires IsDigit(c)
  {
    c as int - '0' as int
  }

  /** Decimal digits of `n`, without leading zeros. */
  function Digits(n: nat): string {
    if n < 10 then [DigitChar(n)] else Digits(n / 10) + [DigitChar(n % 10)]
  }

  /** "%I64d" */
  function Decimal(n: int): string {
    if n < 0 then "-" + Digits(-n) else Digits(n)
  }

  /** The digits at the start of `s` appended to `total`, in 64-bit arithmetic. */
  function TakeDigits(total: int, s: string): int
    decreases |s|
  {
    if s == "" || !IsDigit(s[0]) then total
    else TakeDigits(Wrap64(10 * total + DigitValue(s[0])), s[1..])
  }

  /** _atoi64 */
  function Atoi64(s: string): int {
    var t := s[WhiteLen(s)..];
    if t != "" && t[0] == '-' then Wrap64(-TakeDigits(0, t[1..]))
    else if t != "" && t[0] == '+' then TakeDigits(0, t[1..])
    else TakeDigits(0, t)
  }

  lemma {:induction false} DigitsAreDigits(n: nat)
    ensures Digits(n) != "" && forall k :: 0 <= k < |Digits(n)| ==> IsDigit(Digits(n)[k])
  {
    if n >= 10 { DigitsAreDigits(n / 10); }
  }

  lemma {:induction false} TakeDigitsConcat(total: int, a: string, b: string)
    requires forall k :: 0 <= k < |a| ==> IsDigit(a[k])
    ensures TakeDigits(total, a + b) == TakeDigits(TakeDigits(total, a), b)
    decreases |a|
  {
    if a == "" {
      assert a + b == b;
    } else {
      assert (a + b)[1..] == a[1..] + b;
      TakeDigitsConcat(Wrap64(10 * total + DigitValue(a[0])), a[1..], b);
    }
  }

  lemma WrapStep(n: int, d: int)
    ensures Wrap64(10 * Wrap64(n) + d) == Wrap64(10 * n + d)
  {
    var q := (n + TWO63) / TWO64;
    assert Wrap64(n) == n - q * TWO64;
    ModShift(10 * n + d + TWO63, -10 * q);
  }

  lemma ModShift(x: int, k: int)
    ensures (x + k * TWO64) % TWO64 == x % TWO64
  {
  }

  lemma {:induction false} DigitsValue(n: nat)
    ensures TakeDigits(0, Digits(n)) == Wrap64(n)
  {
    if n >= 10 {
      DigitsAreDigits(n / 10);
      TakeDigitsConcat(0, Digits(n / 10), [DigitChar(n % 10)]);
      DigitsValue(n / 10);
      WrapStep(n / 10, n % 10);
    }
  }

  /** Reading back a printed number, whatever follows it. */
  lemma DecimalRoundTrip(n: int, rest: string)
    requires -TWO63 <= n < TWO63
    requires rest == "" || !IsDigit(rest[0])
    ensures Atoi64(Decimal(n) + rest) == n
  {
    var m := if n < 0 then -n else n;
    var s := Decimal(n) + rest;
    DigitsAreDigits(m);
    TakeDigitsConcat(0, Digits(m), rest);
    DigitsValue(m);
    hide TakeDigits, Digits, WhiteLen;
    assert (n >= 0 ==> Wrap64(m) == n) && (n < 0 ==> Wrap64(-Wrap64(m)) == n) by { InRange(n); }
    assert s[0] == if n < 0 then '-' else Digits(m)[0];
    WhiteLenIs(s, 0);
    assert s[0..] == s;
    if n < 0 {
      SecondOn("-", Digits(m), rest);
      assert TakeDigits(0, s[1..]) == TakeDigits(Wrap64(m), rest);
    }
    NoDigits(Wrap64(m), rest);
  }

  lemma InRange(n: int)
    requires -TWO63 <= n < TWO63
    ensures n >= 0 ==> Wrap64(n) == n
    ensures n < 0 ==> Wrap64(-Wrap64(-n)) == n
  {
  }

  lemma SecondOn(a: string, b: string, c: string)
    requires |a| == 1
    ensures ((a + b) + c)[1..] == b + c
  {
  }

  lemma NoDigits(total: int, rest: string)
    requires rest == "" || !IsDigit(rest[0])
    ensures TakeDigits(total, rest) == total
  {
  }

  // ------------------------------------------------------------------- tokens

  /** What WriteOpaqueLockToken prints. */
  function TokenText(guid: Guid, id: int, brackets: bool): string {
    var body := OPAQUE_PREFIX + guid + ":" + Decimal(id);
    if brackets then "<" + body + ">" else body
  }

  /** GetLockIDFromOpaqueHeader: 0 stands for failure. */
  function LockIdOf(guid: Guid, s: string): int {
    if !StartsWith(s, OPAQUE_PREFIX) then 0
    else
      var t := s[|OPAQUE_PREFIX|..];
      if !StartsWith(t, guid) then 0
      else
        var u := t[GUID_LENGTH..];
        if u == "" || u[0] != ':' then 0 else Atoi64(u[1..])
  }

  lemma OwnPrefix(p: string, s: string)
    ensures StartsWith(p + s, p) && (p + s)[|p|..] == s
  {
  }

  /** Printing and parsing undo each other for every id a 64-bit integer holds, in angle
      brackets or not, as long as no digit follows. */
  lemma TokenRoundTrip(guid: Guid, id: int, brackets: bool, rest: string)
    requires -TWO63 <= id < TWO63
    requires brackets || rest == "" || !IsDigit(rest[0])
    ensures var s := TokenText(guid, id, brackets) + rest;
            LockIdOf(guid, if brackets then s[1..] else s) == id
  {
    hide StartsWith, Atoi64, Decimal;
    var tail := if brackets then ">" + rest else rest;
    var s := TokenText(guid, id, brackets) + rest;
    var t := if brackets then s[1..] else s;
    var number := Decimal(id) + tail;
    assert t == OPAQUE_PREFIX + (guid + (":" + number)) by {
      hide *;
      TokenShape(guid, id, brackets, rest);
    }
    OwnPrefix(OPAQUE_PREFIX, guid + (":" + number));
    OwnPrefix(guid, ":" + number);
    assert (":" + number)[1..] == number;
    DecimalRoundTrip(id, tail);
  }

  lemma TokenShape(guid: Guid, id: int, brackets: bool, rest: string)
    ensures var s := TokenText(guid, id, brackets) + rest;
            (if brackets then s[1..] else s) ==
              OPAQUE_PREFIX + (guid + (":" + (Decimal(id) + if brackets then ">" + rest else rest)))
  {
    hide Decimal;
  }

  /** Different ids have different tokens. */
  lemma TokensDiffer(guid: Guid, a: int, b: int, brackets: bool)
    requires -TWO63 <= a < TWO63 && -TWO63 <= b < TWO63
    requires TokenText(guid, a, brackets) == TokenText(guid, b, brackets)
    ensures a == b
  {
    TokenRoundTrip(guid, a, brackets, "");
    TokenRoundTrip(guid, b, brackets, "");
  }

  // --------------------------------------------------------- writing the token

  /** strcpy: `s` and a terminator after the text `done`. */
  method StrCpy(buf: array<char>, ghost done: string, at: nat, s: string)
    requires at + |s| < buf.Length && buf[..at] == done
    modifies buf
    ensures buf[..at + |s|] == done + s && buf[at + |s|] == NUL
  {
    var i := 0;
    while i < |s|
      invariant 0 <= i <= |s| && buf[..at + i] == done + s[..i]
    {
      buf[at + i] := s[i];
      i := i + 1;
    }
    assert s[..i] == s;
    buf[at + i] := NUL;
  }

  /** WriteOpaqueLockToken: the text, a terminator, and the number of bytes advanced, which
      counts the terminator of a bracketed token only. */
  method WriteOpaqueLockToken(guid: Guid, szBuf: array<char>, iLockId: int, fClosingBrackets: bool) returns (n: nat)
    requires |TokenText(guid, iLockId, fClosingBrackets)| < szBuf.Length
    modifies szBuf
    ensures var text := TokenText(guid, iLockId, fClosingBrackets);
            szBuf[..|text|] == text && szBuf[|text|] == NUL && n == |text| + if fClosingBrackets then 1 else 0
  {
    hide Decimal;
    var szWrite := 0;
    if fClosingBrackets {
      szBuf[szWrite] := '<';
      szWrite := szWrite + 1;
    }
    ghost var text := if fClosingBrackets then "<" else "";
    szWrite := WriteBody(guid, szBuf, text, szWrite, iLockId);
    TokenParts(guid, iLockId);
    text := text + TokenText(guid, iLockId, false);
    hide TokenText;
    if fClosingBrackets {
      StrCpy(szBuf, text, szWrite, ">");
      szWrite := szWrite + 2;
    }
    n := szWrite;
  }

  method WriteBody(guid: Guid, szBuf: array<char>, ghost done: string, at: nat, iLockId: int) returns (szWrite: nat)
    requires at + |TokenText(guid, iLockId, false)| < szBuf.Length && szBuf[..at] == done
    modifies szBuf
    ensures szWrite == at + |TokenText(guid, iLockId, false)| && szBuf[szWrite] == NUL
    ensures szBuf[..szWrite] == done + TokenText(guid, iLockId, false)
  {
    hide Decimal;
    ghost var text := done;
    szWrite := at;
    StrCpy(szBuf, text, szWrite, OPAQUE_PREFIX);
    szWrite, text := szWrite + |OPAQUE_PREFIX|, text + OPAQUE_PREFIX;
    StrCpy(szBuf, text, szWrite, guid);
    szWrite, text := szWrite + GUID_LENGTH, text + guid;
    szBuf[szWrite] := ':';
    szWrite, text := szWrite + 1, text + ":";
    StrCpy(szBuf, text, szWrite, Decimal(iLockId));
    szWrite, text := szWrite + |Decimal(iLockId)|, text + Decimal(iLockId);
    PartsInOrder(done, guid, Decimal(iLockId));
  }

  lemma PartsInOrder(done: string, guid: string, number: string)
    ensures done + OPAQUE_PREFIX + guid + ":" + number == done + (OPAQUE_PREFIX + guid + ":" + number)
  {
  }

  lemma TokenParts(guid: Guid, id: int)
    ensures TokenText(guid, id, true) == ("<" + TokenText(guid, id, false)) + ">"
    ensures TokenText(guid, id, false) == "" + TokenText(guid, id, false)
  {
    hide Decimal;
  }

  // ---------------------------------------------------------- reading a number

  /** _atoi64, as the C library's loops compute it (PRIVATE/WINCEOS/COREOS/CORE/DLL/strings.c). */
  method ParseInt64(nptr: string) returns (r: int)
    ensures r == Atoi64(nptr)
  {
    var i := 0;
    WhiteLenMeaning(nptr);
    while i < |nptr| && IsSpace(nptr[i])
      invariant 0 <= i <= WhiteLen(nptr)
    {
      i := i + 1;
    }
    assert i == WhiteLen(nptr);
    var sign := At(nptr, i);
    if sign == '-' || sign == '+' { i := i + 1; }
    var total := 0;
    ghost var t := nptr[i..];
    while i < |nptr| && IsDigit(nptr[i])
      invariant 0 <= i <= |nptr|
      invariant TakeDigits(total, nptr[i..]) == TakeDigits(0, t)
    {
      assert nptr[i..][1..] == nptr[i + 1..];
      total := Wrap64(10 * total + DigitValue(nptr[i]));
      i := i + 1;
    }
    r := if sign == '-' then Wrap64(-total) else total;
  }
}
