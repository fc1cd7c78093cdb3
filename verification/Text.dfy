/** Character helpers shared by the text-processing models.
    A C string is a Dafny string; its terminator is read through `At`. */
module Text {

  datatype Option<+T> = None | Some(value: T)

  const NUL := '\U{0000}'
  const CR := '\r'
  const LF := '\n'

  /** isspace of the C locale. */
  predicate IsSpace(c: char) {
    c == ' ' || c == '\t' || c == '\n' || c == '\r' || c == '\U{000B}' || c == '\U{000C}'
  }

  /** tolower of the C locale. */
  function Lower(c: char): char {
    if 'A' <= c <= 'Z' then c + ' ' else c
  }

  predicate IsBlank(c: char) {
    c == ' ' || c == '\t'
  }

  predicate IsReturn(c: char) {
    c == CR || c == LF
  }

  /** The byte a pointer at offset `i` sees; the terminator follows the data. */
  function At(s: string, i: nat): char {
    if i < |s| then s[i] else NUL
  }

  /** Length of the leading run of white space. */
  function WhiteLen(s: string): (n: nat)
    ensures n <= |s|
  {
    if s != "" && IsSpace(s[0]) then 1 + WhiteLen(s[1..]) else 0
  }

  /** It is the longest such run. */
  lemma {:induction false} WhiteLenMeaning(s: string)
    ensures forall k :: 0 <= k < WhiteLen(s) ==> IsSpace(s[k])
    ensures WhiteLen(s) < |s| ==> !IsSpace(s[WhiteLen(s)])
  {
    if s != "" && IsSpace(s[0]) {
      WhiteLenMeaning(s[1..]);
      assert forall k :: 1 <= k < |s| ==> s[k] == s[1..][k - 1];
    }
  }

  lemma WhiteLenIs(s: string, n: nat)
    requires n <= |s|
    requires forall k :: 0 <= k < n ==> IsSpace(s[k])
    requires n < |s| ==> !IsSpace(s[n])
    ensures WhiteLen(s) == n
  {
    WhiteLenMeaning(s);
  }

  lemma Assoc(a: string, b: string, c: string)
    ensures (a + b) + c == a + (b + c)
  {
  }

  lemma EmptyEnds(a: string)
    ensures "" + a == a && a + "" == a
  {
  }

  /** How often `c` occurs in `s`. */
  function Count(s: string, c: char): nat {
    if s == "" then 0 else (if s[0] == c then 1 else 0) + Count(s[1..], c)
  }

  lemma {:induction false} CountConcat(a: string, b: string, c: char)
    ensures Count(a + b, c) == Count(a, c) + Count(b, c)
  {
    if a == "" {
      assert a + b == b;
    } else {
      assert (a + b)[1..] == a[1..] + b;
      CountConcat(a[1..], b, c);
    }
  }

  /** The carriage returns and line feeds of `s`, in order. */
  function Returns(s: string): (r: string)
    ensures |r| <= |s|
  {
    if s == "" then ""
    else if IsReturn(s[0]) then [s[0]] + Returns(s[1..])
    else Returns(s[1..])
  }

  lemma {:induction false} ReturnsConcat(a: string, b: string)
    ensures Returns(a + b) == Returns(a) + Returns(b)
  {
    if a == "" {
      assert a + b == b;
    } else {
      assert (a + b)[1..] == a[1..] + b;
      ReturnsConcat(a[1..], b);
      assert [a[0]] + (Returns(a[1..]) + Returns(b)) == ([a[0]] + Returns(a[1..])) + Returns(b);
    }
  }

  /** Only line ends survive, so line feeds are counted the same before and after. */
  lemma {:induction false} ReturnsKeepsLines(s: string)
    ensures Count(Returns(s), LF) == Count(s, LF)
    ensures forall k :: 0 <= k < |Returns(s)| ==> IsReturn(Returns(s)[k])
  {
    if s != "" {
      ReturnsKeepsLines(s[1..]);
      if IsReturn(s[0]) {
        CountConcat([s[0]], Returns(s[1..]), LF);
      }
    }
  }

  /** `n` copies of a CRLF. */
  function CrLfs(n: nat): (r: string)
    ensures |r| == 2 * n
  {
    if n == 0 then "" else "\r\n" + CrLfs(n - 1)
  }
}
