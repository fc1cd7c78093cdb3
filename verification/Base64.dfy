/** The Base64 codec (PRIVATE/SERVERS/HTTP/CORE/httpmain.cpp:1089-1207). Shifts and masks are
    quotients, products and remainders; `|` is the bitwise or of numbers. */
module Base64 {
  import opened Text

  type Byte = x: int | 0 <= x < 256

  /** x | y */
  function Or(x: nat, y: nat): nat {
    if x == 0 && y == 0 then 0
    else 2 * Or(x / 2, y / 2) + if x % 2 == 1 || y % 2 == 1 then 1 else 0
  }

  lemma {:induction false} OrZero(x: nat)
    ensures Or(x, 0) == x
  {
    if x != 0 { OrZero(x / 2); }
  }

  // Numbers without a common bit add up.

  lemma Or2(x: nat, y: nat)
    requires x % 2 == 0 && y < 2
    ensures Or(x, y) == x + y
  {
    OrZero(x / 2);
  }

  lemma Or4(x: nat, y: nat)
    requires x % 4 == 0 && y < 4
    ensures Or(x, y) == x + y
  {
    Or2(x / 2, y / 2);
  }

  lemma Or8(x: nat, y: nat)
    requires x % 8 == 0 && y < 8
    ensures Or(x, y) == x + y
  {
    Or4(x / 2, y / 2);
  }

  lemma Or16(x: nat, y: nat)
    requires x % 16 == 0 && y < 16
    ensures Or(x, y) == x + y
  {
    Or8(x / 2, y / 2);
  }

  lemma Or32(x: nat, y: nat)
    requires x % 32 == 0 && y < 32
    ensures Or(x, y) == x + y
  {
    Or16(x / 2, y / 2);
  }

  lemma Or64(x: nat, y: nat)
    requires x % 64 == 0 && y < 64
    ensures Or(x, y) == x + y
  {
    Or32(x / 2, y / 2);
  }

  // ------------------------------------------------------------------ tables

  /** six2base64 */
  function Six2Base64(v: nat): char
    requires v < 64
  {
    if v < 26 then 'A' + v as char
    else if v < 52 then 'a' + (v - 26) as char
    else if v < 62 then '0' + (v - 52) as char
    else if v == 62 then '+' else '/'
  }

  /** base642six: 64 for a character outside the alphabet. */
  function Base642Six(c: char): (v: nat)
    ensures v <= 64
  {
    if 'A' <= c <= 'Z' then c as int - 'A' as int
    else if 'a' <= c <= 'z' then c as int - 'a' as int + 26
    else if '0' <= c <= '9' then c as int - '0' as int + 52
    else if c == '+' then 62
    else if c == '/' then 63
    else 64
  }

  lemma TablesAgree(v: nat)
    requires v < 64
    ensures Base642Six(Six2Base64(v)) == v
  {
  }

  // ---------------------------------------------------------------- encoding

  function Groups(n: nat): nat {
    (n + 2) / 3
  }

  lemma Mod64(k: int, r: int)
    requires 0 <= r < 64
    ensures (k * 64 + r) % 64 == r
  {
  }

  lemma Shift4(a: Byte)
    ensures a * 16 % 64 == a % 4 * 16
  {
    var q, r := a / 4, a % 4;
    assert a * 16 == q * 64 + r * 16;
    Mod64(q, r * 16);
  }

  lemma Shift2(a: Byte)
    ensures a * 4 % 64 == a % 16 * 4
  {
    var q, r := a / 16, a % 16;
    assert a * 4 == q * 64 + r * 4;
    Mod64(q, r * 4);
  }

  lemma Mask4(b: Byte)
    ensures b / 16 % 16 == b / 16 < 16
  {
  }

  lemma Mask2(b: Byte)
    ensures b / 64 % 4 == b / 64 < 4
  {
  }

  lemma Times4(v: nat)
    ensures v * 4 % 4 == 0
  {
  }

  lemma Times16(v: nat)
    ensures v * 16 % 16 == 0
  {
  }

  lemma Times64(v: nat)
    ensures v * 64 % 64 == 0
  {
  }

  /** The second and the third group of six bits. */
  function Middle(a: Byte, b: Byte): (v: nat)
    ensures v == a % 4 * 16 + b / 16 < 64
  {
    hide Or;
    Shift4(a);
    Mask4(b);
    Times16(a % 4);
    Or16(a % 4 * 16, b / 16);
    Or(a * 16 % 64, b / 16 % 16)
  }

  function Third(b: Byte, c: Byte): (v: nat)
    ensures v == b % 16 * 4 + c / 64 < 64
  {
    hide Or;
    Shift2(b);
    Mask2(c);
    Times4(b % 16);
    Or4(b % 16 * 4, c / 64);
    Or(b * 4 % 64, c / 64 % 4)
  }

  /** The four characters of three bytes. */
  function EncodeGroup(a: Byte, b: Byte, c: Byte): (r: string)
    ensures |r| == 4
  {
    [Six2Base64(a / 4), Six2Base64(Middle(a, b)), Six2Base64(Third(b, c)), Six2Base64(c % 64)]
  }

  function EncodeAll(d: seq<Byte>, m: nat): (r: string)
    requires 3 * m <= |d|
    ensures |r| == 4 * m
  {
    if m == 0 then "" else EncodeGroup(d[0], d[1], d[2]) + EncodeAll(d[3..], m - 1)
  }

  /** Base64Encode of the first `n` bytes of `d`; the last group may take in bytes that follow. */
  function Encoded(d: seq<Byte>, n: nat): (r: string)
    requires 3 * Groups(n) <= |d|
    ensures |r| == 4 * Groups(n)
  {
    var t := EncodeAll(d, Groups(n));
    if n % 3 == 2 then t[..|t| - 1] + "="
    else if n % 3 == 1 then t[..|t| - 2] + "=="
    else t
  }

  // ---------------------------------------------------------------- decoding

  function SkipBlanks(s: string): string {
    if s != "" && IsBlank(s[0]) then SkipBlanks(s[1..]) else s
  }

  /** How many characters of the alphabet come first. */
  function ValidLen(s: string): (n: nat)
    ensures n <= |s|
  {
    if s != "" && Base642Six(s[0]) <= 63 then 1 + ValidLen(s[1..]) else 0
  }

  /** The three bytes of four characters. */
  function DecodeGroup(a: char, b: char, c: char, d: char): (r: seq<Byte>)
    ensures |r| == 3
  {
    [Or(Base642Six(a) * 4, Base642Six(b) / 16) % 256,
     Or(Base642Six(b) * 16, Base642Six(c) / 4) % 256,
     Or(Base642Six(c) * 64, Base642Six(d)) % 256]
  }

  function DecodeAll(s: string, m: nat): (r: seq<Byte>)
    requires 4 * m <= |s|
    ensures |r| == 3 * m
  {
    if m == 0 then [] else DecodeGroup(s[0], s[1], s[2], s[3]) + DecodeAll(s[4..], m - 1)
  }

  function CodedGroups(s: string): nat {
    (ValidLen(s) + 3) / 4
  }

  /** Where Base64Decode puts the terminator. */
  function DecodedSize(s: string): (k: nat)
    requires 4 * CodedGroups(s) <= |s|
    ensures k <= 3 * CodedGroups(s)
  {
    var m := CodedGroups(s);
    if ValidLen(s) % 4 == 0 then 3 * m
    else if Base642Six(s[4 * m - 2]) > 63 then 3 * m - 2
    else 3 * m - 1
  }

  // -------------------------------------------------------------- round trip

  /** Bytes put together again from their parts. */
  lemma Joined(x: nat, y: nat, z: nat, w: nat)
    requires x < 64 && y < 64 && z < 64 && w < 64
    ensures Or(x * 4, y / 16) % 256 == x * 4 + y / 16
    ensures Or(y * 16, z / 4) % 256 == y % 16 * 16 + z / 4
    ensures Or(z * 64, w) % 256 == z % 4 * 64 + w
  {
    hide Or;
    Times4(x);
    Times16(y);
    Times64(z);
    Or4(x * 4, y / 16);
    Or16(y * 16, z / 4);
    Or64(z * 64, w);
    Truncated(x, y, z, w);
  }

  lemma Truncated(x: nat, y: nat, z: nat, w: nat)
    requires x < 64 && y < 64 && z < 64 && w < 64
    ensures (x * 4 + y / 16) % 256 == x * 4 + y / 16
    ensures (y * 16 + z / 4) % 256 == y % 16 * 16 + z / 4
    ensures (z * 64 + w) % 256 == z % 4 * 64 + w
  {
    Cut256(y / 16, y % 16 * 16 + z / 4);
    Cut256(z / 4, z % 4 * 64 + w);
  }

  lemma Cut256(k: nat, r: nat)
    requires r < 256
    ensures (k * 256 + r) % 256 == r
  {
  }

  lemma GroupSixes(a: Byte, b: Byte, c: Byte)
    ensures var e := EncodeGroup(a, b, c);
            && Base642Six(e[0]) == a / 4 && Base642Six(e[1]) == Middle(a, b)
            && Base642Six(e[2]) == Third(b, c) && Base642Six(e[3]) == c % 64
  {
    TablesAgree(a / 4);
    TablesAgree(Middle(a, b));
    TablesAgree(Third(b, c));
    TablesAgree(c % 64);
    hide Base642Six, Six2Base64, Or;
  }

  /** Three bytes survive, and so do one or two whatever the other characters are. */
  lemma GroupRoundTrip(a: Byte, b: Byte, c: Byte, c3: char, c4: char)
    ensures var e := EncodeGroup(a, b, c);
            && DecodeGroup(e[0], e[1], e[2], e[3]) == [a, b, c]
            && DecodeGroup(e[0], e[1], e[2], c4)[..2] == [a, b]
            && DecodeGroup(e[0], e[1], c3, c4)[0] == a
  {
    GroupSixes(a, b, c);
    hide Base642Six, EncodeGroup, Or;
    var y, z := a % 4 * 16 + b / 16, b % 16 * 4 + c / 64;
    Joined(a / 4, y, z, c % 64);
    Halves(a, b, c);
  }

  lemma Halves(a: Byte, b: Byte, c: Byte)
    ensures var y, z := a % 4 * 16 + b / 16, b % 16 * 4 + c / 64;
            && a / 4 * 4 + y / 16 == a && y % 16 * 16 + z / 4 == b && z % 4 * 64 + c % 64 == c
  {
  }

  lemma GroupValid(a: Byte, b: Byte, c: Byte)
    ensures var e := EncodeGroup(a, b, c);
            forall k :: 0 <= k < 4 ==> Base642Six(e[k]) <= 63
  {
    GroupSixes(a, b, c);
    hide Base642Six, EncodeGroup;
  }

  lemma {:induction false} ValidFrom(s: string, n: nat)
    requires n <= |s| && forall k :: 0 <= k < n ==> Base642Six(s[k]) <= 63
    ensures ValidLen(s) == n + ValidLen(s[n..])
    decreases n
  {
    hide Base642Six;
    if n == 0 {
      assert s[0..] == s;
    } else {
      assert s[1..][n - 1..] == s[n..];
      ValidFrom(s[1..], n - 1);
    }
  }

  lemma EncodedStep(d: seq<Byte>, n: nat)
    requires 3 <= n && 3 * Groups(n) <= |d|
    ensures Groups(n - 3) == Groups(n) - 1
    ensures Encoded(d, n) == EncodeGroup(d[0], d[1], d[2]) + Encoded(d[3..], n - 3)
  {
    hide EncodeGroup;
    var t, u := EncodeAll(d, Groups(n)), EncodeAll(d[3..], Groups(n - 3));
    assert t == EncodeGroup(d[0], d[1], d[2]) + u;
  }

  /** What Base64Decode makes of encoded text: every byte, with the terminator right behind them. */
  ghost predicate Decodes(t: string, d: seq<Byte>, n: nat) {
    var m := Groups(n);
    && 3 * m <= |d| && 4 * m <= |t|
    && CodedGroups(t) == m
    && DecodeAll(t, m)[..n] == d[..n]
    && DecodedSize(t) == n
  }

  lemma AllDecoded(g: string, t: string, m: nat)
    requires |g| == 4 && 4 * m <= |t|
    ensures 4 * (m + 1) <= |g + t|
    ensures DecodeAll(g + t, m + 1) == DecodeGroup(g[0], g[1], g[2], g[3]) + DecodeAll(t, m)
  {
    hide DecodeGroup;
    assert (g + t)[4..] == t;
  }

  lemma Quarters(v: nat)
    ensures (4 + v + 3) / 4 == (v + 3) / 4 + 1 && (4 + v) % 4 == v % 4
  {
  }

  lemma SamePad(g: string, t: string, m: nat)
    requires |g| == 4 && 4 * m <= |t|
    ensures m > 0 ==> (g + t)[4 * (m + 1) - 2] == t[4 * m - 2]
  {
  }

  lemma SizeStep(g: string, t: string, m: nat)
    requires |g| == 4 && 4 * m <= |t| && CodedGroups(t) == m && ValidLen(g + t) == 4 + ValidLen(t)
    ensures CodedGroups(g + t) == m + 1 && DecodedSize(g + t) == 3 + DecodedSize(t)
  {
    hide ValidLen, Base642Six;
    Quarters(ValidLen(t));
    assert CodedGroups(g + t) == m + 1;
    SamePad(g, t, m);
  }

  lemma FrontStep(x: seq<Byte>, y: seq<Byte>, d: seq<Byte>, n: nat)
    requires 3 <= n <= |d| && x == [d[0], d[1], d[2]] && n - 3 <= |y| && y[..n - 3] == d[3..][..n - 3]
    ensures (x + y)[..n] == d[..n]
  {
    assert d[..n] == [d[0], d[1], d[2]] + d[3..][..n - 3];
    assert (x + y)[..n] == x + y[..n - 3];
  }

  lemma Thirds(n: nat)
    requires 3 <= n
    ensures Groups(n) == Groups(n - 3) + 1
  {
  }

  lemma DecodesStep(g: string, t: string, d: seq<Byte>, n: nat)
    requires 3 <= n && |d| >= 3 && Decodes(t, d[3..], n - 3)
    requires g == EncodeGroup(d[0], d[1], d[2])
    ensures Decodes(g + t, d, n)
  {
    GroupValid(d[0], d[1], d[2]);
    GroupRoundTrip(d[0], d[1], d[2], g[2], g[3]);
    hide Base642Six, EncodeGroup, DecodeGroup, ValidLen, DecodeAll, DecodedSize, CodedGroups;
    assert (g + t)[4..] == t && (g + t)[0] == g[0] && (g + t)[1] == g[1] && (g + t)[2] == g[2] && (g + t)[3] == g[3];
    ValidFrom(g + t, 4);
    var m := Groups(n - 3);
    Thirds(n);
    hide Groups;
    AllDecoded(g, t, m);
    SizeStep(g, t, m);
    FrontStep([d[0], d[1], d[2]], DecodeAll(t, m), d, n);
  }

  lemma EmptyGroup(d: seq<Byte>, rest: string)
    requires rest != "" && Base642Six(rest[0]) > 63
    ensures Encoded(d, 0) == "" && Decodes(rest, d, 0)
  {
  }

  lemma ShortValid(d: seq<Byte>, n: nat, t: string)
    requires 1 <= n <= 2 && 3 <= |d| && 4 <= |t|
    requires var e := EncodeGroup(d[0], d[1], d[2]);
             t[0] == e[0] && t[1] == e[1] && (n == 2 ==> t[2] == e[2]) && t[n + 1] == '='
    ensures ValidLen(t) == n + 1 && (n == 2 ==> Base642Six(t[2]) <= 63)
  {
    hide EncodeGroup, ValidLen;
    GroupValid(d[0], d[1], d[2]);
    NotValid(t[n + 1..]);
    hide Base642Six;
    ValidFrom(t, n + 1);
  }

  /** A last group of one or two bytes. */
  lemma ShortGroup(d: seq<Byte>, n: nat, t: string)
    requires 1 <= n <= 2 && 3 <= |d| && 4 <= |t|
    requires var e := EncodeGroup(d[0], d[1], d[2]);
             t[0] == e[0] && t[1] == e[1] && (n == 2 ==> t[2] == e[2]) && t[n + 1] == '='
    ensures Decodes(t, d, n)
  {
    hide EncodeGroup, DecodeGroup, CodedGroups, DecodedSize, DecodeAll;
    ShortValid(d, n, t);
    GroupRoundTrip(d[0], d[1], d[2], t[2], t[3]);
    ShortSize(t, n);
    OneGroup(t);
    var x := DecodeGroup(t[0], t[1], t[2], t[3]);
    assert x[..n] == d[..n] by { if n == 1 { assert x[..1] == [x[0]] && d[..1] == [d[0]]; } }
  }

  lemma ShortSize(t: string, n: nat)
    requires 1 <= n <= 2 && 4 <= |t| && ValidLen(t) == n + 1 && t[n + 1] == '='
    requires n == 2 ==> Base642Six(t[2]) <= 63
    ensures CodedGroups(t) == 1 && DecodedSize(t) == n
  {
    assert Base642Six('=') == 64;
    hide ValidLen, Base642Six;
  }

  lemma NotValid(s: string)
    requires s != "" && Base642Six(s[0]) > 63
    ensures ValidLen(s) == 0
  {
  }

  lemma OneGroup(t: string)
    requires 4 <= |t|
    ensures DecodeAll(t, 1) == DecodeGroup(t[0], t[1], t[2], t[3])
  {
    hide DecodeGroup;
  }

  lemma ShortEncoded(d: seq<Byte>, n: nat, rest: string)
    requires 1 <= n <= 2 && 3 <= |d|
    ensures var t := Encoded(d, n) + rest;
            var e := EncodeGroup(d[0], d[1], d[2]);
            |t| >= 4 && t[0] == e[0] && t[1] == e[1] && (n == 2 ==> t[2] == e[2]) && t[n + 1] == '='
  {
    hide EncodeGroup;
    assert EncodeAll(d, 1) == EncodeGroup(d[0], d[1], d[2]) + "";
  }

  /** Encoding and decoding undo each other for every byte string and whatever follows it: the
      decoder finds the groups the encoder wrote, gives back the bytes, and puts the terminator
      exactly behind them. */
  lemma {:induction false} RoundTrip(d: seq<Byte>, n: nat, rest: string)
    requires 3 * Groups(n) <= |d| && rest != "" && Base642Six(rest[0]) > 63
    ensures Decodes(Encoded(d, n) + rest, d, n)
    decreases n
  {
    hide Decodes, Encoded, EncodeGroup, Base642Six;
    if n == 0 {
      EmptyGroup(d, rest);
      EmptyEnds(rest);
    } else if n < 3 {
      ShortEncoded(d, n, rest);
      ShortGroup(d, n, Encoded(d, n) + rest);
    } else {
      EncodedStep(d, n);
      RoundTrip(d[3..], n - 3, rest);
      var g := EncodeGroup(d[0], d[1], d[2]);
      DecodesStep(g, Encoded(d[3..], n - 3) + rest, d, n);
      Assoc(g, Encoded(d[3..], n - 3), rest);
    }
  }

  lemma {:induction false} BlanksSkipped(w: string, s: string)
    requires (forall k :: 0 <= k < |w| ==> IsBlank(w[k])) && (s == "" || !IsBlank(s[0]))
    ensures SkipBlanks(w + s) == s
    decreases |w|
  {
    if w == "" {
      EmptyEnds(s);
    } else {
      assert (w + s)[1..] == w[1..] + s;
      BlanksSkipped(w[1..], s);
    }
  }

  lemma NoBlankFirst(d: seq<Byte>, n: nat, s: string)
    requires 0 < n && 3 * Groups(n) <= |d| && s != "" && s[0] == Encoded(d, n)[0]
    ensures !IsBlank(s[0])
  {
    var t := EncodeAll(d, Groups(n));
    GroupValid(d[0], d[1], d[2]);
    assert t[0] == EncodeGroup(d[0], d[1], d[2])[0];
    hide EncodeGroup;
  }

  /** The decoder, given blanks, encoded bytes, a terminator and anything else, skips the blanks
      and gives the bytes back. */
  lemma DecodeUndoesEncode(w: string, d: seq<Byte>, n: nat, more: string)
    requires (forall k :: 0 <= k < |w| ==> IsBlank(w[k])) && 3 * Groups(n) <= |d|
    ensures var s := Encoded(d, n) + ([NUL] + more);
            SkipBlanks(w + s) == s && Decodes(s, d, n)
  {
    var s := Encoded(d, n) + ([NUL] + more);
    assert ([NUL] + more)[0] == NUL && Base642Six(NUL) == 64;
    RoundTrip(d, n, [NUL] + more);
    hide Decodes;
    if n > 0 {
      assert s[0] == Encoded(d, n)[0];
      NoBlankFirst(d, n, s);
    } else {
      assert s[0] == NUL;
    }
    hide Encoded;
    BlanksSkipped(w, s);
  }

  // ------------------------------------------------------------ the functions

  lemma {:induction false} EncodeAllSnoc(d: seq<Byte>, m: nat)
    requires 3 * (m + 1) <= |d|
    ensures EncodeAll(d, m + 1) == EncodeAll(d, m) + EncodeGroup(d[3 * m], d[3 * m + 1], d[3 * m + 2])
    decreases m
  {
    hide EncodeGroup, EncodeAll;
    EncodeFirst(d, m + 1);
    var g := EncodeGroup(d[0], d[1], d[2]);
    if m > 0 {
      EncodeAllSnoc(d[3..], m - 1);
      EncodeFirst(d, m);
      ThreeOn(d, m);
      var last := EncodeGroup(d[3 * m], d[3 * m + 1], d[3 * m + 2]);
      assert EncodeAll(d[3..], m) == EncodeAll(d[3..], m - 1) + last;
      Assoc(g, EncodeAll(d[3..], m - 1), last);
    } else {
      NoGroups(d);
      NoGroups(d[3..]);
      EmptyEnds(g);
    }
  }

  lemma EncodeFirst(d: seq<Byte>, m: nat)
    requires 0 < m && 3 * m <= |d|
    ensures EncodeAll(d, m) == EncodeGroup(d[0], d[1], d[2]) + EncodeAll(d[3..], m - 1)
  {
    hide EncodeGroup;
  }

  lemma ThreeOn(d: seq<Byte>, m: nat)
    requires 0 < m && 3 * (m + 1) <= |d|
    ensures d[3..][3 * (m - 1)] == d[3 * m] && d[3..][3 * (m - 1) + 1] == d[3 * m + 1]
    ensures d[3..][3 * (m - 1) + 2] == d[3 * m + 2]
  {
  }

  /** Base64Encode, which may read two bytes behind the `nbytes` it encodes. */
  method Base64Encode(bufin: array<Byte>, nbytes: nat, pbuffEncoded: array<char>)
    requires 3 * Groups(nbytes) <= bufin.Length && 4 * Groups(nbytes) < pbuffEncoded.Length
    modifies pbuffEncoded
    ensures pbuffEncoded[..4 * Groups(nbytes)] == Encoded(bufin[..], nbytes)
    ensures pbuffEncoded[4 * Groups(nbytes)] == NUL
  {
    hide EncodeGroup, EncodeAll;
    var i, outptr := 0, 0;
    ghost var m := 0;
    ghost var d := bufin[..];
    NoGroups(d);
    while i < nbytes
      invariant i == 3 * m && outptr == 4 * m && m <= Groups(nbytes)
      invariant pbuffEncoded[..outptr] == EncodeAll(d, m)
    {
      EncodeAllSnoc(d, m);
      WriteGroup(pbuffEncoded, outptr, bufin[i], bufin[i + 1], bufin[i + 2]);
      outptr := outptr + 4;
      i := i + 3;
      m := m + 1;
    }
    if i == nbytes + 1 {
      pbuffEncoded[outptr - 1] := '=';
    } else if i == nbytes + 2 {
      pbuffEncoded[outptr - 1] := '=';
      pbuffEncoded[outptr - 2] := '=';
    }
    pbuffEncoded[outptr] := NUL;
  }

  lemma NoGroups(d: seq<Byte>)
    ensures EncodeAll(d, 0) == ""
  {
  }

  method WriteGroup(outptr: array<char>, at: nat, a: Byte, b: Byte, c: Byte)
    requires at + 4 <= outptr.Length
    modifies outptr
    ensures outptr[..at + 4] == old(outptr[..at]) + EncodeGroup(a, b, c)
  {
    outptr[at] := Six2Base64(a / 4);
    outptr[at + 1] := Six2Base64(Middle(a, b));
    outptr[at + 2] := Six2Base64(Third(b, c));
    outptr[at + 3] := Six2Base64(c % 64);
  }

  lemma {:induction false} DecodeAllSnoc(s: string, m: nat)
    requires 4 * (m + 1) <= |s|
    ensures DecodeAll(s, m + 1) == DecodeAll(s, m) + DecodeGroup(s[4 * m], s[4 * m + 1], s[4 * m + 2], s[4 * m + 3])
    decreases m
  {
    hide DecodeGroup;
    if m > 0 {
      DecodeAllSnoc(s[4..], m - 1);
      assert s[4..][4 * (m - 1)] == s[4 * m] && s[4..][4 * (m - 1) + 1] == s[4 * m + 1]
          && s[4..][4 * (m - 1) + 2] == s[4 * m + 2] && s[4..][4 * (m - 1) + 3] == s[4 * m + 3];
    }
  }

  /** Base64Decode: the terminator stands behind the decoded bytes; the size reported counts
      whole groups. */
  method Base64Decode(bufcoded: array<char>, pbuffdecoded: array<Byte>) returns (cbDecoded: nat)
    requires var s := SkipBlanks(bufcoded[..]);
             ValidLen(s) < |s| && 4 * CodedGroups(s) <= |s| && 3 * CodedGroups(s) < pbuffdecoded.Length
    modifies pbuffdecoded
    ensures var s := SkipBlanks(bufcoded[..]);
            var k := DecodedSize(s);
            && cbDecoded == 3 * CodedGroups(s)
            && pbuffdecoded[..k] == DecodeAll(s, CodedGroups(s))[..k] && pbuffdecoded[k] == 0
  {
    hide DecodeGroup, Base642Six, DecodeAll, SkipBlanks;
    ghost var s := SkipBlanks(bufcoded[..]);
    var p := SkipBlankBytes(bufcoded);
    var nprbytes := CountValid(bufcoded, p, s);
    var nbytesdecoded := (nprbytes + 3) / 4 * 3;
    cbDecoded := nbytesdecoded;
    hide ValidLen;
    DecodeGroups(bufcoded, p, nprbytes, pbuffdecoded, s);
    if nprbytes % 4 != 0 {
      var bufin := p + 4 * ((nprbytes + 3) / 4);
      assert bufcoded[bufin - 2] == s[bufin - 2 - p];
      nbytesdecoded := nbytesdecoded - if Base642Six(bufcoded[bufin - 2]) > 63 then 2 else 1;
    }
    pbuffdecoded[nbytesdecoded] := 0;
  }

  method SkipBlankBytes(buf: array<char>) returns (p: nat)
    requires SkipBlanks(buf[..]) != ""
    ensures p < buf.Length && buf[p..] == SkipBlanks(buf[..])
  {
    p := 0;
    assert buf[0..] == buf[..];
    while buf[p] == ' ' || buf[p] == '\t'
      invariant p < buf.Length && SkipBlanks(buf[p..]) == SkipBlanks(buf[..])
      decreases buf.Length - p
    {
      assert buf[p..][1..] == buf[p + 1..];
      p := p + 1;
    }
  }

  method CountValid(buf: array<char>, p: nat, ghost s: string) returns (n: nat)
    requires p <= buf.Length && s == buf[p..] && ValidLen(s) < |s|
    ensures n == ValidLen(s)
  {
    hide Base642Six;
    n := 0;
    assert s[0..] == s;
    while Base642Six(buf[p + n]) <= 63
      invariant n < |s| && ValidLen(s) == n + ValidLen(s[n..])
      decreases |s| - n
    {
      assert s[n..][1..] == s[n + 1..];
      n := n + 1;
    }
  }

  method DecodeGroups(bufcoded: array<char>, p: nat, n: nat, bufout: array<Byte>, ghost s: string)
    requires p <= bufcoded.Length && s == bufcoded[p..] && 4 * ((n + 3) / 4) <= |s| && 3 * ((n + 3) / 4) <= bufout.Length
    modifies bufout
    ensures bufout[..3 * ((n + 3) / 4)] == DecodeAll(s, (n + 3) / 4)
  {
    hide DecodeGroup, DecodeAll;
    var nprbytes: int := n;
    ghost var m := 0;
    var bufin, out := p, 0;
    NothingDecoded(s);
    while nprbytes > 0
      invariant nprbytes == n - 4 * m && bufin == p + 4 * m && out == 3 * m && 0 <= m <= (n + 3) / 4
      invariant bufout[..out] == DecodeAll(s, m)
    {
      DecodeAllSnoc(s, m);
      var g := DecodeGroup(bufcoded[bufin], bufcoded[bufin + 1], bufcoded[bufin + 2], bufcoded[bufin + 3]);
      bufout[out] := g[0];
      bufout[out + 1] := g[1];
      bufout[out + 2] := g[2];
      assert bufout[..out + 3] == bufout[..out] + g;
      bufin := bufin + 4;
      out := out + 3;
      nprbytes := nprbytes - 4;
      m := m + 1;
    }
  }

  lemma NothingDecoded(s: string)
    ensures DecodeAll(s, 0) == []
  {
  }
}
