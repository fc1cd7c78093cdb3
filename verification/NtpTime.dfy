/** Clock arithmetic of the time service (PRIVATE/SERVERS/TIMESVC/timesvc.cxx:74-75, 686-731,
    1060-1068): 64-bit conversions between NTP stamps and NT time, and the SNTP offset.
    Words are numbers; shifts are products and quotients by powers of two, cut to the word. */
module NtpTime {

  const TWO8: int := 0x100
  const TWO16: int := 0x1_0000
  const TWO24: int := 0x100_0000
  const TWO25: int := 0x200_0000
  const TWO32: int := 0x1_0000_0000
  const TWO63: int := 0x8000_0000_0000_0000
  const TWO64: int := 0x1_0000_0000_0000_0000

  type Byte = x: int | 0 <= x < TWO8
  type Word16 = x: int | 0 <= x < TWO16
  type Word32 = x: int | 0 <= x < TWO32
  type Word64 = x: int | 0 <= x < TWO64

  const NTPTIMEOFFSET: Word64 := 0x014F_373B_FDE0_4000
  const FIVETOTHESEVETH := 0x1312D

  /** What is left of a result in 64 bits. */
  function Wrap(x: int): Word64 {
    x % TWO64
  }

  /** `x << 32` */
  function Shl32(x: Word64): (r: Word64)
    ensures r % TWO32 == 0
  {
    x % TWO32 * TWO32
  }

  /** `high | low` where the lower half of `high` is clear. */
  function Or(high: Word64, low: Word32): Word64
    requires high % TWO32 == 0
  {
    high + low
  }

  // ------------------------------------------------------------- byte order

  function EndianSwap16(x: Word16): Word16 {
    x % TWO8 * TWO8 + x / TWO8
  }

  function EndianSwap32(x: Word32): Word32 {
    EndianSwap16(x % TWO16) * TWO16 + EndianSwap16(x / TWO16)
  }

  function EndianSwap(x: Word64): Word64 {
    EndianSwap32(x % TWO32) * TWO32 + EndianSwap32(x / TWO32)
  }

  /** The bytes of a word, least significant first. */
  function Bytes16(x: Word16): seq<Byte> {
    [x % TWO8, x / TWO8]
  }

  function Bytes32(x: Word32): seq<Byte> {
    Bytes16(x % TWO16) + Bytes16(x / TWO16)
  }

  function Bytes64(x: Word64): seq<Byte> {
    Bytes32(x % TWO32) + Bytes32(x / TWO32)
  }

  function Reversed(s: seq<Byte>): (r: seq<Byte>)
    ensures |r| == |s| && forall i :: 0 <= i < |s| ==> r[i] == s[|s| - 1 - i]
  {
    if s == [] then [] else Reversed(s[1..]) + [s[0]]
  }

  lemma ReversedConcat(a: seq<Byte>, b: seq<Byte>)
    ensures Reversed(a + b) == Reversed(b) + Reversed(a)
  {
  }

  lemma Swap16(x: Word16)
    ensures Bytes16(EndianSwap16(x)) == Reversed(Bytes16(x)) && EndianSwap16(EndianSwap16(x)) == x
  {
    assert EndianSwap16(x) % TWO8 == x / TWO8 && EndianSwap16(x) / TWO8 == x % TWO8;
  }

  lemma Swap32(x: Word32)
    ensures Bytes32(EndianSwap32(x)) == Reversed(Bytes32(x)) && EndianSwap32(EndianSwap32(x)) == x
  {
    var lo, hi := x % TWO16, x / TWO16;
    Swap16(lo);
    Swap16(hi);
    var y := EndianSwap32(x);
    assert y % TWO16 == EndianSwap16(hi) && y / TWO16 == EndianSwap16(lo);
    ReversedConcat(Bytes16(lo), Bytes16(hi));
    hide Bytes16, EndianSwap16, Reversed;
  }

  /** EndianSwap turns the bytes of a word round, so it undoes itself. */
  lemma EndianSwapReverses(x: Word64)
    ensures Bytes64(EndianSwap(x)) == Reversed(Bytes64(x)) && EndianSwap(EndianSwap(x)) == x
  {
    var lo, hi := x % TWO32, x / TWO32;
    Swap32(lo);
    Swap32(hi);
    var y := EndianSwap(x);
    assert y % TWO32 == EndianSwap32(hi) && y / TWO32 == EndianSwap32(lo);
    ReversedConcat(Bytes32(lo), Bytes32(hi));
    hide Bytes32, EndianSwap32, Reversed;
  }

  // ------------------------------------------------------------ conversions

  /** NtTimeEpochFromNtpTimeEpoch */
  function NtTimeEpochFromNtpTimeEpoch(te: Word64): Word64 {
    var qwNtpTime := EndianSwap(te);
    var qwTemp := Wrap(qwNtpTime % TWO32 * FIVETOTHESEVETH + TWO24);
    Wrap(qwTemp / TWO25 + (qwNtpTime - qwNtpTime % TWO32) / TWO25 * FIVETOTHESEVETH + NTPTIMEOFFSET)
  }

  /** NtpTimeEpochFromNtTimeEpoch */
  function NtpTimeEpochFromNtTimeEpoch(te: Word64): Word64 {
    var qwTemp := Wrap(Wrap(te - NTPTIMEOFFSET) * 2);
    var qwHigh := qwTemp / TWO8;
    var qwLow := Or(Shl32(qwHigh % FIVETOTHESEVETH), qwTemp % TWO8 * TWO24);
    LowFits(qwHigh % FIVETOTHESEVETH, qwTemp % TWO8);
    EndianSwap(Or(Shl32(qwHigh / FIVETOTHESEVETH), qwLow / FIVETOTHESEVETH))
  }

  lemma LowFits(rem: int, low: int)
    requires 0 <= rem < FIVETOTHESEVETH && 0 <= low < TWO8
    ensures 0 <= low * TWO24 < TWO32 && Shl32(rem) == rem * TWO32
    ensures (rem * TWO32 + low * TWO24) / FIVETOTHESEVETH < TWO32
  {
  }

  /** NT ticks since the start of the NTP era. */
  function SinceEra(te: Word64): Word64 {
    Wrap(te - NTPTIMEOFFSET)
  }

  lemma ShiftWraps(x: Word64)
    ensures Shl32(x) == Wrap(x * TWO32)
  {
    var h, l := x / TWO32, x % TWO32;
    assert x * TWO32 == l * TWO32 + h * TWO64;
    WrapMultiple(l * TWO32, h);
  }

  lemma WrapMultiple(x: int, k: int)
    ensures Wrap(x + k * TWO64) == Wrap(x)
  {
  }

  lemma DivTwo25(q: int, x: int)
    ensures (q * TWO25 + x) / TWO25 == q + x / TWO25
  {
  }

  lemma DivFive7(q: int, x: int)
    ensures (q * FIVETOTHESEVETH + x) / FIVETOTHESEVETH == q + x / FIVETOTHESEVETH
  {
  }

  /** The split product is the whole product. */
  lemma NtParts(hi: Word32, lo: Word32)
    ensures var q := hi * TWO32 + lo;
            var temp := lo * FIVETOTHESEVETH + TWO24;
            && (q * FIVETOTHESEVETH + TWO24) / TWO25 == hi * 128 * FIVETOTHESEVETH + temp / TWO25
            && (hi * TWO32) / TWO25 == hi * 128
            && 0 <= temp < TWO64 && hi * 128 * FIVETOTHESEVETH + temp / TWO25 + NTPTIMEOFFSET < TWO64
  {
    var temp := lo * FIVETOTHESEVETH + TWO24;
    DivTwo25(hi * 128 * FIVETOTHESEVETH, temp);
    DivTwo25(hi * 128, 0);
  }

  /** From NTP to NT time without overflow, rounded to the nearest tick. */
  lemma NtTimeIsExact(te: Word64)
    ensures var q := EndianSwap(te);
            var exact := (q * FIVETOTHESEVETH + TWO24) / TWO25 + NTPTIMEOFFSET;
            exact < TWO64 && NtTimeEpochFromNtpTimeEpoch(te) == exact
  {
    hide EndianSwap;
    var q := EndianSwap(te);
    var lo, hi := q % TWO32, q / TWO32;
    NtParts(hi, lo);
    assert q == hi * TWO32 + lo && q - q % TWO32 == hi * TWO32;
    WrapSmall(lo * FIVETOTHESEVETH + TWO24);
    WrapSmall((q * FIVETOTHESEVETH + TWO24) / TWO25 + NTPTIMEOFFSET);
    hide Wrap;
  }

  lemma WrapSmall(x: int)
    requires 0 <= x < TWO64
    ensures Wrap(x) == x
  {
  }

  /** The split quotient is the whole quotient. */
  lemma NtpParts(d: int)
    requires 0 <= d < TWO63
    ensures var high, b := 2 * d / TWO8, 2 * d % TWO8;
            var quo, rem := high / FIVETOTHESEVETH, high % FIVETOTHESEVETH;
            d * TWO25 / FIVETOTHESEVETH == quo * TWO32 + (rem * TWO32 + b * TWO24) / FIVETOTHESEVETH
  {
    var high, b := 2 * d / TWO8, 2 * d % TWO8;
    var quo, rem := high / FIVETOTHESEVETH, high % FIVETOTHESEVETH;
    assert 2 * d == high * TWO8 + b && high == quo * FIVETOTHESEVETH + rem;
    assert d * TWO25 == (quo * TWO32) * FIVETOTHESEVETH + (rem * TWO32 + b * TWO24);
    DivFive7(quo * TWO32, rem * TWO32 + b * TWO24);
  }

  lemma WrapDouble(d: Word64)
    ensures Wrap(d * 2) == d % TWO63 * 2
  {
    if d >= TWO63 { WrapMultiple((d - TWO63) * 2, 1); }
  }

  /** The conversion, once the shift by one has been done. */
  lemma NtpUnits(te: Word64, d: int)
    requires 0 <= d < TWO63 && Wrap(SinceEra(te) * 2) == 2 * d
    ensures EndianSwap(NtpTimeEpochFromNtTimeEpoch(te)) == Wrap(d * TWO25 / FIVETOTHESEVETH)
  {
    hide EndianSwap;
    NtpParts(d);
    var high, b := 2 * d / TWO8, 2 * d % TWO8;
    var quo, rem := high / FIVETOTHESEVETH, high % FIVETOTHESEVETH;
    LowFits(rem, b);
    var l := (rem * TWO32 + b * TWO24) / FIVETOTHESEVETH;
    WrapOr(quo, l);
    EndianSwapReverses(Or(Shl32(quo), l));
    hide Wrap, Shl32, Or;
  }

  /** From NT to NTP time, cut to whole units, for every time: the top bit of the ticks since the
      era is lost, and the result is the number of units modulo 2^64. */
  lemma NtpTimeIsExact(te: Word64)
    ensures EndianSwap(NtpTimeEpochFromNtTimeEpoch(te)) == Wrap(SinceEra(te) % TWO63 * TWO25 / FIVETOTHESEVETH)
  {
    hide EndianSwap, NtpTimeEpochFromNtTimeEpoch, Wrap, SinceEra;
    WrapDouble(SinceEra(te));
    NtpUnits(te, SinceEra(te) % TWO63);
  }

  /** The units of a time with the top bit set, against those of the time without it. */
  lemma TopBitUnits(r: int)
    requires 0 <= r < TWO63
    ensures Wrap((r + TWO63) * TWO25 / FIVETOTHESEVETH) != Wrap(r * TWO25 / FIVETOTHESEVETH)
  {
    var x, k := r * TWO25, TWO63 * TWO25 / FIVETOTHESEVETH;
    var a, b := x / FIVETOTHESEVETH, (x + TWO63 * TWO25) / FIVETOTHESEVETH;
    DivFive7(k, x + (TWO63 * TWO25 - k * FIVETOTHESEVETH));
    assert a + k <= b <= a + k + 1;
    assert 214 * TWO64 < k && k + 1 < 215 * TWO64;
    WrapDiffers(a, b, 214);
    assert (r + TWO63) * TWO25 == x + TWO63 * TWO25;
  }

  lemma WrapDiffers(a: int, b: int, n: int)
    requires n * TWO64 < b - a < (n + 1) * TWO64
    ensures Wrap(a) != Wrap(b)
  {
  }

  lemma TopBitLost(d: Word64)
    ensures d % TWO63 == if d < TWO63 then d else d - TWO63
  {
  }

  /** The same with the top bit clear. */
  lemma NtpTimeIsWhole(te: Word64)
    requires SinceEra(te) < TWO63
    ensures EndianSwap(NtpTimeEpochFromNtTimeEpoch(te)) == Wrap(SinceEra(te) * TWO25 / FIVETOTHESEVETH)
  {
    NtpTimeIsExact(te);
    TopBitLost(SinceEra(te));
    hide EndianSwap, NtpTimeEpochFromNtTimeEpoch, Wrap, SinceEra;
  }

  /** The whole number of units modulo 2^64 comes out exactly when the top bit is clear, that is for
      every time less than 2^63 ticks after the start of the era. */
  lemma NtpTimeIsWholeUpTo(te: Word64)
    ensures EndianSwap(NtpTimeEpochFromNtTimeEpoch(te)) == Wrap(SinceEra(te) * TWO25 / FIVETOTHESEVETH)
       <==> SinceEra(te) < TWO63
  {
    hide EndianSwap, NtpTimeEpochFromNtTimeEpoch, Wrap, SinceEra;
    var d := SinceEra(te);
    if d < TWO63 {
      NtpTimeIsWhole(te);
    } else {
      NtpTimeIsExact(te);
      TopBitLost(d);
      TopBitUnits(d - TWO63);
    }
  }

  lemma WrapOr(h: Word64, l: Word32)
    ensures Wrap(h * TWO32 + l) == Or(Shl32(h), l)
  {
    var k, m := h / TWO32, h % TWO32;
    assert h * TWO32 + l == (m * TWO32 + l) + k * TWO64;
    WrapMultiple(m * TWO32 + l, k);
  }

  /** The ticks of one NTP era. */
  const ERA_TICKS: int := TWO32 * 10_000_000

  // -------------------------------------------------------------- round trips

  lemma RoundedBack(d: int)
    requires 0 <= d < ERA_TICKS
    ensures var q := d * TWO25 / FIVETOTHESEVETH;
            0 <= q < TWO64 && (q * FIVETOTHESEVETH + TWO24) / TWO25 == d
  {
    var q := d * TWO25 / FIVETOTHESEVETH;
    var r := d * TWO25 % FIVETOTHESEVETH;
    assert q * FIVETOTHESEVETH + TWO24 == d * TWO25 + (TWO24 - r);
    DivTwo25(d, TWO24 - r);
  }

  /** NT to NTP and back is the identity within the era. */
  lemma NtRoundTrip(te: Word64)
    requires SinceEra(te) < ERA_TICKS && te >= NTPTIMEOFFSET
    ensures NtTimeEpochFromNtpTimeEpoch(NtpTimeEpochFromNtTimeEpoch(te)) == te
  {
    var d := SinceEra(te);
    assert d == te - NTPTIMEOFFSET;
    NtpTimeIsWhole(te);
    RoundedBack(d);
    WrapSmall(d * TWO25 / FIVETOTHESEVETH);
    NtTimeIsExact(NtpTimeEpochFromNtTimeEpoch(te));
    hide EndianSwap, NtTimeEpochFromNtpTimeEpoch, NtpTimeEpochFromNtTimeEpoch, Wrap, SinceEra;
  }

  /** How far an NTP stamp can move on the way to NT time and back. */
  lemma UnitsMoved(q: Word64) returns (d: int, q': int)
    ensures d == (q * FIVETOTHESEVETH + TWO24) / TWO25 && q' == d * TWO25 / FIVETOTHESEVETH
    ensures 0 <= d <= ERA_TICKS && q - 215 <= q' <= q + 214 && 0 <= q'
  {
    d := (q * FIVETOTHESEVETH + TWO24) / TWO25;
    q' := d * TWO25 / FIVETOTHESEVETH;
    var s := (q * FIVETOTHESEVETH + TWO24) % TWO25;
    assert d * TWO25 == q * FIVETOTHESEVETH + (TWO24 - s);
    DivFive7(q, TWO24 - s);
  }

  /** NTP to NT time and back moves a stamp by less than 215 units, round the end of the era for
      its last values. */
  lemma NtpRoundTrip(te: Word64)
    ensures var q := EndianSwap(te);
            var q' := EndianSwap(NtpTimeEpochFromNtTimeEpoch(NtTimeEpochFromNtpTimeEpoch(te)));
            exists m :: q - 215 <= m <= q + 214 && q' == Wrap(m)
    ensures var q := EndianSwap(te);
            var q' := EndianSwap(NtpTimeEpochFromNtTimeEpoch(NtTimeEpochFromNtpTimeEpoch(te)));
            q < TWO64 - 214 ==> q - 215 <= q' <= q + 214
  {
    var q := EndianSwap(te);
    var d, m := UnitsMoved(q);
    NtTimeIsExact(te);
    var nt := NtTimeEpochFromNtpTimeEpoch(te);
    assert nt == d + NTPTIMEOFFSET;
    WrapSmall(d);
    NtpTimeIsWhole(nt);
    hide EndianSwap, NtTimeEpochFromNtpTimeEpoch, NtpTimeEpochFromNtTimeEpoch;
    if q < TWO64 - 214 { WrapSmall(m); }
  }

  // ----------------------------------------------------------------- order

  lemma DivMonotone(a: int, b: int)
    requires a <= b
    ensures a / TWO25 <= b / TWO25 && a / FIVETOTHESEVETH <= b / FIVETOTHESEVETH
  {
  }

  /** Later stamps are later times. */
  lemma NtTimeIsMonotone(a: Word64, b: Word64)
    requires EndianSwap(a) <= EndianSwap(b)
    ensures NtTimeEpochFromNtpTimeEpoch(a) <= NtTimeEpochFromNtpTimeEpoch(b)
  {
    NtTimeIsExact(a);
    NtTimeIsExact(b);
    DivMonotone(EndianSwap(a) * FIVETOTHESEVETH + TWO24, EndianSwap(b) * FIVETOTHESEVETH + TWO24);
    hide EndianSwap, NtTimeEpochFromNtpTimeEpoch;
  }

  /** Later times of one era have later stamps. */
  lemma NtpTimeIsMonotone(a: Word64, b: Word64)
    requires NTPTIMEOFFSET <= a <= b < NTPTIMEOFFSET + ERA_TICKS
    ensures EndianSwap(NtpTimeEpochFromNtTimeEpoch(a)) <= EndianSwap(NtpTimeEpochFromNtTimeEpoch(b))
  {
    var x, y := a - NTPTIMEOFFSET, b - NTPTIMEOFFSET;
    WrapSmall(x);
    WrapSmall(y);
    NtpTimeIsWhole(a);
    NtpTimeIsWhole(b);
    RoundedBack(x);
    RoundedBack(y);
    WrapSmall(x * TWO25 / FIVETOTHESEVETH);
    WrapSmall(y * TWO25 / FIVETOTHESEVETH);
    DivMonotone(x * TWO25, y * TWO25);
    hide EndianSwap, NtpTimeEpochFromNtTimeEpoch, Wrap;
  }

  // ---------------------------------------------------------- the SNTP offset

  /** The two's-complement reading of a word. */
  function Signed(x: Word64): int {
    if x < TWO63 then x else x - TWO64
  }

  /** Division of C, which cuts towards zero. */
  function HalfOf(x: int): int {
    if x >= 0 then x / 2 else -(-x / 2)
  }

  /** llOffset of RefreshTimeFromServer, from the four stamps of an exchange. */
  function Offset(t1: Word64, t2: Word64, t3: Word64, t4: Word64): int {
    HalfOf(Signed(Wrap(Wrap(NtTimeEpochFromNtpTimeEpoch(t2) - NtTimeEpochFromNtpTimeEpoch(t1)) +
                       Wrap(NtTimeEpochFromNtpTimeEpoch(t3) - NtTimeEpochFromNtpTimeEpoch(t4)))))
  }

  lemma WrapSum(a: int, b: int)
    ensures Wrap(Wrap(a) + Wrap(b)) == Wrap(a + b)
  {
    var i, j := a / TWO64, b / TWO64;
    assert a == Wrap(a) + i * TWO64 && b == Wrap(b) + j * TWO64;
    WrapMultiple(Wrap(a) + Wrap(b), i + j);
  }

  lemma SignedWrap(x: int)
    requires -TWO63 <= x < TWO63
    ensures Signed(Wrap(x)) == x
  {
    if x < 0 { WrapMultiple(x, 1); }
  }

  /** The client sends at `sent` and hears at `heard`, by its own clock; the server, whose clock
      is ahead by `theta`, stamps the request after a delay `a` and answers a delay `b` before the
      client hears. The computed offset misses theta by at most half of what the delays differ,
      and half a tick. */
  lemma OffsetBound(sent: Word64, t2: Word64, t3: Word64, heard: Word64, theta: int, a: nat, b: nat)
    requires NTPTIMEOFFSET <= sent < NTPTIMEOFFSET + ERA_TICKS && NTPTIMEOFFSET <= heard < NTPTIMEOFFSET + ERA_TICKS
    requires NtTimeEpochFromNtpTimeEpoch(t2) == sent + a + theta
    requires NtTimeEpochFromNtpTimeEpoch(t3) == heard - b + theta
    ensures var miss := Offset(NtpTimeEpochFromNtTimeEpoch(sent), t2, t3, NtpTimeEpochFromNtTimeEpoch(heard)) - theta;
            var skew := if a >= b then a - b else b - a;
            -(skew + 1) <= 2 * miss <= skew + 1
  {
    hide NtTimeEpochFromNtpTimeEpoch, NtpTimeEpochFromNtTimeEpoch, Wrap, Signed, HalfOf;
    ClientStamp(sent);
    ClientStamp(heard);
    WrapSum(a + theta, theta - b);
    InEra(t2);
    InEra(t3);
    SignedWrap((a + theta) + (theta - b));
    HalfMisses(theta, a - b);
  }

  lemma ClientStamp(te: Word64)
    requires NTPTIMEOFFSET <= te < NTPTIMEOFFSET + ERA_TICKS
    ensures NtTimeEpochFromNtpTimeEpoch(NtpTimeEpochFromNtTimeEpoch(te)) == te
  {
    WrapSmall(te - NTPTIMEOFFSET);
    NtRoundTrip(te);
  }

  lemma HalfMisses(theta: int, x: int)
    ensures var miss := HalfOf(theta + theta + x) - theta;
            var skew := if x >= 0 then x else -x;
            -(skew + 1) <= 2 * miss <= skew + 1
  {
  }

  lemma InEra(te: Word64)
    ensures NTPTIMEOFFSET <= NtTimeEpochFromNtpTimeEpoch(te) <= NTPTIMEOFFSET + ERA_TICKS
  {
    NtTimeIsExact(te);
    var d, q := UnitsMoved(EndianSwap(te));
    hide EndianSwap, NtTimeEpochFromNtpTimeEpoch;
  }
}
