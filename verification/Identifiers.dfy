/**
 Observation ids: UUID version 7 (sections 4 and 5.7 of RFC 9562), 48 bits of
 Unix milliseconds followed by random bits, in lower-case hexadecimal.
 */
module Identifiers {
  import opened Wrappers
  import opened Collation
  import opened Calendar
  import opened Timestamps

  const STAMP_LIMIT := 0x1_0000_0000_0000

  function HexDigit(n: nat): char
    requires n < 16
  {
    if n < 10 then ('0' as int + n) as char else ('a' as int + n - 10) as char
  }

  function HexPair(v: bv8): (s: string)
    ensures |s| == 2
  {
    [HexDigit((v >> 4) as nat), HexDigit((v & 0x0f) as nat)]
  }

  function Hex(octets: seq<bv8>): (s: string)
    ensures |s| == 2 * |octets|
  {
    if octets == [] then "" else Hex(octets[..|octets| - 1]) + HexPair(octets[|octets| - 1])
  }

  /** The low octet of `ms` shifted right, where `scale` is the power of two shifted by. */
  function Octet(ms: int, scale: nat): bv8
    requires scale > 0
  {
    (ms / scale % 256) as bv8
  }

  function StampOctets(ms: int): (s: seq<bv8>)
    ensures |s| == 6
  {
    [Octet(ms, 0x100_0000_0000), Octet(ms, 0x1_0000_0000), Octet(ms, 0x100_0000),
     Octet(ms, 0x1_0000), Octet(ms, 0x100), Octet(ms, 1)]
  }

  /** The sixteen octets: the stamp, then the random octets with version and variant written over them. */
  function Octets(ms: int, random: seq<bv8>): (s: seq<bv8>)
    requires |random| == 10
    ensures |s| == 16
  {
    StampOctets(ms) + [(random[0] & 0x0f) | 0x70, random[1], (random[2] & 0x3f) | 0x80] + random[3..]
  }

  /** The 8-4-4-4-12 text of sixteen octets. */
  function Render(o: seq<bv8>): (s: string)
    requires |o| == 16
    ensures |s| == 36
  {
    Hex(o[0..4]) + "-" + Hex(o[4..6]) + "-" + Hex(o[6..8]) + "-" + Hex(o[8..10]) + "-" + Hex(o[10..16])
  }

  function Uuid(ms: int, random: seq<bv8>): (s: string)
    requires |random| == 10
    ensures |s| == 36
  {
    Render(Octets(ms, random))
  }

  // ---------- The minting procedure ----------

  lemma {:induction false} HexAt(octets: seq<bv8>, i: nat)
    requires i < |octets|
    ensures Hex(octets)[2 * i..2 * i + 2] == HexPair(octets[i])
  {
    var last := |octets| - 1;
    if i < last {
      HexAt(octets[..last], i);
      assert Hex(octets)[2 * i..2 * i + 2] == Hex(octets[..last])[2 * i..2 * i + 2];
    }
  }

  lemma HexFromPairs(octets: seq<bv8>, text: string)
    requires |text| == 2 * |octets|
    requires forall i :: 0 <= i < |octets| ==> text[2 * i] == HexPair(octets[i])[0] && text[2 * i + 1] == HexPair(octets[i])[1]
    ensures text == Hex(octets)
  {
    forall k | 0 <= k < |text|
      ensures text[k] == Hex(octets)[k]
    {
      HexAt(octets, k / 2);
      assert Hex(octets)[k] == Hex(octets)[2 * (k / 2)..2 * (k / 2) + 2][k % 2];
    }
  }

  /** Go's `hex.Encode`: writes the digits of `octets` into dst from index `at`. */
  method HexEncode(dst: array<char>, at: nat, octets: seq<bv8>)
    requires at + 2 * |octets| <= dst.Length
    modifies dst
    ensures dst[at..at + 2 * |octets|] == Hex(octets)
    ensures forall k :: 0 <= k < dst.Length && !(at <= k < at + 2 * |octets|) ==> dst[k] == old(dst[k])
  {
    for n := 0 to |octets|
      invariant forall k :: 0 <= k < dst.Length && !(at <= k < at + 2 * n) ==> dst[k] == old(dst[k])
      invariant forall k :: 0 <= k < n ==> dst[at + 2 * k] == HexPair(octets[k])[0] && dst[at + 2 * k + 1] == HexPair(octets[k])[1]
    {
      var pair := HexPair(octets[n]);
      dst[at + 2 * n] := pair[0];
      dst[at + 2 * n + 1] := pair[1];
    }
    HexFromPairs(octets, dst[at..at + 2 * |octets|]);
  }

  /** The octet array: stamp first, then the random fill, then version and variant over it. */
  method FillOctets(ms: int, random: seq<bv8>) returns (b: array<bv8>)
    requires |random| == 10
    ensures b.Length == 16 && b[..] == Octets(ms, random)
  {
    b := new bv8[16];
    b[0] := Octet(ms, 0x100_0000_0000);
    b[1] := Octet(ms, 0x1_0000_0000);
    b[2] := Octet(ms, 0x100_0000);
    b[3] := Octet(ms, 0x1_0000);
    b[4] := Octet(ms, 0x100);
    b[5] := Octet(ms, 1);
    for i := 6 to 16
      invariant b[..6] == StampOctets(ms)
      invariant forall k :: 6 <= k < i ==> b[k] == random[k - 6]
    {
      b[i] := random[i - 6];
    }
    b[6] := (b[6] & 0x0f) | 0x70;
    b[8] := (b[8] & 0x3f) | 0x80;
  }

  /**
   Mints an id for the given milliseconds. `random` is what the random source
   delivers, or None when reading it fails.
   */
  method NewUuid(ms: int, random: Option<seq<bv8>>) returns (id: Result<string, ()>)
    requires random.Some? ==> |random.value| == 10
    ensures id == if random.Some? then Success(Uuid(ms, random.value)) else Failure(())
  {
    hide HexPair, Hex, StampOctets, Octets, Render;
    if random.None? {
      return Failure(());
    }
    var b := FillOctets(ms, random.value);
    var out := new char[36];
    HexEncode(out, 0, b[0..4]);
    out[8] := '-';
    HexEncode(out, 9, b[4..6]);
    out[13] := '-';
    HexEncode(out, 14, b[6..8]);
    out[18] := '-';
    HexEncode(out, 19, b[8..10]);
    out[23] := '-';
    HexEncode(out, 24, b[10..16]);
    DashedText(out[..], Octets(ms, random.value));
    return Success(out[..]);
  }

  lemma DashedText(s: string, o: seq<bv8>)
    requires |o| == 16 && |s| == 36 && s[8] == s[13] == s[18] == s[23] == '-'
    requires s[0..8] == Hex(o[0..4]) && s[9..13] == Hex(o[4..6]) && s[14..18] == Hex(o[6..8])
    requires s[19..23] == Hex(o[8..10]) && s[24..36] == Hex(o[10..16])
    ensures s == Render(o)
  {
    assert s == s[0..8] + "-" + s[9..13] + "-" + s[14..18] + "-" + s[19..23] + "-" + s[24..36];
  }

  // ---------- Reading an id back ----------

  function HexValue(c: char): (d: Option<nat>)
    ensures d.Some? ==> d.value < 16
  {
    if '0' <= c <= '9' then Some(c as nat - '0' as nat)
    else if 'a' <= c <= 'f' then Some(c as nat - 'a' as nat + 10)
    else None
  }

  function FromDigits(hi: nat, lo: nat): bv8
    requires hi < 16 && lo < 16
  {
    (16 * hi + lo) as bv8
  }

  /** The octets a hexadecimal text spells. */
  function Unhex(s: string): Option<seq<bv8>> {
    if s == "" then Some([])
    else if |s| == 1 then None
    else
      match (Unhex(s[..|s| - 2]), HexValue(s[|s| - 2]), HexValue(s[|s| - 1]))
      case (Some(front), Some(hi), Some(lo)) => Some(front + [FromDigits(hi, lo)])
      case _ => None
  }

  /** The octets of an id in the 8-4-4-4-12 form. */
  function ParseUuid(s: string): Option<seq<bv8>> {
    if |s| == 36 && s[8] == s[13] == s[18] == s[23] == '-'
    then Unhex(s[0..8] + s[9..13] + s[14..18] + s[19..23] + s[24..36])
    else None
  }

  /** The number spelt by octets, most significant first. */
  function Number(octets: seq<bv8>): nat {
    if octets == [] then 0 else 256 * Number(octets[..|octets| - 1]) + octets[|octets| - 1] as nat
  }

  /** The random octets without the six bits that version and variant overwrite. */
  function Survivors(random: seq<bv8>): seq<bv8>
    requires |random| == 10
  {
    random[0 := random[0] & 0x0f][2 := random[2] & 0x3f]
  }

  datatype Decoded = Decoded(stamp: nat, random: seq<bv8>)

  /** The stamp and random bits of a version 7 UUID of the RFC 9562 variant. */
  function Decode(s: string): Option<Decoded> {
    match ParseUuid(s)
    case None => None
    case Some(o) =>
      if |o| == 16 && o[6] & 0xf0 == 0x70 && o[8] & 0xc0 == 0x80
      then Some(Decoded(Number(o[..6]), Survivors(o[6..])))
      else None
  }

  lemma Nibbles(v: bv8)
    ensures (v >> 4) as nat == v as nat / 16 && (v & 0x0f) as nat == v as nat % 16
  {
  }

  lemma FromNibbles(v: bv8)
    ensures FromDigits(v as nat / 16, v as nat % 16) == v
  {
  }

  lemma HexDigitRead(n: nat)
    requires n < 16
    ensures HexValue(HexDigit(n)) == Some(n)
  {
  }

  lemma HexPairRead(v: bv8)
    ensures
      var hi, lo := HexValue(HexPair(v)[0]), HexValue(HexPair(v)[1]);
      hi.Some? && lo.Some? && FromDigits(hi.value, lo.value) == v
  {
    hide FromDigits, HexValue, HexDigit;
    Nibbles(v);
    FromNibbles(v);
    HexDigitRead(v as nat / 16);
    HexDigitRead(v as nat % 16);
  }

  lemma UnhexStep(s: string, front: seq<bv8>, v: bv8)
    requires Unhex(s) == Some(front)
    ensures Unhex(s + HexPair(v)) == Some(front + [v])
  {
    HexPairRead(v);
    var t, pair := s + HexPair(v), HexPair(v);
    assert t[..|t| - 2] == s && t[|t| - 2] == pair[0] && t[|t| - 1] == pair[1];
  }

  lemma UnhexNothing()
    ensures Unhex("") == Some([])
  {
  }

  lemma {:induction false} UnhexHex(octets: seq<bv8>)
    ensures Unhex(Hex(octets)) == Some(octets)
  {
    hide Unhex, HexPair;
    UnhexNothing();
    if octets != [] {
      var last := |octets| - 1;
      UnhexHex(octets[..last]);
      UnhexStep(Hex(octets[..last]), octets[..last], octets[last]);
      assert octets == octets[..last] + [octets[last]];
    }
  }

  lemma {:induction false} HexConcat(a: seq<bv8>, b: seq<bv8>)
    ensures Hex(a + b) == Hex(a) + Hex(b)
  {
    if b == [] {
      assert a + b == a;
    } else {
      var last := |b| - 1;
      HexConcat(a, b[..last]);
      assert (a + b)[..|a + b| - 1] == a + b[..last];
      assert Hex(a) + (Hex(b[..last]) + HexPair(b[last])) == (Hex(a) + Hex(b[..last])) + HexPair(b[last]);
    }
  }

  lemma DashedParts(a: string, b: string, c: string, d: string, e: string, s: string)
    requires |a| == 8 && |b| == |c| == |d| == 4 && |e| == 12
    requires s == a + "-" + b + "-" + c + "-" + d + "-" + e
    ensures |s| == 36 && s[8] == s[13] == s[18] == s[23] == '-'
    ensures s[0..8] == a && s[9..13] == b && s[14..18] == c && s[19..23] == d && s[24..36] == e
  {
  }

  lemma ParseRender(o: seq<bv8>)
    requires |o| == 16
    ensures ParseUuid(Render(o)) == Some(o)
  {
    var a, b, c, d, e := o[0..4], o[4..6], o[6..8], o[8..10], o[10..16];
    DashedParts(Hex(a), Hex(b), Hex(c), Hex(d), Hex(e), Render(o));
    HexConcat(a, b);
    HexConcat(a + b, c);
    HexConcat(a + b + c, d);
    HexConcat(a + b + c + d, e);
    assert a + b + c + d + e == o;
    UnhexHex(o);
  }

  /** Shifting by eight bits more is shifting by eight bits once more. */
  lemma NestedQuotient(m: int, k: int)
    requires k in {0x1, 0x100, 0x1_0000, 0x100_0000, 0x1_0000_0000, 0x100_0000_0000}
    ensures m / k == 256 * (m / (256 * k)) + m / k % 256
  {
    if k == 0x1 {
    } else if k == 0x100 {
    } else if k == 0x1_0000 {
    } else if k == 0x100_0000 {
    } else if k == 0x1_0000_0000 {
    } else {
    }
  }

  lemma QuotientChain(ms: int)
    ensures
      var q1 := ms / 0x100; var q2 := ms / 0x1_0000; var q3 := ms / 0x100_0000;
      var q4 := ms / 0x1_0000_0000; var q5 := ms / 0x100_0000_0000; var q6 := ms / STAMP_LIMIT;
      && ms == 256 * q1 + ms % 256 && q1 == 256 * q2 + q1 % 256 && q2 == 256 * q3 + q2 % 256
      && q3 == 256 * q4 + q3 % 256 && q4 == 256 * q5 + q4 % 256 && q5 == 256 * q6 + q5 % 256
  {
    NestedQuotient(ms, 0x1);
    NestedQuotient(ms, 0x100);
    NestedQuotient(ms, 0x1_0000);
    NestedQuotient(ms, 0x100_0000);
    NestedQuotient(ms, 0x1_0000_0000);
    NestedQuotient(ms, 0x100_0000_0000);
  }

  lemma OctetValue(ms: int, scale: nat)
    requires scale > 0
    ensures Octet(ms, scale) as int == ms / scale % 256
  {
    SmallAsOctet(ms / scale % 256);
  }

  lemma {:induction false} SmallAsOctet(n: int)
    requires 0 <= n < 256
    ensures n as bv8 as int == n
    decreases n
  {
    if n > 0 {
      SmallAsOctet(n - 1);
      NextOctet((n - 1) as bv8);
    }
  }

  lemma NextOctet(b: bv8)
    requires b as int < 255
    ensures (b as int + 1) as bv8 as int == b as int + 1
  {
    var c := b + 1;
    assert c as int == b as int + 1;
    assert c as int as bv8 == c;
  }

  lemma {:induction false} NumberSnoc(front: seq<bv8>, v: bv8)
    ensures Number(front + [v]) == 256 * Number(front) + v as nat
  {
    assert (front + [v])[..|front|] == front;
  }

  lemma NumberPrefix(o: seq<bv8>, k: nat)
    requires k < |o|
    ensures Number(o[..k + 1]) == 256 * Number(o[..k]) + o[k] as nat
  {
    NumberSnoc(o[..k], o[k]);
    assert o[..k + 1] == o[..k] + [o[k]];
  }

  lemma NumberOfTwo(a: bv8, b: bv8)
    ensures Number([a, b]) == 256 * a as nat + b as nat
  {
    NumberSnoc([], a);
    NumberSnoc([a], b);
    assert [] + [a] == [a];
  }

  lemma RemainderIs(n: int, k: int, q: int, r: int)
    requires k == 0x1_0000_0000 || k == STAMP_LIMIT
    requires n == k * q + r && 0 <= r < k
    ensures n % k == r
  {
  }

  lemma StampNumber(ms: int)
    ensures Number(StampOctets(ms)[..4]) == ms / 0x1_0000 % 0x1_0000_0000
    ensures Number(StampOctets(ms)[4..]) == ms % 0x1_0000
    ensures Number(StampOctets(ms)) == ms % STAMP_LIMIT
  {
    var o := StampOctets(ms);
    hide Number, Octet;
    NumberOfTwo(o[0], o[1]);
    NumberOfTwo(o[4], o[5]);
    assert o[..2] == [o[0], o[1]] && o[4..] == [o[4], o[5]];
    NumberPrefix(o, 2);
    NumberPrefix(o, 3);
    NumberPrefix(o, 4);
    NumberPrefix(o, 5);
    assert o[..6] == o;
    OctetValues(ms);
    StampArithmetic(ms, o[0] as int, o[1] as int, o[2] as int, o[3] as int, o[4] as int, o[5] as int);
  }

  lemma OctetValues(ms: int)
    ensures
      var o := StampOctets(ms);
      && o[0] as int == ms / 0x100_0000_0000 % 256 && o[1] as int == ms / 0x1_0000_0000 % 256
      && o[2] as int == ms / 0x100_0000 % 256 && o[3] as int == ms / 0x1_0000 % 256
      && o[4] as int == ms / 0x100 % 256 && o[5] as int == ms % 256
  {
    OctetValue(ms, 0x100_0000_0000);
    OctetValue(ms, 0x1_0000_0000);
    OctetValue(ms, 0x100_0000);
    OctetValue(ms, 0x1_0000);
    OctetValue(ms, 0x100);
    OctetValue(ms, 1);
  }

  lemma StampArithmetic(ms: int, a: int, b: int, c: int, d: int, e: int, f: int)
    requires a == ms / 0x100_0000_0000 % 256 && b == ms / 0x1_0000_0000 % 256
    requires c == ms / 0x100_0000 % 256 && d == ms / 0x1_0000 % 256
    requires e == ms / 0x100 % 256 && f == ms % 256
    ensures 256 * (256 * (256 * a + b) + c) + d == ms / 0x1_0000 % 0x1_0000_0000
    ensures 256 * e + f == ms % 0x1_0000
    ensures 256 * (256 * (256 * (256 * (256 * a + b) + c) + d) + e) + f == ms % STAMP_LIMIT
  {
    QuotientChain(ms);
    var q := ms / STAMP_LIMIT;
    RemainderIs(ms / 0x1_0000, 0x1_0000_0000, q, 256 * (256 * (256 * a + b) + c) + d);
    RemainderIs(ms, STAMP_LIMIT, q, 256 * (256 * (256 * (256 * (256 * a + b) + c) + d) + e) + f);
  }

  /**
   An id can be taken apart: the stamp modulo 2^48 and the 74 random bits that
   were not overwritten come back, and version and variant are always right.
   */
  lemma DecodeUuid(ms: int, random: seq<bv8>)
    requires |random| == 10
    ensures Decode(Uuid(ms, random)) == Some(Decoded(ms % STAMP_LIMIT, Survivors(random)))
    ensures Uuid(ms, random)[14] == '7' && Uuid(ms, random)[19] in "89ab"
  {
    var o := Octets(ms, random);
    ParseRender(o);
    StampNumber(ms);
    assert o[..6] == StampOctets(ms);
    Overwritten(random[0], random[2]);
    SurvivorsKept(o[6..], random);
    hide StampOctets, Number, Survivors, Render, ParseUuid;
    VersionDigits(o);
  }

  lemma SurvivorsKept(o: seq<bv8>, random: seq<bv8>)
    requires |o| == |random| == 10
    requires o[0] == (random[0] & 0x0f) | 0x70 && o[2] == (random[2] & 0x3f) | 0x80
    requires o[1] == random[1] && o[3..] == random[3..]
    ensures Survivors(o) == Survivors(random)
  {
    Overwritten(random[0], random[2]);
    forall i | 3 <= i < 10
      ensures o[i] == random[i]
    {
      assert o[i] == o[3..][i - 3] && random[i] == random[3..][i - 3];
    }
  }

  lemma Overwritten(a: bv8, b: bv8)
    ensures ((a & 0x0f) | 0x70) & 0xf0 == 0x70 && ((a & 0x0f) | 0x70) & 0x0f == a & 0x0f
    ensures ((b & 0x3f) | 0x80) & 0xc0 == 0x80 && ((b & 0x3f) | 0x80) & 0x3f == b & 0x3f
  {
  }

  lemma VersionDigits(o: seq<bv8>)
    requires |o| == 16 && o[6] & 0xf0 == 0x70 && o[8] & 0xc0 == 0x80
    ensures Render(o)[14] == '7' && Render(o)[19] in "89ab"
  {
    HexAt(o[6..8], 0);
    HexAt(o[8..10], 0);
    assert Render(o)[14] == Hex(o[6..8])[0..2][0] && Render(o)[19] == Hex(o[8..10])[0..2][0];
    assert (o[6] >> 4) as nat == 7;
    assert 8 <= (o[8] >> 4) as nat <= 11;
  }

  /** Two ids are equal only if their stamps and surviving bits are. */
  lemma UuidEquality(ms: int, random: seq<bv8>, ms': int, random': seq<bv8>)
    requires |random| == |random'| == 10
    ensures Uuid(ms, random) == Uuid(ms', random')
       <==> ms % STAMP_LIMIT == ms' % STAMP_LIMIT && Survivors(random) == Survivors(random')
  {
    DecodeUuid(ms, random);
    DecodeUuid(ms', random');
    if ms % STAMP_LIMIT == ms' % STAMP_LIMIT && Survivors(random) == Survivors(random') {
      StampOctetsOfRemainder(ms);
      StampOctetsOfRemainder(ms');
      var s, s' := Survivors(random), Survivors(random');
      assert random[0] & 0x0f == s[0] == random'[0] & 0x0f && random[2] & 0x3f == s[2] == random'[2] & 0x3f;
      assert random[1] == s[1] == random'[1];
      assert random[3..] == s[3..] == random'[3..];
    }
  }

  lemma {:induction false} NumberIsInjective(a: seq<bv8>, b: seq<bv8>)
    requires |a| == |b| && Number(a) == Number(b)
    ensures a == b
  {
    if a != [] {
      var last := |a| - 1;
      NumberIsInjective(a[..last], b[..last]);
      assert a == a[..last] + [a[last]] && b == b[..last] + [b[last]];
    }
  }

  lemma RemainderTwice(ms: int)
    ensures ms % STAMP_LIMIT % STAMP_LIMIT == ms % STAMP_LIMIT
  {
  }

  lemma StampOctetsOfRemainder(ms: int)
    ensures StampOctets(ms) == StampOctets(ms % STAMP_LIMIT)
  {
    RemainderTwice(ms);
    hide StampOctets, Number;
    StampNumber(ms);
    StampNumber(ms % STAMP_LIMIT);
    NumberIsInjective(StampOctets(ms), StampOctets(ms % STAMP_LIMIT));
  }

  // ---------- Order ----------

  lemma HexPairOrder(a: bv8, b: bv8)
    requires a as nat < b as nat
    ensures Less(HexPair(a), HexPair(b))
  {
    Nibbles(a);
    Nibbles(b);
    var x, y := HexPair(a), HexPair(b);
    if a as nat / 16 == b as nat / 16 {
      assert Less(x[1..], y[1..]);
    }
  }

  /** Equally many octets compare in hexadecimal as the numbers they spell. */
  lemma {:induction false} HexOrder(a: seq<bv8>, b: seq<bv8>)
    requires |a| == |b| && Number(a) < Number(b)
    ensures Less(Hex(a), Hex(b))
  {
    var last := |a| - 1;
    if Number(a[..last]) < Number(b[..last]) {
      HexOrder(a[..last], b[..last]);
    } else {
      NumberIsInjective(a[..last], b[..last]);
      HexPairOrder(a[last], b[last]);
    }
    LessConcat(Hex(a[..last]), HexPair(a[last]), Hex(b[..last]), HexPair(b[last]));
  }

  /** An id with a smaller stamp is a smaller string, whatever the random bits. */
  lemma UuidOrder(ms: int, random: seq<bv8>, ms': int, random': seq<bv8>)
    requires |random| == |random'| == 10
    requires ms % STAMP_LIMIT < ms' % STAMP_LIMIT
    ensures Less(Uuid(ms, random), Uuid(ms', random'))
  {
    var a, b := StampOctets(ms), StampOctets(ms');
    var o, p := Octets(ms, random), Octets(ms', random');
    assert o[0..4] == a[..4] && o[4..6] == a[4..] && p[0..4] == b[..4] && p[4..6] == b[4..];
    StampNumber(ms);
    StampNumber(ms');
    StampHalves(ms);
    StampHalves(ms');
    if Number(a[..4]) < Number(b[..4]) {
      HexOrder(a[..4], b[..4]);
    } else {
      NumberIsInjective(a[..4], b[..4]);
      HexOrder(a[4..], b[4..]);
    }
    LessDashed(Hex(a[..4]), Hex(a[4..]), DashedTail(o), Hex(b[..4]), Hex(b[4..]), DashedTail(p));
    RenderSplit(o);
    RenderSplit(p);
  }

  function DashedTail(o: seq<bv8>): string
    requires |o| == 16
  {
    "-" + Hex(o[6..8]) + "-" + Hex(o[8..10]) + "-" + Hex(o[10..16])
  }

  lemma RenderSplit(o: seq<bv8>)
    requires |o| == 16
    ensures Render(o) == Hex(o[0..4]) + "-" + (Hex(o[4..6]) + DashedTail(o))
  {
  }

  lemma LessDashed(a: string, x: string, s: string, b: string, y: string, t: string)
    requires |a| == |b| && |x| == |y|
    requires Less(a, b) || (a == b && Less(x, y))
    ensures Less(a + "-" + (x + s), b + "-" + (y + t))
  {
    LessFields(a, "-", x + s, b, y + t);
    LessConcat(x, s, y, t);
  }

  lemma StampHalves(ms: int)
    ensures ms % STAMP_LIMIT == 0x1_0000 * (ms / 0x1_0000 % 0x1_0000_0000) + ms % 0x1_0000
  {
    var h, l := ms / 0x1_0000, ms % 0x1_0000;
    var q, m := h / 0x1_0000_0000, h % 0x1_0000_0000;
    assert h == 0x1_0000_0000 * q + m && ms == 0x1_0000 * h + l;
    RemainderIs(ms, STAMP_LIMIT, q, 0x1_0000 * m + l);
  }

  // ---------- Ids against timestamps ----------

  /** The millisecond counts of the years 0 to 9999 and, among them, of 1970 onwards. */
  lemma LayoutMillis(t: Instant)
    requires InLayoutRange(t)
    ensures -STAMP_LIMIT < Millis(t) < STAMP_LIMIT
    ensures 0 <= Millis(t) <==> 1970 <= Year(t)
  {
    SplitMillis(t);
    YearOfHoldsDay(DayOfSecond(t / NANOS_PER_SECOND));
    DayBounds(DayOfSecond(t / NANOS_PER_SECOND), Year(t));
  }

  lemma DayBounds(n: int, year: int)
    requires 0 <= year <= 9999 && DaysBeforeYear(year) <= n < DaysBeforeYear(year + 1)
    ensures -366 <= n < 3652059
    ensures UNIX_DAY <= n <==> 1970 <= year
  {
    assert DaysBeforeYear(1970) == UNIX_DAY && DaysBeforeYear(10000) == 3652059 && DaysBeforeYear(0) == -366;
    DaysBeforeYearIsMonotone(0, year);
    DaysBeforeYearIsMonotone(year + 1, 10000);
    if 1970 <= year {
      DaysBeforeYearIsMonotone(1970, year);
    } else {
      DaysBeforeYearIsMonotone(year + 1, 1970);
    }
  }

  /**
   Ids sort like the timestamps beside them for all instants from 1970 on, and
   for all before it. Across the epoch they sort the other way round, unless
   the instants are further apart than the stamp can count.
   */
  lemma IdOrderAgrees(s: Instant, random: seq<bv8>, t: Instant, random': seq<bv8>)
    requires |random| == |random'| == 10
    requires InLayoutRange(s) && InLayoutRange(t)
    requires Less(FormatTime(s), FormatTime(t))
    ensures (1970 <= Year(s) <==> 1970 <= Year(t)) ==> Less(Uuid(Millis(s), random), Uuid(Millis(t), random'))
    ensures Year(s) < 1970 <= Year(t) && Millis(t) - Millis(s) < STAMP_LIMIT
        ==> Less(Uuid(Millis(t), random'), Uuid(Millis(s), random))
    ensures Millis(t) - Millis(s) > STAMP_LIMIT ==> Less(Uuid(Millis(s), random), Uuid(Millis(t), random'))
  {
    hide FormatTime, InLayoutRange, Year, Less, Uuid;
    FormatTimeOrder(s, t);
    LayoutMillis(s);
    LayoutMillis(t);
    var m, n := Millis(s), Millis(t);
    StampRemainder(m);
    StampRemainder(n);
    if m % STAMP_LIMIT < n % STAMP_LIMIT {
      UuidOrder(m, random, n, random');
    } else if n % STAMP_LIMIT < m % STAMP_LIMIT {
      UuidOrder(n, random', m, random);
    }
  }

  /**
   Of two stored timestamps the earlier has the smaller id, whatever the random
   bits, exactly when both lie on the same side of 1970 or they are further
   apart than the stamp can count. At exactly that distance the random bits decide.
   */
  lemma IdOrderExactly(s: Instant, t: Instant)
    requires InLayoutRange(s) && InLayoutRange(t)
    requires Less(FormatTime(s), FormatTime(t))
    ensures
      (forall a: seq<bv8>, b: seq<bv8> :: |a| == 10 && |b| == 10 ==> Less(Uuid(Millis(s), a), Uuid(Millis(t), b)))
      <==> (1970 <= Year(s) <==> 1970 <= Year(t)) || Millis(t) - Millis(s) > STAMP_LIMIT
  {
    hide FormatTime, InLayoutRange, Year, Less, Uuid;
    if (1970 <= Year(s) <==> 1970 <= Year(t)) || Millis(t) - Millis(s) > STAMP_LIMIT {
      forall a: seq<bv8>, b: seq<bv8> | |a| == 10 && |b| == 10
        ensures Less(Uuid(Millis(s), a), Uuid(Millis(t), b))
      {
        IdOrderAgrees(s, a, t, b);
      }
    } else {
      var a := seq(10, i => 0 as bv8);
      IdOrderFails(s, t, a);
    }
  }

  /** Across 1970 and no further apart than the stamp can count, equal random bits give no smaller id. */
  lemma IdOrderFails(s: Instant, t: Instant, a: seq<bv8>)
    requires InLayoutRange(s) && InLayoutRange(t) && |a| == 10
    requires Less(FormatTime(s), FormatTime(t))
    requires !(1970 <= Year(s) <==> 1970 <= Year(t)) && Millis(t) - Millis(s) <= STAMP_LIMIT
    ensures !Less(Uuid(Millis(s), a), Uuid(Millis(t), a))
  {
    hide FormatTime, InLayoutRange, Year, Less, Uuid;
    FormatTimeOrder(s, t);
    LayoutMillis(s);
    LayoutMillis(t);
    StampRemainder(Millis(s));
    StampRemainder(Millis(t));
    if Millis(t) - Millis(s) < STAMP_LIMIT {
      IdOrderAgrees(s, a, t, a);
      LessIsTotal(Uuid(Millis(t), a), Uuid(Millis(s), a));
    } else {
      UuidEquality(Millis(s), a, Millis(t), a);
      LessIsIrreflexive(Uuid(Millis(s), a));
    }
  }

  /** The last millisecond before 1970 and the first of it: every id of the earlier is the larger. */
  lemma IdOrderFailsAtEpoch(a: seq<bv8>, b: seq<bv8>)
    requires |a| == |b| == 10
    ensures Less(FormatTime(-NANOS_PER_MILLI), FormatTime(0))
    ensures Less(Uuid(Millis(0), b), Uuid(Millis(-NANOS_PER_MILLI), a))
  {
    EpochYears();
    hide FormatTime, InLayoutRange, Year, Less, Uuid;
    FormatTimeOrder(-NANOS_PER_MILLI, 0);
    IdOrderAgrees(-NANOS_PER_MILLI, a, 0, b);
  }

  lemma EpochYears()
    ensures Year(-NANOS_PER_MILLI) == 1969 && Year(0) == 1970
    ensures InLayoutRange(-NANOS_PER_MILLI) && InLayoutRange(0)
    ensures Millis(-NANOS_PER_MILLI) == -1 && Millis(0) == 0
  {
    assert -NANOS_PER_MILLI / NANOS_PER_SECOND == -1;
    assert YearOf(DayOfSecond(-1)) == 1969 && YearOf(DayOfSecond(0)) == 1970;
  }

  /**
   From 1970 on, the pair (recorded_at, id) is ordered by the id alone, even
   where several ids share one millisecond.
   */
  lemma KeyOrderIsIdOrder(s: Instant, random: seq<bv8>, t: Instant, random': seq<bv8>)
    requires |random| == |random'| == 10
    requires InLayoutRange(s) && InLayoutRange(t) && 1970 <= Year(s) && 1970 <= Year(t)
    ensures
      var (at, id), (at', id') := (FormatTime(s), Uuid(Millis(s), random)), (FormatTime(t), Uuid(Millis(t), random'));
      Less(at, at') || (at == at' && Less(id, id')) <==> Less(id, id')
  {
    hide FormatTime, InLayoutRange, Year, Less, Uuid;
    var at, at' := FormatTime(s), FormatTime(t);
    LessIsTotal(at, at');
    LessIsTotal(Uuid(Millis(s), random), Uuid(Millis(t), random'));
    if Less(at, at') {
      IdOrderAgrees(s, random, t, random');
    } else if Less(at', at) {
      IdOrderAgrees(t, random', s, random);
    }
  }

  lemma StampRemainder(ms: int)
    requires -STAMP_LIMIT < ms < STAMP_LIMIT
    ensures ms % STAMP_LIMIT == if ms < 0 then ms + STAMP_LIMIT else ms
  {
  }

  /** An id starts and ends with a hexadecimal digit. */
  lemma UuidEnds(ms: int, random: seq<bv8>)
    requires |random| == 10
    ensures HexValue(Uuid(ms, random)[0]).Some? && HexValue(Uuid(ms, random)[35]).Some?
  {
    var o := Octets(ms, random);
    HexAt(o[0..4], 0);
    HexAt(o[10..16], 5);
    HexPairRead(o[0..4][0]);
    HexPairRead(o[10..16][5]);
    assert Render(o)[0] == Hex(o[0..4])[0..2][0] && Render(o)[35] == Hex(o[10..16])[10..12][1];
  }

  lemma HexTwo(a: bv8, b: bv8)
    ensures Hex([a, b]) == HexPair(a) + HexPair(b)
  {
    assert [a, b][..1] == [a] && [a][..0] == [];
    assert Hex([a]) == "" + HexPair(a);
  }

  lemma ExamplePairs()
    ensures HexPair(0x01) == "01" && HexPair(0x7F) == "7f" && HexPair(0x22) == "22" && HexPair(0xE2) == "e2"
    ensures HexPair(0x79) == "79" && HexPair(0xB0) == "b0" && HexPair(0x7C) == "7c" && HexPair(0xC3) == "c3"
    ensures HexPair(0x98) == "98" && HexPair(0xC4) == "c4" && HexPair(0xDC) == "dc" && HexPair(0x0C) == "0c"
    ensures HexPair(0x07) == "07" && HexPair(0x39) == "39" && HexPair(0x8F) == "8f"
  {
  }

  lemma ExampleStamp()
    ensures StampOctets(0x017F22E279B0) == [0x01, 0x7F, 0x22, 0xE2, 0x79, 0xB0]
  {
    hide StampOctets;
    var o := StampOctets(0x017F22E279B0);
    OctetValues(0x017F22E279B0);
    ExampleBytes();
    SameOctet(o[0], 0x01);
    SameOctet(o[1], 0x7F);
    SameOctet(o[2], 0x22);
    SameOctet(o[3], 0xE2);
    SameOctet(o[4], 0x79);
    SameOctet(o[5], 0xB0);
  }

  lemma ExampleBytes()
    ensures 0x017F22E279B0 / 0x100_0000_0000 % 256 == 0x01 && 0x017F22E279B0 / 0x1_0000_0000 % 256 == 0x7F
    ensures 0x017F22E279B0 / 0x100_0000 % 256 == 0x22 && 0x017F22E279B0 / 0x1_0000 % 256 == 0xE2
    ensures 0x017F22E279B0 / 0x100 % 256 == 0x79 && 0x017F22E279B0 % 256 == 0xB0
  {
  }

  lemma SameOctet(v: bv8, w: bv8)
    requires v as int == w as int
    ensures v == w
  {
    assert v as int as bv8 == v && w as int as bv8 == w;
  }

  lemma ExampleNode()
    ensures Hex([0xDC, 0x0C, 0x0C, 0x07, 0x39, 0x8F]) == "dc0c0c07398f"
  {
    hide Hex, HexPair;
    ExamplePairs();
    var node: seq<bv8> := [0xDC, 0x0C, 0x0C, 0x07, 0x39, 0x8F];
    assert node == [0xDC, 0x0C] + ([0x0C, 0x07] + [0x39, 0x8F]);
    HexConcat([0xDC, 0x0C], [0x0C, 0x07] + [0x39, 0x8F]);
    HexConcat([0x0C, 0x07], [0x39, 0x8F]);
    HexTwo(0xDC, 0x0C);
    HexTwo(0x0C, 0x07);
    HexTwo(0x39, 0x8F);
  }

  lemma ExampleFront()
    ensures Hex([0x01, 0x7F, 0x22, 0xE2]) == "017f22e2" && Hex([0x79, 0xB0]) == "79b0"
    ensures Hex([0x7C, 0xC3]) == "7cc3" && Hex([0x98, 0xC4]) == "98c4"
  {
    hide Hex, HexPair;
    ExamplePairs();
    var front: seq<bv8> := [0x01, 0x7F, 0x22, 0xE2];
    assert front == [0x01, 0x7F] + [0x22, 0xE2];
    HexConcat([0x01, 0x7F], [0x22, 0xE2]);
    HexTwo(0x01, 0x7F);
    HexTwo(0x22, 0xE2);
    HexTwo(0x79, 0xB0);
    HexTwo(0x7C, 0xC3);
    HexTwo(0x98, 0xC4);
  }

  lemma ExampleOctets()
    ensures Octets(0x017F22E279B0, [0x0C, 0xC3, 0x18, 0xC4, 0xDC, 0x0C, 0x0C, 0x07, 0x39, 0x8F])
         == [0x01, 0x7F, 0x22, 0xE2] + ([0x79, 0xB0] + ([0x7C, 0xC3] + ([0x98, 0xC4] + [0xDC, 0x0C, 0x0C, 0x07, 0x39, 0x8F])))
  {
    hide StampOctets;
    ExampleStamp();
  }

  lemma AfterFront(a: seq<bv8>, s: seq<bv8>, i: nat, j: nat)
    requires |a| <= i <= j <= |a + s|
    ensures (a + s)[0..|a|] == a && (a + s)[i..j] == s[i - |a|..j - |a|]
  {
  }

  lemma RenderFive(a: seq<bv8>, b: seq<bv8>, c: seq<bv8>, d: seq<bv8>, e: seq<bv8>)
    requires |a| == 4 && |b| == |c| == |d| == 2 && |e| == 6
    ensures Render(a + (b + (c + (d + e)))) == Hex(a) + "-" + Hex(b) + "-" + Hex(c) + "-" + Hex(d) + "-" + Hex(e)
  {
    hide Hex;
    var u := d + e;
    var v := c + u;
    var w := b + v;
    var o := a + w;
    assert o[0..4] == a && o[4..6] == b by {
      AfterFront(a, w, 4, 6);
      AfterFront(b, v, 2, 2);
    }
    assert o[6..8] == c by {
      AfterFront(a, w, 6, 8);
      AfterFront(b, v, 2, 4);
      AfterFront(c, u, 2, 2);
    }
    assert o[8..10] == d by {
      AfterFront(a, w, 8, 10);
      AfterFront(b, v, 4, 6);
      AfterFront(c, u, 2, 4);
      AfterFront(d, e, 2, 2);
    }
    assert o[10..16] == e by {
      AfterFront(a, w, 10, 16);
      AfterFront(b, v, 6, 12);
      AfterFront(c, u, 4, 10);
      AfterFront(d, e, 2, 8);
      assert e[0..6] == e;
    }
  }

  /** The example of appendix A.6 of RFC 9562. */
  lemma StandardExample()
    ensures Uuid(0x017F22E279B0, [0x0C, 0xC3, 0x18, 0xC4, 0xDC, 0x0C, 0x0C, 0x07, 0x39, 0x8F])
         == "017f22e2-79b0-7cc3-98c4-dc0c0c07398f"
  {
    hide Octets, Hex, Render;
    ExampleOctets();
    ExampleFront();
    ExampleNode();
    RenderFive([0x01, 0x7F, 0x22, 0xE2], [0x79, 0xB0], [0x7C, 0xC3], [0x98, 0xC4], [0xDC, 0x0C, 0x0C, 0x07, 0x39, 0x8F]);
  }
}
