/** The two Internet checksums and the header patch that relies on them (RM/main.c,
    NetworkMonitoringTools/stats_send_ver_test1/get_link_stats.c). Words are read in the order of a
    little-endian host. */
module Checksum {
  import opened Words

  /** The 16-bit word at byte `i`; a last odd byte counts as a low byte. */
  function WordAt(b: Bytes, i: nat): (w: int)
    requires i < |b|
    ensures 0 <= w < TWO_16
  {
    Byte(b, i) + if i + 1 < |b| then 256 * Byte(b, i + 1) else 0
  }

  /** The plain sum of the words from byte `i` on. */
  function SumFrom(b: Bytes, i: nat): (s: int)
    requires i <= |b| + 1
    ensures s >= 0
    decreases |b| + 1 - i
  {
    if i >= |b| then 0 else WordAt(b, i) + SumFrom(b, i + 2)
  }

  function Sum(b: Bytes): (s: int)
    ensures s >= 0
  {
    SumFrom(b, 0)
  }

  lemma {:induction false} SumBound(b: Bytes, i: nat)
    requires i <= |b| + 1
    ensures SumFrom(b, i) <= 65535 * ((|b| + 1 - i) / 2)
    decreases |b| + 1 - i
  {
    if i < |b| {
      SumBound(b, i + 2);
    }
  }

  // ---------- the one's-complement sum ----------

  /** One's-complement addition: the carry out of sixteen bits is added back in. */
  function OnesAdd(x: int, y: int): (z: int)
    requires 0 <= x < TWO_16 && 0 <= y < TWO_16
    ensures 0 <= z < TWO_16
  {
    if x + y < TWO_16 then x + y else x + y - 65535
  }

  /** The one's-complement sum of section 1 of RFC 1071, word after word. */
  function OnesSum(b: Bytes, i: nat): (z: int)
    requires i <= |b| + 1
    ensures 0 <= z < TWO_16
    decreases |b| + 1 - i
  {
    if i >= |b| then 0 else OnesAdd(WordAt(b, i), OnesSum(b, i + 2))
  }

  /** `r` is the sixteen-bit value of one's-complement arithmetic that stands for `s`. */
  ghost predicate StandsFor(r: int, s: int) {
    0 <= r < TWO_16 && s >= 0 && (exists q: nat :: Quotient(r, s, q)) && (r == 0 <==> s == 0)
  }

  predicate Quotient(r: int, s: int, q: nat) {
    s == r + 65535 * q
  }

  lemma StandsForUnique(r: int, t: int, s: int)
    requires StandsFor(r, s) && StandsFor(t, s)
    ensures r == t
  {
    var p: nat, q: nat :| Quotient(r, s, p) && Quotient(t, s, q);
    assert r - t == 65535 * (q - p);
  }

  lemma {:induction false} OnesSumStandsFor(b: Bytes, i: nat)
    requires i <= |b| + 1
    ensures StandsFor(OnesSum(b, i), SumFrom(b, i))
    decreases |b| + 1 - i
  {
    if i >= |b| {
      assert Quotient(0, 0, 0);
    } else {
      OnesSumStandsFor(b, i + 2);
      var q: nat :| Quotient(OnesSum(b, i + 2), SumFrom(b, i + 2), q);
      var x, y := WordAt(b, i), OnesSum(b, i + 2);
      if x + y < TWO_16 {
        assert Quotient(OnesSum(b, i), SumFrom(b, i), q);
      } else {
        assert Quotient(OnesSum(b, i), SumFrom(b, i), q + 1);
      }
    }
  }

  // ---------- folding ----------

  function Fold(s: int): (r: int)
    requires 0 <= s < TWO_32
    ensures 0 <= r <= 131070
  {
    s / TWO_16 + s % TWO_16
  }

  /** `__rte_raw_cksum_reduce`: two folds. */
  function Reduce(s: int): (r: int)
    requires 0 <= s < TWO_32
    ensures 0 <= r < TWO_16
  {
    FoldFits(Fold(s));
    Fold(Fold(s))
  }

  lemma FoldFits(s: int)
    requires 0 <= s <= 131070
    ensures Fold(s) < TWO_16
  {
  }

  lemma FoldStands(s: int)
    requires 0 <= s < TWO_32
    ensures s == Fold(s) + 65535 * (s / TWO_16) && (Fold(s) == 0 <==> s == 0)
  {
  }

  lemma ReduceStandsFor(s: int)
    requires 0 <= s < TWO_32
    ensures StandsFor(Reduce(s), s)
  {
    FoldStands(s);
    FoldStands(Fold(s));
    assert Quotient(Reduce(s), s, s / TWO_16 + Fold(s) / TWO_16);
  }

  // ---------- the DPDK checksum ----------

  /** Longest buffer whose plain sum fits 32 bits whatever it holds. */
  const MAX_UNSIGNED: nat := 131074

  method ReadWord(buf: array<uint8>, i: nat) returns (w: int)
    requires i + 1 < buf.Length
    ensures w == WordAt(buf[..], i)
  {
    var lo: int, hi: int := buf[i], buf[i + 1];
    w := lo + 256 * hi;
  }

  /** `__rte_raw_cksum`: four words a round, then single words, then an odd byte, in wrapping
      32-bit arithmetic. */
  method RawCksum(buf: array<uint8>) returns (sum: int)
    ensures sum == Sum(buf[..]) % TWO_32
  {
    hide SumFrom, WordAt, Add32;
    ghost var b := buf[..];
    sum := 0;
    AddToZero(Sum(b));
    var len := buf.Length;
    var at := 0;
    while len >= 8
      invariant at + len == buf.Length && len >= 0
      invariant 0 <= sum < TWO_32 && Add32(sum, SumFrom(b, at)) == Sum(b) % TWO_32
    {
      FourWords(b, at);
      ghost var start := sum;
      var w0 := ReadWord(buf, at);
      var w1 := ReadWord(buf, at + 2);
      var w2 := ReadWord(buf, at + 4);
      var w3 := ReadWord(buf, at + 6);
      sum := Add32(sum, w0);
      sum := Add32(sum, w1);
      sum := Add32(sum, w2);
      sum := Add32(sum, w3);
      FourAdds(start, w0, w1, w2, w3, SumFrom(b, at + 8));
      len := len - 8;
      at := at + 8;
    }
    while len >= 2
      invariant at + len == buf.Length && len >= 0
      invariant 0 <= sum < TWO_32 && Add32(sum, SumFrom(b, at)) == Sum(b) % TWO_32
    {
      OneWord(b, at);
      var w := ReadWord(buf, at);
      AddTwice(sum, w, SumFrom(b, at + 2));
      sum := Add32(sum, w);
      len := len - 2;
      at := at + 2;
    }
    if len == 1 {
      OneWord(b, at);
      LastByte(b);
      var last: int := buf[at];
      sum := Add32(sum, last);
    } else {
      AddNothing(sum, b);
    }
  }

  lemma AddToZero(s: nat)
    ensures Add32(0, s) == s % TWO_32
  {
  }

  lemma AddNothing(sum: uint32, b: Bytes)
    ensures Add32(sum, SumFrom(b, |b|)) == sum
  {
  }

  lemma OneWord(b: Bytes, i: nat)
    requires i < |b|
    ensures SumFrom(b, i) == WordAt(b, i) + SumFrom(b, i + 2)
  {
  }

  lemma LastByte(b: Bytes)
    requires b != []
    ensures WordAt(b, |b| - 1) == Byte(b, |b| - 1) && SumFrom(b, |b| + 1) == 0
  {
  }

  lemma FourWords(b: Bytes, i: nat)
    requires i + 8 <= |b|
    ensures SumFrom(b, i) == WordAt(b, i) + WordAt(b, i + 2) + WordAt(b, i + 4) + WordAt(b, i + 6) + SumFrom(b, i + 8)
  {
    assert SumFrom(b, i + 4) == WordAt(b, i + 4) + SumFrom(b, i + 6);
  }

  lemma FourAdds(s: uint32, w0: nat, w1: nat, w2: nat, w3: nat, rest: nat)
    ensures Add32(Add32(Add32(Add32(Add32(s, w0), w1), w2), w3), rest) == Add32(s, w0 + w1 + w2 + w3 + rest)
  {
    AddTwice(s, w0, w1);
    AddTwice(s, w0 + w1, w2);
    AddTwice(s, w0 + w1 + w2, w3);
    AddTwice(s, w0 + w1 + w2 + w3, rest);
  }

  /** Two folds of the plain sum give the one's-complement sum. */
  lemma ReduceIsOnesSum(b: Bytes)
    requires |b| <= MAX_UNSIGNED
    ensures SumFrom(b, 0) < TWO_32 && Reduce(SumFrom(b, 0)) == OnesSum(b, 0)
  {
    hide SumFrom, OnesSum, Reduce;
    SumBound(b, 0);
    ReduceStandsFor(SumFrom(b, 0));
    OnesSumStandsFor(b, 0);
    StandsForUnique(Reduce(SumFrom(b, 0)), OnesSum(b, 0), SumFrom(b, 0));
  }

  /** `rte_raw_cksum` computes the one's-complement sum of the buffer. */
  method RteRawCksum(buf: array<uint8>) returns (r: int)
    requires buf.Length <= MAX_UNSIGNED
    ensures r == OnesSum(buf[..], 0)
  {
    hide SumFrom, OnesSum, Reduce;
    var sum := RawCksum(buf);
    ReduceIsOnesSum(buf[..]);
    r := Reduce(sum);
  }

  // ---------- the ping checksum ----------

  /** Longest buffer whose plain sum fits a signed 32-bit integer whatever it holds. */
  const MAX_SIGNED: nat := 65536

  /** The last lines of `cal_chksum`: a fold, an in-place second fold cut to sixteen bits, negation. */
  function Complement(s: int): (r: int)
    requires 0 <= s < 0x8000_0000
    ensures 0 <= r < TWO_16
  {
    var f := Fold(s);
    65535 - (f + f / TWO_16) % TWO_16
  }

  lemma ComplementIsNegatedReduce(s: int)
    requires 0 <= s < 0x8000_0000
    ensures Complement(s) == 65535 - Reduce(s)
  {
    FoldFits(Fold(s));
  }

  /** `cal_chksum`: the complement of the one's-complement sum, without signed overflow. */
  method CalChksum(buf: array<uint8>) returns (r: int)
    requires buf.Length <= MAX_SIGNED
    ensures r == 65535 - OnesSum(buf[..], 0)
  {
    ghost var b := buf[..];
    var nleft := buf.Length;
    var sum := 0;
    var w := 0;
    SumBound(b, 0);
    while nleft > 1
      invariant w + nleft == buf.Length && nleft >= 0
      invariant sum >= 0 && sum + SumFrom(b, w) == Sum(b)
    {
      var word := ReadWord(buf, w);
      sum := sum + word;
      assert sum < 0x8000_0000;
      w := w + 2;
      nleft := nleft - 2;
    }
    if nleft == 1 {
      var last: int := buf[w];
      assert SumFrom(b, w) == last + SumFrom(b, w + 2);
      sum := sum + last;
    }
    r := Complement(sum);
    ComplementIsNegatedReduce(sum);
    ReduceIsOnesSum(b);
  }

  // ---------- filling in a checksum field ----------

  /** The packet with the word at the even position `at` set to `v` in host order. */
  function SetWord(b: Bytes, at: nat, v: int): (r: Bytes)
    requires at + 1 < |b| && 0 <= v < TWO_16
    ensures |r| == |b|
  {
    b[at := v % 256][at + 1 := v / 256]
  }

  lemma {:induction false} SumAfterSet(b: Bytes, at: nat, v: int, i: nat)
    requires at + 1 < |b| && 0 <= v < TWO_16 && at % 2 == 0 && i % 2 == 0 && i <= |b| + 1
    ensures SumFrom(SetWord(b, at, v), i) == SumFrom(b, i) + if i <= at then v - WordAt(b, at) else 0
    decreases |b| + 1 - i
  {
    if i < |b| {
      SumAfterSet(b, at, v, i + 2);
      var r := SetWord(b, at, v);
      assert WordAt(r, i) == if i == at then v else WordAt(b, i);
    }
  }

  /** Summing up the complement: a packet whose field held zero and now holds the complement of its
      one's-complement sum has the one's-complement sum 0xffff. */
  lemma ComplementCloses(b: Bytes, at: nat)
    requires at + 1 < |b| && at % 2 == 0 && WordAt(b, at) == 0
    ensures OnesSum(SetWord(b, at, 65535 - OnesSum(b, 0)), 0) == 65535
  {
    var r := OnesSum(b, 0);
    var b' := SetWord(b, at, 65535 - r);
    SumAfterSet(b, at, 65535 - r, 0);
    OnesSumStandsFor(b, 0);
    OnesSumStandsFor(b', 0);
    var q: nat :| Quotient(r, SumFrom(b, 0), q);
    assert SumFrom(b', 0) == SumFrom(b, 0) + (65535 - r) == 65535 + 65535 * q;
    assert Quotient(65535, SumFrom(b', 0), q);
    StandsForUnique(OnesSum(b', 0), 65535, SumFrom(b', 0));
  }

  /** `pack`: a request whose checksum field is filled in by `cal_chksum` sums up to zero when its
      receiver runs `cal_chksum` over it. */
  method Pack(packet: array<uint8>) returns (check: int)
    requires 8 <= packet.Length <= MAX_SIGNED
    modifies packet
    ensures 0 <= check < TWO_16 && packet[..] == SetWord(old(packet[..])[2 := 0][3 := 0], 2, check)
    ensures 65535 - OnesSum(packet[..], 0) == 0
  {
    packet[2], packet[3] := 0, 0;
    ghost var zeroed := packet[..];
    check := CalChksum(packet);
    packet[2], packet[3] := check % 256, check / 256;
    assert packet[..] == SetWord(zeroed, 2, check);
    ComplementCloses(zeroed, 2);
  }

  /** `rte_ipv4_cksum` keeps 0xffff instead of negating it; the header still sums up to 0xffff. */
  function Ipv4Cksum(b: Bytes): (c: int)
    ensures 0 <= c < TWO_16
  {
    var s := OnesSum(b, 0);
    if s == 65535 then s else 65535 - s
  }

  lemma Ipv4CksumCloses(b: Bytes, at: nat)
    requires at + 1 < |b| && at % 2 == 0 && WordAt(b, at) == 0
    ensures OnesSum(SetWord(b, at, Ipv4Cksum(b)), 0) == 65535
  {
    if OnesSum(b, 0) == 65535 {
      var b' := SetWord(b, at, 65535);
      SumAfterSet(b, at, 65535, 0);
      OnesSumStandsFor(b, 0);
      OnesSumStandsFor(b', 0);
      var q: nat :| Quotient(65535, SumFrom(b, 0), q);
      assert SumFrom(b', 0) == SumFrom(b, 0) + 65535 == 65535 + 65535 * (q + 1);
      assert Quotient(65535, SumFrom(b', 0), q + 1);
      StandsForUnique(OnesSum(b', 0), 65535, SumFrom(b', 0));
    } else {
      ComplementCloses(b, at);
    }
  }

  // ---------- the header test and the header patch ----------

  const TTL: nat := 8
  const HDR_CHECKSUM: nat := 10
  const IPV4_MIN_VER_IHL: int := 0x45
  const IPV4_MAX_VER_IHL_DIFF: int := 10
  const IPV4_MIN_LEN_BE: int := 5120  // 20 in network order, as a little-endian host reads it

  /** The step-by-step test: version 4, at least five words of header, total length at least 20. */
  function StepByStep(b: Bytes): int
    requires |b| >= 20
  {
    if Byte(b, 0) / 16 != 4 then -3
    else if Byte(b, 0) % 16 < 5 then -4
    else if 256 * Byte(b, 2) + Byte(b, 3) < 20 then -5
    else 0
  }

  /** The single-comparison test on the raw fields. */
  predicate BadPort(b: Bytes)
    requires |b| >= 20
  {
    var ihl := (Byte(b, 0) - IPV4_MIN_VER_IHL) % 256;
    var total := WordAt(b, 2);
    ihl > IPV4_MAX_VER_IHL_DIFF || (total % 256 == 0 && total < IPV4_MIN_LEN_BE)
  }

  /** Both tests reject exactly the same headers, those that break rules 3, 4 or 5 of section 5.2.2
      of RFC 1812. */
  lemma TestsAgree(b: Bytes)
    requires |b| >= 20
    ensures BadPort(b) <==> StepByStep(b) != 0
  {
    var v := Byte(b, 0);
    assert v == 16 * (v / 16) + v % 16;
    var total := WordAt(b, 2);
    assert total == Byte(b, 2) + 256 * Byte(b, 3);
    assert total % 256 == Byte(b, 2);
  }

  /** The forwarding patch: the time to live one down, the stored checksum one up, each wrapping in
      its own field. */
  function Patch(b: Bytes): (r: Bytes)
    requires |b| >= 20
    ensures |r| == |b|
  {
    SetWord(b[TTL := (Byte(b, TTL) - 1) % 256], HDR_CHECKSUM, (WordAt(b, HDR_CHECKSUM) + 1) % TWO_16)
  }

  lemma {:induction false} PatchedSum(b: Bytes)
    requires |b| >= 20
    ensures SumFrom(Patch(b), 0) == SumFrom(b, 0) + (Byte(b, TTL) - 1) % 256 - Byte(b, TTL)
                             + (WordAt(b, HDR_CHECKSUM) + 1) % TWO_16 - WordAt(b, HDR_CHECKSUM)
  {
    hide SumFrom, SetWord, WordAt;
    var t := (Byte(b, TTL) - 1) % 256;
    var b1, c := b[TTL := t], (WordAt(b, HDR_CHECKSUM) + 1) % TWO_16;
    SumAfterByte(b, TTL, t);
    SameWord(b, TTL, t, HDR_CHECKSUM);
    SumAfterSet(b1, HDR_CHECKSUM, c, 0);
  }

  lemma SameWord(b: Bytes, at: nat, t: uint8, i: nat)
    requires at < |b| && i + 1 < |b| && at != i && at != i + 1
    ensures WordAt(b[at := t], i) == WordAt(b, i)
  {
  }

  /** Changing the low byte of a word changes the sum by as much. */
  lemma SumAfterByte(b: Bytes, at: nat, t: uint8)
    requires at + 1 < |b| && at % 2 == 0
    ensures SumFrom(b[at := t], 0) == SumFrom(b, 0) + t - Byte(b, at)
  {
    hide SumFrom;
    var lo: int := t;
    var w := lo + 256 * Byte(b, at + 1);
    assert w % 256 == lo && w / 256 == Byte(b, at + 1);
    assert b[at := t] == SetWord(b, at, w);
    SumAfterSet(b, at, w, 0);
  }

  /** A header that sums up to 0xffff still does after the patch if and only if its time to live
      was not zero and its stored checksum was not 0xffff (section 3 of RFC 1624). */
  lemma {:induction false} PatchKeepsHeaderIff(b: Bytes)
    requires |b| >= 20 && OnesSum(b, 0) == 65535
    ensures OnesSum(Patch(b), 0) == 65535 <==> Byte(b, TTL) >= 1 && WordAt(b, HDR_CHECKSUM) != 65535
  {
    hide SumFrom, OnesSum, Patch;
    PatchedSum(b);
    OnesSumStandsFor(b, 0);
    OnesSumStandsFor(Patch(b), 0);
    var q: nat :| Quotient(65535, SumFrom(b, 0), q);
    var q': nat :| Quotient(OnesSum(Patch(b), 0), SumFrom(Patch(b), 0), q');
    PatchArithmetic(Byte(b, TTL), WordAt(b, HDR_CHECKSUM), OnesSum(Patch(b), 0), q, q');
  }

  lemma PatchArithmetic(ttl: int, c: int, r: int, q: nat, q': nat)
    requires 0 <= ttl < 256 && 0 <= c < TWO_16 && 0 <= r < TWO_16
    requires r + 65535 * q' == 65535 + 65535 * q + (ttl - 1) % 256 - ttl + (c + 1) % TWO_16 - c
    requires r == 0 <==> r + 65535 * q' == 0
    ensures r == 65535 <==> ttl >= 1 && c != 65535
  {
    var d := (if ttl >= 1 then -1 else 255) + (if c != 65535 then 1 else -65535);
    assert (ttl - 1) % 256 - ttl == if ttl >= 1 then -1 else 255;
    assert (c + 1) % TWO_16 - c == if c != 65535 then 1 else -65535;
    assert r == 65535 + d + 65535 * (q - q');
  }
}
