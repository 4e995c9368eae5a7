/** The conflict-resolution loop of the sponsor: a proposed list is shifted by a random step, in
    wrapping 32-bit arithmetic, until none of its PIDs occurs in the link table (RM/main.c). */
module Resolver {
  import opened Words

  function Shift(pids: seq<uint32>, d: nat): (r: seq<uint32>)
    ensures |r| == |pids|
  {
    seq(|pids|, j requires 0 <= j < |pids| => Add32(pids[j], d))
  }

  lemma ShiftZero(pids: seq<uint32>)
    ensures Shift(pids, 0) == pids
  {
  }

  lemma ShiftAgain(pids: seq<uint32>, k: nat, step: nat)
    ensures Shift(Shift(pids, k * step), step) == Shift(pids, (k + 1) * step)
  {
    assert (k + 1) * step == k * step + step;
    forall j | 0 <= j < |pids|
      ensures Add32(Add32(pids[j], k * step), step) == Add32(pids[j], k * step + step)
    {
      AddTwice(pids[j], k * step, step);
    }
  }

  /** Some PID of the list is already taken. */
  predicate Conflict(pids: seq<uint32>, taken: seq<uint32>) {
    exists j, i :: 0 <= j < |pids| && 0 <= i < |taken| && pids[j] == taken[i]
  }

  /** The random step is `rand()%101 + 1`; two lists of at most twenty PIDs and a table counted in
      eight bits leave the product far below 2^26. */
  predicate Bounded(pids: seq<uint32>, taken: seq<uint32>, step: nat) {
    1 <= step <= 101 && |pids| * |taken| < 0x400_0000
  }

  /** The k-th candidate of the loop still meets a taken PID. */
  predicate Blocked(pids: seq<uint32>, taken: seq<uint32>, step: nat, k: nat) {
    Conflict(Shift(pids, k * step), taken)
  }

  ghost predicate BlockedBefore(pids: seq<uint32>, taken: seq<uint32>, step: nat, k: nat) {
    forall q: nat :: q < k ==> Blocked(pids, taken, step, q)
  }

  // ---------- why the loop stops ----------

  function Pow2(m: nat): (r: nat)
    ensures r >= 1
  {
    if m == 0 then 1 else 2 * Pow2(m - 1)
  }

  /** An odd factor holds no power of two. */
  lemma {:induction false} OddCancels(odd: nat, d: nat, m: nat, q: nat) returns (f: nat)
    requires odd % 2 == 1 && odd * d == Pow2(m) * q
    ensures d == Pow2(m) * f
  {
    if m == 0 {
      f := d;
    } else {
      var p := Pow2(m - 1);
      assert odd * d == 2 * (p * q);
      var e := HalfOfEven(odd, d, p * q);
      f := OddCancels(odd, e, m - 1, q);
      assert d == 2 * (p * f);
    }
  }

  lemma HalfOfEven(odd: nat, d: nat, h: nat) returns (e: nat)
    requires odd % 2 == 1 && odd * d == 2 * h
    ensures d == 2 * e && odd * e == h
  {
    var a, c := odd / 2, d % 2;
    e := d / 2;
    assert odd * d == 2 * (odd * e) + odd * c;
    assert odd * c == 2 * (a * c) + c;
  }

  /** A step below 2^(j+1) holds at most j factors of two, so the rest of 2^m comes from `d`. */
  lemma {:induction false} StepCancels(step: nat, d: nat, m: nat, j: nat, q: nat) returns (f: nat)
    requires 0 < step < Pow2(j + 1) && j <= m && step * d == Pow2(m) * q
    ensures d == Pow2(m - j) * f
    decreases j
  {
    if step % 2 == 1 {
      var g := OddCancels(step, d, m, q);
      PowerSplit(m, j);
      f := Pow2(j) * g;
      Associate(Pow2(m - j), Pow2(j), g);
    } else {
      assert j > 0 by { assert Pow2(1) == 2 * Pow2(0); }
      HalveBoth(step / 2, d, Pow2(m - 1), q);
      f := StepCancels(step / 2, d, m - 1, j - 1, q);
    }
  }

  lemma Associate(a: nat, b: nat, c: nat)
    ensures (a * b) * c == a * (b * c)
  {
  }

  lemma HalveBoth(half: nat, d: nat, p: nat, q: nat)
    requires (2 * half) * d == (2 * p) * q
    ensures half * d == p * q
  {
    Associate(2, half, d);
    Associate(2, p, q);
  }

  lemma {:induction false} PowerSplit(m: nat, j: nat)
    requires j <= m
    ensures Pow2(m) == Pow2(m - j) * Pow2(j)
  {
    if j > 0 {
      PowerSplit(m, j - 1);
      assert Pow2(m - (j - 1)) == 2 * Pow2(m - j);
      assert (2 * Pow2(m - j)) * Pow2(j - 1) == Pow2(m - j) * (2 * Pow2(j - 1));
    }
  }

  lemma Pow2Values()
    ensures Pow2(7) == 128 && Pow2(26) == 0x400_0000 && Pow2(32) == TWO_32
  {
    assert Pow2(7) == 128;
    PowerSplit(13, 6);
    assert Pow2(6) == 64;
    assert Pow2(13) == 8192;
    PowerSplit(26, 13);
    PowerSplit(32, 6);
  }

  /** The first 2^26 shifts of one PID are all different. */
  lemma {:induction false} ShiftsDistinct(p: uint32, step: nat, a: nat, b: nat)
    requires 1 <= step <= 101 && a < b < 0x400_0000
    ensures Add32(p, a * step) != Add32(p, b * step)
  {
    if Add32(p, a * step) == Add32(p, b * step) {
      var d := b - a;
      assert step * d == b * step - a * step;
      var q := (p + b * step) / TWO_32 - (p + a * step) / TWO_32;
      assert step * d == TWO_32 * q;
      Pow2Values();
      var f := StepCancels(step, d, 32, 6, q);
    }
  }

  /** The q-th shift of PID number `pr.0` is the taken PID number `pr.1`. */
  predicate Hits(pids: seq<uint32>, taken: seq<uint32>, step: nat, q: nat, pr: (nat, nat)) {
    pr.0 < |pids| && pr.1 < |taken| && Add32(pids[pr.0], q * step) == taken[pr.1]
  }

  lemma SomeHit(pids: seq<uint32>, taken: seq<uint32>, step: nat, q: nat) returns (pr: (nat, nat))
    requires Blocked(pids, taken, step, q)
    ensures Hits(pids, taken, step, q, pr)
  {
    var j: nat, i: nat :| j < |pids| && i < |taken| && Shift(pids, q * step)[j] == taken[i];
    pr := (j, i);
  }

  lemma {:induction false} HitsOnce(pids: seq<uint32>, taken: seq<uint32>, step: nat, a: nat, b: nat, pr: (nat, nat))
    requires 1 <= step <= 101 && a < b < 0x400_0000
    requires Hits(pids, taken, step, a, pr)
    ensures !Hits(pids, taken, step, b, pr)
  {
    ShiftsDistinct(pids[pr.0], step, a, b);
  }

  /** Each of the first k shifts is blocked by a pair (PID, row) of its own. */
  lemma {:induction false} BlockingPairs(pids: seq<uint32>, taken: seq<uint32>, step: nat, k: nat)
      returns (pairs: set<(nat, nat)>)
    requires Bounded(pids, taken, step) && k <= 0x400_0000 && BlockedBefore(pids, taken, step, k)
    ensures |pairs| == k
    ensures forall pr :: pr in pairs ==> pr.0 < |pids| && pr.1 < |taken|
    ensures forall pr :: pr in pairs ==> exists q: nat :: q < k && Hits(pids, taken, step, q, pr)
  {
    if k == 0 {
      pairs := {};
    } else {
      var before := BlockingPairs(pids, taken, step, k - 1);
      assert Blocked(pids, taken, step, k - 1);
      var hit := SomeHit(pids, taken, step, k - 1);
      if hit in before {
        var q: nat :| q < k - 1 && Hits(pids, taken, step, q, hit);
        HitsOnce(pids, taken, step, q, k - 1, hit);
      }
      pairs := before + {hit};
    }
  }

  /** A set of pairs below (a, b) has at most a*b members. */
  lemma {:induction false} PairsBounded(pairs: set<(nat, nat)>, a: nat, b: nat)
    requires forall pr :: pr in pairs ==> pr.0 < a && pr.1 < b
    ensures |pairs| <= a * b
    decreases a
  {
    if a == 0 {
      assert pairs == {};
    } else {
      var row := set pr | pr in pairs && pr.0 == a - 1;
      var rest := pairs - row;
      PairsBounded(rest, a - 1, b);
      RowBounded(row, a - 1, b);
      assert pairs == rest + row && rest !! row;
      assert (a - 1) * b + b == a * b;
    }
  }

  lemma {:induction false} RowBounded(row: set<(nat, nat)>, a: nat, b: nat)
    requires forall pr :: pr in row ==> pr.0 == a && pr.1 < b
    ensures |row| <= b
    decreases b
  {
    if b == 0 {
      assert row == {};
    } else {
      RowBounded(row - {(a, b - 1)}, a, b - 1);
    }
  }

  /** The pigeonhole bound: at most one blocked shift for each pair of a PID and a table row. */
  lemma BlockedBound(pids: seq<uint32>, taken: seq<uint32>, step: nat, k: nat)
    requires Bounded(pids, taken, step) && BlockedBefore(pids, taken, step, k)
    ensures k <= |pids| * |taken|
  {
    var n := |pids| * |taken|;
    if k > n {
      var pairs := BlockingPairs(pids, taken, step, n + 1);
      PairsBounded(pairs, |pids|, |taken|);
    }
  }

  // ---------- what the loop computes ----------

  /** The first unblocked shift, searching from the k-th. */
  ghost function FirstFree(pids: seq<uint32>, taken: seq<uint32>, step: nat, k: nat): (q: nat)
    requires Bounded(pids, taken, step) && BlockedBefore(pids, taken, step, k)
    ensures k <= q <= |pids| * |taken|
    ensures !Blocked(pids, taken, step, q)
    ensures BlockedBefore(pids, taken, step, q)
    decreases |pids| * |taken| - k
  {
    BlockedBound(pids, taken, step, k);
    if Blocked(pids, taken, step, k) then
      BlockedBound(pids, taken, step, k + 1);
      FirstFree(pids, taken, step, k + 1)
    else k
  }

  /** Every PID of `r` is the proposed one plus `q` times the step, modulo 2^32. */
  predicate MovedBy(pids: seq<uint32>, step: nat, q: nat, r: seq<uint32>) {
    |r| == |pids| && forall j :: 0 <= j < |pids| ==> r[j] == (pids[j] + q * step) % TWO_32
  }

  /** `r` is the list moved on by one of the numbers of steps that the bound allows. */
  ghost predicate MovedWithin(pids: seq<uint32>, taken: seq<uint32>, step: nat, r: seq<uint32>) {
    exists q: nat :: q <= |pids| * |taken| && MovedBy(pids, step, q, r)
  }

  /** The list the sponsor settles on. */
  ghost function Resolve(pids: seq<uint32>, taken: seq<uint32>, step: nat): (r: seq<uint32>)
    requires Bounded(pids, taken, step)
    ensures |r| == |pids|
    ensures !Conflict(r, taken)
    ensures !Conflict(pids, taken) ==> r == pids
    ensures MovedWithin(pids, taken, step, r)
  {
    var q := FirstFree(pids, taken, step, 0);
    assert Shift(pids, 0) == pids;
    assert MovedBy(pids, step, q, Shift(pids, q * step));
    Shift(pids, q * step)
  }

  /** Only the first free shift counts: any other way to describe it gives the same list. */
  lemma ResolveIsLeastShift(pids: seq<uint32>, taken: seq<uint32>, step: nat, q: nat)
    requires Bounded(pids, taken, step)
    requires BlockedBefore(pids, taken, step, q) && !Blocked(pids, taken, step, q)
    ensures Resolve(pids, taken, step) == Shift(pids, q * step)
    ensures MovedBy(pids, step, q, Resolve(pids, taken, step))
    ensures q <= |pids| * |taken|
  {
    var f := FirstFree(pids, taken, step, 0);
    BlockedBound(pids, taken, step, q);
  }
}
