/** The monitoring agent's timer list as a sequence: insertion with replacement, the tick that
    fires due timers, and what every run of both keeps (local_timer.c and main.c of
    NetworkMonitoringTools/stats_send_ver_test1). */
module TimerSpec {
  /** `elapse` is the time left after the previous timer of the list. */
  datatype Timer = Timer(id: int, flag: int, elapse: int, time: int)

  predicate Same(t: Timer, x: Timer) {
    t.id == x.id && t.flag == x.flag
  }

  /** Position of the first timer with the id and flag of `x`, or the length. */
  function Dup(s: seq<Timer>, x: Timer): (k: nat)
    ensures k <= |s|
    ensures k < |s| ==> Same(s[k], x)
    ensures forall i :: 0 <= i < k ==> !Same(s[i], x)
  {
    if s == [] || Same(s[0], x) then 0 else 1 + Dup(s[1..], x)
  }

  function Cut(s: seq<Timer>, k: nat): seq<Timer> {
    if k < |s| then s[..k] + s[k + 1..] else s
  }

  function Without(s: seq<Timer>, x: Timer): seq<Timer> {
    Cut(s, Dup(s, x))
  }

  /** Position of the first timer that is not before `time`, or the length. */
  function Slot(s: seq<Timer>, time: int): (j: nat)
    ensures j <= |s|
    ensures j < |s| ==> s[j].time >= time
    ensures forall i :: 0 <= i < j ==> s[i].time < time
  {
    if s == [] || s[0].time >= time then 0 else 1 + Slot(s[1..], time)
  }

  /** The list with `x` at position `j`; only `x` and its successor get a new `elapse`. */
  function PlaceAt(s: seq<Timer>, j: nat, x: Timer, now: int): (r: seq<Timer>)
    requires j <= |s|
    ensures |r| == |s| + 1
  {
    var x' := x.(elapse := if j == 0 then x.time - now else x.time - s[j - 1].time);
    s[..j] + [x'] + if j < |s| then [s[j].(elapse := s[j].time - x.time)] + s[j + 1..] else []
  }

  function Insert(s: seq<Timer>, x: Timer, now: int): seq<Timer> {
    if x.time < now then s
    else
      var rest := Without(s, x);
      PlaceAt(rest, Slot(rest, x.time), x, now)
  }

  // ---------- how the scan finds its places ----------

  lemma SlotIs(s: seq<Timer>, time: int, j: nat)
    requires j <= |s| && (forall i :: 0 <= i < j ==> s[i].time < time) && (j < |s| ==> s[j].time >= time)
    ensures Slot(s, time) == j
  {
  }

  lemma DupIs(s: seq<Timer>, x: Timer, k: nat)
    requires k <= |s| && (forall i :: 0 <= i < k ==> !Same(s[i], x)) && (k < |s| ==> Same(s[k], x))
    ensures Dup(s, x) == k
  {
  }

  /** Cutting out a timer behind the slot of `x` and placing `x` can be done in either order. */
  lemma PlaceThenCut(s: seq<Timer>, j: nat, k: nat, x: Timer, now: int)
    requires j < k < |s|
    ensures Cut(PlaceAt(s, j, x, now), k + 1) == PlaceAt(Cut(s, k), j, x, now)
  {
    var a, b := Cut(PlaceAt(s, j, x, now), k + 1), PlaceAt(Cut(s, k), j, x, now);
    var r := s[j].(elapse := s[j].time - x.time);
    var x' := x.(elapse := if j == 0 then x.time - now else x.time - s[j - 1].time);
    assert PlaceAt(s, j, x, now)[..k + 1] == s[..j] + [x', r] + s[j + 1..k];
    assert PlaceAt(s, j, x, now)[k + 2..] == s[k + 1..];
    assert Cut(s, k)[..j] == s[..j] && Cut(s, k)[j + 1..] == s[j + 1..k] + s[k + 1..];
  }

  lemma SlotThenCut(s: seq<Timer>, k: nat, time: int)
    requires Slot(s, time) < k < |s|
    ensures Slot(Cut(s, k), time) == Slot(s, time)
  {
    SlotIs(Cut(s, k), time, Slot(s, time));
  }

  /** Where the scan stands before it visits position `i` of the list `c` it has made of `s`. */
  ghost predicate Scanned(c: seq<Timer>, s: seq<Timer>, x: Timer, now: int, inserted: bool, repeted: bool, i: nat) {
    var base := if repeted then Without(s, x) else s;
    && 1 <= i <= |c|
    && if inserted then
         var j := Slot(base, x.time);
         && j + 2 <= i && c == PlaceAt(base, j, x, now)
         && (!repeted ==> forall q :: 0 <= q < i - 1 ==> !Same(s[q], x))
       else
         && c == base
         && (forall q :: 0 <= q < i ==> base[q].time < x.time)
         && (!repeted ==> forall q :: 0 <= q < i ==> !Same(s[q], x))
  }

  lemma ScanDelete(c: seq<Timer>, s: seq<Timer>, x: Timer, now: int, inserted: bool, i: nat)
    requires Scanned(c, s, x, now, inserted, false, i) && i < |c| && Same(c[i], x)
    ensures Scanned(Cut(c, i), s, x, now, inserted, true, i)
  {
    if inserted {
      var j := Slot(s, x.time);
      DupBehind(s, j, x, now, i);
      PlaceThenCut(s, j, i - 1, x, now);
      SlotThenCut(s, i - 1, x.time);
    } else {
      DupIs(s, x, i);
    }
  }

  lemma DupBehind(s: seq<Timer>, j: nat, x: Timer, now: int, i: nat)
    requires j + 2 <= i <= |s| && Same(PlaceAt(s, j, x, now)[i], x)
    requires forall q :: 0 <= q < i - 1 ==> !Same(s[q], x)
    ensures Dup(s, x) == i - 1
  {
    PlacedAt(s, j, x, now);
    DupIs(s, x, i - 1);
  }

  lemma ScanPlace(c: seq<Timer>, s: seq<Timer>, x: Timer, now: int, repeted: bool, i: nat)
    requires Scanned(c, s, x, now, false, repeted, i) && i < |c| && c[i].time >= x.time && (repeted || !Same(c[i], x))
    ensures Scanned(PlaceAt(c, i, x, now), s, x, now, true, repeted, i + 2)
  {
    SlotIs(c, x.time, i);
  }

  lemma ScanPass(c: seq<Timer>, s: seq<Timer>, x: Timer, now: int, inserted: bool, repeted: bool, i: nat)
    requires Scanned(c, s, x, now, inserted, repeted, i) && i < |c|
    requires (inserted || c[i].time < x.time) && (repeted || !Same(c[i], x))
    ensures Scanned(c, s, x, now, inserted, repeted, i + 1)
  {
    if inserted && !repeted {
      PlacedAt(s, Slot(s, x.time), x, now);
    }
  }

  /** The scan is over: at the end of the list, or once both the slot and the duplicate are found. */
  lemma ScanEnds(c: seq<Timer>, s: seq<Timer>, x: Timer, now: int, inserted: bool, repeted: bool, i: nat)
    requires Scanned(c, s, x, now, inserted, repeted, i) && (i == |c| || (inserted && repeted))
    ensures var rest := Without(s, x);
      PlaceAt(rest, Slot(rest, x.time), x, now) == if inserted then c else PlaceAt(c, |c|, x, now)
  {
    if !repeted {
      DupIs(s, x, |s|);
    }
    if !inserted {
      SlotIs(c, x.time, |c|);
    }
  }

  // ---------- order, uniqueness, contents ----------

  ghost predicate Sorted(s: seq<Timer>) {
    forall i, j :: 0 <= i < j < |s| ==> s[i].time <= s[j].time
  }

  ghost predicate NoDup(s: seq<Timer>) {
    forall i, j :: 0 <= i < j < |s| ==> !Same(s[i], s[j])
  }

  /** The list as a set of (id, flag, time). */
  ghost function Entries(s: seq<Timer>): set<(int, int, int)> {
    set i | 0 <= i < |s| :: (s[i].id, s[i].flag, s[i].time)
  }

  lemma CutKeeps(s: seq<Timer>, k: nat)
    requires Sorted(s) && NoDup(s)
    ensures Sorted(Cut(s, k)) && NoDup(Cut(s, k))
  {
    var r := Cut(s, k);
    assert forall i :: 0 <= i < |r| ==> r[i] == s[if i < k then i else i + 1];
  }

  /** Where the elements of a placed list come from. */
  lemma PlacedAt(s: seq<Timer>, j: nat, x: Timer, now: int)
    requires j <= |s|
    ensures var r := PlaceAt(s, j, x, now);
      && (forall i :: 0 <= i < j ==> r[i] == s[i])
      && Same(r[j], x) && r[j].time == x.time
      && (forall i :: j < i < |r| ==> Same(r[i], s[i - 1]) && r[i].time == s[i - 1].time)
      && (forall i :: j + 1 < i < |r| ==> r[i] == s[i - 1])
  {
  }

  lemma PlacedExactly(s: seq<Timer>, j: nat, x: Timer, now: int)
    requires j <= |s|
    ensures var r := PlaceAt(s, j, x, now);
      forall i {:trigger r[i]} :: 0 <= i < |r| ==>
        r[i] == if i < j then s[i]
                else if i == j then x.(elapse := if j == 0 then x.time - now else x.time - s[j - 1].time)
                else if i == j + 1 then s[j].(elapse := s[j].time - x.time)
                else s[i - 1]
  {
  }

  lemma {:induction false} PlaceKeeps(s: seq<Timer>, x: Timer, now: int)
    requires Sorted(s) && NoDup(s) && forall i :: 0 <= i < |s| ==> !Same(s[i], x)
    ensures Sorted(PlaceAt(s, Slot(s, x.time), x, now)) && NoDup(PlaceAt(s, Slot(s, x.time), x, now))
  {
    var j := Slot(s, x.time);
    var r := PlaceAt(s, j, x, now);
    forall p, q | 0 <= p < q < |r|
      ensures r[p].time <= r[q].time && !Same(r[p], r[q])
    {
      PlacedPair(s, j, x, now, p, q);
    }
  }

  lemma {:induction false} PlacedPair(s: seq<Timer>, j: nat, x: Timer, now: int, p: nat, q: nat)
    requires Sorted(s) && NoDup(s) && j == Slot(s, x.time) && p < q <= |s|
    requires forall i :: 0 <= i < |s| ==> !Same(s[i], x)
    ensures PlaceAt(s, j, x, now)[p].time <= PlaceAt(s, j, x, now)[q].time
    ensures !Same(PlaceAt(s, j, x, now)[p], PlaceAt(s, j, x, now)[q])
  {
    hide PlaceAt;
    PlacedAt(s, j, x, now);
    var i, k := if p < j then p else p - 1, if q < j then q else q - 1;
    if p == j {
      assert s[j].time <= s[k].time;
    } else if q != j {
      assert s[i].time <= s[k].time && !Same(s[i], s[k]);
    }
  }

  lemma WithoutHasNone(s: seq<Timer>, x: Timer)
    requires NoDup(s)
    ensures forall i :: 0 <= i < |Without(s, x)| ==> !Same(Without(s, x)[i], x)
  {
    var k, r := Dup(s, x), Without(s, x);
    assert forall i :: 0 <= i < |r| ==> r[i] == s[if i < k then i else i + 1];
  }

  /** An insertion keeps the list sorted by time and free of duplicates. */
  lemma {:induction false} InsertKeepsOrder(s: seq<Timer>, x: Timer, now: int)
    requires Sorted(s) && NoDup(s)
    ensures Sorted(Insert(s, x, now)) && NoDup(Insert(s, x, now))
  {
    CutKeeps(s, Dup(s, x));
    WithoutHasNone(s, x);
    if x.time >= now {
      PlaceKeeps(Without(s, x), x, now);
    }
  }

  lemma PlaceEntries(s: seq<Timer>, j: nat, x: Timer, now: int)
    requires j <= |s|
    ensures Entries(PlaceAt(s, j, x, now)) == Entries(s) + {(x.id, x.flag, x.time)}
  {
    var r := PlaceAt(s, j, x, now);
    PlacedAt(s, j, x, now);
    assert (r[j].id, r[j].flag, r[j].time) in Entries(r);
    forall i | 0 <= i < |s|
      ensures (s[i].id, s[i].flag, s[i].time) in Entries(r)
    {
      var p := if i < j then i else i + 1;
      assert (r[p].id, r[p].flag, r[p].time) == (s[i].id, s[i].flag, s[i].time);
    }
  }

  /** Insertion is a map update from (id, flag) to time: the new timer replaces the one with its id
      and flag and every other timer stays. A timer in the past changes nothing. */
  lemma {:induction false} InsertIsMapUpdate(s: seq<Timer>, x: Timer, now: int)
    requires NoDup(s)
    ensures Entries(Insert(s, x, now)) ==
            if x.time < now then Entries(s)
            else (set e | e in Entries(s) && !(e.0 == x.id && e.1 == x.flag)) + {(x.id, x.flag, x.time)}
    ensures x.time < now ==> Insert(s, x, now) == s
    ensures x.time >= now ==> |Insert(s, x, now)| == |s| + if Dup(s, x) < |s| then 0 else 1
  {
    if x.time >= now {
      var r := Without(s, x);
      PlaceEntries(r, Slot(r, x.time), x, now);
      WithoutEntries(s, x);
    }
  }

  lemma WithoutEntries(s: seq<Timer>, x: Timer)
    requires NoDup(s)
    ensures Entries(Without(s, x)) == set e | e in Entries(s) && !(e.0 == x.id && e.1 == x.flag)
  {
    var k, r := Dup(s, x), Without(s, x);
    WithoutHasNone(s, x);
    if k < |s| {
      CutAt(s, k);
    }
    hide Without, Cut;
    forall e | e in Entries(s) && !(e.0 == x.id && e.1 == x.flag)
      ensures e in Entries(r)
    {
      var i :| 0 <= i < |s| && e == (s[i].id, s[i].flag, s[i].time);
      var p := if i < k then i else i - 1;
      assert r[p] == s[i];
    }
    forall e | e in Entries(r)
      ensures e in Entries(s) && !(e.0 == x.id && e.1 == x.flag)
    {
      var i :| 0 <= i < |r| && e == (r[i].id, r[i].flag, r[i].time);
      var p := if i < k then i else i + 1;
      assert r[i] == s[p] && !Same(r[i], x);
    }
  }

  // ---------- the gaps ----------

  /** Every timer but the first holds the time left after its predecessor. */
  ghost predicate Gaps(s: seq<Timer>) {
    forall i {:trigger s[i].elapse} :: 1 <= i < |s| ==> s[i].elapse == s[i].time - s[i - 1].time
  }

  /** The replaced timer sits in the middle at another time than its predecessor, and the new one
      does not land in the place it leaves. */
  predicate Stale(s: seq<Timer>, x: Timer) {
    var k := Dup(s, x);
    && 0 < k < |s| - 1
    && s[k - 1].time != s[k].time
    && (x.time <= s[k - 1].time || x.time > s[k + 1].time)
  }

  /** The gaps are right everywhere but perhaps at position `j`. */
  ghost predicate GapsExcept(s: seq<Timer>, j: nat) {
    forall i {:trigger s[i].elapse} :: 1 <= i < |s| && i != j ==> s[i].elapse == s[i].time - s[i - 1].time
  }

  /** Placing a timer at `j` sets the gaps on both sides of it. */
  lemma PlaceGaps(s: seq<Timer>, j: nat, x: Timer, now: int)
    requires j <= |s|
    ensures Gaps(PlaceAt(s, j, x, now)) <==> GapsExcept(s, j)
  {
    var r := PlaceAt(s, j, x, now);
    PlacedAt(s, j, x, now);
    if Gaps(r) {
      forall i | 1 <= i < |s| && i != j
        ensures s[i].elapse == s[i].time - s[i - 1].time
      {
        var p := if i < j then i else i + 1;
        assert r[p].elapse == r[p].time - r[p - 1].time;
      }
    }
  }

  lemma CutAt(s: seq<Timer>, k: nat)
    requires k < |s|
    ensures |Cut(s, k)| == |s| - 1
    ensures forall i :: 0 <= i < k ==> Cut(s, k)[i] == s[i]
    ensures forall i :: k <= i < |s| - 1 ==> Cut(s, k)[i] == s[i + 1]
  {
  }

  /** Cutting out a timer breaks the gap behind it, if there is one, unless that position is set anew. */
  lemma CutGaps(s: seq<Timer>, k: nat, j: nat)
    requires Gaps(s) && k < |s|
    ensures GapsExcept(Cut(s, k), j) <==> k == 0 || k == |s| - 1 || j == k || s[k].time == s[k - 1].time
  {
    var r := Cut(s, k);
    CutAt(s, k);
    forall i | 1 <= i < |r| && i != k
      ensures r[i].elapse == r[i].time - r[i - 1].time
    {
      var p := if i < k then i else i + 1;
      assert s[p].elapse == s[p].time - s[p - 1].time;
    }
    if 0 < k < |s| - 1 {
      assert r[k].elapse == s[k + 1].time - s[k].time;
    }
  }

  lemma SlotAfterCut(s: seq<Timer>, k: nat, time: int)
    requires Sorted(s) && 0 < k < |s| - 1
    ensures Slot(Cut(s, k), time) == k <==> s[k - 1].time < time <= s[k + 1].time
  {
    var r := Cut(s, k);
    var j := Slot(r, time);
    CutAt(s, k);
    CutSorted(s, k);
    if s[k - 1].time < time <= s[k + 1].time {
      assert r[k - 1].time < time <= r[k].time;
      assert forall i :: 0 <= i < k ==> r[i].time <= r[k - 1].time;
    }
  }

  lemma CutSorted(s: seq<Timer>, k: nat)
    requires Sorted(s) && k < |s|
    ensures Sorted(Cut(s, k))
  {
    CutAt(s, k);
  }

  lemma CutThenPlace(s: seq<Timer>, k: nat, time: int)
    requires Sorted(s) && Gaps(s) && k < |s|
    ensures GapsExcept(Cut(s, k), Slot(Cut(s, k), time)) <==>
            k == 0 || k == |s| - 1 || s[k - 1].time == s[k].time || s[k - 1].time < time <= s[k + 1].time
  {
    CutGaps(s, k, Slot(Cut(s, k), time));
    if 0 < k < |s| - 1 {
      SlotAfterCut(s, k, time);
    }
  }

  /** Insertion keeps the gaps if and only if no stale timer is left behind. */
  lemma {:induction false} InsertKeepsGapsIff(s: seq<Timer>, x: Timer, now: int)
    requires Sorted(s) && Gaps(s) && x.time >= now
    ensures Gaps(Insert(s, x, now)) <==> !Stale(s, x)
  {
    hide PlaceAt, Gaps, GapsExcept, Sorted, Cut, Slot;
    var k, r := Dup(s, x), Without(s, x);
    PlaceGaps(r, Slot(r, x.time), x, now);
    if k < |s| {
      CutThenPlace(s, k, x.time);
    } else {
      NothingCut(s, Slot(r, x.time));
    }
  }

  lemma NothingCut(s: seq<Timer>, j: nat)
    requires Gaps(s)
    ensures Cut(s, |s|) == s && GapsExcept(s, j)
  {
  }

  // ---------- the tick ----------

  datatype Ticked = Ticked(rest: seq<Timer>, fired: seq<Timer>, crashed: bool)

  function Rebase(s: seq<Timer>, now: int): seq<Timer>
    requires s != []
  {
    [s[0].(elapse := s[0].time - now)] + s[1..]
  }

  /** First loop: the head is re-based on the clock and fired while it is in the past. */
  function FirePast(s: seq<Timer>, now: int): Ticked
    requires s != []
  {
    var head := s[0].(elapse := s[0].time - now);
    if head.elapse >= 0 then Ticked([head] + s[1..], [], false)
    else if |s| == 1 then Ticked([], [head], true)
    else
      var t := FirePast(s[1..], now);
      t.(fired := [head] + t.fired)
  }

  /** Second loop: fire while the stored `elapse` of the head is zero. */
  function FireNow(s: seq<Timer>): Ticked {
    if s == [] || s[0].elapse != 0 then Ticked(s, [], false)
    else
      var t := FireNow(s[1..]);
      t.(fired := [s[0]] + t.fired)
  }

  /** The signal handler. When the first loop empties the list the second loop reads a null head. */
  function Tick(s: seq<Timer>, now: int): Ticked {
    if s == [] then Ticked([], [], false)
    else
      var a := FirePast(s, now);
      if a.crashed then a
      else
        var b := FireNow(a.rest);
        Ticked(b.rest, a.fired + b.fired, false)
  }

  /** `t` after the timers `fired` have already gone off. */
  function Prepend(fired: seq<Timer>, t: Ticked): Ticked {
    t.(fired := fired + t.fired)
  }

  lemma PrependTwice(a: seq<Timer>, b: seq<Timer>, t: Ticked)
    ensures Prepend(a, Prepend(b, t)) == Prepend(a + b, t)
  {
    assert a + (b + t.fired) == a + b + t.fired;
  }

  /** Position of the first timer with the id, or the length. */
  function WithId(s: seq<Timer>, id: int): (k: nat)
    ensures k <= |s|
    ensures k < |s| ==> s[k].id == id
    ensures forall i :: 0 <= i < k ==> s[i].id != id
  {
    if s == [] || s[0].id == id then 0 else 1 + WithId(s[1..], id)
  }

  lemma WithIdIs(s: seq<Timer>, id: int, k: nat)
    requires k <= |s| && (forall i :: 0 <= i < k ==> s[i].id != id) && (k < |s| ==> s[k].id == id)
    ensures WithId(s, id) == k
  {
  }

  /** (id, flag, time) of each timer in order. */
  function Keys(s: seq<Timer>): (r: seq<(int, int, int)>)
    ensures |r| == |s|
  {
    seq(|s|, i requires 0 <= i < |s| => (s[i].id, s[i].flag, s[i].time))
  }

  lemma KeysConcat(a: seq<Timer>, b: seq<Timer>)
    ensures Keys(a + b) == Keys(a) + Keys(b)
  {
  }

  lemma KeysSame(a: seq<Timer>, b: seq<Timer>)
    requires |a| == |b| && forall i :: 0 <= i < |a| ==> Same(a[i], b[i]) && a[i].time == b[i].time
    ensures Keys(a) == Keys(b)
  {
  }

  lemma {:induction false} FirePastMeaning(s: seq<Timer>, now: int)
    requires s != []
    ensures var a := Slot(s, now); var t := FirePast(s, now);
      && t.crashed == (a == |s|)
      && Keys(t.fired) == Keys(s[..a])
      && (a < |s| ==> t.rest == Rebase(s[a..], now))
      && (a == |s| ==> t.rest == [])
  {
    var a := Slot(s, now);
    if s[0].time >= now {
      assert s[a..] == s && s[..a] == [];
    } else if |s| > 1 {
      FirePastMeaning(s[1..], now);
      var head := s[0].(elapse := s[0].time - now);
      KeysConcat([head], FirePast(s[1..], now).fired);
      KeysSame([head], [s[0]]);
      KeysConcat([s[0]], s[1..][..a - 1]);
      assert [s[0]] + s[1..][..a - 1] == s[..a];
      assert s[1..][a - 1..] == s[a..];
    } else {
      KeysSame([s[0].(elapse := s[0].time - now)], s[..1]);
    }
  }

  /** Where the run of zero `elapse` that starts at `i` ends. */
  function ZeroEnd(s: seq<Timer>, i: nat): (n: nat)
    requires i <= |s|
    ensures i <= n <= |s|
    ensures forall p :: i <= p < n ==> s[p].elapse == 0
    ensures n < |s| ==> s[n].elapse != 0
    decreases |s| - i
  {
    if i == |s| || s[i].elapse != 0 then i else ZeroEnd(s, i + 1)
  }

  lemma {:induction false} FireNowMeaning(s: seq<Timer>, i: nat)
    requires i <= |s|
    ensures FireNow(s[i..]) == Ticked(s[ZeroEnd(s, i)..], s[i..ZeroEnd(s, i)], false)
    decreases |s| - i
  {
    if i < |s| && s[i].elapse == 0 {
      FireNowMeaning(s, i + 1);
      assert s[i..][1..] == s[i + 1..];
      assert s[i..ZeroEnd(s, i)] == [s[i]] + s[i + 1..ZeroEnd(s, i)];
    }
  }

  /** The tick reads a null head exactly when there are timers and all of them are in the past. */
  lemma CrashIff(s: seq<Timer>, now: int)
    ensures Tick(s, now).crashed <==> s != [] && forall i :: 0 <= i < |s| ==> s[i].time < now
  {
    if s != [] {
      FirePastMeaning(s, now);
      var a := Slot(s, now);
      assert a < |s| ==> s[a].time >= now;
    }
  }

  /** The stored `elapse` tells, from the first timer due exactly now to the first one after it,
      which timers are due. */
  ghost predicate TellsDue(s: seq<Timer>, now: int) {
    forall i :: Slot(s, now) < i <= Slot(s, now + 1) && i < |s| ==> (s[i].elapse == 0 <==> s[i].time == now)
  }

  lemma SlotsOrdered(s: seq<Timer>, now: int)
    requires Sorted(s)
    ensures Slot(s, now) <= Slot(s, now + 1)
    ensures forall i :: Slot(s, now) <= i < Slot(s, now + 1) ==> s[i].time == now
  {
    var a, c := Slot(s, now), Slot(s, now + 1);
    forall i | a <= i < c
      ensures s[i].time == now
    {
      assert s[a].time <= s[i].time;
    }
  }

  /** How many timers a tick fires: those in the past and, if one is due now, it and the run of
      zero `elapse` after it. */
  function FireCount(s: seq<Timer>, now: int): (n: nat)
    ensures Slot(s, now) <= n <= |s|
  {
    var a := Slot(s, now);
    if a < |s| && s[a].time == now then ZeroEnd(s, a + 1) else a
  }

  /** What the second loop does once the first has re-based the timer at `a`. */
  lemma FireNowRest(s: seq<Timer>, a: nat, now: int)
    requires a < |s| && s[a].time >= now
    ensures var n := if s[a].time == now then ZeroEnd(s, a + 1) else a; var t := FireNow(Rebase(s[a..], now));
      && !t.crashed && Keys(t.fired) == Keys(s[a..n]) && t.rest == if n == a then Rebase(s[a..], now) else s[n..]
  {
    var r := Rebase(s[a..], now);
    assert r[1..] == s[a + 1..];
    if s[a].time == now {
      var n := ZeroEnd(s, a + 1);
      FireNowMeaning(s, a + 1);
      KeysSame([r[0]] + s[a + 1..n], s[a..n]);
    }
  }

  lemma SplitAt(s: seq<Timer>, a: nat, n: nat)
    requires a <= n <= |s|
    ensures s[..a] + s[a..n] == s[..n]
  {
  }

  lemma {:induction false} TickFires(s: seq<Timer>, now: int)
    requires Slot(s, now) < |s|
    ensures var a, n := Slot(s, now), FireCount(s, now);
      && !Tick(s, now).crashed
      && Keys(Tick(s, now).fired) == Keys(s[..n])
      && Tick(s, now).rest == if n == a then Rebase(s[a..], now) else s[n..]
  {
    var a, n := Slot(s, now), FireCount(s, now);
    FirePastMeaning(s, now);
    FireNowRest(s, a, now);
    KeysConcat(FirePast(s, now).fired, FireNow(Rebase(s[a..], now)).fired);
    KeysConcat(s[..a], s[a..n]);
    SplitAt(s, a, n);
  }

  lemma TickKeepsTheRest(s: seq<Timer>, now: int)
    requires Slot(s, now) < |s|
    ensures Keys(Tick(s, now).rest) == Keys(s[FireCount(s, now)..])
  {
    TickFires(s, now);
    KeysSame(Tick(s, now).rest, s[FireCount(s, now)..]);
  }

  /** The run of zeros ends where the due timers end exactly when the gaps tell which are due. */
  lemma FireCountIff(s: seq<Timer>, now: int)
    requires Sorted(s) && Slot(s, now) < |s|
    ensures FireCount(s, now) == Slot(s, now + 1) <==> TellsDue(s, now)
  {
    SlotsOrdered(s, now);
    var a, c := Slot(s, now), Slot(s, now + 1);
    if s[a].time == now {
      var n := ZeroEnd(s, a + 1);
      assert c < n ==> s[c].elapse == 0;
      assert n < c ==> s[n].elapse != 0;
    }
  }

  /** A different number of timers fired means a different list fired. */
  lemma KeysLength(s: seq<Timer>, n: nat, c: nat)
    requires n <= |s| && c <= |s|
    ensures Keys(s[..n]) == Keys(s[..c]) <==> n == c
  {
    assert |Keys(s[..n])| == n && |Keys(s[..c])| == c;
  }

  /** Unless it crashes, one tick fires exactly the timers with time <= now, in order, and keeps the
      rest, if and only if the stored gaps tell which timers are due. */
  lemma TickExactIff(s: seq<Timer>, now: int)
    requires Sorted(s) && Slot(s, now) < |s|
    ensures var c := Slot(s, now + 1);
      Keys(Tick(s, now).fired) == Keys(s[..c]) && Keys(Tick(s, now).rest) == Keys(s[c..]) <==> TellsDue(s, now)
  {
    TickFires(s, now);
    TickKeepsTheRest(s, now);
    FireCountIff(s, now);
    KeysLength(s, FireCount(s, now), Slot(s, now + 1));
  }

  lemma GapsTellDue(s: seq<Timer>, now: int)
    requires Sorted(s) && Gaps(s) && Slot(s, now) < |s|
    ensures TellsDue(s, now)
  {
    SlotsOrdered(s, now);
    var a, c := Slot(s, now), Slot(s, now + 1);
    forall i | a < i <= c && i < |s|
      ensures s[i].elapse == 0 <==> s[i].time == now
    {
      assert s[i - 1].time == now;
    }
  }

  /** With correct gaps a tick that does not crash fires exactly the due timers, and the gaps stay
      correct, the new head being based on the clock. */
  lemma TickWithGaps(s: seq<Timer>, now: int)
    requires Sorted(s) && NoDup(s) && Gaps(s) && !Tick(s, now).crashed
    ensures var c, t := Slot(s, now + 1), Tick(s, now);
      && Keys(t.fired) == Keys(s[..c]) && Keys(t.rest) == Keys(s[c..])
      && Sorted(t.rest) && NoDup(t.rest) && Gaps(t.rest)
      && (t.rest != [] ==> t.rest[0].elapse == t.rest[0].time - now)
  {
    CrashIff(s, now);
    if s != [] {
      FirePastMeaning(s, now);
      GapsTellDue(s, now);
      TickExactIff(s, now);
      FireCountIff(s, now);
      TickFires(s, now);
      SuffixKeeps(s, Slot(s, now + 1), now);
      SlotsOrdered(s, now);
    }
  }

  lemma SuffixKeeps(s: seq<Timer>, c: nat, now: int)
    requires Sorted(s) && NoDup(s) && Gaps(s) && c <= |s|
    ensures Sorted(s[c..]) && NoDup(s[c..]) && Gaps(s[c..])
    ensures c < |s| ==> Sorted(Rebase(s[c..], now)) && NoDup(Rebase(s[c..], now)) && Gaps(Rebase(s[c..], now))
  {
    SliceKeeps(s, s[c..], c);
    if c < |s| {
      SliceKeeps(s, Rebase(s[c..], now), c);
    }
  }

  lemma SliceKeeps(s: seq<Timer>, r: seq<Timer>, c: nat)
    requires Sorted(s) && NoDup(s) && Gaps(s) && c + |r| <= |s|
    requires forall i :: 0 <= i < |r| ==> Same(r[i], s[c + i]) && r[i].time == s[c + i].time
    requires forall i :: 1 <= i < |r| ==> r[i] == s[c + i]
    ensures Sorted(r) && NoDup(r) && Gaps(r)
  {
    forall i, j | 0 <= i < j < |r|
      ensures r[i].time <= r[j].time && !Same(r[i], r[j])
    {
      assert s[c + i].time <= s[c + j].time && !Same(s[c + i], s[c + j]);
    }
    forall i | 1 <= i < |r|
      ensures r[i].elapse == r[i].time - r[i - 1].time
    {
      assert s[c + i].elapse == s[c + i].time - s[c + i - 1].time;
    }
  }

  // ---------- runs ----------

  datatype Op = Add(timer: Timer) | Alarm

  /** One call at clock value `now`; a crash ends the run. */
  function Next(s: seq<Timer>, op: Op, now: int): Ticked {
    match op
    case Add(x) => Ticked(Insert(s, x, now), [], false)
    case Alarm => Tick(s, now)
  }

  /** A run at the clock values given: no crash, and no insertion that leaves a stale gap. */
  ghost predicate CleanRun(s: seq<Timer>, ops: seq<(Op, int)>)
    decreases |ops|
  {
    ops == [] ||
    (&& !Next(s, ops[0].0, ops[0].1).crashed
     && (ops[0].0.Add? && ops[0].0.timer.time >= ops[0].1 ==> !Stale(s, ops[0].0.timer))
     && CleanRun(Next(s, ops[0].0, ops[0].1).rest, ops[1..]))
  }

  /** Everything fired during the run was due, and every alarm leaves no due timer behind. */
  ghost predicate FiresOnTime(s: seq<Timer>, ops: seq<(Op, int)>)
    requires CleanRun(s, ops)
    decreases |ops|
  {
    ops == [] ||
    (var t, now := Next(s, ops[0].0, ops[0].1), ops[0].1;
     && (forall i :: 0 <= i < |t.fired| ==> t.fired[i].time <= now)
     && (ops[0].0.Alarm? ==> forall i :: 0 <= i < |t.rest| ==> t.rest[i].time > now)
     && FiresOnTime(t.rest, ops[1..]))
  }

  lemma AlarmOnTime(s: seq<Timer>, now: int)
    requires Sorted(s) && NoDup(s) && Gaps(s) && !Tick(s, now).crashed
    ensures forall i :: 0 <= i < |Tick(s, now).fired| ==> Tick(s, now).fired[i].time <= now
    ensures forall i :: 0 <= i < |Tick(s, now).rest| ==> Tick(s, now).rest[i].time > now
  {
    TickWithGaps(s, now);
    var c, t := Slot(s, now + 1), Tick(s, now);
    forall i | 0 <= i < |t.fired|
      ensures t.fired[i].time <= now
    {
      assert Keys(t.fired)[i] == Keys(s[..c])[i];
    }
    forall i | 0 <= i < |t.rest|
      ensures t.rest[i].time > now
    {
      assert Keys(t.rest)[i] == Keys(s[c..])[i];
      assert s[c].time <= s[c + i].time;
    }
  }

  /** In every clean run the alarms fire exactly the due timers. */
  lemma {:induction false} CleanRunsFireOnTime(s: seq<Timer>, ops: seq<(Op, int)>)
    requires Sorted(s) && NoDup(s) && Gaps(s) && CleanRun(s, ops)
    ensures FiresOnTime(s, ops)
    decreases |ops|
  {
    if ops != [] {
      var now := ops[0].1;
      var t := Next(s, ops[0].0, now);
      if ops[0].0.Add? {
        var x := ops[0].0.timer;
        InsertKeepsOrder(s, x, now);
        if x.time >= now {
          InsertKeepsGapsIff(s, x, now);
        }
      } else {
        TickWithGaps(s, now);
        AlarmOnTime(s, now);
      }
      CleanRunsFireOnTime(t.rest, ops[1..]);
    }
  }

  /** Replacing a middle timer by a later one leaves a stale zero, and the next alarm fires the
      timer behind it ten seconds early. */
  lemma StaleGapFiresEarly()
    ensures var s := [Timer(1, 0, 10, 10), Timer(2, 0, 10, 20), Timer(3, 0, 0, 20)];
      && Sorted(s) && NoDup(s) && Gaps(s)
      && var t := Tick(Insert(s, Timer(2, 0, 0, 30), 0), 10);
         t.fired == [Timer(1, 0, 0, 10), Timer(3, 0, 0, 20)] && !t.crashed
  {
    var s := [Timer(1, 0, 10, 10), Timer(2, 0, 10, 20), Timer(3, 0, 0, 20)];
    var x := Timer(2, 0, 0, 30);
    assert Dup(s, x) == 1;
    var rest := [s[0], s[2]];
    assert Without(s, x) == rest;
    assert Slot(rest, 30) == 2;
    var r := [s[0], s[2], x.(elapse := 10)];
    assert Insert(s, x, 0) == r;
    var b := Rebase(r, 10);
    assert b == [Timer(1, 0, 0, 10), s[2], x.(elapse := 10)];
    assert FirePast(b, 10) == Ticked(b, [], false);
    assert b[1..] == [s[2], x.(elapse := 10)];
    assert b[1..][1..] == [x.(elapse := 10)];
    assert FireNow(b[1..][1..]).fired == [];
    assert FireNow(b[1..]).fired == [s[2]];
    assert FireNow(b).fired == [Timer(1, 0, 0, 10), s[2]];
  }

  /** One timer five seconds past is enough for the alarm to read a null head. */
  lemma PastTimerCrashes()
    ensures Tick([Timer(1, 0, 5, 5)], 10).crashed
  {
    CrashIff([Timer(1, 0, 5, 5)], 10);
  }
}
