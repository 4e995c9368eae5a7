/** Transmit buffering of the resource manager: packets are collected in a 32-slot table and sent in
    bursts; what the driver does not accept is freed (RM/main.c). */
module TxBuffer {
  const MAX_PKT_BURST: nat := 32
  const MAX_TX_BURST: nat := 16

  type Mbuf = int

  /** `queue` is the live part of the table; `sent` and `freed` are all packets handed on so far. */
  datatype Tx = Tx(queue: seq<Mbuf>, sent: seq<Mbuf>, freed: seq<Mbuf>)

  function Min(a: nat, b: nat): nat {
    if a < b then a else b
  }

  /** The driver accepts a prefix of the burst; the rest is freed. */
  function Burst(tx: Tx, pkts: seq<Mbuf>, accepted: nat): Tx {
    var a := Min(accepted, |pkts|);
    tx.(sent := tx.sent + pkts[..a], freed := tx.freed + pkts[a..])
  }

  /** One packet: a full table is sent at once. */
  function SendOne(tx: Tx, m: Mbuf, accepted: nat): Tx {
    var q := tx.queue + [m];
    if |q| == MAX_PKT_BURST then Burst(tx.(queue := []), q, accepted) else tx.(queue := q)
  }

  function SendEach(tx: Tx, ms: seq<Mbuf>, accepted: nat): Tx
    decreases |ms|
  {
    if ms == [] then tx else SendEach(SendOne(tx, ms[0], accepted), ms[1..], accepted)
  }

  /** Many packets: straight to the driver if the table is empty and there are enough of them. */
  predicate Direct(tx: Tx, ms: seq<Mbuf>) {
    |ms| >= MAX_TX_BURST && tx.queue == []
  }

  function SendMany(tx: Tx, ms: seq<Mbuf>, accepted: nat): Tx {
    var all := tx.queue + ms;
    if Direct(tx, ms) then Burst(tx, ms, accepted)
    else if |all| >= MAX_PKT_BURST then
      Burst(tx.(queue := all[MAX_PKT_BURST..]), all[..MAX_PKT_BURST], accepted)
    else tx.(queue := all)
  }

  /** Everything ever handed in, in one bag. */
  function Everything(tx: Tx): multiset<Mbuf> {
    multiset(tx.queue) + multiset(tx.sent) + multiset(tx.freed)
  }

  /** A burst of the oldest packets, split into accepted and freed, accounts for everything. */
  lemma BurstAccounts(tx: Tx, tx': Tx, ms: seq<Mbuf>, burst: seq<Mbuf>, a: nat)
    requires a <= |burst| && burst + tx'.queue == tx.queue + ms
    requires tx'.sent == tx.sent + burst[..a] && tx'.freed == tx.freed + burst[a..]
    ensures Everything(tx') == Everything(tx) + multiset(ms)
  {
    var x, y := burst[..a], burst[a..];
    assert burst == x + y && x + y + tx'.queue == tx.queue + ms;
    assert multiset(tx.queue + ms) == multiset(tx.queue) + multiset(ms);
    assert multiset(x + y + tx'.queue) == multiset(x) + multiset(y) + multiset(tx'.queue);
    assert multiset(tx.sent + x) == multiset(tx.sent) + multiset(x);
    assert multiset(tx.freed + y) == multiset(tx.freed) + multiset(y);
    Regroup(multiset(tx'.queue), multiset(tx.sent), multiset(x), multiset(tx.freed), multiset(y),
            multiset(tx.queue), multiset(ms));
  }

  lemma Regroup(q': multiset<Mbuf>, s: multiset<Mbuf>, x: multiset<Mbuf>, f: multiset<Mbuf>, y: multiset<Mbuf>,
                q: multiset<Mbuf>, ms: multiset<Mbuf>)
    requires x + y + q' == q + ms
    ensures q' + (s + x) + (f + y) == q + s + f + ms
  {
    forall m: Mbuf
      ensures (q' + (s + x) + (f + y))[m] == (q + s + f + ms)[m]
    {
      assert (x + y + q')[m] == (q + ms)[m];
    }
  }

  /** Of a burst the driver takes as many packets as it has room for, from the front. */
  predicate Taken(burst: seq<Mbuf>, accepted: nat, a: nat) {
    if accepted <= |burst| then a == accepted else a == |burst|
  }

  /** The number of packets a batch sends at once: all of at least 16 that find the table empty, otherwise
      32 as soon as there are that many. */
  function BurstSize(queued: nat, handed: nat): nat {
    if queued == 0 && handed >= 16 then handed else if queued + handed >= 32 then 32 else 0
  }

  /** What a batch sends: nothing, or the oldest packets, of which the driver accepts a prefix. */
  lemma SendManyBurst(tx: Tx, ms: seq<Mbuf>, accepted: nat) returns (burst: seq<Mbuf>, a: nat)
    requires |tx.queue| < MAX_PKT_BURST && |ms| <= MAX_PKT_BURST
    ensures var tx' := SendMany(tx, ms, accepted);
      && a <= |burst| && burst + tx'.queue == tx.queue + ms && |tx'.queue| < MAX_PKT_BURST
      && tx'.sent == tx.sent + burst[..a] && tx'.freed == tx.freed + burst[a..]
      && Taken(burst, accepted, a) && |burst| == BurstSize(|tx.queue|, |ms|)
  {
    var all := tx.queue + ms;
    if Direct(tx, ms) {
      burst := ms;
      assert burst + [] == all;
    } else if |all| >= MAX_PKT_BURST {
      burst := all[..MAX_PKT_BURST];
      assert burst + all[MAX_PKT_BURST..] == all;
    } else {
      burst := [];
    }
    a := Min(accepted, |burst|);
  }

  /** No packet is lost, duplicated or left unaccounted for, the live part stays below the table
      size, and packets leave in the order in which they came: as many as the driver takes of the
      burst are sent, and only the others of the burst are freed. */
  lemma SendManyConserves(tx: Tx, ms: seq<Mbuf>, accepted: nat)
    requires |tx.queue| < MAX_PKT_BURST && |ms| <= MAX_PKT_BURST
    ensures var tx' := SendMany(tx, ms, accepted);
      && Everything(tx') == Everything(tx) + multiset(ms)
      && |tx'.queue| < MAX_PKT_BURST
      && exists burst: seq<Mbuf>, a: nat ::
           && a <= |burst| && burst + tx'.queue == tx.queue + ms
           && tx'.sent == tx.sent + burst[..a] && tx'.freed == tx.freed + burst[a..]
           && Taken(burst, accepted, a) && |burst| == BurstSize(|tx.queue|, |ms|)
  {
    var burst, a := SendManyBurst(tx, ms, accepted);
    BurstAccounts(tx, SendMany(tx, ms, accepted), ms, burst, a);
  }

  // ---------- the batch against packet by packet ----------

  lemma {:induction false} EachBelow(tx: Tx, ms: seq<Mbuf>, accepted: nat)
    requires |tx.queue| + |ms| < MAX_PKT_BURST
    ensures SendEach(tx, ms, accepted) == tx.(queue := tx.queue + ms)
    decreases |ms|
  {
    if ms != [] {
      EachBelow(SendOne(tx, ms[0], accepted), ms[1..], accepted);
      assert tx.queue + [ms[0]] + ms[1..] == tx.queue + ms;
    } else {
      assert tx.queue + ms == tx.queue;
    }
  }

  lemma {:induction false} EachSplit(tx: Tx, ms: seq<Mbuf>, k: nat, accepted: nat)
    requires k <= |ms|
    ensures SendEach(tx, ms, accepted) == SendEach(SendEach(tx, ms[..k], accepted), ms[k..], accepted)
    decreases |ms|
  {
    if k > 0 {
      EachSplit(SendOne(tx, ms[0], accepted), ms[1..], k - 1, accepted);
      assert ms[..k][1..] == ms[1..][..k - 1] && ms[1..][k - 1..] == ms[k..];
    } else {
      assert ms[..0] == [] && ms[0..] == ms;
    }
  }

  /** When the packets fill the table, sending them one by one makes one burst of 32 and keeps the rest. */
  lemma EachFull(tx: Tx, ms: seq<Mbuf>, accepted: nat)
    requires |tx.queue| < MAX_PKT_BURST <= |tx.queue| + |ms| && |ms| <= MAX_PKT_BURST
    ensures var all := tx.queue + ms;
      SendEach(tx, ms, accepted) == Burst(tx.(queue := all[MAX_PKT_BURST..]), all[..MAX_PKT_BURST], accepted)
  {
    var all := tx.queue + ms;
    var k := MAX_PKT_BURST - 1 - |tx.queue|;
    EachSplit(tx, ms, k, accepted);
    EachBelow(tx, ms[..k], accepted);
    var tx1 := tx.(queue := tx.queue + ms[..k]);
    var rest := ms[k..];
    assert rest[0] == ms[k] && rest[1..] == ms[k + 1..];
    var tx2 := SendOne(tx1, ms[k], accepted);
    assert tx.queue + ms[..k] + [ms[k]] == all[..MAX_PKT_BURST];
    EachBelow(tx2, ms[k + 1..], accepted);
    assert [] + ms[k + 1..] == all[MAX_PKT_BURST..];
  }

  /** The batch does what packet-by-packet sending does, except exactly when it bypasses an empty
      table with fewer than 32 packets: those go out at once instead of waiting in the table. */
  lemma BatchRefinesSinglesIff(tx: Tx, ms: seq<Mbuf>, accepted: nat)
    requires |tx.queue| < MAX_PKT_BURST && |ms| <= MAX_PKT_BURST
    ensures SendMany(tx, ms, accepted) == SendEach(tx, ms, accepted) <==>
            !(Direct(tx, ms) && |ms| < MAX_PKT_BURST)
  {
    var all := tx.queue + ms;
    if |all| < MAX_PKT_BURST {
      EachBelow(tx, ms, accepted);
    } else {
      EachFull(tx, ms, accepted);
      if Direct(tx, ms) {
        assert all[..MAX_PKT_BURST] == ms && all[MAX_PKT_BURST..] == [];
      }
    }
  }

  // ---------- any sequence of calls ----------

  /** A call with one packet or a batch, and how many packets the driver takes if it comes to a burst. */
  datatype Call = One(m: Mbuf, accepted: nat) | Many(ms: seq<Mbuf>, accepted: nat)

  function PacketsOf(c: Call): seq<Mbuf> {
    if c.One? then [c.m] else c.ms
  }

  predicate AllLegal(calls: seq<Call>) {
    forall i :: 0 <= i < |calls| ==> |PacketsOf(calls[i])| <= MAX_PKT_BURST
  }

  /** Everything handed in, in its order. */
  function Handed(calls: seq<Call>): seq<Mbuf> {
    if calls == [] then [] else Handed(calls[..|calls| - 1]) + PacketsOf(calls[|calls| - 1])
  }

  function AfterCalls(calls: seq<Call>): Tx {
    if calls == [] then Tx([], [], [])
    else
      var tx, c := AfterCalls(calls[..|calls| - 1]), calls[|calls| - 1];
      if c.One? then SendOne(tx, c.m, c.accepted) else SendMany(tx, c.ms, c.accepted)
  }

  /** The packets whose fate is `b`, in their order. */
  function Pick(h: seq<Mbuf>, fate: seq<bool>, b: bool): seq<Mbuf>
    requires |h| == |fate|
  {
    if h == [] then []
    else Pick(h[..|h| - 1], fate[..|h| - 1], b) + if fate[|h| - 1] == b then [h[|h| - 1]] else []
  }

  lemma {:induction false} PickConcat(h: seq<Mbuf>, f: seq<bool>, k: seq<Mbuf>, g: seq<bool>, b: bool)
    requires |h| == |f| && |k| == |g|
    ensures Pick(h + k, f + g, b) == Pick(h, f, b) + Pick(k, g, b)
  {
    if k == [] {
      assert h + k == h && f + g == f;
    } else {
      var n := |k| - 1;
      assert (h + k)[..|h| + n] == h + k[..n] && (f + g)[..|h| + n] == f + g[..n];
      PickConcat(h, f, k[..n], g[..n], b);
    }
  }

  lemma {:induction false} PickSame(h: seq<Mbuf>, fate: seq<bool>, b: bool)
    requires |h| == |fate| && forall i :: 0 <= i < |fate| ==> fate[i] == b
    ensures Pick(h, fate, b) == h && Pick(h, fate, !b) == []
  {
    if h != [] {
      PickSame(h[..|h| - 1], fate[..|h| - 1], b);
    }
  }

  /** A burst of which a prefix was taken. */
  lemma PickBurst(burst: seq<Mbuf>, a: nat) returns (fate: seq<bool>)
    requires a <= |burst|
    ensures |fate| == |burst| && Pick(burst, fate, true) == burst[..a] && Pick(burst, fate, false) == burst[a..]
  {
    var yes, no := seq(a, i => true), seq(|burst| - a, i => false);
    fate := yes + no;
    assert burst[..a] + burst[a..] == burst;
    PickConcat(burst[..a], yes, burst[a..], no, true);
    PickConcat(burst[..a], yes, burst[a..], no, false);
    PickSame(burst[..a], yes, true);
    PickSame(burst[a..], no, false);
  }

  lemma OneIsMany(tx: Tx, m: Mbuf, accepted: nat)
    requires |tx.queue| < MAX_PKT_BURST
    ensures SendOne(tx, m, accepted) == SendMany(tx, [m], accepted)
  {
    var q := tx.queue + [m];
    if |q| == MAX_PKT_BURST {
      assert q[..MAX_PKT_BURST] == q && q[MAX_PKT_BURST..] == [];
    }
  }

  /** The state accounts for everything handed in so far: each packet of a prefix of it was sent or freed,
      as `fate` says, both in the order of arrival, and the rest is queued in that order. */
  ghost predicate Accounted(tx: Tx, h: seq<Mbuf>, fate: seq<bool>) {
    && |fate| <= |h| && |tx.queue| < MAX_PKT_BURST
    && tx.queue == h[|fate|..]
    && tx.sent == Pick(h[..|fate|], fate, true)
    && tx.freed == Pick(h[..|fate|], fate, false)
  }

  lemma CallAccounted(tx: Tx, h: seq<Mbuf>, fate: seq<bool>, ms: seq<Mbuf>, accepted: nat) returns (fate': seq<bool>)
    requires Accounted(tx, h, fate) && |ms| <= MAX_PKT_BURST
    ensures Accounted(SendMany(tx, ms, accepted), h + ms, fate')
  {
    hide Pick, SendMany;
    var tx' := SendMany(tx, ms, accepted);
    var burst, a := SendManyBurst(tx, ms, accepted);
    var more := PickBurst(burst, a);
    fate' := fate + more;
    var n, all := |fate|, h + ms;
    assert all[n..] == tx.queue + ms == burst + tx'.queue;
    assert all[..n] == h[..n] && all[n..][..|burst|] == burst && all[n..][|burst|..] == tx'.queue;
    assert all[..n + |burst|] == h[..n] + burst && all[n + |burst|..] == tx'.queue;
    PickConcat(h[..n], fate, burst, more, true);
    PickConcat(h[..n], fate, burst, more, false);
  }

  /** After any sequence of single and batch calls from an empty table, everything handed in is sent, freed
      or queued, each exactly once and each in the order of arrival, and fewer than 32 are queued. */
  lemma {:induction false} CallsConserve(calls: seq<Call>) returns (fate: seq<bool>)
    requires AllLegal(calls)
    ensures Accounted(AfterCalls(calls), Handed(calls), fate)
    ensures Everything(AfterCalls(calls)) == multiset(Handed(calls))
  {
    if calls == [] {
      fate := [];
    } else {
      var init, c := calls[..|calls| - 1], calls[|calls| - 1];
      var before := CallsConserve(init);
      var tx := AfterCalls(init);
      if c.One? {
        OneIsMany(tx, c.m, c.accepted);
      }
      fate := CallAccounted(tx, Handed(init), before, PacketsOf(c), c.accepted);
      SendManyConserves(tx, PacketsOf(c), c.accepted);
      assert multiset(Handed(calls)) == multiset(Handed(init)) + multiset(PacketsOf(c));
    }
  }

  // ---------- the table in place ----------

  class TxQueue {
    const table: array<Mbuf>
    var len: nat
    var sent: seq<Mbuf>
    var freed: seq<Mbuf>

    ghost predicate Valid()
      reads this
    {
      table.Length == MAX_PKT_BURST && len < MAX_PKT_BURST
    }

    ghost function View(): Tx
      requires len <= table.Length
      reads this, table
    {
      Tx(table[..len], sent, freed)
    }

    /** `rte_eth_tx_burst` on the first `n` packets of an array, then freeing what was not taken. */
    method SendBurst(m: array<Mbuf>, n: nat, accepted: nat)
      requires n <= m.Length
      modifies this`sent, this`freed
      ensures sent == old(sent) + m[..Min(accepted, n)]
      ensures freed == old(freed) + m[Min(accepted, n)..n]
    {
      var ret := Min(accepted, n);
      sent := sent + m[..ret];
      ghost var first := ret;
      while ret < n
        invariant first <= ret <= n && freed == old(freed) + m[first..ret] && sent == old(sent) + m[..first]
      {
        freed := freed + [m[ret]];
        ret := ret + 1;
      }
    }

    /** `send_single_packet`. */
    method SendSinglePacket(m: Mbuf, accepted: nat)
      requires Valid()
      modifies this`len, this`sent, this`freed, table
      ensures Valid()
      ensures View() == SendOne(old(View()), m, accepted)
    {
      ghost var tx := View();
      var n := len;
      table[n] := m;
      n := n + 1;
      assert table[..n] == tx.queue + [m];
      if n == MAX_PKT_BURST {
        SendBurst(table, MAX_PKT_BURST, accepted);
        n := 0;
      }
      len := n;
    }

    /** The unrolled copy: the remainder modulo four says where the loop body is entered, so a
        remainder of zero makes a full round even when nothing is left to copy. */
    method CopyUnrolled(at: nat, m: array<Mbuf>, from: nat, n: nat)
      requires table != m
      requires at + n <= table.Length && from + n <= m.Length
      requires n == 0 ==> at + 4 <= table.Length && from + 4 <= m.Length
      modifies table
      ensures table[at..at + n] == m[from..from + n]
      ensures table[..at] == old(table[..at])
    {
      var j := EnterCopy(at, m, from, n);
      ghost var rounds := if n % 4 == 0 then n / 4 - 1 else n / 4;
      while j < n
        invariant n == 0 || (rounds >= 0 && n == j + 4 * rounds)
        invariant at + j <= table.Length && from + j <= m.Length
        invariant table[at..at + j] == m[from..from + j]
        invariant table[..at] == old(table[..at])
      {
        j := CopyOne(at, m, from, j);
        j := CopyOne(at, m, from, j);
        j := CopyOne(at, m, from, j);
        j := CopyOne(at, m, from, j);
        rounds := rounds - 1;
      }
      assert table[at..at + n] == table[at..at + j][..n] && m[from..from + n] == m[from..from + j][..n];
    }

    /** The first round, entered at the case of the remainder. */
    method EnterCopy(at: nat, m: array<Mbuf>, from: nat, n: nat) returns (j: nat)
      requires table != m
      requires at + n <= table.Length && from + n <= m.Length
      requires n == 0 ==> at + 4 <= table.Length && from + 4 <= m.Length
      modifies table
      ensures j == if n % 4 == 0 then 4 else n % 4
      ensures table[at..at + j] == m[from..from + j]
      ensures table[..at] == old(table[..at])
    {
      var r := n % 4;
      j := 0;
      if r == 0 {
        j := CopyOne(at, m, from, j);
      }
      if r == 0 || r == 3 {
        j := CopyOne(at, m, from, j);
      }
      if r == 0 || r == 3 || r == 2 {
        j := CopyOne(at, m, from, j);
      }
      j := CopyOne(at, m, from, j);
    }

    method CopyOne(at: nat, m: array<Mbuf>, from: nat, j: nat) returns (j': nat)
      requires table != m && at + j < table.Length && from + j < m.Length
      requires table[at..at + j] == m[from..from + j]
      modifies table
      ensures j' == j + 1
      ensures table[at..at + j'] == m[from..from + j']
      ensures table[..at] == old(table[..at])
    {
      ghost var done := table[at..at + j];
      table[at + j] := m[from + j];
      j' := j + 1;
      assert table[at..at + j] == done;
      assert table[at..at + j'] == table[at..at + j] + [table[at + j]];
      assert m[from..from + j'] == m[from..from + j] + [m[from + j]];
    }

    /** `send_packetsx4`. When the packets fill the table exactly, the second copy still reads four
        array slots behind them. */
    method SendPacketsX4(m: array<Mbuf>, num: nat, accepted: nat)
      requires Valid() && table != m && 1 <= num <= MAX_PKT_BURST
      requires num + (if len + num == MAX_PKT_BURST then 4 else 0) <= m.Length
      modifies this`len, this`sent, this`freed, table
      ensures Valid()
      ensures View() == SendMany(old(View()), m[..num], accepted)
    {
      if num >= MAX_TX_BURST && len == 0 {
        ghost var a := Min(accepted, num);
        SendBurst(m, num, accepted);
        assert m[..num][..a] == m[..a] && m[..num][a..] == m[a..num];
        return;
      }
      BufferPackets(m, num, accepted);
    }

    /** The buffered path: fill the table, send it when full, start over with what is left. */
    method BufferPackets(m: array<Mbuf>, num: nat, accepted: nat)
      requires Valid() && table != m && 1 <= num <= MAX_PKT_BURST
      requires num + (if len + num == MAX_PKT_BURST then 4 else 0) <= m.Length
      modifies this`len, this`sent, this`freed, table
      ensures Valid()
      ensures var all := old(View()).queue + m[..num];
        View() == if |all| >= MAX_PKT_BURST
                  then Burst(old(View()).(queue := all[MAX_PKT_BURST..]), all[..MAX_PKT_BURST], accepted)
                  else old(View()).(queue := all)
    {
      ghost var all := View().queue + m[..num];
      var n := len + num;
      n := if n > MAX_PKT_BURST then MAX_PKT_BURST - len else num;
      CopyUnrolled(len, m, 0, n);
      assert table[..len + n] == table[..len] + table[len..len + n];
      assert table[..len + n] == all[..len + n];
      var newLen := len + n;
      if newLen == MAX_PKT_BURST {
        assert table[..MAX_PKT_BURST] == all[..MAX_PKT_BURST];
        SendBurst(table, MAX_PKT_BURST, accepted);
        assert table[..] == all[..MAX_PKT_BURST];
        newLen := num - n;
        CopyUnrolled(0, m, n, newLen);
        assert all[MAX_PKT_BURST..] == m[n..num];
        assert table[..newLen] == table[0..0 + newLen];
      }
      len := newLen;
    }
  }
}
