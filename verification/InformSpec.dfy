/** The inform requests of the monitoring agent: which items a request asks for, how the list of ports is
    packed into datagrams, and what a receiver reads out of them (local_inform.c and local_comm.c of
    NetworkMonitoringTools/stats_send_ver_test1). */
module InformSpec {
  import opened Words

  type Host = s: Bytes | |s| == 32 witness Blank(32)
  type Ip = s: Bytes | |s| == 16 witness Blank(16)
  type Tail = s: Bytes | |s| == 52 witness Blank(52)

  function Blank(n: nat): (b: Bytes)
    ensures |b| == n
  {
    seq(n, _ => 0)
  }

  const BUFFER: nat := 1024
  const REPLY: nat := 1280
  const HEADER: nat := 40           // the type word and the head
  const MIDDLE: nat := 20
  const TAIL: nat := 52
  const INFORM_GET: nat := 3
  const NO_VALUE: Bytes := [255, 255, 255, 255, 255, 255, 255, 255]

  // ---------- the items of a request ----------

  const NAMES: seq<string> := ["total_packets", "rx_packets", "tx_packets", "total_bytes",
                               "rx_bytes", "tx_bytes", "rtt_avg", "packets_loss"]

  function Lower(s: string): string {
    seq(|s|, i requires 0 <= i < |s| => if 'A' <= s[i] <= 'Z' then s[i] + 32 as char else s[i])
  }

  /** The bit a word stands for, ignoring case; eight if there is none. */
  function BitOf(word: string): (i: nat)
    ensures i <= |NAMES|
    ensures i < |NAMES| ==> Lower(word) == NAMES[i]
    ensures i == |NAMES| ==> Lower(word) !in NAMES
  {
    var w := Lower(word);
    if w == NAMES[0] then 0 else if w == NAMES[1] then 1 else if w == NAMES[2] then 2 else if w == NAMES[3] then 3
    else if w == NAMES[4] then 4 else if w == NAMES[5] then 5 else if w == NAMES[6] then 6 else if w == NAMES[7] then 7
    else 8
  }

  /** `r ^ (1 << i)`. */
  function Toggle(r: nat, i: nat): nat {
    if i == 0 then (if r % 2 == 0 then r + 1 else r - 1) else 2 * Toggle(r / 2, i - 1) + r % 2
  }

  /** The positions of the bits of `r`, lowest first, if its lowest one has position `j`. */
  function Items(r: nat, j: nat): (s: seq<nat>)
    ensures forall i :: 0 <= i < |s| ==> j <= s[i]
    ensures r == 0 ==> s == []
  {
    if r == 0 then [] else (if r % 2 == 1 then [j] else []) + Items(r / 2, j + 1)
  }

  lemma ItemsStep(r: nat, j: nat)
    ensures Items(r, j) == (if r % 2 == 1 then [j] else []) + Items(r / 2, j + 1)
  {
  }

  lemma ToggleStep(r: nat, i: nat)
    ensures var t := Toggle(r, i);
      if i == 0 then t / 2 == r / 2 && t % 2 != r % 2 else t / 2 == Toggle(r / 2, i - 1) && t % 2 == r % 2
  {
  }

  lemma {:induction false} ToggleItems(r: nat, i: nat, j: nat)
    ensures forall k :: k in Items(Toggle(r, i), j) <==> (k in Items(r, j)) != (k == i + j)
    ensures |Items(Toggle(r, i), j)| == |Items(r, j)| + if i + j in Items(r, j) then -1 else 1
    decreases i
  {
    hide Items, Toggle;
    ToggleStep(r, i);
    ItemsStep(r, j);
    ItemsStep(Toggle(r, i), j);
    if i > 0 {
      ToggleItems(r / 2, i - 1, j + 1);
    }
  }

  /** The words of a line, cut at every blank. */
  function Split(line: string): (words: seq<string>)
    ensures words != []
  {
    if line == [] then [""]
    else
      var words := Split(line[1..]);
      if line[0] == ' ' then [""] + words else [[line[0]] + words[0]] + words[1..]
  }

  /** The request word and the number of recognised words. */
  function RequestOf(words: seq<string>): (nat, nat) {
    if words == [] then (0, 0)
    else
      var (r, n) := RequestOf(words[..|words| - 1]);
      var i := BitOf(words[|words| - 1]);
      if i < |NAMES| then (Toggle(r, i), n + 1) else (r, n)
  }

  function Bits(words: seq<string>): (bits: seq<nat>)
    ensures |bits| == |words| && forall a :: 0 <= a < |words| ==> bits[a] == BitOf(words[a])
  {
    seq(|words|, a requires 0 <= a < |words| => BitOf(words[a]))
  }

  predicate Twice(bits: seq<nat>) {
    exists a, b :: 0 <= a < b < |bits| && bits[a] == bits[b] < |NAMES|
  }

  predicate NamedTwice(words: seq<string>) {
    Twice(Bits(words))
  }

  lemma TwiceSnoc(bits: seq<nat>, i: nat)
    ensures Twice(bits + [i]) <==> Twice(bits) || (i < |NAMES| && i in bits)
  {
    var more := bits + [i];
    if Twice(bits) {
      var a, b :| 0 <= a < b < |bits| && bits[a] == bits[b] < |NAMES|;
      assert more[a] == more[b];
    }
    if i < |NAMES| && i in bits {
      var a :| 0 <= a < |bits| && bits[a] == i;
      assert more[a] == more[|bits|];
    }
    if Twice(more) {
      var a, b :| 0 <= a < b < |more| && more[a] == more[b] < |NAMES|;
      assert b < |bits| ==> bits[a] == bits[b];
    }
  }

  /** The request asks for exactly the named items, and for as many as were counted, if and only if no
      item is named twice: a second mention takes the bit away and is counted all the same. */
  lemma {:induction false} CountedIffNamedOnce(words: seq<string>)
    ensures var (r, n) := RequestOf(words);
      && |Items(r, 0)| <= n
      && (|Items(r, 0)| == n <==> !NamedTwice(words))
      && (!NamedTwice(words) ==> forall k :: k in Items(r, 0) <==> k in Bits(words) && k < |NAMES|)
  {
    hide Items, Toggle, BitOf, Twice, Bits;
    if words != [] {
      var init, i := words[..|words| - 1], BitOf(words[|words| - 1]);
      CountedIffNamedOnce(init);
      assert Bits(words) == Bits(init) + [i];
      TwiceSnoc(Bits(init), i);
      ToggleItems(RequestOf(init).0, i, 0);
    } else {
      NoneTwice();
    }
  }

  lemma NoneTwice()
    ensures forall bits: seq<nat> :: bits == [] ==> !Twice(bits)
  {
  }

  /** At most eight items, so a port that names none twice fits any empty datagram. */
  lemma {:induction false} ItemsBound(r: nat, j: nat, k: nat)
    requires forall i :: i in Items(r, j) ==> i < j + k
    ensures |Items(r, j)| <= k
    decreases k
  {
    if r != 0 {
      if k == 0 {
        SomeItem(r, j);
      } else {
        var rest := Items(r / 2, j + 1);
        assert Items(r, j) == (if r % 2 == 1 then [j] else []) + rest;
        assert forall i :: i in rest ==> i in Items(r, j);
        ItemsBound(r / 2, j + 1, k - 1);
      }
    }
  }

  lemma {:induction false} SomeItem(r: nat, j: nat)
    requires r != 0
    ensures Items(r, j) != [] && Items(r, j)[0] in Items(r, j)
  {
    if r % 2 == 0 {
      SomeItem(r / 2, j + 1);
    }
  }

  // ---------- messages ----------

  datatype Port = Port(ip: Ip, request: uint32, tails: seq<Tail>)

  /** A port whose record a receiver can take apart: one tail for every bit of its request. */
  predicate Readable(p: Port) {
    |p.tails| == |Items(p.request, 0)|
  }

  predicate AllReadable(ports: seq<Port>) {
    forall i :: 0 <= i < |ports| ==> Readable(ports[i])
  }

  function Le32(x: uint32): (b: Bytes)
    ensures |b| == 4
  {
    var y := x / 256;
    var z := y / 256;
    [x % 256, y % 256, z % 256, z / 256]
  }

  function ReadLe32(b: Bytes): uint32
    requires |b| == 4
  {
    Byte(b, 0) + 256 * (Byte(b, 1) + 256 * (Byte(b, 2) + 256 * Byte(b, 3)))
  }

  lemma Le32RoundTrip(x: uint32)
    ensures ReadLe32(Le32(x)) == x
  {
  }

  function Tails(ts: seq<Tail>): (b: Bytes)
    ensures |b| == TAIL * |ts|
  {
    if ts == [] then [] else Tails(ts[..|ts| - 1]) + ts[|ts| - 1]
  }

  function Record(p: Port): (b: Bytes)
    ensures |b| == MIDDLE + TAIL * |p.tails|
  {
    p.ip + Le32(p.request) + Tails(p.tails)
  }

  function Records(ports: seq<Port>): (b: Bytes)
    ensures ports == [] ==> b == []
  {
    if ports == [] then [] else Record(ports[0]) + Records(ports[1..])
  }

  /** A datagram: its type, the switch, the number of port records, and the records. */
  function Message(host: Host, count: uint32, ports: seq<Port>): (b: Bytes)
    ensures |b| == HEADER + |Records(ports)|
  {
    Le32(INFORM_GET) + host + Le32(count) + Records(ports)
  }

  lemma {:induction false} RecordsConcat(a: seq<Port>, b: seq<Port>)
    ensures Records(a + b) == Records(a) + Records(b)
  {
    if a == [] {
      assert a + b == b;
    } else {
      assert (a + b)[0] == a[0] && (a + b)[1..] == a[1..] + b;
      RecordsConcat(a[1..], b);
    }
  }

  lemma RecordsOne(p: Port)
    ensures Records([p]) == Record(p)
  {
    assert Records([p]) == Record(p) + Records([]);
  }

  // ---------- what is entered for an item ----------

  type Times = s: Bytes | |s| == 48 witness Blank(48)

  const KINDS: seq<string> := ["point", "average", "peak", "nadir"]

  /** What the user enters for a counted item: a kind of information and its time or times. */
  datatype Entry = Entry(kind: string, times: Times)

  /** The number of a kind; four if there is none. */
  function KindOf(kind: string): (k: nat)
    ensures k <= |KINDS|
    ensures k < |KINDS| ==> kind == KINDS[k]
    ensures k == |KINDS| ==> kind !in KINDS
  {
    if kind == KINDS[0] then 0 else if kind == KINDS[1] then 1 else if kind == KINDS[2] then 2
    else if kind == KINDS[3] then 3 else 4
  }

  predicate Recognised(e: Entry) {
    KindOf(e.kind) < |KINDS|
  }

  /** The tails written: none for an entry of an unknown kind. */
  function TailsOf(entries: seq<Entry>): (ts: seq<Tail>)
    ensures |ts| <= |entries|
    ensures |ts| == |entries| <==> forall i :: 0 <= i < |entries| ==> Recognised(entries[i])
  {
    if entries == [] then []
    else
      var init, last := entries[..|entries| - 1], entries[|entries| - 1];
      assert forall i :: 0 <= i < |init| ==> init[i] == entries[i];
      TailsOf(init) + if Recognised(last) then [Le32(KindOf(last.kind)) + last.times] else []
  }

  // ---------- fragments ----------

  /** A port as it is packed: room is taken for a tail per counted item, written or not. */
  datatype Packed = Packed(port: Port, count: nat)

  predicate Sound(p: Packed) {
    |p.port.tails| <= p.count
  }

  predicate AllSound(ports: seq<Packed>) {
    forall i :: 0 <= i < |ports| ==> Sound(ports[i])
  }

  function Claim(p: Packed): nat {
    MIDDLE + TAIL * p.count
  }

  function Claims(ports: seq<Packed>): (n: nat)
    ensures ports == [] ==> n == 0
  {
    if ports == [] then 0 else Claims(ports[..|ports| - 1]) + Claim(ports[|ports| - 1])
  }

  function Plain(ports: seq<Packed>): (r: seq<Port>)
    ensures |r| == |ports| && forall i :: 0 <= i < |ports| ==> r[i] == ports[i].port
  {
    seq(|ports|, i requires 0 <= i < |ports| => ports[i].port)
  }

  lemma ClaimsSnoc(ports: seq<Packed>, p: Packed)
    ensures Claims(ports + [p]) == Claims(ports) + Claim(p)
    ensures Plain(ports + [p]) == Plain(ports) + [p.port]
  {
    assert (ports + [p])[..|ports|] == ports;
  }

  /** The records never take more room than was claimed, and as much if every tail was written. */
  lemma {:induction false} RecordsClaimed(ports: seq<Packed>)
    requires AllSound(ports)
    ensures |Records(Plain(ports))| <= Claims(ports)
    ensures (forall i :: 0 <= i < |ports| ==> |ports[i].port.tails| == ports[i].count) ==>
            |Records(Plain(ports))| == Claims(ports)
  {
    if ports != [] {
      var init, last := ports[..|ports| - 1], ports[|ports| - 1];
      RecordsClaimed(init);
      ClaimsSnoc(init, last);
      assert init + [last] == ports;
      RecordsConcat(Plain(init), [last.port]);
      RecordsOne(last.port);
    }
  }

  /** The ports of each datagram: a datagram is sent when the next record no longer fits. */
  function Groups(current: seq<Packed>, ports: seq<Packed>): (g: seq<seq<Packed>>)
    ensures g != []
    decreases |ports|
  {
    if ports == [] then [current]
    else if HEADER + Claims(current) + Claim(ports[0]) <= BUFFER then Groups(current + [ports[0]], ports[1..])
    else [current] + Groups([ports[0]], ports[1..])
  }

  function Concat(g: seq<seq<Packed>>): seq<Packed> {
    if g == [] then [] else g[0] + Concat(g[1..])
  }

  lemma ConcatCons(h: seq<Packed>, t: seq<seq<Packed>>)
    ensures Concat([h] + t) == h + Concat(t)
  {
    assert ([h] + t)[1..] == t;
  }

  predicate Fits(p: Packed) {
    HEADER + Claim(p) <= BUFFER
  }

  /** The datagrams hold all ports in their order, each once. */
  lemma {:induction false} GroupsKeepPorts(current: seq<Packed>, ports: seq<Packed>)
    ensures Concat(Groups(current, ports)) == current + ports
    decreases |ports|
  {
    if ports == [] {
      assert Concat([current]) == current + Concat([]);
    } else {
      assert current + ports == current + [ports[0]] + ports[1..];
      GroupsKeepPorts(current + [ports[0]], ports[1..]);
      GroupsKeepPorts([ports[0]], ports[1..]);
      ConcatCons(current, Groups([ports[0]], ports[1..]));
    }
  }

  /** No datagram is longer than the buffer, and none was sent while the next port still had room. */
  lemma {:induction false} GroupsFull(current: seq<Packed>, ports: seq<Packed>)
    requires HEADER + Claims(current) <= BUFFER && forall i :: 0 <= i < |ports| ==> Fits(ports[i])
    ensures var g := Groups(current, ports);
      && current <= g[0]
      && (forall i :: 0 <= i < |g| ==> HEADER + Claims(g[i]) <= BUFFER)
      && (forall i :: 0 < i < |g| ==> g[i] != [] && HEADER + Claims(g[i - 1]) + Claim(g[i][0]) > BUFFER)
    decreases |ports|
  {
    hide Claims;
    if ports != [] {
      var p, rest := ports[0], ports[1..];
      ClaimsSnoc(current, p);
      ClaimsSnoc([], p);
      assert [] + [p] == [p];
      if HEADER + Claims(current) + Claim(p) <= BUFFER {
        GroupsFull(current + [p], rest);
      } else {
        GroupsFull([p], rest);
      }
    }
  }

  // ---------- reading ----------

  function ReadTails(b: Bytes, k: nat): (ts: seq<Tail>)
    requires TAIL * k <= |b|
    ensures |ts| == k && forall i :: 0 <= i < k ==> ts[i] == b[TAIL * i..TAIL * i + TAIL]
  {
    seq(k, i requires 0 <= i < k => b[TAIL * i..TAIL * i + TAIL])
  }

  datatype Decoded = Malformed | Decoded(ports: seq<Port>, rest: Bytes)

  /** `count` port records from the front of `b`; each has as many tails as its request has bits. */
  function Decode(b: Bytes, count: nat): Decoded {
    if count == 0 then Decoded([], b)
    else if |b| < MIDDLE then Malformed
    else
      var request := ReadLe32(b[16..20]);
      var k := |Items(request, 0)|;
      if |b| < MIDDLE + TAIL * k then Malformed
      else
        var port := Port(b[..16], request, ReadTails(b[MIDDLE..], k));
        match Decode(b[MIDDLE + TAIL * k..], count - 1)
        case Malformed => Malformed
        case Decoded(ports, rest) => Decoded([port] + ports, rest)
  }

  lemma {:induction false} TailsAt(ts: seq<Tail>, i: nat)
    requires i < |ts|
    ensures Tails(ts)[TAIL * i..TAIL * i + TAIL] == ts[i]
  {
    var init := ts[..|ts| - 1];
    if i < |ts| - 1 {
      TailsAt(init, i);
      assert Tails(ts)[TAIL * i..TAIL * i + TAIL] == Tails(init)[TAIL * i..TAIL * i + TAIL];
    }
  }

  /** Reading undoes packing, whatever follows the records in the buffer. */
  lemma {:induction false} DecodeRecords(ports: seq<Port>, after: Bytes)
    requires AllReadable(ports)
    ensures Decode(Records(ports) + after, |ports|) == Decoded(ports, after)
  {
    hide Record, Items, Tails, ReadTails, ReadLe32, Le32;
    if ports == [] {
      assert Records(ports) + after == after;
    } else {
      hide Decode;
      var p, more := ports[0], Records(ports[1..]) + after;
      assert Records(ports) + after == Record(p) + more;
      assert Readable(p);
      DecodeRecords(ports[1..], after);
      DecodeFront(p, more, |ports|);
    }
  }

  lemma DecodeFront(p: Port, more: Bytes, count: nat)
    requires Readable(p) && count > 0 && Decode(more, count - 1).Decoded?
    ensures var d := Decode(more, count - 1); Decode(Record(p) + more, count) == Decoded([p] + d.ports, d.rest)
  {
    hide Record, Items, Tails, ReadTails, ReadLe32, Le32;
    RecordRead(p, more);
    var b, k := Record(p) + more, |p.tails|;
    assert |Items(ReadLe32(b[16..20]), 0)| == k;
    assert Port(b[..16], ReadLe32(b[16..20]), ReadTails(b[MIDDLE..], k)) == p;
  }

  lemma RecordRead(p: Port, more: Bytes)
    requires Readable(p)
    ensures var b, k := Record(p) + more, |p.tails|;
      b[..16] == p.ip && ReadLe32(b[16..20]) == p.request && b[MIDDLE + TAIL * k..] == more
      && ReadTails(b[MIDDLE..], k) == p.tails
  {
    hide Tails, Items;
    var b, k := Record(p) + more, |p.tails|;
    assert b[16..20] == Le32(p.request);
    Le32RoundTrip(p.request);
    forall i | 0 <= i < k
      ensures b[MIDDLE..][TAIL * i..TAIL * i + TAIL] == p.tails[i]
    {
      TailsAt(p.tails, i);
      assert b[MIDDLE..][TAIL * i..TAIL * i + TAIL] == Tails(p.tails)[TAIL * i..TAIL * i + TAIL];
    }
  }

  // ---------- round trip ----------

  /** A datagram as it is sent for a group: the message, and whatever the buffer holds in the room
      claimed for tails that were not written. */
  predicate SentAs(b: Bytes, host: Host, group: seq<Packed>) {
    |group| < TWO_32 && |b| == HEADER + Claims(group) && Message(host, |group|, Plain(group)) <= b
  }

  predicate AllSent(sent: seq<Bytes>, host: Host, g: seq<seq<Packed>>) {
    |sent| == |g| && forall i :: 0 <= i < |g| ==> SentAs(sent[i], host, g[i])
  }

  function PortsIn(m: Bytes): seq<Port> {
    if |m| < HEADER then []
    else
      match Decode(m[HEADER..], ReadLe32(m[HEADER - 4..HEADER]))
      case Malformed => []
      case Decoded(ports, _) => ports
  }

  /** What a receiver reads out of a list of datagrams, in their order. */
  function Unpack(messages: seq<Bytes>): seq<Port> {
    if messages == [] then [] else PortsIn(messages[0]) + Unpack(messages[1..])
  }

  /** What a receiver reads out of a buffer that starts with a message, whatever follows it. */
  lemma MessageRead(host: Host, ports: seq<Port>, b: Bytes)
    requires AllReadable(ports) && |ports| < TWO_32 && Message(host, |ports|, ports) <= b
    ensures ReadLe32(b[HEADER - 4..HEADER]) == |ports| && b[4..HEADER - 4] == host
    ensures Decode(b[HEADER..], |ports|) == Decoded(ports, b[|Message(host, |ports|, ports)|..])
  {
    hide Decode, Records, Items, ReadLe32, Le32;
    var m := Message(host, |ports|, ports);
    var after := b[|m|..];
    assert b == m + after;
    assert m[4..HEADER - 4] == host && m[HEADER - 4..HEADER] == Le32(|ports|);
    assert b[4..HEADER - 4] == m[4..HEADER - 4] && b[HEADER - 4..HEADER] == m[HEADER - 4..HEADER];
    Le32RoundTrip(|ports|);
    assert b[HEADER..] == Records(ports) + after;
    DecodeRecords(ports, after);
  }

  lemma {:induction false} UnpackMessages(sent: seq<Bytes>, host: Host, g: seq<seq<Packed>>)
    requires AllSent(sent, host, g) && AllReadable(Plain(Concat(g)))
    ensures Unpack(sent) == Plain(Concat(g))
  {
    hide Message, Readable, Claims, Decode;
    if g != [] {
      var h, t := g[0], g[1..];
      assert Plain(Concat(g)) == Plain(h) + Plain(Concat(t));
      assert Plain(h) == Plain(Concat(g))[..|h|] && Plain(Concat(t)) == Plain(Concat(g))[|h|..];
      MessageRead(host, Plain(h), sent[0]);
      UnpackMessages(sent[1..], host, t);
    }
  }

  /** Whatever is asked for, if every port has a tail for every bit of its request: the datagrams sent
      give back exactly those ports in their order, and none is longer than the buffer. */
  lemma FragmentsRoundTrip(sent: seq<Bytes>, host: Host, ports: seq<Packed>)
    requires AllReadable(Plain(ports)) && forall i :: 0 <= i < |ports| ==> Fits(ports[i])
    requires AllSent(sent, host, Groups([], ports))
    ensures Unpack(sent) == Plain(ports)
    ensures forall i :: 0 <= i < |sent| ==> |sent[i]| <= BUFFER
  {
    hide Unpack, Message, Claims;
    GroupsKeepPorts([], ports);
    assert Claims([]) == 0;
    GroupsFull([], ports);
    assert [] + ports == ports;
    UnpackMessages(sent, host, Groups([], ports));
  }

  // ---------- the reply ----------

  /** Every tail with the value fetched for it; without a database that is always -1. */
  function Answers(ts: seq<Tail>): (b: Bytes)
    ensures |b| == (TAIL + 8) * |ts|
  {
    if ts == [] then [] else Answers(ts[..|ts| - 1]) + ts[|ts| - 1] + NO_VALUE
  }

  function Reply(ports: seq<Port>): (b: Bytes)
    ensures ports == [] ==> b == []
  {
    if ports == [] then []
    else
      var last := ports[|ports| - 1];
      Reply(ports[..|ports| - 1]) + last.ip + Le32(last.request) + Answers(last.tails)
  }

  /** A request that fits the receive buffer has an answer that fits the reply buffer, together with
      the record head copied behind it. */
  lemma {:induction false} ReplyFits(b: Bytes, count: nat)
    requires Decode(b, count).Decoded?
    ensures var d := Decode(b, count);
      && |d.rest| <= |b|
      && 52 * |Reply(d.ports)| <= 60 * (|b| - |d.rest|)
  {
    hide Items, ReadTails, Reply;
    if count > 0 {
      var k := |Items(ReadLe32(b[16..20]), 0)|;
      var b' := b[MIDDLE + TAIL * k..];
      ReplyFits(b', count - 1);
      ReplyCons(Decode(b, count).ports);
    }
  }

  lemma {:induction false} ReplyCons(ports: seq<Port>)
    requires ports != []
    ensures |Reply(ports)| == MIDDLE + (TAIL + 8) * |ports[0].tails| + |Reply(ports[1..])|
  {
    if |ports| > 1 {
      var init := ports[..|ports| - 1];
      ReplyCons(init);
      assert init[1..] == ports[1..][..|ports| - 2];
    } else {
      assert Reply(ports[..0]) == [];
    }
  }

  lemma ReplySnoc(done: seq<Port>, p: Port)
    ensures Reply(done + [p]) == Reply(done) + p.ip + Le32(p.request) + Answers(p.tails)
  {
    assert (done + [p])[..|done|] == done;
  }

  lemma {:induction false} ReplyPrefix(a: seq<Port>, b: seq<Port>)
    ensures |Reply(a + b)| >= |Reply(a)| && Reply(a + b)[..|Reply(a)|] == Reply(a)
  {
    if b == [] {
      assert a + b == a;
    } else {
      var init := b[..|b| - 1];
      ReplyPrefix(a, init);
      ReplySnoc(a + init, b[|b| - 1]);
      assert a + init + [b[|b| - 1]] == a + b;
    }
  }

  lemma {:induction false} AnswerAt(ts: seq<Tail>, j: nat)
    requires j < |ts|
    ensures var at, r := (TAIL + 8) * j, Answers(ts);
      r[at..at + TAIL] == ts[j] && r[at + TAIL..at + TAIL + 8] == NO_VALUE
  {
    var init := ts[..|ts| - 1];
    if j < |init| {
      AnswerAt(init, j);
      var at := (TAIL + 8) * j;
      assert Answers(ts)[at..at + TAIL] == Answers(init)[at..at + TAIL];
      assert Answers(ts)[at + TAIL..at + TAIL + 8] == Answers(init)[at + TAIL..at + TAIL + 8];
    }
  }

  /** Where things stand in a reply: behind the answers to the ports before it, a port has its address, its
      request, and for each item the tail that asked for it and the eight bytes of its value. */
  lemma ReplyAt(ports: seq<Port>, k: nat, j: nat)
    requires k < |ports| && j < |ports[k].tails|
    ensures var at, r := |Reply(ports[..k])|, Reply(ports);
      && at + MIDDLE + (TAIL + 8) * |ports[k].tails| <= |r|
      && r[at..at + 16] == ports[k].ip && r[at + 16..at + MIDDLE] == Le32(ports[k].request)
      && var item := at + MIDDLE + (TAIL + 8) * j;
         r[item..item + TAIL] == ports[k].tails[j] && r[item + TAIL..item + TAIL + 8] == NO_VALUE
  {
    hide Reply, Answers, Le32;
    var p, r := ports[k], Reply(ports);
    ReplySnoc(ports[..k], p);
    assert ports[..k] + [p] == ports[..k + 1];
    ReplyPrefix(ports[..k + 1], ports[k + 1..]);
    assert ports[..k + 1] + ports[k + 1..] == ports;
    AnswerAt(p.tails, j);
    var at, item := |Reply(ports[..k])|, (TAIL + 8) * j;
    var front := p.ip + Le32(p.request);
    assert r[at..at + MIDDLE + |Answers(p.tails)|] == front + Answers(p.tails);
    SliceOf(r, at, front + Answers(p.tails), 0, 16);
    SliceOf(r, at, front + Answers(p.tails), 16, MIDDLE);
    SliceOf(r, at, front + Answers(p.tails), MIDDLE + item, MIDDLE + item + TAIL);
    SliceOf(r, at, front + Answers(p.tails), MIDDLE + item + TAIL, MIDDLE + item + TAIL + 8);
    SliceOf(front + Answers(p.tails), MIDDLE, Answers(p.tails), item, item + TAIL);
    SliceOf(front + Answers(p.tails), MIDDLE, Answers(p.tails), item + TAIL, item + TAIL + 8);
  }

  lemma SliceOf(r: Bytes, at: nat, part: Bytes, i: nat, j: nat)
    requires at + |part| <= |r| && r[at..at + |part|] == part && i <= j <= |part|
    ensures r[at + i..at + j] == part[i..j]
  {
    forall k | i <= k < j
      ensures r[at + k] == part[k]
    {
      assert r[at..at + |part|][k] == part[k];
    }
  }

  /** The front record of a request that can be taken apart. */
  lemma DecodeStep(b: Bytes, count: nat)
    requires count > 0 && Decode(b, count).Decoded?
    ensures |b| >= MIDDLE
    ensures var k := |Items(ReadLe32(b[16..20]), 0)|;
      && |b| >= MIDDLE + TAIL * k
      && var more := Decode(b[MIDDLE + TAIL * k..], count - 1);
         more.Decoded?
         && Decode(b, count)
            == Decoded([Port(b[..16], ReadLe32(b[16..20]), ReadTails(b[MIDDLE..], k))] + more.ports, more.rest)
  {
  }

  /** An item named twice: nothing is asked for, and two tails are counted. */
  lemma TwiceNamed()
    ensures RequestOf(["rtt_avg", "rtt_avg"]) == (0, 2)
  {
    var w := "rtt_avg";
    assert Lower(w) == w;
    assert |w| == 7 && w[0] == 'r' && w[1] == 't' && NAMES[1][1] == 'x' && NAMES[4][1] == 'x';
    assert |NAMES[0]| == 13 && |NAMES[1]| == 10 && |NAMES[2]| == 10 && |NAMES[3]| == 11;
    assert |NAMES[4]| == 8 && |NAMES[5]| == 8 && |NAMES[7]| == 12;
    assert BitOf(w) == 6;
    var none: seq<string> := [];
    assert [w, w][..1] == [w] && [w][..0] == none;
    assert RequestOf([w]) == (64, 1);
  }
}
