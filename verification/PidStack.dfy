/** PIDs inside packets: the path PID at the end of get and control packets, the PID stack in the
    middle of data packets, and what a border router does to both (IPN/ipborderrouter.cc,
    RM/main.c, RM/wenxingbeng.c). A packet is the sequence of its bytes from the Ethernet header on. */
module PidStack {
  import opened Words

  type Word4 = s: seq<uint8> | |s| == 4 witness [0, 0, 0, 0]

  // byte offsets
  const IP_SRC: nat := 26
  const IP_DST: nat := 30
  const COLOR_HEADER: nat := 34     // behind Ethernet (14) and IP (20)
  const CONTROL_TYPE: nat := 35
  const TOTAL_LEN: nat := 36
  const OPTION: nat := 41           // holds the two kind bits of a negotiation message
  const PID_COUNT: nat := 44
  const EID: nat := 50
  const DATA_NID: nat := 98
  const DATA_PIDS: nat := 114       // behind the 80 bytes of a data header
  const GET_PIDS: nat := 130        // behind the 96 bytes of a get header
  const CONTROL_BODY: nat := 174    // behind the 140 bytes of a control header

  // ---------- bytes ----------

  /** The packet with `d` written over the bytes from `at` on. */
  function Put(b: Bytes, at: nat, d: Bytes): (r: Bytes)
    requires at + |d| <= |b|
    ensures |r| == |b|
    ensures forall i :: 0 <= i < |b| ==> r[i] == if at <= i < at + |d| then d[i - at] else b[i]
  {
    b[..at] + d + b[at + |d|..]
  }

  function Get4(b: Bytes, at: nat): Word4
    requires at + 4 <= |b|
  {
    b[at..at + 4]
  }

  function Be16(x: uint16): (r: Bytes)
    ensures |r| == 2
  {
    [x / 256, x % 256]
  }

  function Read16(b: Bytes, at: nat): uint16
    requires at + 2 <= |b|
  {
    Byte(b, at) * 256 + Byte(b, at + 1)
  }

  function Be32(x: uint32): Word4 {
    Be16(x / 0x1_0000) + Be16(x % 0x1_0000)
  }

  function Value32(w: Word4): uint32 {
    Read16(w, 0) * 0x1_0000 + Read16(w, 2)
  }

  lemma Be16RoundTrip(x: uint16)
    ensures Read16(Be16(x), 0) == x
  {
  }

  lemma Be32RoundTrip(x: uint32)
    ensures Value32(Be32(x)) == x
  {
    Be16RoundTrip(x / 0x1_0000);
    Be16RoundTrip(x % 0x1_0000);
  }

  function Minus4(x: uint16): uint16 {
    (x - 4) % TWO_16
  }

  // ---------- router tables ----------

  /** `String key = (char *)pid`: the bytes before the first NUL. */
  function Key(w: Bytes): (k: Bytes)
    ensures |k| <= |w| && k == w[..|k|]
    ensures forall i :: 0 <= i < |k| ==> k[i] != 0
    ensures |k| < |w| ==> w[|k|] == 0
  {
    if w == [] || w[0] == 0 then [] else [w[0]] + Key(w[1..])
  }

  /** The tables of a border router; a missing entry reads as zero. */
  datatype Router = Router(pidIp: map<Bytes, Word4>, nidIp: map<Bytes, Word4>, ipNic: map<Word4, int>,
                           sIp: map<int, Word4>)

  const NO_IP: Word4 := [0, 0, 0, 0]

  function FindIp(m: map<Bytes, Word4>, key: Bytes): Word4 {
    if key in m then m[key] else NO_IP
  }

  function FindNic(r: Router, ip: Word4): int {
    if ip in r.ipNic then r.ipNic[ip] else 0
  }

  function SourceFor(r: Router, ip: Word4): Word4 {
    var nic := FindNic(r, ip);
    if nic in r.sIp then r.sIp[nic] else NO_IP
  }

  /** The bytes that routers rewrite on the way: the two addresses and the length field. */
  predicate Rewritten(i: nat) {
    IP_SRC <= i < COLOR_HEADER || TOTAL_LEN <= i < TOTAL_LEN + 2
  }

  /** The packet readdressed to `dst`, from the router's address on that side. */
  function Readdress(b: Bytes, r: Router, dst: Word4): (b': Bytes)
    requires |b| >= COLOR_HEADER
    ensures |b'| == |b|
    ensures forall i :: 0 <= i < |b| && !(IP_SRC <= i < COLOR_HEADER) ==> b'[i] == b[i]
  {
    Put(b, IP_SRC, SourceFor(r, dst) + dst)
  }

  // ---------- the stack of a data packet ----------

  /** A data packet holds its whole stack. */
  predicate DataPacket(b: Bytes) {
    |b| >= DATA_PIDS && DATA_PIDS + 4 * Byte(b, PID_COUNT) <= |b|
  }

  function StackOf(b: Bytes): (s: seq<Word4>)
    requires DataPacket(b)
    ensures |s| == Byte(b, PID_COUNT)
  {
    seq(Byte(b, PID_COUNT), i requires 0 <= i < Byte(b, PID_COUNT) => Get4(b, DATA_PIDS + 4 * i))
  }

  function PayloadOf(b: Bytes): Bytes
    requires DataPacket(b)
  {
    b[DATA_PIDS + 4 * Byte(b, PID_COUNT)..]
  }

  /** The last PID is cut out of the middle, count and length are lowered. */
  function Counted(b: Bytes): Bytes
    requires DataPacket(b) && Byte(b, PID_COUNT) > 0
  {
    var n := Byte(b, PID_COUNT);
    var at := DATA_PIDS + 4 * (n - 1);
    Put(Put(b[..at] + b[at + 4..], PID_COUNT, [n - 1]), TOTAL_LEN, Be16(Minus4(Read16(b, TOTAL_LEN))))
  }

  /** The packet after an inside hop: without its last PID, and readdressed by it. */
  function Pop(b: Bytes, r: Router): Bytes
    requires DataPacket(b) && Byte(b, PID_COUNT) > 0
  {
    Readdress(Counted(b), r, FindIp(r.pidIp, Key(StackOf(b)[Byte(b, PID_COUNT) - 1])))
  }

  /** An inside hop removes exactly the last PID of the stack, takes four off the length, and leaves
      the payload and every header byte but count, length and addresses alone. */
  lemma PopRemovesLast(b: Bytes, r: Router)
    requires DataPacket(b) && Byte(b, PID_COUNT) > 0
    ensures var b', n := Pop(b, r), Byte(b, PID_COUNT);
      && DataPacket(b') && |b'| == |b| - 4
      && StackOf(b') == StackOf(b)[..n - 1]
      && PayloadOf(b') == PayloadOf(b)
      && Read16(b', TOTAL_LEN) == Minus4(Read16(b, TOTAL_LEN))
      && Get4(b', IP_DST) == FindIp(r.pidIp, Key(StackOf(b)[n - 1]))
      && (forall i :: 0 <= i < DATA_PIDS && i != PID_COUNT
                      && !(TOTAL_LEN <= i < TOTAL_LEN + 2) && !(IP_SRC <= i < COLOR_HEADER)
            ==> b'[i] == b[i])
  {
    var b', n := Pop(b, r), Byte(b, PID_COUNT);
    var at := DATA_PIDS + 4 * (n - 1);
    PopBytes(b, r);
    hide Pop;
    SameStack(b', b, n - 1);
    SameSuffix(b', b, at, 4);
  }

  lemma SameStack(b': Bytes, b: Bytes, k: nat)
    requires DataPacket(b') && DataPacket(b) && Byte(b', PID_COUNT) == k <= Byte(b, PID_COUNT)
    requires forall i :: DATA_PIDS <= i < DATA_PIDS + 4 * k ==> b'[i] == b[i]
    ensures StackOf(b') == StackOf(b)[..k]
  {
    forall i | 0 <= i < k
      ensures StackOf(b')[i] == StackOf(b)[i]
    {
      var at := DATA_PIDS + 4 * i;
      assert forall j :: at <= j < at + 4 ==> b'[j] == b[j];
    }
  }

  lemma SameSuffix(b': Bytes, b: Bytes, at: nat, d: nat)
    requires at <= |b'| && |b'| + d == |b| && forall i :: at <= i < |b'| ==> b'[i] == b[i + d]
    ensures b'[at..] == b[at + d..]
  {
  }

  lemma PopBytes(b: Bytes, r: Router)
    requires DataPacket(b) && Byte(b, PID_COUNT) > 0
    ensures var b', at := Pop(b, r), DATA_PIDS + 4 * (Byte(b, PID_COUNT) - 1);
      && |b'| == |b| - 4
      && Byte(b', PID_COUNT) == Byte(b, PID_COUNT) - 1
      && Read16(b', TOTAL_LEN) == Minus4(Read16(b, TOTAL_LEN))
      && Get4(b', IP_DST) == FindIp(r.pidIp, Key(Get4(b, at)))
      && (forall i :: 0 <= i < |b'| && i != PID_COUNT
                      && !(TOTAL_LEN <= i < TOTAL_LEN + 2) && !(IP_SRC <= i < COLOR_HEADER)
            ==> b'[i] == if i < at then b[i] else b[i + 4])
  {
    var n := Byte(b, PID_COUNT);
    var at := DATA_PIDS + 4 * (n - 1);
    var cut := b[..at] + b[at + 4..];
    assert forall i :: 0 <= i < |cut| ==> cut[i] == if i < at then b[i] else b[i + 4];
    var dst := FindIp(r.pidIp, Key(Get4(b, at)));
    var b' := Pop(b, r);
    assert b'[IP_DST..IP_DST + 4] == dst;
  }

  // ---------- the path PID of get and control packets ----------

  /** A get or control packet whose length field covers it from the CoLoR header to the end. */
  predicate Whole(b: Bytes) {
    COLOR_HEADER + 4 <= |b| < TWO_16 && Read16(b, TOTAL_LEN) == |b| - COLOR_HEADER
  }

  /** `ADD_PID_and_IP`: sets the destination, appends the PID and writes the new length. `ADD_PID`
      is the same with the destination the packet has. */
  function Append(b: Bytes, pid: Word4, ip: Word4): (r: Bytes)
    requires COLOR_HEADER + 4 <= |b| < TWO_16 - 4
    ensures |r| == |b| + 4
  {
    Put(Put(b, IP_DST, ip), TOTAL_LEN, Be16(|b| - COLOR_HEADER + 4)) + pid
  }

  /** What a border router reads as the path PID. */
  function PathPid(b: Bytes): Word4
    requires |b| >= TOTAL_LEN + 2 && Read16(b, TOTAL_LEN) <= |b| - COLOR_HEADER
  {
    Get4(b, Read16(b, TOTAL_LEN) + 30)
  }

  /** The far router drops eight bytes at the end, puts four of them back, and lowers the length. */
  function Strip(b: Bytes): (r: Bytes)
    requires |b| >= CONTROL_BODY
    ensures |r| == |b| - 4
  {
    Put(b[..|b| - 4], TOTAL_LEN, Be16(Minus4(Read16(b, TOTAL_LEN))))
  }

  /** The router reads back the PID that was appended, whatever the packet was; the packet goes to the
      address given and has, up to its old end, all its other bytes but the length. */
  lemma AppendedPidIsRead(b: Bytes, pid: Word4, ip: Word4)
    requires COLOR_HEADER + 4 <= |b| < TWO_16 - 4
    ensures Whole(Append(b, pid, ip)) && PathPid(Append(b, pid, ip)) == pid
    ensures Get4(Append(b, pid, ip), IP_DST) == ip
    ensures forall i :: 0 <= i < |b| && !(IP_DST <= i < IP_DST + 4) && !(TOTAL_LEN <= i < TOTAL_LEN + 2) ==>
      Append(b, pid, ip)[i] == b[i]
  {
    var r := Append(b, pid, ip);
    assert Read16(r, TOTAL_LEN) == |b| - COLOR_HEADER + 4;
    assert r[|b|..] == pid;
    assert r[IP_DST..IP_DST + 4] == ip;
  }

  /** Stripping removes exactly the appended PID: the bytes behind the IP header are those of the
      original packet, with a length field that covers it. */
  lemma StripUndoesAppend(b: Bytes, pid: Word4, ip: Word4, r: Router, dst: Word4)
    requires CONTROL_BODY <= |b| < TWO_16 - 4
    ensures var b' := Strip(Readdress(Append(b, pid, ip), r, dst));
      && |b'| == |b| && Whole(b')
      && (forall i :: 0 <= i < |b| && !Rewritten(i) ==> b'[i] == b[i])
  {
    AppendedPidIsRead(b, pid, ip);
    var sent := Readdress(Append(b, pid, ip), r, dst);
    assert Read16(sent, TOTAL_LEN) == |b| - COLOR_HEADER + 4;
    var b' := Strip(sent);
    assert Read16(b', TOTAL_LEN) == |b| - COLOR_HEADER;
  }

  // ---------- negotiation messages ----------

  function WordList(xs: seq<uint32>): (r: Bytes)
    ensures |r| == 4 * |xs|
  {
    if xs == [] then [] else Be32(xs[0]) + WordList(xs[1..])
  }

  /** The four messages of a negotiation differ in a header field, and change_request and ack
      are nothing but a header. */
  datatype Body = Bare | Listed(time: uint32, pids: seq<uint32>)

  function BodySize(m: Body): nat {
    if m.Bare? then 0 else 4 + 4 * |m.pids|
  }

  /** `send_pid_change_request` / `send_ack`: headers; `send_pid_a` / `send_pid_b`: headers, timer, PIDs. */
  function Encode(header: Bytes, m: Body): (r: Bytes)
    requires |header| == CONTROL_BODY
    ensures |r| == CONTROL_BODY + BodySize(m)
  {
    if m.Bare? then header else header + Be32(m.time) + WordList(m.pids)
  }

  function DecodeTime(b: Bytes): uint32
    requires |b| >= CONTROL_BODY + 4
  {
    Value32(Get4(b, CONTROL_BODY))
  }

  /** The first `n` PIDs behind the timer. */
  function DecodePids(b: Bytes, n: nat): seq<uint32>
    requires |b| >= CONTROL_BODY + 4 + 4 * n
  {
    seq(n, i requires 0 <= i < n => Value32(Get4(b, CONTROL_BODY + 4 + 4 * i)))
  }

  lemma {:induction false} WordsAt(xs: seq<uint32>, i: nat)
    requires i < |xs|
    ensures WordList(xs)[4 * i..4 * i + 4] == Be32(xs[i])
  {
    var tail := WordList(xs[1..]);
    if i > 0 {
      WordsAt(xs[1..], i - 1);
      assert WordList(xs)[4 * i..4 * i + 4] == tail[4 * (i - 1)..4 * (i - 1) + 4];
    }
  }

  /** Whatever agrees with an encoded message behind the control header decodes to what was encoded. */
  lemma DecodeEncoded(got: Bytes, header: Bytes, time: uint32, pids: seq<uint32>)
    requires |header| == CONTROL_BODY && |got| == CONTROL_BODY + 4 + 4 * |pids|
    requires forall i :: CONTROL_BODY <= i < |got| ==> got[i] == Encode(header, Listed(time, pids))[i]
    ensures DecodeTime(got) == time && DecodePids(got, |pids|) == pids
  {
    assert Get4(got, CONTROL_BODY) == Be32(time);
    Be32RoundTrip(time);
    forall i | 0 <= i < |pids|
      ensures Value32(Get4(got, CONTROL_BODY + 4 + 4 * i)) == pids[i]
    {
      WordsAt(pids, i);
      assert Get4(got, CONTROL_BODY + 4 + 4 * i) == WordList(pids)[4 * i..4 * i + 4];
      Be32RoundTrip(pids[i]);
    }
  }

  // ---------- the PIDs of a get packet ----------

  /** A get packet is its 96-byte header and its PIDs, and its length field says so. */
  predicate GetPacket(b: Bytes) {
    && GET_PIDS <= |b| < TWO_16
    && |b| == GET_PIDS + 4 * Byte(b, PID_COUNT)
    && Read16(b, TOTAL_LEN) == 96 + 4 * Byte(b, PID_COUNT)
  }

  /** `update_PID`: writes the PID behind those the header counts, in a packet that has just grown
      by four bytes of whatever content. */
  function UpdatePid(b: Bytes, room: Word4, pid: Word4): Bytes
    requires GetPacket(b)
  {
    var n := Byte(b, PID_COUNT);
    var grown := Put(b + room, GET_PIDS + 4 * n, pid);
    Put(Put(grown, PID_COUNT, [(n + 1) % 256]), TOTAL_LEN, Be16((Read16(b, TOTAL_LEN) + 4) % TWO_16))
  }

  /** The packet stays a get packet exactly while the eight-bit count has room; the new PID is the one a
      border router reads as the path PID, and all bytes but count and length are kept. */
  lemma UpdatePidIff(b: Bytes, room: Word4, pid: Word4)
    requires GetPacket(b)
    ensures GetPacket(UpdatePid(b, room, pid)) <==> Byte(b, PID_COUNT) < 255
    ensures var b' := UpdatePid(b, room, pid);
      && |b'| == |b| + 4 && Read16(b', TOTAL_LEN) == |b'| - COLOR_HEADER && PathPid(b') == pid
      && forall i :: 0 <= i < |b| && i != PID_COUNT && !(TOTAL_LEN <= i < TOTAL_LEN + 2) ==> b'[i] == b[i]
  {
    var n := Byte(b, PID_COUNT);
    var b' := UpdatePid(b, room, pid);
    assert Read16(b', TOTAL_LEN) == 96 + 4 * n + 4;
    assert Byte(b', PID_COUNT) == (n + 1) % 256;
    assert Get4(b', GET_PIDS + 4 * n) == pid;
  }

  // ---------- the router as a whole ----------

  datatype Forwarded = Forwarded(router: Router, packet: Bytes, out: Option<int>)

  const VERSION_GET: int := 160
  const VERSION_DATA: int := 161
  const VERSION_CONTROL: int := 163
  const HOME_NID: Bytes := [100, 51, 114, 109]  // "d3rm", the local resource manager

  function OwnIp(r: Router, side: int): Word4 {
    if side in r.sIp then r.sIp[side] else NO_IP
  }

  /** The router's address on the inside or on the outside. */
  predicate Owns(r: Router, ip: Word4) {
    ip == OwnIp(r, 1) || ip == OwnIp(r, 2)
  }

  predicate ForRouter(r: Router, b: Bytes)
    requires |b| >= COLOR_HEADER
  {
    Owns(r, Get4(b, IP_DST))
  }

  predicate Negotiates(b: Bytes)
    requires |b| > CONTROL_TYPE
  {
    b[CONTROL_TYPE] == 16 || b[CONTROL_TYPE] == 35
  }

  /** The path PID the length field points at lies in the packet. */
  predicate HasPathPid(b: Bytes) {
    |b| >= TOTAL_LEN + 2 && Read16(b, TOTAL_LEN) <= |b| - COLOR_HEADER
  }

  predicate ReadableControl(port: int, b: Bytes) {
    && |b| >= CONTROL_BODY
    && (b[CONTROL_TYPE] == 129 ==> |b| >= CONTROL_BODY + 20)
    && (Negotiates(b) && port == 0 ==> HasPathPid(b))
  }

  /** The bytes that the branch taken for the packet reads are there, and no more is asked. */
  predicate Readable(r: Router, port: int, b: Bytes) {
    && |b| >= COLOR_HEADER
    && (ForRouter(r, b) ==>
         && |b| >= COLOR_HEADER + 4
         && (b[COLOR_HEADER] == VERSION_GET && port == 0 ==> |b| >= DATA_PIDS && HasPathPid(b))
         && (b[COLOR_HEADER] == VERSION_DATA && (port == 0 || port == 1) ==> DataPacket(b))
         && (b[COLOR_HEADER] == VERSION_CONTROL ==> ReadableControl(port, b)))
  }

  function SendTo(r: Router, b: Bytes, dst: Word4): Forwarded
    requires |b| >= COLOR_HEADER
  {
    Forwarded(r, Readdress(b, r, dst), Some(FindNic(r, dst)))
  }

  function PushGet(r: Router, port: int, b: Bytes): Forwarded
    requires |b| >= COLOR_HEADER && (port == 0 ==> HasPathPid(b))
  {
    if port == 0 then SendTo(r, b, FindIp(r.pidIp, Key(PathPid(b))))
    else if port == 1 then SendTo(r, b, FindIp(r.nidIp, HOME_NID))
    else Forwarded(r, b, None)
  }

  /** From inside, the last PID is popped; from outside it is only read; a packet without PIDs goes
      to its network identifier from outside and nowhere from inside. */
  function PushData(r: Router, port: int, b: Bytes): Forwarded
    requires port == 0 || port == 1 ==> DataPacket(b)
  {
    if port != 0 && port != 1 then Forwarded(r, b, None)
    else
      var n := Byte(b, PID_COUNT);
      if port == 0 && n > 0 then
        Forwarded(r, Pop(b, r), Some(FindNic(r, FindIp(r.pidIp, Key(StackOf(b)[n - 1])))))
      else if port == 1 && n > 0 then SendTo(r, b, FindIp(r.pidIp, Key(StackOf(b)[n - 1])))
      else if port == 1 then SendTo(r, b, FindIp(r.nidIp, Key(b[DATA_NID..DATA_PIDS])))
      else Forwarded(r, b, None)
  }

  function PushControl(r: Router, port: int, b: Bytes): Forwarded
    requires ReadableControl(port, b)
  {
    if b[CONTROL_TYPE] == 129 then
      Forwarded(Announced(r, Get4(b, CONTROL_BODY + 4), Get4(b, CONTROL_BODY + 8), Get4(b, CONTROL_BODY + 12)), b, None)
    else if Negotiates(b) && port == 0 then SendTo(r, b, FindIp(r.pidIp, Key(PathPid(b))))
    else if Negotiates(b) && port == 1 then SendTo(r, Strip(b), FindIp(r.nidIp, HOME_NID))
    else Forwarded(r, b, None)
  }

  /** `IPBorderRouter::push`. */
  function Push(r: Router, port: int, b: Bytes): Forwarded
    requires Readable(r, port, b)
  {
    if !ForRouter(r, b) then
      var nic := FindNic(r, Get4(b, IP_DST));
      Forwarded(r, b, Some(if 1 <= nic <= 4 then nic else 0))
    else if b[COLOR_HEADER] == VERSION_GET then PushGet(r, port, b)
    else if b[COLOR_HEADER] == VERSION_DATA then PushData(r, port, b)
    else if b[COLOR_HEADER] == VERSION_CONTROL then PushControl(r, port, b)
    else Forwarded(r, b, None)
  }

  // ---------- announced PIDs ----------

  /** An announcement stores one PID; the address that is not the router's own is kept. */
  function Announced(r: Router, pid: Word4, source: Word4, dest: Word4): Router {
    r.(pidIp := r.pidIp[Key(pid) := if source == OwnIp(r, 1) then dest else source])
  }

  /** Two PIDs are one table key exactly when they agree up to their first NUL. */
  lemma {:induction false} KeysEqualIff(p: Bytes, q: Bytes)
    requires |p| == |q|
    ensures Key(p) == Key(q) <==>
            p == q || exists i :: 0 <= i < |p| && p[i] == q[i] == 0 && p[..i] == q[..i]
  {
    if Key(p) == Key(q) {
      var i := |Key(p)|;
      if i < |p| {
        assert p[i] == q[i] == 0 && p[..i] == q[..i];
      } else {
        assert p == p[..i] && q == q[..i];
      }
    } else if exists i :: 0 <= i < |p| && p[i] == q[i] == 0 && p[..i] == q[..i] {
      var i :| 0 <= i < |p| && p[i] == q[i] == 0 && p[..i] == q[..i];
      KeyPrefix(p, i);
      KeyPrefix(q, i);
    }
  }

  lemma {:induction false} KeyPrefix(p: Bytes, i: nat)
    requires i < |p| && p[i] == 0
    ensures Key(p) == Key(p[..i])
  {
    if i > 0 && p[0] != 0 {
      KeyPrefix(p[1..], i - 1);
      assert p[..i][1..] == p[1..][..i - 1];
    }
  }

  /** After two announcements the first PID still leads to its own address if and only if the two
      have different keys or the same address. */
  lemma FirstAnnouncementKeptIff(r: Router, p: Word4, q: Word4, source: Word4, to1: Word4, to2: Word4)
    requires source == OwnIp(r, 1)
    ensures FindIp(Announced(Announced(r, p, source, to1), q, source, to2).pidIp, Key(p)) == to1 <==>
            Key(p) != Key(q) || to1 == to2
  {
  }

  /** Every PID below 2^24 starts with a NUL on the wire, so all of them share the empty key. */
  lemma LowPidsShareOneKey(x: uint32)
    ensures Key(Be32(x)) == [] <==> x < 0x100_0000
  {
    assert Be32(x)[0] == 0 <==> x < 0x100_0000;
  }
}
