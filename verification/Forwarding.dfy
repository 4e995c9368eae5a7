/** What a border router does to every kind of packet, said about `Push` as a whole, and what a packet
    goes through when it crosses several routers (IPN/ipborderrouter.cc). */
module Forwarding {
  import opened Words
  import opened PidStack

  /** The router has sent a packet to `dst`, from its own address on that side, and is unchanged itself. */
  predicate SentOn(f: Forwarded, r: Router, dst: Word4) {
    && f.router == r && f.out == Some(FindNic(r, dst)) && |f.packet| >= COLOR_HEADER
    && Get4(f.packet, IP_DST) == dst && Get4(f.packet, IP_SRC) == SourceFor(r, dst)
  }

  /** Only the addresses may differ. */
  ghost predicate SameButAddresses(b: Bytes, b': Bytes) {
    |b'| == |b| && forall i :: 0 <= i < |b| && !(IP_SRC <= i < COLOR_HEADER) ==> b'[i] == b[i]
  }

  lemma ReaddressedTo(b: Bytes, r: Router, dst: Word4)
    requires |b| >= COLOR_HEADER
    ensures SameButAddresses(b, Readdress(b, r, dst))
    ensures Get4(Readdress(b, r, dst), IP_DST) == dst && Get4(Readdress(b, r, dst), IP_SRC) == SourceFor(r, dst)
  {
    var b' := Readdress(b, r, dst);
    assert b'[IP_DST..IP_DST + 4] == dst;
    assert b'[IP_SRC..IP_SRC + 4] == SourceFor(r, dst);
  }

  // ---------- data packets ----------

  /** A data packet for the router, whole as far as the router reads it. */
  predicate DataFor(r: Router, b: Bytes) {
    DataPacket(b) && b[COLOR_HEADER] == VERSION_DATA && ForRouter(r, b)
  }

  /** What an inside hop leaves of a packet: the stack without its last PID, the same payload, a length
      lowered by four, and every header byte but count, length and addresses. */
  ghost predicate LastPidGone(b: Bytes, b': Bytes)
    requires DataPacket(b) && Byte(b, PID_COUNT) > 0
  {
    && DataPacket(b') && |b'| == |b| - 4
    && StackOf(b') == StackOf(b)[..Byte(b, PID_COUNT) - 1]
    && PayloadOf(b') == PayloadOf(b)
    && Read16(b', TOTAL_LEN) == (Read16(b, TOTAL_LEN) - 4) % TWO_16
    && forall i :: 0 <= i < DATA_PIDS && i != PID_COUNT && !Rewritten(i) ==> b'[i] == b[i]
  }

  /** From inside, a data packet with PIDs goes where its last PID leads and loses that PID; without PIDs
      it goes nowhere. */
  lemma DataFromInside(r: Router, b: Bytes)
    requires DataFor(r, b)
    ensures var f, n := Push(r, 0, b), Byte(b, PID_COUNT);
      if n > 0 then LastPidGone(b, f.packet) && SentOn(f, r, FindIp(r.pidIp, Key(StackOf(b)[n - 1])))
      else f == Forwarded(r, b, None)
  {
    if Byte(b, PID_COUNT) > 0 {
      PopRemovesLast(b, r);
      ReaddressedTo(Counted(b), r, FindIp(r.pidIp, Key(StackOf(b)[Byte(b, PID_COUNT) - 1])));
    }
  }

  /** From outside, it goes where its last PID leads or, without PIDs, where its network identifier leads,
      with stack, payload and everything else but the addresses as it came. */
  lemma DataFromOutside(r: Router, b: Bytes)
    requires DataFor(r, b)
    ensures var f, n := Push(r, 1, b), Byte(b, PID_COUNT);
      && SameButAddresses(b, f.packet) && DataPacket(f.packet)
      && StackOf(f.packet) == StackOf(b) && PayloadOf(f.packet) == PayloadOf(b)
      && SentOn(f, r, if n > 0 then FindIp(r.pidIp, Key(StackOf(b)[n - 1]))
                      else FindIp(r.nidIp, Key(b[DATA_NID..DATA_PIDS])))
  {
    hide StackOf, FindIp, Key, Get4;
    var f, n := Push(r, 1, b), Byte(b, PID_COUNT);
    ReaddressedTo(b, r, if n > 0 then FindIp(r.pidIp, Key(StackOf(b)[n - 1]))
                        else FindIp(r.nidIp, Key(b[DATA_NID..DATA_PIDS])));
    hide Push;
    SameStack(f.packet, b, n);
    SameSuffix(f.packet, b, DATA_PIDS + 4 * n, 0);
  }

  // ---------- get and control packets ----------

  predicate GetFor(r: Router, b: Bytes) {
    |b| >= DATA_PIDS && HasPathPid(b) && b[COLOR_HEADER] == VERSION_GET && ForRouter(r, b)
  }

  /** A get packet goes where the PID at its end leads, or from outside to the local resource manager. */
  lemma GetForwarded(r: Router, port: int, b: Bytes)
    requires GetFor(r, b) && (port == 0 || port == 1)
    ensures var f := Push(r, port, b);
      && SameButAddresses(b, f.packet)
      && SentOn(f, r, if port == 0 then FindIp(r.pidIp, Key(PathPid(b))) else FindIp(r.nidIp, HOME_NID))
  {
    ReaddressedTo(b, r, if port == 0 then FindIp(r.pidIp, Key(PathPid(b))) else FindIp(r.nidIp, HOME_NID));
  }

  /** A control packet of a negotiation, long enough to be read. */
  predicate NegotiationFor(r: Router, b: Bytes) {
    && |b| >= CONTROL_BODY && b[COLOR_HEADER] == VERSION_CONTROL && Negotiates(b)
    && ForRouter(r, b)
  }

  /** From inside, a negotiation message goes where the PID at its end leads, unchanged. From outside it
      goes to the local resource manager without its last four bytes, with a length lowered by four. */
  lemma NegotiationForwarded(r: Router, b: Bytes)
    requires NegotiationFor(r, b)
    ensures HasPathPid(b) ==> var f := Push(r, 0, b);
      SameButAddresses(b, f.packet) && SentOn(f, r, FindIp(r.pidIp, Key(PathPid(b))))
    ensures var f := Push(r, 1, b);
      && |f.packet| == |b| - 4 && SentOn(f, r, FindIp(r.nidIp, HOME_NID))
      && Read16(f.packet, TOTAL_LEN) == (Read16(b, TOTAL_LEN) - 4) % TWO_16
      && forall i :: 0 <= i < |f.packet| && !Rewritten(i) ==> f.packet[i] == b[i]
  {
    if HasPathPid(b) {
      ReaddressedTo(b, r, FindIp(r.pidIp, Key(PathPid(b))));
    }
    ReaddressedTo(Strip(b), r, FindIp(r.nidIp, HOME_NID));
  }

  /** An announcement makes its PID lead to the address that is not the router's own inside address;
      what all PIDs with other keys lead to stays, and nothing is sent. */
  lemma AnnouncementStored(r: Router, port: int, b: Bytes, other: Bytes)
    requires |b| >= CONTROL_BODY + 20 && b[COLOR_HEADER] == VERSION_CONTROL && b[CONTROL_TYPE] == 129 && ForRouter(r, b)
    ensures var f := Push(r, port, b);
            var pid, source, dest := Get4(b, CONTROL_BODY + 4), Get4(b, CONTROL_BODY + 8), Get4(b, CONTROL_BODY + 12);
      && f.packet == b && f.out == None
      && f.router == r.(pidIp := f.router.pidIp)
      && FindIp(f.router.pidIp, Key(pid)) == (if source == OwnIp(r, 1) then dest else source)
      && (other != Key(pid) ==> FindIp(f.router.pidIp, other) == FindIp(r.pidIp, other))
  {
  }

  /** A packet for somebody else passes through unchanged, to port 0 if no port from 1 to 4 belongs to its
      destination. Of the router's own packets only those of the three kinds that come from inside or
      outside are sent anywhere, and only an announcement changes the router. */
  lemma OthersUntouched(r: Router, port: int, b: Bytes)
    requires Readable(r, port, b)
    ensures var f, nic := Push(r, port, b), FindNic(r, Get4(b, IP_DST));
      && (!ForRouter(r, b) ==> f == Forwarded(r, b, Some(if nic in {1, 2, 3, 4} then nic else 0)))
      && (ForRouter(r, b) && f.out != None ==>
            port in {0, 1} && b[COLOR_HEADER] in {VERSION_GET, VERSION_DATA, VERSION_CONTROL})
      && (f.router != r ==> ForRouter(r, b) && b[COLOR_HEADER] == VERSION_CONTROL && b[CONTROL_TYPE] == 129)
      && (f.packet != b ==> ForRouter(r, b) && f.out != None)
  {
  }

  // ---------- a data packet on its path ----------

  /** Where the i-th router sends a packet that reaches it with the stack of `b` less i PIDs. */
  function HopTo(b: Bytes, path: seq<Router>, i: nat): Word4
    requires DataPacket(b) && i < |path| <= Byte(b, PID_COUNT)
  {
    FindIp(path[i].pidIp, Key(StackOf(b)[Byte(b, PID_COUNT) - 1 - i]))
  }

  /** The packet is on its way to the first router, and each router is where the one before it sends. */
  predicate Routed(b: Bytes, path: seq<Router>) {
    && DataPacket(b) && b[COLOR_HEADER] == VERSION_DATA && |path| <= Byte(b, PID_COUNT)
    && (path != [] ==> ForRouter(path[0], b))
    && forall i :: 0 <= i < |path| - 1 ==> Owns(path[i + 1], HopTo(b, path, i))
  }

  lemma FirstHop(b: Bytes, path: seq<Router>)
    requires Routed(b, path) && path != []
    ensures Readable(path[0], 0, b) && DataPacket(b) && |b| >= DATA_PIDS && |path| <= Byte(b, PID_COUNT)
    ensures LastPidGone(b, Push(path[0], 0, b).packet)
    ensures SentOn(Push(path[0], 0, b), path[0], HopTo(b, path, 0))
    ensures Routed(Push(path[0], 0, b).packet, path[1..])
  {
    hide Push, StackOf, PayloadOf, Read16, Get4, FindIp, Key;
    DataFromInside(path[0], b);
    var b' := Push(path[0], 0, b).packet;
    if |path| > 1 {
      assert Owns(path[1], HopTo(b, path, 0));
    }
    forall i | 0 <= i < |path| - 2
      ensures Owns(path[1..][i + 1], HopTo(b', path[1..], i))
    {
      NextHop(b, b', path, i);
      assert Owns(path[i + 2], HopTo(b, path, i + 1));
    }
  }

  lemma NextHop(b: Bytes, b': Bytes, path: seq<Router>, i: nat)
    requires DataPacket(b) && i + 1 < |path| <= Byte(b, PID_COUNT) && LastPidGone(b, b')
    ensures |StackOf(b')| == |StackOf(b)| - 1 && HopTo(b', path[1..], i) == HopTo(b, path, i + 1)
  {
    hide FindIp, Key, PayloadOf, Read16;
    var n := Byte(b, PID_COUNT);
    assert StackOf(b')[n - 2 - i] == StackOf(b)[n - 2 - i];
  }

  /** The packet as each router of the path sends it on. */
  function Cross(b: Bytes, path: seq<Router>): (r: seq<Forwarded>)
    requires Routed(b, path)
    ensures |r| == |path|
    decreases |path|
  {
    if path == [] then []
    else
      FirstHop(b, path);
      var f := Push(path[0], 0, b);
      [f] + Cross(f.packet, path[1..])
  }

  lemma CrossStep(b: Bytes, path: seq<Router>, i: nat)
    requires Routed(b, path) && i < |path|
    ensures Readable(path[0], 0, b) && Routed(Push(path[0], 0, b).packet, path[1..])
    ensures Cross(b, path)[i] ==
            if i == 0 then Push(path[0], 0, b) else Cross(Push(path[0], 0, b).packet, path[1..])[i - 1]
  {
    hide Push, Routed, Readable;
    FirstHop(b, path);
  }

  /** What `k` inside hops leave of a packet: the front of the stack, the same payload, and a length
      lowered by the PIDs that are gone. */
  predicate AfterHops(b: Bytes, b': Bytes, k: nat)
    requires DataPacket(b) && k <= Byte(b, PID_COUNT)
  {
    && DataPacket(b') && StackOf(b') == StackOf(b)[..Byte(b, PID_COUNT) - k]
    && PayloadOf(b') == PayloadOf(b)
    && |b'| == |b| - 4 * k
    && Read16(b', TOTAL_LEN) == (Read16(b, TOTAL_LEN) - 4 * k) % TWO_16
  }

  lemma OneMoreHop(b: Bytes, b1: Bytes, b': Bytes, k: nat)
    requires DataPacket(b) && 0 < Byte(b, PID_COUNT) && LastPidGone(b, b1)
    ensures AfterHops(b, b1, 1) && Byte(b1, PID_COUNT) == Byte(b, PID_COUNT) - 1
    ensures k < Byte(b, PID_COUNT) && AfterHops(b1, b', k) ==> AfterHops(b, b', k + 1)
  {
    hide StackOf, PayloadOf, Read16;
    assert |StackOf(b1)| == Byte(b1, PID_COUNT);
    ModTwice(Read16(b, TOTAL_LEN), k);
  }

  lemma ModTwice(x: uint16, i: nat)
    ensures ((x - 4) % TWO_16 - 4 * i) % TWO_16 == (x - 4 * (i + 1)) % TWO_16
  {
  }

  /** Inside hops route on the PIDs of the stack from last to first: hop number i sends the packet where
      PID n-1-i leads, and leaves the first n-1-i PIDs, so as many hops as PIDs deliver the payload with
      an empty stack. */
  lemma {:induction false} CrossUsesWholeStack(b: Bytes, path: seq<Router>, i: nat)
    requires Routed(b, path) && i < |path|
    ensures SentOn(Cross(b, path)[i], path[i], FindIp(path[i].pidIp, Key(StackOf(b)[Byte(b, PID_COUNT) - 1 - i])))
    ensures AfterHops(b, Cross(b, path)[i].packet, i + 1)
    decreases |path|
  {
    hide Push, StackOf, FindIp, Key, SentOn, Routed, DataPacket, Readable, AfterHops, LastPidGone, Cross, Byte;
    FirstHop(b, path);
    CrossStep(b, path, i);
    var f := Push(path[0], 0, b);
    OneMoreHop(b, f.packet, Cross(b, path)[i].packet, i);
    if i > 0 {
      CrossUsesWholeStack(f.packet, path[1..], i - 1);
      NextHop(b, f.packet, path, i - 1);
    }
  }

  // ---------- a negotiation message on its path ----------

  /** What a control header must say for a border router to take the message for one of a negotiation. */
  predicate NegotiationHeader(header: Bytes) {
    |header| == CONTROL_BODY && header[COLOR_HEADER] == VERSION_CONTROL && Negotiates(header)
  }

  lemma EncodedHeader(header: Bytes, m: Body)
    requires |header| == CONTROL_BODY
    ensures forall i :: 0 <= i < CONTROL_BODY ==> Encode(header, m)[i] == header[i]
  {
  }

  lemma SentByNear(header: Bytes, m: Body, pid: Word4, ip: Word4, near: Router)
    requires NegotiationHeader(header) && BodySize(m) < TWO_16 - 4 - CONTROL_BODY && Owns(near, ip)
    ensures var b := Encode(header, m); var sent := Append(b, pid, ip);
      && NegotiationFor(near, sent) && HasPathPid(sent)
      && var f := Push(near, 0, sent);
         && SentOn(f, near, FindIp(near.pidIp, Key(pid)))
         && |f.packet| == |b| + 4 && Read16(f.packet, TOTAL_LEN) == |b| + 4 - COLOR_HEADER
         && forall i :: 0 <= i < |b| && !Rewritten(i) ==> f.packet[i] == b[i]
  {
    hide Append, Push, Encode, FindIp, Key, OwnIp, SourceFor, FindNic;
    var b := Encode(header, m);
    EncodedHeader(header, m);
    AppendedPidIsRead(b, pid, ip);
    var sent := Append(b, pid, ip);
    NegotiationForwarded(near, sent);
    assert Read16(Push(near, 0, sent).packet, TOTAL_LEN) == Read16(sent, TOTAL_LEN);
  }

  /** End to end: each of the four messages, given its path PID and the address of the near border router
      by the sender, sent on from inside by that router, and taken in from outside by the router its PID
      leads to, reaches the resource manager there with all of its header but addresses and length, so
      with the sender's identity and the kind of the message; a list message decodes to the timer and
      PID list that were encoded. */
  lemma MessageSurvivesPath(header: Bytes, m: Body, pid: Word4, ip: Word4, near: Router, far: Router)
    requires NegotiationHeader(header) && BodySize(m) < TWO_16 - 4 - CONTROL_BODY
    requires Owns(near, ip) && Owns(far, FindIp(near.pidIp, Key(pid)))
    ensures NegotiationFor(near, Append(Encode(header, m), pid, ip)) && HasPathPid(Append(Encode(header, m), pid, ip))
    ensures var f := Push(near, 0, Append(Encode(header, m), pid, ip));
      SentOn(f, near, FindIp(near.pidIp, Key(pid))) && NegotiationFor(far, f.packet)
    ensures var f := Push(far, 1, Push(near, 0, Append(Encode(header, m), pid, ip)).packet);
            var got := f.packet;
      && SentOn(f, far, FindIp(far.nidIp, HOME_NID))
      && |got| == CONTROL_BODY + BodySize(m) && Whole(got)
      && got[EID..EID + 16] == header[EID..EID + 16]
      && got[OPTION] == header[OPTION] && got[CONTROL_TYPE] == header[CONTROL_TYPE]
      && (forall i :: 0 <= i < CONTROL_BODY && !Rewritten(i) ==> got[i] == header[i])
      && (m.Listed? ==> DecodeTime(got) == m.time && DecodePids(got, |m.pids|) == m.pids)
  {
    hide Append, DecodeTime, DecodePids, Push, Encode, FindIp, Key, Owns, SourceFor, FindNic;
    EncodedHeader(header, m);
    SentByNear(header, m, pid, ip, near);
    var arrived := Push(near, 0, Append(Encode(header, m), pid, ip)).packet;
    NegotiationForwarded(far, arrived);
    var got := Push(far, 1, arrived).packet;
    if m.Listed? {
      DecodeEncoded(got, header, m.time, m.pids);
    }
  }
}
