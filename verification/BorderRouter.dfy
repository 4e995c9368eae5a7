/** Packets and the border router as they run: bytes copied over in place in a buffer whose ends
    move, and tables updated per packet (IPN/ipborderrouter.cc, RM/main.c, RM/wenxingbeng.c). */
module BorderRouter {
  import opened Words
  import opened PidStack

  /** A packet is the window `start .. start + len` of a buffer. */
  class Packet {
    const buf: array<uint8>
    var start: nat
    var len: nat

    ghost predicate Valid()
      reads this
    {
      start + len <= buf.Length
    }

    ghost function Data(): (b: Bytes)
      requires Valid()
      reads this, buf
      ensures |b| == len
    {
      buf[start..start + len]
    }

    constructor (buf: array<uint8>, start: nat, len: nat)
      requires start + len <= buf.Length
      ensures this.buf == buf && this.start == start && this.len == len
    {
      this.buf, this.start, this.len := buf, start, len;
    }

    method Pull(n: nat)
      requires Valid() && n <= len
      modifies this
      ensures Valid() && Data() == old(Data())[n..]
      ensures start + len == old(start + len)
    {
      start := start + n;
      len := len - n;
    }

    method Take(n: nat)
      requires Valid() && n <= len
      modifies this
      ensures Valid() && len == old(len) - n && Data() == old(Data())[..len]
      ensures start == old(start)
    {
      len := len - n;
    }

    /** Moves the end back over bytes that are still in the buffer. */
    method Put(n: nat)
      requires Valid() && start + len + n <= buf.Length
      modifies this
      ensures Valid() && len == old(len) + n && start == old(start)
      ensures Data() == buf[start..start + len]
    {
      len := len + n;
    }

    /** `memcpy` into the packet. */
    method Write(at: nat, d: Bytes)
      requires Valid() && at + |d| <= len
      modifies buf
      ensures Valid() && Data() == PidStack.Put(old(Data()), at, d)
      ensures forall i :: 0 <= i < buf.Length && !(start <= i < start + len) ==> buf[i] == old(buf[i])
    {
      var i := 0;
      while i < |d|
        invariant 0 <= i <= |d|
        invariant forall k :: 0 <= k < buf.Length ==>
          buf[k] == if start + at <= k < start + at + i then d[k - start - at] else old(buf[k])
      {
        buf[start + at + i] := d[i];
        i := i + 1;
      }
    }

    /** `memcpy` out of the packet. */
    method Read(at: nat, n: nat) returns (d: Bytes)
      requires Valid() && at + n <= len
      ensures d == Data()[at..at + n]
    {
      d := [];
      ghost var b := Data();
      var i := 0;
      while i < n
        invariant 0 <= i <= n && d == b[at..at + i]
      {
        assert buf[start + at + i] == b[at + i];
        d := d + [buf[start + at + i]];
        i := i + 1;
      }
    }
  }

  // ---------- the sender's side ----------

  /** `ADD_PID_and_IP`: the destination address, the PID behind the last byte, the new length. */
  method AddPidAndIp(m: Packet, pid: Word4, ip: Word4)
    requires m.Valid() && COLOR_HEADER + 4 <= m.len < TWO_16 - 4 && m.start + m.len + 4 <= m.buf.Length
    modifies m, m.buf
    ensures m.Valid() && m.Data() == Append(old(m.Data()), pid, ip)
  {
    var totalLen := m.len - COLOR_HEADER;
    ghost var b := m.Data();
    m.Write(IP_DST, ip);
    ghost var b1 := m.Data();
    m.Put(4);
    assert m.Data()[..|b|] == b1;
    m.Write(COLOR_HEADER + totalLen, pid);
    assert m.Data() == b1 + pid;
    m.Write(TOTAL_LEN, Be16(totalLen + 4));
  }

  /** `ADD_PID`: the PID behind the last byte and the new length. */
  method AddPid(m: Packet, pid: Word4)
    requires m.Valid() && COLOR_HEADER + 4 <= m.len < TWO_16 - 4 && m.start + m.len + 4 <= m.buf.Length
    modifies m, m.buf
    ensures m.Valid() && m.Data() == Append(old(m.Data()), pid, Get4(old(m.Data()), IP_DST))
  {
    var totalLen := m.len - COLOR_HEADER;
    ghost var b := m.Data();
    assert PidStack.Put(b, IP_DST, Get4(b, IP_DST)) == b;
    m.Put(4);
    assert m.Data()[..|b|] == b;
    m.Write(COLOR_HEADER + totalLen, pid);
    assert m.Data() == b + pid;
    m.Write(TOTAL_LEN, Be16(totalLen + 4));
  }

  /** `update_PID`: the packet grows first, then the PID, its count and the length are written. */
  method UpdatePidInPlace(m: Packet, pid: Word4)
    requires m.Valid() && GetPacket(m.Data()) && m.start + m.len + 4 <= m.buf.Length
    modifies m, m.buf
    ensures m.Valid()
    ensures m.Data() == UpdatePid(old(m.Data()), old(m.buf[m.start + m.len..m.start + m.len + 4]), pid)
  {
    hide PidStack.Put;
    ghost var b := m.Data();
    ghost var room := m.buf[m.start + m.len..m.start + m.len + 4];
    m.Put(4);
    assert m.Data() == b + room;
    var count := m.Read(PID_COUNT, 1);
    var n := Byte(count, 0);
    var total := m.Read(TOTAL_LEN, 2);
    assert n == Byte(b, PID_COUNT) && Read16(total, 0) == Read16(b, TOTAL_LEN);
    m.Write(GET_PIDS + 4 * n, pid);
    m.Write(PID_COUNT, [(n + 1) % 256]);
    m.Write(TOTAL_LEN, Be16((Read16(total, 0) + 4) % TWO_16));
  }

  // ---------- the router ----------

  class IPBorderRouter {
    var pidIp: map<Bytes, Word4>
    var nidIp: map<Bytes, Word4>
    var ipNic: map<Word4, int>
    var sIp: map<int, Word4>

    function Tables(): Router
      reads this
    {
      Router(pidIp, nidIp, ipNic, sIp)
    }

    /** Writes the addresses for `dst` into the packet and names the output port. */
    method Forward(p: Packet, dst: Word4) returns (out: Option<int>)
      requires p.Valid() && p.len >= COLOR_HEADER
      modifies p.buf
      ensures p.Valid() && p.Data() == Readdress(old(p.Data()), Tables(), dst)
      ensures out == Some(FindNic(Tables(), dst))
    {
      var r := Tables();
      p.Write(IP_SRC, SourceFor(r, dst) + dst);
      out := Some(FindNic(r, dst));
    }

    /** The pop of a data packet: head copied out, packet pulled, head copied back. */
    method PopData(p: Packet) returns (out: Option<int>)
      requires p.Valid() && DataPacket(p.Data()) && Byte(p.Data(), PID_COUNT) > 0
      modifies p, p.buf
      ensures p.Valid() && p.Data() == Pop(old(p.Data()), Tables())
      ensures var n := Byte(old(p.Data()), PID_COUNT);
              out == Some(FindNic(Tables(), FindIp(pidIp, Key(StackOf(old(p.Data()))[n - 1]))))
    {
      var pid := MovePastLast(p);
      out := Forward(p, FindIp(pidIp, Key(pid)));
    }

    method MovePastLast(p: Packet) returns (pid: Word4)
      requires p.Valid() && DataPacket(p.Data()) && Byte(p.Data(), PID_COUNT) > 0
      modifies p, p.buf
      ensures p.Valid()
      ensures var b := old(p.Data()); var at := DATA_PIDS + 4 * (Byte(b, PID_COUNT) - 1);
        && p.Data() == Counted(b) && pid == Get4(b, at) == StackOf(b)[Byte(b, PID_COUNT) - 1]
    {
      hide PidStack.Put, StackOf, Counted;
      ghost var b := p.Data();
      var head := p.Read(COLOR_HEADER, 80);
      var n := Byte(head, PID_COUNT - COLOR_HEADER);
      var at := DATA_PIDS + 4 * (n - 1);
      var head' := PidStack.Put(head, PID_COUNT - COLOR_HEADER, [n - 1]);
      head' := PidStack.Put(head', TOTAL_LEN - COLOR_HEADER, Be16(Minus4(Read16(head, TOTAL_LEN - COLOR_HEADER))));
      pid := CutOut(p, at);
      p.Write(COLOR_HEADER, head');
      CutHead(b, at, head, n);
      CountedIs(b);
    }

    /** Cuts four bytes out of the middle: copies the front out, moves the start, copies it back. */
    method CutOut(p: Packet, at: nat) returns (pid: Word4)
      requires p.Valid() && at + 4 <= p.len
      modifies p, p.buf
      ensures p.Valid()
      ensures var b := old(p.Data()); p.Data() == b[..at] + b[at + 4..] && pid == Get4(b, at)
    {
      ghost var b := p.Data();
      var newhead := p.Read(0, at);
      pid := p.Read(at, 4);
      p.Pull(4);
      p.Write(0, newhead);
      PulledDown(b, at, p.Data());
    }

    lemma PulledDown(b: Bytes, at: nat, d: Bytes)
      requires at + 4 <= |b| && |d| == |b| - 4
      requires forall i {:trigger d[i]} :: 0 <= i < |d| ==> d[i] == if i < at then b[i] else b[i + 4]
      ensures d == b[..at] + b[at + 4..]
    {
    }

    lemma CountedIs(b: Bytes)
      requires DataPacket(b) && Byte(b, PID_COUNT) > 0
      ensures var n := Byte(b, PID_COUNT); var at := DATA_PIDS + 4 * (n - 1);
        && Counted(b) == PidStack.Put(PidStack.Put(b[..at] + b[at + 4..], PID_COUNT, [n - 1]),
                                      TOTAL_LEN, Be16(Minus4(Read16(b, TOTAL_LEN))))
        && StackOf(b)[n - 1] == Get4(b, at)
    {
    }

    /** Writing the changed 80-byte head is the same as changing its two fields in the packet. */
    lemma CutHead(b: Bytes, at: nat, head: Bytes, n: int)
      requires DataPacket(b) && DATA_PIDS <= at && at + 4 <= |b| && 1 <= n < 256
      requires head == b[COLOR_HEADER..DATA_PIDS]
      ensures var total := Be16(Minus4(Read16(b, TOTAL_LEN)));
        var cut := b[..at] + b[at + 4..];
        PidStack.Put(cut, COLOR_HEADER,
          PidStack.Put(PidStack.Put(head, PID_COUNT - COLOR_HEADER, [n - 1]), TOTAL_LEN - COLOR_HEADER, total)) ==
        PidStack.Put(PidStack.Put(cut, PID_COUNT, [n - 1]), TOTAL_LEN, total)
    {
    }

    /** The far end of a control packet: the last eight bytes go, four of them come back. */
    method StripControl(p: Packet)
      requires p.Valid() && p.len >= CONTROL_BODY
      modifies p, p.buf
      ensures p.Valid() && p.Data() == Strip(old(p.Data()))
    {
      ghost var b := p.Data();
      var total := p.Read(TOTAL_LEN, 2);
      assert Read16(total, 0) == Read16(b, TOTAL_LEN);
      p.Take(8);
      p.Put(4);
      assert p.Data() == b[..|b| - 4];
      p.Write(TOTAL_LEN, Be16(Minus4(Read16(total, 0))));
    }

    method PushControlPacket(port: int, p: Packet) returns (out: Option<int>)
      requires p.Valid() && ReadableControl(port, p.Data())
      modifies this`pidIp, p, p.buf
      ensures p.Valid()
      ensures Forwarded(Tables(), p.Data(), out) == PushControl(old(Tables()), port, old(p.Data()))
    {
      hide Readdress, Strip, PathPid;
      ghost var b := p.Data();
      out := None;
      var controlType := p.Read(CONTROL_TYPE, 1);
      if controlType[0] == 129 {
        StoreAnnouncement(p);
      } else if controlType[0] == 16 || controlType[0] == 35 {
        if port == 0 {
          out := RoutePath(p);
        } else if port == 1 {
          StripControl(p);
          out := Forward(p, FindIp(nidIp, HOME_NID));
        }
      }
    }

    method StoreAnnouncement(p: Packet)
      requires p.Valid() && p.len >= CONTROL_BODY + 20
      modifies this`pidIp
      ensures var b := p.Data();
        Tables() == Announced(old(Tables()), Get4(b, CONTROL_BODY + 4), Get4(b, CONTROL_BODY + 8),
                              Get4(b, CONTROL_BODY + 12))
    {
      var item := p.Read(CONTROL_BODY, 20);
      SliceTwice(p.Data(), CONTROL_BODY, 20, 4);
      SliceTwice(p.Data(), CONTROL_BODY, 20, 8);
      SliceTwice(p.Data(), CONTROL_BODY, 20, 12);
      if item[8..12] == OwnIp(Tables(), 1) {
        pidIp := pidIp[Key(item[4..8]) := item[12..16]];
      } else {
        pidIp := pidIp[Key(item[4..8]) := item[8..12]];
      }
    }

    lemma SliceTwice(b: Bytes, at: nat, n: nat, i: nat)
      requires at + n <= |b| && i + 4 <= n
      ensures b[at..at + n][i..i + 4] == Get4(b, at + i)
    {
      var x, y := b[at..at + n][i..i + 4], b[at + i..at + i + 4];
      assert forall k :: 0 <= k < 4 ==> x[k] == y[k];
    }

    /** Forwards by the PID at the end of the packet. */
    method RoutePath(p: Packet) returns (out: Option<int>)
      requires p.Valid() && HasPathPid(p.Data())
      modifies p.buf
      ensures p.Valid()
      ensures var dst := FindIp(pidIp, Key(PathPid(old(p.Data()))));
              p.Data() == Readdress(old(p.Data()), Tables(), dst) && out == Some(FindNic(Tables(), dst))
    {
      hide Readdress;
      var total := p.Read(TOTAL_LEN, 2);
      assert Read16(total, 0) == Read16(p.Data(), TOTAL_LEN);
      var pid := p.Read(Read16(total, 0) + 30, 4);
      out := Forward(p, FindIp(pidIp, Key(pid)));
    }

    method PushDataPacket(port: int, p: Packet) returns (out: Option<int>)
      requires p.Valid() && (port == 0 || port == 1 ==> DataPacket(p.Data()))
      modifies p, p.buf
      ensures p.Valid()
      ensures Forwarded(Tables(), p.Data(), out) == PushData(old(Tables()), port, old(p.Data()))
    {
      hide Readdress, Pop;
      ghost var b := p.Data();
      out := None;
      if port != 0 && port != 1 {
        return;
      }
      var count := p.Read(PID_COUNT, 1);
      var n := Byte(count, 0);
      assert n == Byte(b, PID_COUNT);
      if port == 0 {
        if n != 0 {
          out := PopData(p);
        }
      } else {
        if n != 0 {
          var pid := p.Read(DATA_PIDS + 4 * (n - 1), 4);
          assert pid == StackOf(b)[n - 1];
          out := Forward(p, FindIp(pidIp, Key(pid)));
        } else {
          var nid := p.Read(DATA_NID, 16);
          out := Forward(p, FindIp(nidIp, Key(nid)));
        }
      }
    }

    method PushPacket(port: int, p: Packet) returns (out: Option<int>)
      requires p.Valid() && Readable(Tables(), port, p.Data())
      modifies this`pidIp, p, p.buf
      ensures p.Valid()
      ensures Forwarded(Tables(), p.Data(), out) == Push(old(Tables()), port, old(p.Data()))
    {
      out := None;
      var dst := p.Read(IP_DST, 4);
      var r := Tables();
      if dst == OwnIp(r, 1) || dst == OwnIp(r, 2) {
        var version := p.Read(COLOR_HEADER, 1);
        if version[0] == VERSION_GET {
          if port == 0 {
            out := RoutePath(p);
          } else if port == 1 {
            out := Forward(p, FindIp(nidIp, HOME_NID));
          }
        } else if version[0] == VERSION_DATA {
          out := PushDataPacket(port, p);
        } else if version[0] == VERSION_CONTROL {
          out := PushControlPacket(port, p);
        }
      } else {
        var nic := FindNic(r, dst);
        if 1 <= nic <= 4 {
          out := Some(nic);
        } else {
          out := Some(0);
        }
      }
    }
  }
}
