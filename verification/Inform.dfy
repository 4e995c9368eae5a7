/** Inform requests as they run: a buffer filled through a moving pointer and sent when full, and the
    loop over request bits that takes them apart (local_inform.c and local_comm.c of
    NetworkMonitoringTools/stats_send_ver_test1). */
module Inform {
  import opened Words
  import opened InformSpec
  import Resolver

  // ---------- reading the items of a port ----------

  /** `set_request`: flips the bit of a recognised word. */
  method SetRequest(request: nat, element: string) returns (request': nat, ret: nat)
    ensures var i := BitOf(element);
      if i < |NAMES| then request' == Toggle(request, i) && ret == 1 else request' == request && ret == 0
  {
    var i := BitOf(element);
    if i < |NAMES| {
      return Toggle(request, i), 1;
    }
    return request, 0;
  }

  /** The words of a line that goes on behind the letters of `element`. */
  ghost function Rejoin(element: string, rest: string): seq<string> {
    [element + Split(rest)[0]] + Split(rest)[1..]
  }

  lemma RejoinStep(element: string, rest: string)
    ensures Rejoin("", rest) == Split(rest)
    ensures rest == "" ==> Rejoin(element, rest) == [element]
    ensures rest != "" && rest[0] == ' ' ==> Rejoin(element, rest) == [element] + Rejoin("", rest[1..])
    ensures rest != "" && rest[0] != ' ' ==> Rejoin(element, rest) == Rejoin(element + [rest[0]], rest[1..])
  {
    hide Split;
    SplitStep(rest);
    assert "" + Split(rest)[0] == Split(rest)[0];
    assert Rejoin("", rest) == [Split(rest)[0]] + Split(rest)[1..];
    if rest == "" {
      assert element + "" == element;
    } else {
      var words := Split(rest[1..]);
      assert Rejoin("", rest[1..]) == words;
      if rest[0] == ' ' {
        assert element + "" == element;
      } else {
        assert element + ([rest[0]] + words[0]) == (element + [rest[0]]) + words[0];
      }
    }
  }

  lemma SplitStep(line: string)
    ensures Split(line) ==
      if line == "" then [""]
      else
        var words := Split(line[1..]);
        if line[0] == ' ' then [""] + words else [[line[0]] + words[0]] + words[1..]
  {
  }

  /** The character loop over a line of item names. */
  method ReadRequest(line: string) returns (request: nat, count: nat)
    ensures (request, count) == RequestOf(Split(line))
  {
    hide BitOf, Toggle, Split, Rejoin, RequestOf;
    NoRequest();
    request, count := 0, 0;
    var element := "";
    ghost var seen: seq<string> := [];
    var j := 0;
    assert line[0..] == line;
    RejoinStep(element, line);
    while j < |line|
      invariant 0 <= j <= |line| && (request, count) == RequestOf(seen)
      invariant Split(line) == seen + Rejoin(element, line[j..])
    {
      RejoinStep(element, line[j..]);
      assert line[j..][0] == line[j] && line[j..][1..] == line[j + 1..];
      if line[j] == ' ' {
        var ret;
        request, ret := SetRequest(request, element);
        count := count + ret;
        RequestSnoc(seen, element);
        seen := seen + [element];
        element := "";
      } else {
        element := element + [line[j]];
      }
      j := j + 1;
    }
    RejoinStep(element, line[j..]);
    var ret;
    request, ret := SetRequest(request, element);
    count := count + ret;
    RequestSnoc(seen, element);
  }

  lemma NoRequest()
    ensures RequestOf([]) == (0, 0)
  {
  }

  lemma RequestSnoc(seen: seq<string>, element: string)
    ensures var (r, n) := RequestOf(seen);
      var i := BitOf(element);
      RequestOf(seen + [element]) == if i < |NAMES| then (Toggle(r, i), n + 1) else (r, n)
  {
    assert (seen + [element])[..|seen|] == seen;
  }

  lemma {:induction false} RequestBound(words: seq<string>)
    ensures RequestOf(words).0 < 256
  {
    if words != [] {
      RequestBound(words[..|words| - 1]);
      var r, i := RequestOf(words[..|words| - 1]).0, BitOf(words[|words| - 1]);
      if i < |NAMES| {
        ToggleBound(r, i, 8);
        Resolver.Pow2Values();
      }
    }
  }

  lemma {:induction false} ToggleBound(r: nat, i: nat, w: nat)
    requires r < Resolver.Pow2(w) && i < w
    ensures Toggle(r, i) < Resolver.Pow2(w)
  {
    hide Toggle;
    ToggleStep(r, i);
    if i > 0 {
      ToggleBound(r / 2, i - 1, w - 1);
    }
  }

  // ---------- packing ----------

  /** A port the user asks about: the line of item names, and what was entered for each counted one. */
  datatype Ask = Ask(ip: Ip, line: string, entries: seq<Entry>)

  /** The user is asked once for every counted word. */
  predicate Answered(a: Ask) {
    |a.entries| == RequestOf(Split(a.line)).1
  }

  function PackedOf(a: Ask): (p: Packed)
    requires Answered(a)
    ensures Sound(p) && p.count == |a.entries|
  {
    RequestBound(Split(a.line));
    Packed(Port(a.ip, RequestOf(Split(a.line)).0, TailsOf(a.entries)), |a.entries|)
  }

  function AllPacked(asks: seq<Ask>): (p: seq<Packed>)
    requires forall i :: 0 <= i < |asks| ==> Answered(asks[i])
    ensures |p| == |asks| && forall i :: 0 <= i < |asks| ==> p[i] == PackedOf(asks[i])
  {
    seq(|asks|, i requires 0 <= i < |asks| => PackedOf(asks[i]))
  }

  predicate AllRecognised(a: Ask) {
    forall i :: 0 <= i < |a.entries| ==> Recognised(a.entries[i])
  }

  /** A port can be read back, out of a record as long as was claimed, if and only if no item was named
      twice on its line and every kind entered for it is known. Given one of the two, being readable is
      the same as the other. Without repetition a port fits an empty datagram. */
  lemma ReadableIffNamedOnce(a: Ask)
    requires Answered(a)
    ensures var p, once := PackedOf(a), !NamedTwice(Split(a.line));
      && (Readable(p.port) && |p.port.tails| == p.count <==> once && AllRecognised(a))
      && (once ==> (Readable(p.port) <==> AllRecognised(a)))
      && (AllRecognised(a) ==> (Readable(p.port) <==> once))
      && (once ==> Fits(p))
  {
    hide Items, BitOf, Toggle, Split, NamedTwice, TailsOf;
    var words := Split(a.line);
    CountedIffNamedOnce(words);
    if !NamedTwice(words) {
      ItemsBound(RequestOf(words).0, 0, 8);
    }
  }

  /** `memcpy` into the buffer. */
  method Copy(buf: array<uint8>, at: nat, d: Bytes)
    requires at + |d| <= buf.Length
    modifies buf
    ensures buf[..] == old(buf[..at]) + d + old(buf[at + |d|..])
  {
    var i := 0;
    while i < |d|
      invariant 0 <= i <= |d|
      invariant forall k :: 0 <= k < buf.Length ==> buf[k] == if at <= k < at + i then d[k - at] else old(buf[k])
    {
      buf[at + i] := d[i];
      i := i + 1;
    }
  }

  method Append(buf: array<uint8>, ptr: nat, d: Bytes) returns (ptr': nat)
    requires ptr + |d| <= buf.Length
    modifies buf
    ensures ptr' == ptr + |d| && buf[..ptr'] == old(buf[..ptr]) + d
  {
    Copy(buf, ptr, d);
    ptr' := ptr + |d|;
    assert buf[..ptr'] == buf[..][..ptr'];
  }

  /** The record head and `insert_inform_get_tail`, which passes over an entry of an unknown kind. */
  method AppendRecord(buf: array<uint8>, ptr: nat, ip: Ip, request: uint32, entries: seq<Entry>) returns (ptr': nat)
    requires ptr + MIDDLE + TAIL * |entries| <= buf.Length
    modifies buf
    ensures var r := Record(Port(ip, request, TailsOf(entries)));
      ptr' == ptr + |r| && buf[..ptr'] == old(buf[..ptr]) + r
  {
    hide TailsOf, Tails, Le32;
    ghost var before := buf[..ptr];
    ptr' := Append(buf, ptr, ip + Le32(request));
    ghost var head := buf[..ptr'];
    var i := 0;
    TailsStep(entries, 0);
    while i < |entries|
      invariant 0 <= i <= |entries|
      invariant ptr' == ptr + MIDDLE + TAIL * |TailsOf(entries[..i])|
      invariant buf[..ptr'] == head + Tails(TailsOf(entries[..i]))
    {
      TailsStep(entries, i);
      var kind := KindOf(entries[i].kind);
      if kind < |KINDS| {
        ptr' := Append(buf, ptr', Le32(kind) + entries[i].times);
      }
      i := i + 1;
    }
    assert entries[..i] == entries;
    assert buf[..ptr'] == before + (ip + Le32(request)) + Tails(TailsOf(entries));
  }

  lemma TailsStep(entries: seq<Entry>, i: nat)
    requires i <= |entries|
    ensures TailsOf([]) == [] && Tails([]) == [] && entries[..0] == []
    ensures i < |entries| ==>
      var e, ts := entries[i], TailsOf(entries[..i]);
      if Recognised(e) then
        && TailsOf(entries[..i + 1]) == ts + [Le32(KindOf(e.kind)) + e.times]
        && Tails(TailsOf(entries[..i + 1])) == Tails(ts) + (Le32(KindOf(e.kind)) + e.times)
      else TailsOf(entries[..i + 1]) == ts
  {
    if i < |entries| {
      assert entries[..i + 1][..i] == entries[..i];
      var ts := TailsOf(entries[..i]);
      var t: Tail := Le32(KindOf(entries[i].kind)) + entries[i].times;
      assert (ts + [t])[..|ts|] == ts;
    }
  }

  /** The type word and the head of a datagram. */
  method Start(buf: array<uint8>, host: Host, count: uint32) returns (ptr: nat)
    requires buf.Length == BUFFER
    modifies buf
    ensures ptr == HEADER && buf[..ptr] == Message(host, count, [])
  {
    ptr := Append(buf, 0, Le32(INFORM_GET) + host + Le32(count));
  }

  /** Writes the number of records over the one announced when the datagram was started. */
  method SetCount(buf: array<uint8>, ptr: nat, count: uint32,
                  ghost host: Host, ghost was: uint32, ghost ports: seq<Port>)
    requires buf.Length == BUFFER && ptr <= BUFFER && buf[..ptr] == Message(host, was, ports)
    modifies buf
    ensures buf[..ptr] == Message(host, count, ports)
  {
    ghost var m := Message(host, was, ports);
    assert m[..HEADER - 4] == Le32(INFORM_GET) + host && m[HEADER..] == Records(ports);
    Copy(buf, HEADER - 4, Le32(count));
    assert buf[..ptr] == buf[..][..ptr];
  }

  /** The datagram being filled: `space` bytes are left unclaimed, and its head announces `headCount`. */
  ghost predicate Filling(buf: array<uint8>, ptr: int, space: int, host: Host, headCount: int, portCount: int,
                          current: seq<Packed>)
    reads buf
  {
    && buf.Length == BUFFER && 0 <= ptr <= BUFFER - space && space == BUFFER - HEADER - Claims(current) >= 0
    && portCount == |current| && AllSound(current)
    && 0 <= headCount < TWO_32 && buf[..ptr] == Message(host, headCount, Plain(current))
  }

  /** Sends what has been claimed of the buffer. */
  method Send(buf: array<uint8>, ptr: nat, space: nat, ghost host: Host, ghost current: seq<Packed>)
    returns (message: Bytes)
    requires Filling(buf, ptr, space, host, |current|, |current|, current)
    ensures SentAs(message, host, current)
  {
    hide Message;
    message := buf[..BUFFER - space];
    assert message[..ptr] == buf[..ptr];
  }

  /** Sends the datagram with the number of its records, and starts the next with what is left. */
  method SendAndRestart(buf: array<uint8>, ptr: nat, space: nat, host: Host, headCount: nat, portCount: nat,
                        ghost current: seq<Packed>)
    returns (message: Bytes, headCount': nat, ptr': nat)
    requires Filling(buf, ptr, space, host, headCount, portCount, current) && portCount <= headCount
    modifies buf
    ensures SentAs(message, host, current) && headCount' == headCount - portCount
    ensures Filling(buf, ptr', BUFFER - HEADER, host, headCount', 0, [])
  {
    hide Message;
    SetCount(buf, ptr, portCount, host, headCount, Plain(current));
    message := Send(buf, ptr, space, host, current);
    headCount' := headCount - portCount;
    ptr' := Start(buf, host, headCount');
    assert Plain([]) == [];
  }

  /** Packs one more port into the datagram being filled; `space` is what will be left. */
  method AppendPort(buf: array<uint8>, ptr: nat, space: nat, a: Ask, request: uint32,
                    ghost host: Host, ghost headCount: int, ghost portCount: int, ghost current: seq<Packed>)
    returns (ptr': nat)
    requires Answered(a) && request == PackedOf(a).port.request
    requires Filling(buf, ptr, space + Claim(PackedOf(a)), host, headCount, portCount, current)
    modifies buf
    ensures Filling(buf, ptr', space, host, headCount, portCount + 1, current + [PackedOf(a)])
  {
    hide Record, Records, Message, Claims, TailsOf;
    ghost var p := PackedOf(a);
    ClaimsSnoc(current, p);
    ptr' := AppendRecord(buf, ptr, a.ip, request, a.entries);
    MessageSnoc(host, headCount, Plain(current), p.port);
  }

  /** One turn of the loop of `main`: sends the datagram first if the port does not fit it. */
  method PackPort(buf: array<uint8>, ptr: nat, space: nat, host: Host, headCount: nat, portCount: nat, a: Ask,
                  ghost current: seq<Packed>)
    returns (sent: seq<Bytes>, ptr': nat, space': int, headCount': nat, portCount': nat, ghost current': seq<Packed>)
    requires Answered(a) && Fits(PackedOf(a)) && portCount < headCount
    requires Filling(buf, ptr, space, host, headCount, portCount, current)
    modifies buf
    ensures space' >= 0 && Filling(buf, ptr', space', host, headCount', portCount', current')
    ensures headCount' - portCount' == headCount - portCount - 1
    ensures if HEADER + Claims(current) + Claim(PackedOf(a)) <= BUFFER
            then sent == [] && current' == current + [PackedOf(a)]
            else |sent| == 1 && SentAs(sent[0], host, current) && current' == [PackedOf(a)]
  {
    hide TailsOf;
    sent, ptr', headCount', current' := [], ptr, headCount, current;
    portCount' := portCount + 1;
    var request, count := ReadRequest(a.line);
    assert Claim(PackedOf(a)) == MIDDLE + count * TAIL;
    space' := space - (MIDDLE + count * TAIL);
    if space' < 0 {
      space' := space' + (MIDDLE + count * TAIL);
      var message;
      message, headCount', ptr' := SendAndRestart(buf, ptr, space', host, headCount, portCount' - 1, current);
      sent, current' := [message], [];
      portCount', space' := 1, BUFFER;
      space' := space' - (HEADER + MIDDLE + count * TAIL);
    }
    ptr' := AppendPort(buf, ptr', space', a, request, host, headCount', portCount' - 1, current');
    assert [] + [PackedOf(a)] == [PackedOf(a)];
    current' := current' + [PackedOf(a)];
  }

  /** `main` of the sender: fills a datagram port by port, and sends it when the next one does not fit. */
  method SendRequests(host: Host, asks: seq<Ask>) returns (sent: seq<Bytes>)
    requires |asks| < 0x8000_0000
    requires forall i :: 0 <= i < |asks| ==> Answered(asks[i]) && Fits(PackedOf(asks[i]))
    ensures AllSent(sent, host, Groups([], AllPacked(asks)))
  {
    hide Message, PackedOf, Groups, Filling, SentAs, AllSent, Claims, Claim;
    ghost var ports := AllPacked(asks);
    var buf := new uint8[BUFFER](_ => 0);
    sent := [];
    var headCount := |asks|;
    var ptr := Start(buf, host, headCount);
    var space, portCount := BUFFER - HEADER, 0;
    Started(buf, ptr, host, headCount);
    ghost var g, current: seq<Packed> := [], [];
    NothingSent(host);
    assert [] + Groups([], ports) == Groups([], ports) && ports[0..] == ports;
    var k := 0;
    while k < |asks|
      invariant 0 <= k <= |asks| && headCount == portCount + |asks| - k && 0 <= portCount && 0 <= ptr && 0 <= space
      invariant Filling(buf, ptr, space, host, headCount, portCount, current)
      invariant AllSent(sent, host, g) && Groups([], ports) == g + Groups(current, ports[k..])
    {
      ghost var full := current;
      var more;
      more, ptr, space, headCount, portCount, current :=
        PackPort(buf, ptr, space, host, headCount, portCount, asks[k], current);
      TurnDone(sent, more, host, g, full, ports, k);
      sent, g := sent + more, if more == [] then g else g + [full];
      k := k + 1;
    }
    CountOf(buf, ptr, space, host, headCount, portCount, current);
    var message := Send(buf, ptr, space, host, current);
    AllSentSnoc(sent, message, host, g, current);
    sent := sent + [message];
    GroupsStep(current, ports[k..]);
  }

  lemma NothingSent(host: Host)
    ensures AllSent([], host, [])
  {
  }

  lemma AllSentSnoc(sent: seq<Bytes>, message: Bytes, host: Host, g: seq<seq<Packed>>, group: seq<Packed>)
    requires AllSent(sent, host, g) && SentAs(message, host, group)
    ensures AllSent(sent + [message], host, g + [group])
  {
    hide SentAs;
  }

  /** What one turn sends is what the grouping makes of the next port. */
  lemma TurnDone(sent: seq<Bytes>, more: seq<Bytes>, host: Host, g: seq<seq<Packed>>, full: seq<Packed>,
                 ports: seq<Packed>, k: nat)
    requires k < |ports| && AllSent(sent, host, g)
    requires if HEADER + Claims(full) + Claim(ports[k]) <= BUFFER then more == []
             else |more| == 1 && SentAs(more[0], host, full)
    ensures var g' := if more == [] then g else g + [full];
      && AllSent(sent + more, host, g')
      && g + Groups(full, ports[k..])
         == g' + Groups(if more == [] then full + [ports[k]] else [ports[k]], ports[k + 1..])
  {
    hide AllSent, SentAs, Claims, Claim, Groups;
    GroupsStep(full, ports[k..]);
    assert ports[k..][0] == ports[k] && ports[k..][1..] == ports[k + 1..];
    if more == [] {
      assert sent + more == sent;
    } else {
      AllSentSnoc(sent, more[0], host, g, full);
      assert sent + more == sent + [more[0]];
    }
  }

  lemma Started(buf: array<uint8>, ptr: int, host: Host, headCount: nat)
    requires buf.Length == BUFFER && ptr == HEADER && headCount < TWO_32 && buf[..ptr] == Message(host, headCount, [])
    ensures Filling(buf, ptr, BUFFER - HEADER, host, headCount, 0, [])
  {
    assert Plain([]) == [];
  }

  lemma CountOf(buf: array<uint8>, ptr: int, space: int, host: Host, headCount: int, portCount: int,
                current: seq<Packed>)
    requires Filling(buf, ptr, space, host, headCount, portCount, current)
    ensures portCount == |current|
  {
  }

  lemma GroupsStep(current: seq<Packed>, ports: seq<Packed>)
    ensures Groups(current, ports) ==
      if ports == [] then [current]
      else if HEADER + Claims(current) + Claim(ports[0]) <= BUFFER then Groups(current + [ports[0]], ports[1..])
      else [current] + Groups([ports[0]], ports[1..])
  {
  }

  lemma MessageSnoc(host: Host, count: uint32, ports: seq<Port>, p: Port)
    ensures Message(host, count, ports) + Record(p) == Message(host, count, ports + [p])
  {
    hide Record, Records;
    RecordsConcat(ports, [p]);
    RecordsOne(p);
  }

  // ---------- taking a request apart ----------

  /** The records announced by a head; a negative count reads as none. */
  function Announced(count: uint32): nat {
    if count < 0x8000_0000 then count else 0
  }

  method Read(buf: array<uint8>, at: nat, n: nat) returns (d: Bytes)
    requires at + n <= buf.Length
    ensures d == buf[at..at + n]
  {
    d := [];
    var i := 0;
    while i < n
      invariant 0 <= i <= n && d == buf[at..at + i]
    {
      d := d + [buf[at + i]];
      i := i + 1;
    }
  }

  /** The decoder's table of column names, by bit. */
  const COLUMNS: seq<string> := ["_total_packets", "_rx_packets", "_tx_packets", "_total_bytes",
                                 "_rx_bytes", "_tx_bytes", "_rtt_avg", "_packet_loss"]

  predicate InTable(items: seq<nat>) {
    forall k :: k in items ==> k < |COLUMNS|
  }

  /** A request has only bits below `w` if and only if it is below two to the `w`. */
  lemma {:induction false} ItemsBelowIff(r: nat, j: nat, w: nat)
    ensures (forall k :: k in Items(r, j) ==> k < j + w) <==> r < Resolver.Pow2(w)
    decreases w
  {
    hide Items;
    ItemsStep(r, j);
    var rest := Items(r / 2, j + 1);
    if w > 0 {
      ItemsBelowIff(r / 2, j + 1, w - 1);
      assert forall k :: k in rest ==> k in Items(r, j);
    } else if r != 0 {
      SomeItem(r, j);
    } else {
      assert Items(0, j) == [];
    }
  }

  /** The names the decoder looks up for a request all of whose bits are in the table. */
  function ColumnsFor(request: nat): (c: seq<string>)
    requires request < 256
    ensures |c| == |Items(request, 0)|
  {
    EightBits(request);
    Names(Items(request, 0))
  }

  function Names(items: seq<nat>): (c: seq<string>)
    requires InTable(items)
    ensures |c| == |items|
  {
    seq(|items|, i requires 0 <= i < |items| => assert items[i] in items; COLUMNS[items[i]])
  }

  // ---------- the columns of the words on a line ----------

  predicate Known(word: string) {
    var w := Lower(word);
    || w == "total_packets" || w == "rx_packets" || w == "tx_packets" || w == "total_bytes"
    || w == "rx_bytes" || w == "tx_bytes" || w == "rtt_avg" || w == "packets_loss"
  }

  /** A word asks for the column of its own name, in lower case behind an underscore; only packets_loss is
      looked up in the singular. */
  function ColumnOf(word: string): string {
    if Lower(word) == "packets_loss" then "_packet_loss" else "_" + Lower(word)
  }

  /** The decoder's column for the bit that the sender sets for a word is the word's own. */
  lemma WordMeetsColumn(word: string)
    ensures BitOf(word) < |COLUMNS| <==> Known(word)
    ensures Known(word) ==> COLUMNS[BitOf(word)] == ColumnOf(word)
  {
    hide Lower;
    ColumnNames();
  }

  lemma ColumnNames()
    ensures "_" + "total_packets" == COLUMNS[0] && "_" + "rx_packets" == COLUMNS[1]
    ensures "_" + "tx_packets" == COLUMNS[2] && "_" + "total_bytes" == COLUMNS[3]
    ensures "_" + "rx_bytes" == COLUMNS[4] && "_" + "tx_bytes" == COLUMNS[5] && "_" + "rtt_avg" == COLUMNS[6]
    ensures "packets_loss" == NAMES[7] && forall i :: 0 <= i < 7 ==> NAMES[i] != NAMES[7]
  {
    assert forall i :: 0 <= i < 7 && |NAMES[i]| == 12 ==> NAMES[i][0] != NAMES[7][0];
  }

  /** The columns are those of the words that name an item, each once. */
  ghost predicate Meets(columns: seq<string>, words: seq<string>) {
    && (forall c :: c in columns <==> exists a :: 0 <= a < |words| && Known(words[a]) && c == ColumnOf(words[a]))
    && (forall a, b :: 0 <= a < b < |columns| ==> columns[a] != columns[b])
  }

  lemma {:induction false} ItemsRise(r: nat, j: nat)
    ensures forall a, b :: 0 <= a < b < |Items(r, j)| ==> Items(r, j)[a] < Items(r, j)[b]
  {
    if r != 0 {
      ItemsRise(r / 2, j + 1);
    }
  }

  lemma ColumnsDiffer(a: nat, b: nat)
    requires a < b < |COLUMNS|
    ensures COLUMNS[a] != COLUMNS[b]
  {
    var x, y := COLUMNS[a], COLUMNS[b];
    assert |x| != |y| || x[1] != y[1];
  }

  /** For a line without repetition, the decoder looks up exactly the columns of the words on it. */
  lemma {:induction false} ColumnsMeetWords(words: seq<string>)
    requires !NamedTwice(words)
    ensures RequestOf(words).0 < 256 && Meets(ColumnsFor(RequestOf(words).0), words)
  {
    hide Items, NamedTwice, RequestOf, BitOf, Known, ColumnOf, Lower;
    var r := RequestOf(words).0;
    CountedIffNamedOnce(words);
    EightBits(r);
    RequestBound(words);
    ItemsRise(r, 0);
    var items, columns := Items(r, 0), ColumnsFor(r);
    forall a, b | 0 <= a < b < |columns|
      ensures columns[a] != columns[b]
    {
      assert items[a] in items && items[b] in items;
      ColumnsDiffer(items[a], items[b]);
    }
    forall c | c in columns
      ensures exists a :: 0 <= a < |words| && Known(words[a]) && c == ColumnOf(words[a])
    {
      var q :| 0 <= q < |columns| && columns[q] == c;
      assert items[q] in items;
      var a :| 0 <= a < |words| && Bits(words)[a] == items[q];
      WordMeetsColumn(words[a]);
    }
    forall a | 0 <= a < |words| && Known(words[a])
      ensures ColumnOf(words[a]) in columns
    {
      WordMeetsColumn(words[a]);
      assert Bits(words)[a] in items;
      var q :| 0 <= q < |items| && items[q] == Bits(words)[a];
      assert columns[q] == ColumnOf(words[a]);
    }
  }

  // ---------- the kinds of information ----------

  /** What the receiver asks its database for: the value at one time, or an aggregate over a period. */
  datatype Query = AtOnce | Over(aggregate: string)

  /** The query by the number in a tail; there is none for other numbers. */
  function QueryFor(number: uint32): Option<Query> {
    if number == 0 then Some(AtOnce)
    else if number == 1 then Some(Over("avg"))
    else if number == 2 then Some(Over("max"))
    else if number == 3 then Some(Over("min"))
    else None
  }

  /** The query that a kind of information stands for. */
  function QueryOf(kind: string): Option<Query> {
    if kind == "point" then Some(AtOnce)
    else if kind == "average" then Some(Over("avg"))
    else if kind == "peak" then Some(Over("max"))
    else if kind == "nadir" then Some(Over("min"))
    else None
  }

  /** An entry of a kind that stands for a query becomes a tail with its times by whose number the receiver
      makes just that query; any other entry becomes none. */
  lemma KindMeetsQuery(e: Entry)
    ensures Recognised(e) <==> QueryOf(e.kind).Some?
    ensures !Recognised(e) ==> TailsOf([e]) == []
    ensures Recognised(e) ==>
      var ts := TailsOf([e]);
      |ts| == 1 && QueryFor(ReadLe32(ts[0][..4])) == QueryOf(e.kind) && ts[0][4..] == e.times
  {
    assert [e][..0] == [];
    if Recognised(e) {
      var n := KindOf(e.kind);
      Le32RoundTrip(n);
      assert TailsOf([e])[0] == Le32(n) + e.times;
    }
  }

  lemma NamesSnoc(items: seq<nat>, j: nat)
    requires InTable(items) && j < |COLUMNS|
    ensures Names(items + [j]) == Names(items) + [COLUMNS[j]]
  {
  }

  lemma EightBits(request: nat)
    ensures InTable(Items(request, 0)) <==> request < 256
  {
    ItemsBelowIff(request, 0, 8);
    Resolver.Pow2Values();
  }

  /** The bit loop of one port: for every bit of its request, its tail, the column name the bit selects,
      and the value fetched for it. A bit without a name would be looked up behind the table; the loop
      is then not `inside`, and nothing is promised of the reply. */
  method AnswerPort(recv: array<uint8>, p: nat, send: array<uint8>, q: nat, ghost mem: Bytes, ghost port: Port)
    returns (p': nat, q': nat, columns: seq<string>, inside: bool)
    requires recv != send && recv[..] == mem && p + MIDDLE <= |mem|
    requires mem[p..p + MIDDLE] == port.ip + Le32(port.request)
    requires Readable(port)
    requires p + MIDDLE + TAIL * |port.tails| <= |mem| && q + (TAIL + 8) * |port.tails| <= send.Length
    requires port.tails == ReadTails(mem[p + MIDDLE..], |port.tails|)
    modifies send
    ensures inside <==> port.request < 256
    ensures inside ==> columns == ColumnsFor(port.request)
    ensures inside ==> p' == p + MIDDLE + TAIL * |columns| && q' == q + (TAIL + 8) * |columns|
    ensures inside ==> send[..q'] == old(send[..q]) + Answers(port.tails)
  {
    hide Items, ReadTails, Answers, Le32, ReadLe32, Names, AtBit;
    ghost var before := send[..q];
    var word := Read(recv, p + 16, 4);
    assert word == mem[p..p + MIDDLE][16..20] == Le32(port.request);
    Le32RoundTrip(port.request);
    var request, j := ReadLe32(word), 0;
    p', q', columns, inside := p + MIDDLE, q, [], true;
    ghost var items: seq<nat> := [];
    AtFirstBit(port, p + MIDDLE, q, before, send);
    while request != 0
      invariant request >= 0 && j >= 0 && inside && recv[..] == mem
      invariant AtBit(port, p + MIDDLE, q, before, send, p', q', columns, items, request, j)
      decreases request
    {
      p', q', columns, inside, items :=
        AnswerBit(recv, send, p', q', columns, request, j, mem, port, p + MIDDLE, q, before, items);
      if !inside {
        return;
      }
      request, j := request / 2, j + 1;
    }
    AtLastBit(port, p + MIDDLE, q, before, send, p', q', columns, items, j);
  }

  /** Where the bit loop stands: `items` are the bits passed, and the rest of the request starts at `j`. */
  ghost predicate AtBit(port: Port, start: nat, q: nat, before: Bytes, send: array<uint8>, p': nat, q': nat,
                        columns: seq<string>, items: seq<nat>, request: nat, j: nat)
    reads send
  {
    && InTable(items) && columns == Names(items) && Items(port.request, 0) == items + Items(request, j)
    && |items| <= |port.tails| && p' == start + TAIL * |items| && q' == q + (TAIL + 8) * |items| <= send.Length
    && send[..q'] == before + Answers(port.tails[..|items|])
  }

  lemma AtFirstBit(port: Port, start: nat, q: nat, before: Bytes, send: array<uint8>)
    requires q <= send.Length && before == send[..q]
    ensures AtBit(port, start, q, before, send, start, q, [], [], port.request, 0)
  {
    hide Items;
    assert Answers(port.tails[..0]) == [];
  }

  lemma AtLastBit(port: Port, start: nat, q: nat, before: Bytes, send: array<uint8>, p': nat, q': nat,
                  columns: seq<string>, items: seq<nat>, j: nat)
    requires AtBit(port, start, q, before, send, p', q', columns, items, 0, j) && Readable(port)
    ensures port.request < 256 && columns == ColumnsFor(port.request)
    ensures p' == start + TAIL * |columns| && q' == q + (TAIL + 8) * |columns| <= send.Length
    ensures send[..q'] == before + Answers(port.tails)
  {
    hide Answers, Names;
    EightBits(port.request);
    assert items == Items(port.request, 0) && port.tails[..|items|] == port.tails;
  }

  /** One round of the bit loop. */
  method AnswerBit(recv: array<uint8>, send: array<uint8>, p: nat, q: nat, columns: seq<string>, request: nat, j: nat,
                   ghost mem: Bytes, ghost port: Port, ghost start: nat, ghost q0: nat, ghost before: Bytes,
                   ghost items: seq<nat>)
    returns (p': nat, q': nat, columns': seq<string>, inside: bool, ghost items': seq<nat>)
    requires recv != send && recv[..] == mem && Readable(port) && request != 0
    requires start + TAIL * |port.tails| <= |mem| && q0 + (TAIL + 8) * |port.tails| <= send.Length
    requires port.tails == ReadTails(mem[start..], |port.tails|)
    requires AtBit(port, start, q0, before, send, p, q, columns, items, request, j)
    modifies send
    ensures recv[..] == mem && (!inside ==> port.request >= 256)
    ensures inside ==> AtBit(port, start, q0, before, send, p', q', columns', items', request / 2, j + 1)
  {
    hide Items, ReadTails, Answers, Names;
    p', q', columns', inside, items' := p, q, columns, true, items;
    ItemsStep(request, j);
    if request % 2 == 1 {
      assert Items(port.request, 0)[|items|] == j && |port.tails| >= |items| + 1;
      if j >= |COLUMNS| {
        EightBits(port.request);
        assert j in Items(port.request, 0);
        inside := false;
        return;
      }
      q' := AnswerTail(recv, p, send, q, mem, start, port.tails, |items|, before);
      NamesSnoc(items, j);
      p', columns', items' := p + TAIL, columns + [COLUMNS[j]], items + [j];
      assert items' + Items(request / 2, j + 1) == items + Items(request, j);
    } else {
      assert Items(request, j) == Items(request / 2, j + 1);
    }
  }

  /** Copies tail `k` and the value fetched for it. */
  method AnswerTail(recv: array<uint8>, p: nat, send: array<uint8>, q: nat,
                    ghost mem: Bytes, ghost start: nat, ghost tails: seq<Tail>, ghost k: nat, ghost before: Bytes)
    returns (q': nat)
    requires recv != send && recv[..] == mem && q + TAIL + 8 <= send.Length
    requires k < |tails| && p == start + TAIL * k && start + TAIL * |tails| <= |mem|
    requires tails == ReadTails(mem[start..], |tails|) && send[..q] == before + Answers(tails[..k])
    modifies send
    ensures q' == q + TAIL + 8 && send[..q'] == before + Answers(tails[..k + 1]) && recv[..] == mem
  {
    hide ReadTails, Answers;
    var t := Read(recv, p, TAIL);
    TailInMemory(mem, start, |tails|, k);
    assert t == mem[p..p + TAIL] == tails[k];
    q' := Append(send, q, t + NO_VALUE);
    AnswersSnoc(tails, k);
  }

  lemma TailInMemory(mem: Bytes, p: nat, k: nat, i: nat)
    requires i < k && p + TAIL * k <= |mem|
    ensures ReadTails(mem[p..], k)[i] == mem[p + TAIL * i..p + TAIL * i + TAIL]
  {
  }

  lemma AnswersSnoc(ts: seq<Tail>, i: nat)
    requires i < |ts|
    ensures Answers(ts[..i + 1]) == Answers(ts[..i]) + (ts[i] + NO_VALUE)
  {
    assert ts[..i + 1][..i] == ts[..i];
  }

  predicate NamedBits(ports: seq<Port>) {
    forall i :: 0 <= i < |ports| ==> ports[i].request < 256
  }

  /** `parse_inform_message`: the head, then every record head with its tails and values, and behind
      the last record the twenty bytes that follow it in memory. It stays inside its table of column
      names if and only if every request is below 256, and then it answers every port. */
  method ParseInformMessage(recv: array<uint8>)
    returns (send: array<uint8>, length: nat, columns: seq<seq<string>>, inside: bool)
    requires recv.Length >= BUFFER + MIDDLE
    requires var d := Decode(recv[HEADER..], Announced(ReadLe32(recv[HEADER - 4..HEADER])));
      d.Decoded? && |d.rest| >= recv.Length - BUFFER
    ensures var d := Decode(recv[HEADER..], Announced(ReadLe32(recv[HEADER - 4..HEADER])));
      && (inside <==> NamedBits(d.ports))
      && (inside ==> length <= send.Length && send[..length] == recv[4..HEADER] + Reply(d.ports) + d.rest[..MIDDLE])
      && (inside ==> |columns| == |d.ports|
                     && forall i :: 0 <= i < |columns| ==> columns[i] == ColumnsFor(d.ports[i].request))
    ensures send.Length == REPLY
  {
    hide Decode, Reply, Items, ReadTails, Answers, ReadLe32, Le32;
    send := new uint8[REPLY](_ => 0);
    ghost var mem := recv[..];
    var d := Read(recv, 4, HEADER - 4);
    var q := Append(send, 0, d);
    var word := Read(recv, HEADER - 4, 4);
    var count := Announced(ReadLe32(word));
    d := Read(recv, HEADER, MIDDLE);
    q := Append(send, q, d);
    assert mem[HEADER..] == recv[HEADER..];
    ghost var whole := Decode(mem[HEADER..], count);
    ReplyFits(mem[HEADER..], count);
    ghost var done: seq<Port> := [];
    var p, i := HEADER, 0;
    length, columns, inside := 0, [], true;
    while i < count
      invariant 0 <= i <= count && recv[..] == mem && 0 <= p && 0 <= q && inside
      invariant Answering(mem, p, send, q, done, whole, count - i)
      invariant NamedBits(done) && |columns| == |done|
      invariant forall k :: 0 <= k < |done| ==> columns[k] == ColumnsFor(done[k].request)
    {
      ghost var port := Front(mem[p..], count - i);
      FrontOfWhole(mem, p, send, q, done, whole, count - i);
      var names;
      p, q, names, inside, done := AnswerNext(recv, p, send, q, mem, done, whole, count - i);
      if !inside {
        assert port in whole.ports;
        return;
      }
      columns := columns + [names];
      i := i + 1;
    }
    DecodeNone(mem[p..]);
    assert whole.ports == done && whole.rest[..MIDDLE] == mem[p..p + MIDDLE];
    length := q;
  }

  /** What stands between two ports: `left` records are still to be read at `p`, and the reply up to `q`
      answers the ports before them and ends with the head of the next. */
  ghost predicate Answering(mem: Bytes, p: nat, send: array<uint8>, q: nat, done: seq<Port>, whole: Decoded, left: nat)
    reads send
  {
    && p + MIDDLE <= |mem| && q <= send.Length == REPLY && q == HEADER - 4 + |Reply(done)| + MIDDLE
    && var rest := Decode(mem[p..], left);
    && rest.Decoded? && whole.Decoded? && whole.ports == done + rest.ports && whole.rest == rest.rest
    && |whole.rest| >= MIDDLE && |Reply(whole.ports)| <= REPLY - HEADER - MIDDLE
    && HEADER <= |mem|
    && send[..q] == mem[4..HEADER] + Reply(done) + mem[p..p + MIDDLE]
  }

  /** Answers one port and copies the next record head behind it. */
  method AnswerNext(recv: array<uint8>, p: nat, send: array<uint8>, q: nat,
                    ghost mem: Bytes, ghost done: seq<Port>, ghost whole: Decoded, ghost left: nat)
    returns (p': nat, q': nat, columns: seq<string>, inside: bool, ghost done': seq<Port>)
    requires recv != send && recv[..] == mem && left > 0 && Answering(mem, p, send, q, done, whole, left)
    modifies send
    ensures recv[..] == mem && (inside <==> Front(mem[p..], left).request < 256)
    ensures inside ==> done' == done + [Front(mem[p..], left)] && columns == ColumnsFor(done'[|done|].request)
    ensures inside ==> Answering(mem, p', send, q', done', whole, left - 1)
  {
    hide Decode, Reply, Items, ReadTails, Answers, ReadLe32, Le32, Front;
    ghost var port := Front(mem[p..], left);
    FrontInMemory(mem, p, left);
    RoomFor(done, port, whole, mem[p..], left);
    ghost var base := mem[4..HEADER] + Reply(done);
    done' := done;
    p', q', columns, inside := AnswerPort(recv, p, send, q, mem, port);
    if !inside {
      return;
    }
    ReplyFits(mem[p'..], left - 1);
    assert send[..q'] == mem[4..HEADER] + Reply(done + [port]);
    q' := CopyHead(recv, p', send, q', mem);
    done' := done + [port];
  }

  lemma FrontOfWhole(mem: Bytes, p: nat, send: array<uint8>, q: nat, done: seq<Port>, whole: Decoded, left: nat)
    requires left > 0 && Answering(mem, p, send, q, done, whole, left)
    ensures p <= |mem| && Decode(mem[p..], left).Decoded? && whole.Decoded?
    ensures Front(mem[p..], left) in whole.ports
  {
    hide Front, Items, ReadTails;
    FrontInMemory(mem, p, left);
    assert whole.ports[|done|] == Front(mem[p..], left);
  }

  /** Copies the record head at `p`. */
  method CopyHead(recv: array<uint8>, p: nat, send: array<uint8>, q: nat, ghost mem: Bytes) returns (q': nat)
    requires recv != send && recv[..] == mem && p + MIDDLE <= |mem| && q + MIDDLE <= send.Length
    modifies send
    ensures recv[..] == mem && q' == q + MIDDLE && send[..q'] == old(send[..q]) + mem[p..p + MIDDLE]
  {
    var d := Read(recv, p, MIDDLE);
    assert d == mem[p..p + MIDDLE];
    q' := Append(send, q, d);
  }

  lemma RoomFor(done: seq<Port>, port: Port, whole: Decoded, b: Bytes, count: nat)
    requires whole.Decoded? && count > 0 && Decode(b, count).Decoded? && port == Front(b, count)
    requires whole.ports == done + Decode(b, count).ports
    ensures Reply(done + [port]) == Reply(done) + port.ip + Le32(port.request) + Answers(port.tails)
    ensures |Reply(done + [port])| <= |Reply(whole.ports)|
  {
    hide Reply, Answers;
    DecodeStep(b, count);
    ReplySnoc(done, port);
    ReplyPrefix(done + [port], Decode(b, count).ports[1..]);
    assert done + [port] + Decode(b, count).ports[1..] == whole.ports;
  }

  ghost function Front(b: Bytes, count: nat): Port
    requires count > 0 && Decode(b, count).Decoded?
  {
    DecodeStep(b, count);
    Port(b[..16], ReadLe32(b[16..20]), ReadTails(b[MIDDLE..], |Items(ReadLe32(b[16..20]), 0)|))
  }

  /** The front record as the pointer at `p` sees it. */
  lemma FrontInMemory(mem: Bytes, p: nat, count: nat)
    requires p <= |mem| && count > 0 && Decode(mem[p..], count).Decoded?
    ensures var port := Front(mem[p..], count);
      var k := |port.tails|;
      && p + MIDDLE + TAIL * k <= |mem| && Readable(port)
      && port.tails == ReadTails(mem[p + MIDDLE..], k)
      && mem[p..p + MIDDLE] == port.ip + Le32(port.request)
      && Decode(mem[p + MIDDLE + TAIL * k..], count - 1).Decoded?
      && Decode(mem[p..], count) == Decoded([port] + Decode(mem[p + MIDDLE + TAIL * k..], count - 1).ports,
                                            Decode(mem[p + MIDDLE + TAIL * k..], count - 1).rest)
  {
    hide Decode, Items, ReadTails, ReadLe32, Le32;
    var b := mem[p..];
    DecodeStep(b, count);
    Le32Back(b[16..20]);
    var k := |Items(ReadLe32(b[16..20]), 0)|;
    assert b[MIDDLE..] == mem[p + MIDDLE..] && b[MIDDLE + TAIL * k..] == mem[p + MIDDLE + TAIL * k..];
    assert mem[p..p + MIDDLE] == b[..16] + b[16..20];
  }

  lemma Le32Back(b: Bytes)
    requires |b| == 4
    ensures Le32(ReadLe32(b)) == b
  {
    var x := ReadLe32(b);
    var z := Byte(b, 2) + 256 * Byte(b, 3);
    var y := Byte(b, 1) + 256 * z;
    assert x % 256 == Byte(b, 0) && x / 256 == y;
    assert y % 256 == Byte(b, 1) && y / 256 == z;
    assert z % 256 == Byte(b, 2) && z / 256 == Byte(b, 3);
  }

  lemma DecodeNone(b: Bytes)
    ensures Decode(b, 0) == Decoded([], b)
  {
  }

  lemma BandwidthBit()
    ensures Items(256, 0) == [8]
  {
    assert Items(1, 8) == [8] + Items(0, 9);
    assert Items(2, 7) == [] + Items(1, 8) && Items(4, 6) == [] + Items(2, 7) && Items(8, 5) == [] + Items(4, 6);
    assert Items(16, 4) == [] + Items(8, 5) && Items(32, 3) == [] + Items(16, 4);
    assert Items(64, 2) == [] + Items(32, 3) && Items(128, 1) == [] + Items(64, 2);
    assert Items(256, 0) == [] + Items(128, 1);
  }

  /** The request for bandwidth utilisation, bit 8 of the item list: a complete record, which the decoder
      takes apart, but for which it has no column. */
  lemma BandwidthOutsideTable(ip: Ip, tail: Tail, after: Bytes)
    ensures var port := Port(ip, 256, [tail]);
      Readable(port) && Decode(Records([port]) + after, 1) == Decoded([port], after) && !NamedBits([port])
  {
    hide Decode, Records, Items;
    BandwidthBit();
    var port := Port(ip, 256, [tail]);
    assert AllReadable([port]);
    DecodeRecords([port], after);
    assert [port][0].request == 256;
  }

  // ---------- both sides together ----------

  /** The number of ports in the datagrams before number `i`. */
  function Before(g: seq<seq<Packed>>, i: nat): nat
    requires i <= |g|
  {
    |Concat(g[..i])|
  }

  lemma {:induction false} PartOf(g: seq<seq<Packed>>, i: nat)
    requires i < |g|
    ensures var at := Before(g, i); at + |g[i]| <= |Concat(g)| && Concat(g)[at..at + |g[i]|] == g[i]
  {
    if i == 0 {
    } else {
      PartOf(g[1..], i - 1);
      assert g[..i][1..] == g[1..][..i - 1];
      var at, o := Before(g, i), Before(g[1..], i - 1);
      assert Concat(g)[at..at + |g[i]|] == Concat(g[1..])[o..o + |g[i]|];
    }
  }

  lemma GroupedAt(ports: seq<Packed>, i: nat, k: nat)
    requires i < |Groups([], ports)| && k < |Groups([], ports)[i]|
    ensures var g := Groups([], ports); Before(g, i) + k < |ports| && g[i][k] == ports[Before(g, i) + k]
  {
    hide Groups, Concat, Before;
    var g := Groups([], ports);
    PartOf(g, i);
    GroupsKeepPorts([], ports);
    assert [] + ports == ports;
    assert Concat(g)[Before(g, i)..Before(g, i) + |g[i]|][k] == ports[Before(g, i) + k];
  }

  lemma AskMeetsWords(a: Ask)
    requires Answered(a) && !NamedTwice(Split(a.line))
    ensures PackedOf(a).port.ip == a.ip && PackedOf(a).port.request < 256
    ensures Meets(ColumnsFor(PackedOf(a).port.request), Split(a.line))
  {
    hide Meets, Split;
    ColumnsMeetWords(Split(a.line));
  }

  /** The k-th port of a datagram is the next one asked about in turn, and its columns are those of the
      words on its line. */
  lemma PortMeetsAsk(asks: seq<Ask>, i: nat, k: nat)
    requires forall k :: 0 <= k < |asks| ==> Answered(asks[k])
    requires forall k :: 0 <= k < |asks| ==> !NamedTwice(Split(asks[k].line)) && AllRecognised(asks[k])
    requires i < |Groups([], AllPacked(asks))| && k < |Groups([], AllPacked(asks))[i]|
    ensures var g := Groups([], AllPacked(asks)); var port, at := g[i][k].port, Before(g, i) + k;
      && at < |asks| && port.ip == asks[at].ip
      && port.request < 256 && Meets(ColumnsFor(port.request), Split(asks[at].line))
  {
    hide Groups, Before, Split, NamedTwice, Meets, PackedOf, RequestOf, ColumnsFor, AllRecognised, Sound;
    GroupedAt(AllPacked(asks), i, k);
    AskMeetsWords(asks[Before(Groups([], AllPacked(asks)), i) + k]);
  }

  lemma GroupMeetsAsks(asks: seq<Ask>, i: nat)
    requires forall k :: 0 <= k < |asks| ==> Answered(asks[k])
    requires forall k :: 0 <= k < |asks| ==> !NamedTwice(Split(asks[k].line)) && AllRecognised(asks[k])
    requires i < |Groups([], AllPacked(asks))|
    ensures var g := Groups([], AllPacked(asks)); var first := Before(g, i);
      && first + |g[i]| <= |asks|
      && forall k :: 0 <= k < |g[i]| ==>
           && Plain(g[i])[k].ip == asks[first + k].ip && Plain(g[i])[k].request < 256
           && Meets(ColumnsFor(Plain(g[i])[k].request), Split(asks[first + k].line))
  {
    hide Groups, Concat, Split, NamedTwice, Meets, PackedOf, ColumnsFor, Answered, AllRecognised;
    var g := Groups([], AllPacked(asks));
    PartOf(g, i);
    GroupsKeepPorts([], AllPacked(asks));
    assert |[] + AllPacked(asks)| == |asks|;
    forall k | 0 <= k < |g[i]|
      ensures Plain(g[i])[k].ip == asks[Before(g, i) + k].ip && Plain(g[i])[k].request < 256
      ensures Meets(ColumnsFor(Plain(g[i])[k].request), Split(asks[Before(g, i) + k].line))
    {
      PortMeetsAsk(asks, i, k);
    }
  }

  /** Each datagram sent for lines without repetition and known kinds can be taken apart by its receiver,
      whatever follows it in memory, and the reply names the switch and answers exactly the ports of that
      datagram, which are the next ones in turn. For each of them the receiver looks up exactly the columns
      of the words on its line. */
  lemma SentMeetsDecoder(host: Host, asks: seq<Ask>, sent: seq<Bytes>, i: nat, after: Bytes)
    requires |asks| < 0x8000_0000 && forall k :: 0 <= k < |asks| ==> Answered(asks[k])
    requires forall k :: 0 <= k < |asks| ==> !NamedTwice(Split(asks[k].line)) && AllRecognised(asks[k])
    requires AllSent(sent, host, Groups([], AllPacked(asks)))
    requires i < |sent| && |sent[i]| + |after| >= BUFFER + MIDDLE
    ensures var group, mem := Groups([], AllPacked(asks))[i], sent[i] + after;
      var d := Decode(mem[HEADER..], Announced(ReadLe32(mem[HEADER - 4..HEADER])));
      && |group| < TWO_32 && |sent[i]| <= BUFFER && NamedBits(Plain(group))
      && d.Decoded? && d.ports == Plain(group) && d.rest == after && |d.rest| >= |mem| - BUFFER
      && mem[4..HEADER] + Reply(d.ports) + d.rest[..MIDDLE]
         == host + Le32(|group|) + Reply(Plain(group)) + after[..MIDDLE]
    ensures var g := Groups([], AllPacked(asks)); var first := Before(g, i);
      && first + |g[i]| <= |asks|
      && forall k :: 0 <= k < |g[i]| ==>
           && Plain(g[i])[k].ip == asks[first + k].ip && Plain(g[i])[k].request < 256
           && Meets(ColumnsFor(Plain(g[i])[k].request), Split(asks[first + k].line))
  {
    hide Decode, Reply, SentAs, Plain, Claims, Split, NamedTwice, Recognised, AllPacked, Groups, AllReadable;
    hide NamedBits, Meets, Before, PackedOf, Answered, AllRecognised;
    hide ReadLe32, Le32;
    var g := Groups([], AllPacked(asks));
    var group, mem := g[i], sent[i] + after;
    GroupMeetsAsks(asks, i);
    AskedWhole(asks);
    GroupWhole(AllPacked(asks), i);
    DatagramRead(host, group, sent[i], after);
    assert mem[4..HEADER] + Reply(Plain(group)) + after[..MIDDLE]
           == host + Le32(|group|) + Reply(Plain(group)) + after[..MIDDLE];
  }

  /** A port that can be read back, out of a record that fills its room in a datagram. */
  predicate WholePort(p: Packed) {
    Readable(p.port) && |p.port.tails| == p.count && p.port.request < 256 && Fits(p)
  }

  predicate AllWhole(ports: seq<Packed>) {
    forall k :: 0 <= k < |ports| ==> WholePort(ports[k])
  }

  lemma AskedWhole(asks: seq<Ask>)
    requires forall k :: 0 <= k < |asks| ==> Answered(asks[k])
    requires forall k :: 0 <= k < |asks| ==> !NamedTwice(Split(asks[k].line)) && AllRecognised(asks[k])
    ensures AllWhole(AllPacked(asks))
  {
    hide Split, NamedTwice, PackedOf, Readable, Fits;
    var ports := AllPacked(asks);
    forall k | 0 <= k < |asks|
      ensures WholePort(ports[k])
    {
      ReadableIffNamedOnce(asks[k]);
      RequestBound(Split(asks[k].line));
      assert PackedOf(asks[k]).port.request < 256 by { PackedRequest(asks[k]); }
    }
  }

  lemma PackedRequest(a: Ask)
    requires Answered(a)
    ensures PackedOf(a).port.request == RequestOf(Split(a.line)).0
  {
  }

  /** The ports of a group can all be read back, and their records fill the room claimed for them. */
  lemma GroupWhole(ports: seq<Packed>, i: nat)
    requires AllWhole(ports) && i < |Groups([], ports)|
    ensures var group := Groups([], ports)[i];
      && |group| <= |ports| && AllReadable(Plain(group)) && NamedBits(Plain(group))
      && |Records(Plain(group))| == Claims(group) && HEADER + Claims(group) <= BUFFER
  {
    hide Records, Claims, Groups, Readable, Fits, Concat, Before;
    var g := Groups([], ports);
    GroupsKeepPorts([], ports);
    assert [] + ports == ports;
    assert Claims([]) == 0 && forall k :: 0 <= k < |ports| ==> WholePort(ports[k]);
    GroupsFull([], ports);
    PartOf(g, i);
    var at := Before(g, i);
    assert forall k :: 0 <= k < |g[i]| ==> g[i][k] == ports[at + k];
    assert forall k :: 0 <= k < |g[i]| ==> WholePort(g[i][k]);
    RecordsClaimed(g[i]);
  }

  lemma DatagramRead(host: Host, group: seq<Packed>, b: Bytes, after: Bytes)
    requires |group| < 0x8000_0000 && AllReadable(Plain(group)) && SentAs(b, host, group)
    requires |Records(Plain(group))| == Claims(group) && HEADER + Claims(group) <= BUFFER
    ensures var mem := b + after;
      var d := Decode(mem[HEADER..], Announced(ReadLe32(mem[HEADER - 4..HEADER])));
      && d == Decoded(Plain(group), after) && |b| <= BUFFER
      && mem[4..HEADER] == host + Le32(|group|)
  {
    hide Decode, Records, Claims, ReadLe32, Le32, Readable;
    var mem, m := b + after, Message(host, |group|, Plain(group));
    assert b == m && mem[|m|..] == after;
    MessageRead(host, Plain(group), mem);
    assert m[4..HEADER] == host + Le32(|group|) && mem[4..HEADER] == m[4..HEADER];
  }
}
