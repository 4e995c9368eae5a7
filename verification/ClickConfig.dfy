/** The configuration generator as it runs: passes over the rule objects that record port numbers on them
    and push lines and connections (border_router/conf/click-mkclgw.pl). */
module ClickConfig {
  import opened ClickSpec
  import opened Words

  /** The outputs of a rule's own classifier. */
  datatype TcpMap = TcpMap(accepting: Option<nat>, ftp: nat, tcpOrUdp: nat, def: nat)

  class RuleObject {
    const rule: Rule
    var extPort: Option<nat>
    var rwOut: Option<nat>
    var rwIn: Option<nat>
    var srcPort: Option<nat>
    var tcp: TcpMap

    constructor (rule: Rule)
      ensures this.rule == rule && extPort == rwOut == rwIn == srcPort == None
    {
      this.rule, extPort, rwOut, rwIn, srcPort := rule, None, None, None, None;
      tcp := TcpMap(None, 0, 0, 0);
    }
  }

  function Rules(objs: seq<RuleObject>): (r: seq<Rule>)
    ensures |r| == |objs| && forall i :: 0 <= i < |objs| ==> r[i] == objs[i].rule
  {
    seq(|objs|, i requires 0 <= i < |objs| => objs[i].rule)
  }

  ghost predicate Distinct(objs: seq<RuleObject>) {
    forall i, j :: 0 <= i < j < |objs| ==> objs[i] != objs[j]
  }

  /** `ip_from_extern_classify`: the address lines, each rule recording its own. */
  method IpFromExternClassify(objs: seq<RuleObject>) returns (lines: seq<string>, conns: seq<Conn>)
    requires Distinct(objs)
    modifies objs`extPort
    ensures lines == IpFromExtern(Rules(objs))
    ensures conns == [Conn("ip_from_extern", |Flat(ExtLines, Rules(objs))|, "Discard", None)]
    ensures forall i :: 0 <= i < |objs| && ExtLines(objs[i].rule) != [] ==>
      objs[i].extPort == Some(PortOf(ExtLines, Rules(objs), i))
  {
    hide Flat;
    ghost var rules := Rules(objs);
    lines := [];
    var port := 0;
    var i := 0;
    while i < |objs|
      invariant 0 <= i <= |objs| && lines == Flat(ExtLines, rules[..i]) && port == |lines|
      invariant forall k :: 0 <= k < i && ExtLines(objs[k].rule) != [] ==>
        objs[k].extPort == Some(PortOf(ExtLines, rules, k))
    {
      FlatStep(ExtLines, rules, i + 1);
      var r := objs[i];
      if IsExternal(r.rule) || IsNat(r.rule) {
        r.extPort := Some(port);
        lines := lines + ExtLines(r.rule);
        port := port + 1;
      }
      i := i + 1;
    }
    assert rules[..i] == rules;
    lines := lines + ["-"];
    conns := [Conn("ip_from_extern", port, "Discard", None)];
  }

  /** The outputs of a rule's classifier, found by the lines that stand there. */
  ghost predicate MapsLines(t: TcpMap, r: Rule) {
    var lines := TcpLines(r);
    && (if Accepting(r) && r.ports != "*" then t.accepting == Some(0) && lines[0] == "dst tcp " + r.ports
        else t.accepting == None)
    && t.ftp < |lines| && lines[t.ftp] == "src tcp port ftp"
    && t.tcpOrUdp < |lines| && lines[t.tcpOrUdp] == "tcp or udp"
    && t.def == |lines| - 1 && lines[t.def] == "-"
  }

  lemma MapIs(t: TcpMap, r: Rule)
    requires TcpLines(r) != [] && MapsLines(t, r)
    ensures t.ftp == |TcpLines(r)| - 3 && t.tcpOrUdp == |TcpLines(r)| - 2 && t.def == |TcpLines(r)| - 1
  {
    var a, b, c, d := "src tcp port ftp", "tcp or udp", "-", "dst tcp " + r.ports;
    assert |a| == 16 && |b| == 10 && |c| == 1;
    assert a[0] == 's' && b[0] == 't' && d[0] == "dst tcp "[0] == 'd';
  }

  /** `tcp_from_extern_classify`: a classifier for every rule with an outside address. */
  method TcpFromExternClassify(objs: seq<RuleObject>) returns (elements: seq<(string, seq<string>)>, conns: seq<Conn>)
    requires Distinct(objs)
    requires forall i :: 0 <= i < |objs| && ExtLines(objs[i].rule) != [] ==>
      objs[i].extPort == Some(PortOf(ExtLines, Rules(objs), i))
    modifies objs`tcp
    ensures conns == Pass(ExtConns, Rules(objs), |objs|)
    ensures elements == Flat(r => if TcpLines(r) == [] then [] else [(Classifier(r), TcpLines(r))], Rules(objs))
    ensures forall i :: 0 <= i < |objs| && TcpLines(objs[i].rule) != [] ==> MapsLines(objs[i].tcp, objs[i].rule)
  {
    hide Flat, Pass, PortOf, Classifier;
    ghost var rules := Rules(objs);
    ghost var f := r => if TcpLines(r) == [] then [] else [(Classifier(r), TcpLines(r))];
    elements, conns := [], [];
    var i := 0;
    while i < |objs|
      invariant 0 <= i <= |objs|
      invariant conns == Pass(ExtConns, rules, i) && elements == Flat(f, rules[..i])
      invariant forall k :: 0 <= k < i && TcpLines(objs[k].rule) != [] ==> MapsLines(objs[k].tcp, objs[k].rule)
    {
      FlatStep(f, rules, i + 1);
      PassStep(ExtConns, rules, i + 1);
      var o := objs[i];
      if IsExternal(o.rule) || IsNat(o.rule) {
        var inputs := ["src tcp port ftp", "tcp or udp", "-"];
        var prt, accepting := 0, None;
        if Accepting(o.rule) && o.rule.ports != "*" {
          inputs := ["dst tcp " + o.rule.ports] + inputs;
          accepting := Some(prt);
          prt := prt + 1;
        }
        o.tcp := TcpMap(accepting, prt, prt + 1, prt + 2);
        elements := elements + [(Classifier(o.rule), inputs)];
        conns := conns + [Conn("ip_from_extern", o.extPort.value, Classifier(o.rule), None)];
      }
      i := i + 1;
    }
    assert rules[..i] == rules;
  }

  lemma PassStep(f: (seq<Rule>, nat) --> seq<Conn>, rules: seq<Rule>, n: nat)
    requires 0 < n <= |rules| && forall i :: 0 <= i < n ==> f.requires(rules, i)
    ensures Pass(f, rules, n) == Pass(f, rules, n - 1) + f(rules, n - 1)
  {
  }

  datatype PatPorts = PatPorts(intToGw: nat, extToGw: nat, drop: nat)

  /** `ip_rewriter`: the rewriter's input lines, each rule recording where its own stand. */
  method IpRewriter(objs: seq<RuleObject>) returns (lines: seq<Input>, ports: PatPorts)
    requires Distinct(objs) && forall i :: 0 <= i < |objs| ==> objs[i].rwOut == objs[i].rwIn == None
    modifies objs`rwOut, objs`rwIn
    ensures lines == Rw(Rules(objs))
    ensures forall i :: 0 <= i < |objs| ==>
      objs[i].rwOut == RwOut(Rules(objs), i) && objs[i].rwIn == RwIn(Rules(objs), i)
    ensures ports.extToGw == ExtToGw(Rules(objs)) && ports.drop == DropPort(Rules(objs))
    ensures ports.intToGw < |lines| && lines[ports.intToGw] == NoChange(0)
    ensures lines[ports.extToGw] == NoChange(2) && lines[ports.drop] == Drop
  {
    hide Flat, InPat, OutPat, MappedLabel;
    ghost var rules := Rules(objs);
    lines := [];
    var port := 0;
    var i := 0;
    while i < |objs|
      invariant 0 <= i <= |objs| && lines == Flat(RwLines, rules[..i]) && port == |lines|
      invariant forall k :: 0 <= k < i ==> objs[k].rwOut == RwOut(rules, k) && objs[k].rwIn == RwIn(rules, k)
      invariant forall k :: i <= k < |objs| ==> objs[k].rwOut == objs[k].rwIn == None
    {
      FlatStep(RwLines, rules, i + 1);
      var o := objs[i];
      match o.rule.kind {
        case IFace =>
          if IsExternal(o.rule) {
            o.rwOut := Some(port);
            lines, port := lines + [Pattern(OutPat(o.rule), 0, 1)], port + 1;
          }
        case Nat =>
          o.rwOut := Some(port);
          o.rwIn := Some(port + 1);
          lines, port := lines + [Pattern(OutPat(o.rule), 0, 1), Pattern(InPat(o.rule), 1, 0)], port + 2;
        case Napt =>
          o.rwOut := Some(port);
          lines, port := lines + [Pattern(OutPat(o.rule), 0, 1)], port + 1;
        case LbNapt =>
          o.rwOut := Some(port);
          o.rwIn := Some(port + 1);
          lines, port := lines + [Pattern(OutPat(o.rule), 0, 1), Mapper(MappedLabel(o.rule) + "_lb_mapper")], port + 2;
        case IpLabel =>
          o.rwIn := Some(port);
          lines, port := lines + [Pattern("dns_pat", 1, 1)], port + 1;
        case Param =>
      }
      i := i + 1;
    }
    assert rules[..i] == rules;
    ports := PatPorts(port, port + 1, port + 2);
    lines := lines + [NoChange(0), NoChange(2), Drop];
  }

  /** `rewriter_plumbing`: connects every rule's classifier. */
  method RewriterPlumbing(objs: seq<RuleObject>, ports: PatPorts) returns (conns: seq<Conn>)
    requires forall i :: 0 <= i < |objs| ==> objs[i].rwIn == RwIn(Rules(objs), i)
    requires forall i :: 0 <= i < |objs| && TcpLines(objs[i].rule) != [] ==> MapsLines(objs[i].tcp, objs[i].rule)
    requires ports.extToGw == ExtToGw(Rules(objs)) && ports.drop == DropPort(Rules(objs))
    ensures conns == Pass(TcpConns, Rules(objs), |objs|)
  {
    hide Flat, Pass, Classifier, RwIn, ExtToGw, DropPort;
    ghost var rules := Rules(objs);
    conns := [];
    var i := 0;
    while i < |objs|
      invariant 0 <= i <= |objs| && conns == Pass(TcpConns, rules, i)
    {
      PassStep(TcpConns, rules, i + 1);
      var c := PlumbRule(objs[i], ports, rules, i);
      conns := conns + c;
      i := i + 1;
    }
  }

  method PlumbRule(o: RuleObject, ports: PatPorts, ghost rules: seq<Rule>, ghost i: nat) returns (conns: seq<Conn>)
    requires i < |rules| && o.rule == rules[i] && o.rwIn == RwIn(rules, i)
    requires TcpLines(o.rule) != [] ==> MapsLines(o.tcp, o.rule)
    requires ports.extToGw == ExtToGw(rules) && ports.drop == DropPort(rules)
    ensures conns == TcpConns(rules, i)
  {
    hide ExtToGw, DropPort, PortOf, Classifier;
    conns := [];
    if TcpLines(o.rule) != [] {
      MapIs(o.tcp, o.rule);
    }
    var cl := Classifier(o.rule);
    if IsExternal(o.rule) {
      conns := [Conn(cl, o.tcp.ftp, "tcp_rw", Some(1)), Conn(cl, o.tcp.tcpOrUdp, "rw", Some(ports.extToGw)),
                Conn(cl, 2, "Discard", None)];
    } else if IsNat(o.rule) {
      if o.tcp.accepting.Some? && o.rwIn.Some? {
        conns := [Conn(cl, o.tcp.accepting.value, "rw", o.rwIn)];
      }
      conns := conns + [Conn(cl, o.tcp.ftp, "tcp_rw", Some(1))];
      if o.rwIn.Some? && o.rule.ports == "*" && Accepting(o.rule) {
        conns := conns + [Conn(cl, o.tcp.tcpOrUdp, "rw", o.rwIn)];
      } else {
        conns := conns + [Conn(cl, o.tcp.tcpOrUdp, "rw", Some(ports.drop))];
      }
      conns := conns + [Conn(cl, o.tcp.def, "Discard", None)];
    }
  }

  /** `from_int_src_classify`: the lines for inside sources; INTERNAL is given the number of the last. */
  method FromIntSrcClassify(objs: seq<RuleObject>, internal: RuleObject) returns (lines: seq<string>)
    requires Distinct(objs) && internal in objs && ValidRules(Rules(objs)) && internal.rule.name == "INTERNAL"
    requires forall i :: 0 <= i < |objs| ==> objs[i].srcPort == None
    modifies objs`srcPort
    ensures lines == IpFromInternSrc(Rules(objs))
    ensures forall i :: 0 <= i < |objs| ==> objs[i].srcPort == SrcPort(Rules(objs), i)
  {
    hide Flat;
    ghost var rules := Rules(objs);
    lines := [];
    var port := 0;
    var i := 0;
    while i < |objs|
      invariant 0 <= i <= |objs| && lines == Flat(SrcLines, rules[..i]) && port == |lines|
      invariant forall k :: 0 <= k < i ==>
        objs[k].srcPort == if IsNat(rules[k]) then Some(PortOf(SrcLines, rules, k)) else None
      invariant forall k :: i <= k < |objs| ==> objs[k].srcPort == None
    {
      FlatStep(SrcLines, rules, i + 1);
      var o := objs[i];
      if IsNat(o.rule) {
        o.srcPort := Some(port);
        lines, port := lines + SrcLines(o.rule), port + 1;
      }
      i := i + 1;
    }
    assert rules[..i] == rules;
    ghost var a :| 0 <= a < |objs| && objs[a] == internal;
    forall k | 0 <= k < |objs| && rules[k].name == "INTERNAL"
      ensures k == a
    {
      assert rules[k].name == rules[a].name;
    }
    internal.srcPort := Some(port);
    lines := lines + ["-"];
  }

  /** `from_int_plumbing`: inside sources go to their own rewriter lines, all else to EXTERNAL's. */
  method FromIntPlumbing(objs: seq<RuleObject>, internal: RuleObject, external: RuleObject) returns (conns: seq<Conn>)
    requires ValidRules(Rules(objs))
    requires internal in objs && internal.rule.name == "INTERNAL"
    requires external in objs && external.rule.name == "EXTERNAL"
    requires forall i :: 0 <= i < |objs| ==>
      objs[i].srcPort == SrcPort(Rules(objs), i) && objs[i].rwOut == RwOut(Rules(objs), i)
    ensures conns == Pass(SrcConns, Rules(objs), |objs|)
      + [Conn("ip_from_intern_src", |Flat(SrcLines, Rules(objs))|, "rw",
              RwOut(Rules(objs), Find(Rules(objs), "EXTERNAL")))]
  {
    hide Flat, Pass, PortOf;
    ghost var rules := Rules(objs);
    conns := [];
    var i := 0;
    while i < |objs|
      invariant 0 <= i <= |objs| && conns == Pass(SrcConns, rules, i)
    {
      PassStep(SrcConns, rules, i + 1);
      var o := objs[i];
      if IsNat(o.rule) && o.srcPort.Some? && o.rwOut.Some? {
        conns := conns + [Conn("ip_from_intern_src", o.srcPort.value, "rw", o.rwOut)];
      }
      i := i + 1;
    }
    ghost var a :| 0 <= a < |objs| && objs[a] == internal;
    ghost var b :| 0 <= b < |objs| && objs[b] == external;
    assert rules[b].name == rules[Find(rules, "EXTERNAL")].name;
    assert internal.srcPort == SrcPort(rules, a);
    conns := conns + [Conn("ip_from_intern_src", internal.srcPort.value, "rw", external.rwOut)];
  }

  /** The passes in the order of the script. */
  method Generate(objs: seq<RuleObject>, internal: RuleObject, external: RuleObject)
    returns (ext: seq<string>, classifiers: seq<(string, seq<string>)>, rw: seq<Input>, src: seq<string>,
             conns: seq<Conn>)
    requires Distinct(objs) && ValidRules(Rules(objs))
    requires internal in objs && internal.rule.name == "INTERNAL"
    requires external in objs && external.rule.name == "EXTERNAL"
    requires forall i :: 0 <= i < |objs| ==> objs[i].rwOut == objs[i].rwIn == objs[i].srcPort == None
    modifies objs
    ensures ext == IpFromExtern(Rules(objs)) && rw == Rw(Rules(objs)) && src == IpFromInternSrc(Rules(objs))
    ensures classifiers == Flat(r => if TcpLines(r) == [] then [] else [(Classifier(r), TcpLines(r))], Rules(objs))
    ensures conns == AllConns(Rules(objs))
  {
    hide Flat, Pass, PortOf, ValidRules, RwOut, RwIn, SrcPort, IsNat, IsExternal, MapsLines;
    var more;
    ext, conns := IpFromExternClassify(objs);
    classifiers, more := TcpFromExternClassify(objs);
    conns := conns + more;
    var ports;
    rw, ports := IpRewriter(objs);
    more := RewriterPlumbing(objs, ports);
    conns := conns + more;
    src := FromIntSrcClassify(objs, internal);
    more := FromIntPlumbing(objs, internal, external);
    conns := conns + more;
  }
}
