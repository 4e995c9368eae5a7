/** The wiring of a generated border-router configuration: which ports the rules get, which lines stand
    behind those ports, and how the elements are connected (border_router/conf/click-mkclgw.pl). */
module ClickSpec {
  import opened Words

  datatype Kind = IFace | Nat | Napt | LbNapt | IpLabel | Param

  /** One parsed rule; `ports` is its port list as Click writes it, "*" for all ports. */
  datatype Rule = Rule(kind: Kind, name: string, ports: string)

  /** Element `from`, output `out`, goes to an input of `to`; input none is written without a number. */
  datatype Conn = Conn(from: string, out: nat, to: string, input: Option<nat>)

  datatype Input = Pattern(name: string, forward: nat, reply: nat) | Mapper(name: string) | NoChange(output: nat) | Drop

  predicate IsNat(r: Rule) {
    r.kind.Nat? || r.kind.Napt? || r.kind.LbNapt?
  }

  predicate IsExternal(r: Rule) {
    r.kind.IFace? && r.name == "EXTERNAL"
  }

  predicate Accepting(r: Rule) {
    r.kind.Nat? || r.kind.LbNapt?
  }

  /** What the script insists on: labels are unique, "gw" is not taken, and both sides and the next hop
      are named. */
  predicate ValidRules(rules: seq<Rule>) {
    && (forall i, j :: 0 <= i < j < |rules| ==> rules[i].name != rules[j].name)
    && (forall i :: 0 <= i < |rules| ==> rules[i].name != "gw")
    && (exists i :: 0 <= i < |rules| && rules[i].name == "INTERNAL")
    && (exists i :: 0 <= i < |rules| && rules[i].name == "EXTERNAL")
    && (exists i :: 0 <= i < |rules| && rules[i].name == "NEXTHOP")
  }

  function Find(rules: seq<Rule>, name: string): (i: nat)
    requires exists i :: 0 <= i < |rules| && rules[i].name == name
    ensures i < |rules| && rules[i].name == name
  {
    if rules[|rules| - 1].name == name then |rules| - 1
    else
      assert forall i :: 0 <= i < |rules| - 1 ==> rules[..|rules| - 1][i] == rules[i];
      Find(rules[..|rules| - 1], name)
  }

  // ---------- names ----------

  function GwLabel(r: Rule): string {
    if r.kind.IFace? then "gw" else r.name
  }

  function InPat(r: Rule): string {
    GwLabel(r) + "_in"
  }

  function OutPat(r: Rule): string {
    GwLabel(r) + "_out"
  }

  function Classifier(r: Rule): string {
    GwLabel(r) + "_ip_from_extern"
  }

  function MappedLabel(r: Rule): string {
    if r.name == "EXTERNAL" then "extern" else if r.name == "INTERNAL" then "intern"
    else if r.name == "NEXTHOP" then "extern_next_hop" else if r.name == "INTDNS" then "dns_int" else r.name
  }

  // ---------- the lines of each element, rule by rule ----------

  function ExtLines(r: Rule): seq<string> {
    if IsExternal(r) then ["dst host " + MappedLabel(r)] else if IsNat(r) then ["dst host " + r.name + "_ext"] else []
  }

  function RwLines(r: Rule): seq<Input> {
    match r.kind
    case IFace => if IsExternal(r) then [Pattern(OutPat(r), 0, 1)] else []
    case Nat => [Pattern(OutPat(r), 0, 1), Pattern(InPat(r), 1, 0)]
    case Napt => [Pattern(OutPat(r), 0, 1)]
    case LbNapt => [Pattern(OutPat(r), 0, 1), Mapper(MappedLabel(r) + "_lb_mapper")]
    case IpLabel => [Pattern("dns_pat", 1, 1)]
    case Param => []
  }

  function SrcLines(r: Rule): seq<string> {
    match r.kind
    case Nat => ["src host " + r.name + "_int:ip"]
    case Napt => ["src net " + r.name + "_net:ipnet"]
    case LbNapt => ["src net " + r.name + "_net:ipnet"]
    case _ => []
  }

  /** Names defined by `IPRewriterPatterns`. */
  function PatLines(r: Rule): seq<string> {
    match r.kind
    case IFace => if IsExternal(r) then [OutPat(r)] else []
    case Nat => [InPat(r), OutPat(r)]
    case Napt => [OutPat(r)]
    case LbNapt => [OutPat(r)]
    case IpLabel => if r.name == "INTDNS" then ["dns_pat"] else []
    case Param => []
  }

  function TcpLines(r: Rule): seq<string> {
    var rest := ["src tcp port ftp", "tcp or udp", "-"];
    if IsNat(r) && r.ports != "*" && Accepting(r) then ["dst tcp " + r.ports] + rest
    else if IsNat(r) || IsExternal(r) then rest
    else []
  }

  /** All rules' lines one after the other. */
  function Flat<T>(f: Rule -> seq<T>, rules: seq<Rule>): (s: seq<T>)
    ensures rules == [] ==> s == []
  {
    if rules == [] then [] else Flat(f, rules[..|rules| - 1]) + f(rules[|rules| - 1])
  }

  /** The number of the first line of rule `i`. */
  function PortOf<T>(f: Rule -> seq<T>, rules: seq<Rule>, i: nat): nat
    requires i < |rules|
  {
    |Flat(f, rules[..i])|
  }

  /** The port counter that runs along with the lines is the index of the rule's own lines. */
  lemma {:induction false} LinesAt<T>(f: Rule -> seq<T>, rules: seq<Rule>, i: nat)
    requires i < |rules|
    ensures var p := PortOf(f, rules, i);
      p + |f(rules[i])| <= |Flat(f, rules)| && Flat(f, rules)[p..p + |f(rules[i])|] == f(rules[i])
  {
    var init := rules[..|rules| - 1];
    if i < |rules| - 1 {
      LinesAt(f, init, i);
      assert init[..i] == rules[..i];
    }
  }

  // ---------- the connections, rule by rule ----------

  /** Ports recorded on a rule for the rewriter, if it has lines there. */
  function RwOut(rules: seq<Rule>, i: nat): Option<nat>
    requires i < |rules|
  {
    if IsNat(rules[i]) || IsExternal(rules[i]) then Some(PortOf(RwLines, rules, i)) else None
  }

  function RwIn(rules: seq<Rule>, i: nat): Option<nat>
    requires i < |rules|
  {
    if Accepting(rules[i]) then Some(PortOf(RwLines, rules, i) + 1)
    else if rules[i].kind.IpLabel? then Some(PortOf(RwLines, rules, i))
    else None
  }

  function ExtToGw(rules: seq<Rule>): nat {
    |Flat(RwLines, rules)| + 1
  }

  function DropPort(rules: seq<Rule>): nat {
    |Flat(RwLines, rules)| + 2
  }

  function ExtConns(rules: seq<Rule>, i: nat): seq<Conn>
    requires i < |rules|
  {
    if IsNat(rules[i]) || IsExternal(rules[i])
    then [Conn("ip_from_extern", PortOf(ExtLines, rules, i), Classifier(rules[i]), None)] else []
  }

  /** `rewriter_plumbing`. */
  function TcpConns(rules: seq<Rule>, i: nat): seq<Conn>
    requires i < |rules|
  {
    var r := rules[i];
    var cl := Classifier(r);
    if IsExternal(r) then
      [Conn(cl, 0, "tcp_rw", Some(1)), Conn(cl, 1, "rw", Some(ExtToGw(rules))), Conn(cl, 2, "Discard", None)]
    else if !IsNat(r) then []
    else if !Accepting(r) then
      [Conn(cl, 0, "tcp_rw", Some(1)), Conn(cl, 1, "rw", Some(DropPort(rules))), Conn(cl, 2, "Discard", None)]
    else if r.ports == "*" then
      [Conn(cl, 0, "tcp_rw", Some(1)), Conn(cl, 1, "rw", RwIn(rules, i)), Conn(cl, 2, "Discard", None)]
    else
      [Conn(cl, 0, "rw", RwIn(rules, i)), Conn(cl, 1, "tcp_rw", Some(1)), Conn(cl, 2, "rw", Some(DropPort(rules))),
       Conn(cl, 3, "Discard", None)]
  }

  /** The source port recorded on a rule: INTERNAL gets the number of the last line, whatever it had. */
  function SrcPort(rules: seq<Rule>, i: nat): Option<nat>
    requires i < |rules|
  {
    if rules[i].name == "INTERNAL" then Some(|Flat(SrcLines, rules)|)
    else if IsNat(rules[i]) then Some(PortOf(SrcLines, rules, i))
    else None
  }

  function SrcConns(rules: seq<Rule>, i: nat): seq<Conn>
    requires i < |rules|
  {
    if IsNat(rules[i]) then [Conn("ip_from_intern_src", SrcPort(rules, i).value, "rw", RwOut(rules, i))] else []
  }

  /** The connections of rules `0 .. n`, one function per pass. */
  function Pass(f: (seq<Rule>, nat) --> seq<Conn>, rules: seq<Rule>, n: nat): (c: seq<Conn>)
    requires n <= |rules| && forall i :: 0 <= i < n ==> f.requires(rules, i)
    ensures n == 0 ==> c == []
  {
    if n == 0 then [] else Pass(f, rules, n - 1) + f(rules, n - 1)
  }

  function AllConns(rules: seq<Rule>): seq<Conn>
    requires ValidRules(rules)
  {
    [Conn("ip_from_extern", |Flat(ExtLines, rules)|, "Discard", None)]
    + Pass(ExtConns, rules, |rules|)
    + Pass(TcpConns, rules, |rules|)
    + Pass(SrcConns, rules, |rules|)
    + [Conn("ip_from_intern_src", |Flat(SrcLines, rules)|, "rw", RwOut(rules, Find(rules, "EXTERNAL")))]
  }

  // ---------- the elements ----------

  function IpFromExtern(rules: seq<Rule>): seq<string> {
    Flat(ExtLines, rules) + ["-"]
  }

  function Rw(rules: seq<Rule>): seq<Input> {
    Flat(RwLines, rules) + [NoChange(0), NoChange(2), Drop]
  }

  function IpFromInternSrc(rules: seq<Rule>): seq<string> {
    Flat(SrcLines, rules) + ["-"]
  }

  /** The outputs of element `e` that are connected, in the order of their connections. */
  function Outs(conns: seq<Conn>, e: string): (outs: seq<nat>)
    ensures conns == [] ==> outs == []
  {
    if conns == [] then []
    else Outs(conns[..|conns| - 1], e) + if conns[|conns| - 1].from == e then [conns[|conns| - 1].out] else []
  }

  function UpTo(n: nat): seq<nat> {
    seq(n, i requires 0 <= i => i)
  }

  lemma {:induction false} OutsConcat(a: seq<Conn>, b: seq<Conn>, e: string)
    ensures Outs(a + b, e) == Outs(a, e) + Outs(b, e)
  {
    if b == [] {
      assert a + b == a;
    } else {
      assert (a + b)[..|a + b| - 1] == a + b[..|b| - 1];
      OutsConcat(a, b[..|b| - 1], e);
    }
  }

  lemma {:induction false} OutsNone(conns: seq<Conn>, e: string)
    requires forall i :: 0 <= i < |conns| ==> conns[i].from != e
    ensures Outs(conns, e) == []
  {
    if conns != [] {
      OutsNone(conns[..|conns| - 1], e);
    }
  }

  lemma OutsPass(f: (seq<Rule>, nat) --> seq<Conn>, rules: seq<Rule>, n: nat, e: string)
    requires 0 < n <= |rules| && forall i :: 0 <= i < n ==> f.requires(rules, i)
    ensures Outs(Pass(f, rules, n), e) == Outs(Pass(f, rules, n - 1), e) + Outs(f(rules, n - 1), e)
  {
    OutsConcat(Pass(f, rules, n - 1), f(rules, n - 1), e);
  }

  lemma {:induction false} PassNone(f: (seq<Rule>, nat) --> seq<Conn>, rules: seq<Rule>, n: nat, e: string)
    requires n <= |rules| && forall i :: 0 <= i < n ==> f.requires(rules, i)
    requires forall i :: 0 <= i < n ==> Outs(f(rules, i), e) == []
    ensures Outs(Pass(f, rules, n), e) == []
  {
    if n > 0 {
      OutsPass(f, rules, n, e);
      PassNone(f, rules, n - 1, e);
    }
  }

  lemma OutsAll(rules: seq<Rule>, e: string)
    requires ValidRules(rules)
    ensures Outs(AllConns(rules), e) ==
      (if e == "ip_from_extern" then [|Flat(ExtLines, rules)|] else [])
      + Outs(Pass(ExtConns, rules, |rules|), e) + Outs(Pass(TcpConns, rules, |rules|), e)
      + Outs(Pass(SrcConns, rules, |rules|), e)
      + (if e == "ip_from_intern_src" then [|Flat(SrcLines, rules)|] else [])
  {
    hide Pass, Flat;
    var a := [Conn("ip_from_extern", |Flat(ExtLines, rules)|, "Discard", None)];
    var b, c, d := Pass(ExtConns, rules, |rules|), Pass(TcpConns, rules, |rules|), Pass(SrcConns, rules, |rules|);
    var z := [Conn("ip_from_intern_src", |Flat(SrcLines, rules)|, "rw", RwOut(rules, Find(rules, "EXTERNAL")))];
    OutsConcat(a + b + c + d, z, e);
    OutsConcat(a + b + c, d, e);
    OutsConcat(a + b, c, e);
    OutsConcat(a, b, e);
    OneConn(a[0], e);
    OneConn(z[0], e);
  }

  lemma OneConn(c: Conn, e: string)
    ensures Outs([c], e) == if c.from == e then [c.out] else []
  {
    assert [c][..0] == [];
  }

  lemma ClassifierNames(r: Rule, q: Rule)
    ensures Classifier(r) != "ip_from_extern" && Classifier(r) != "ip_from_intern_src"
    ensures Classifier(r) == Classifier(q) ==> GwLabel(r) == GwLabel(q)
  {
    var suffix, last := "_ip_from_extern", "ip_from_intern_src";
    assert |Classifier(r)| == |GwLabel(r)| + 15;
    assert Classifier(r)[|Classifier(r)| - 1] == suffix[14] == 'n' && last[17] == 'c';
    if Classifier(r) == Classifier(q) {
      assert GwLabel(r) == Classifier(r)[..|GwLabel(r)|] && GwLabel(q) == Classifier(q)[..|GwLabel(q)|];
    }
  }

  /** Two rules with a classifier of their own share no element name. */
  lemma OwnClassifier(rules: seq<Rule>, i: nat, k: nat)
    requires ValidRules(rules) && i < |rules| && k < |rules| && TcpLines(rules[i]) != [] && TcpLines(rules[k]) != []
    requires Classifier(rules[i]) == Classifier(rules[k])
    ensures i == k
  {
    ClassifierNames(rules[i], rules[k]);
    assert GwLabel(rules[i]) == GwLabel(rules[k]);
  }

  /** Connections of one element in the order of its outputs. */
  lemma {:induction false} OutsRow(c: seq<Conn>, e: string)
    requires forall i :: 0 <= i < |c| ==> c[i].from == e && c[i].out == i
    ensures Outs(c, e) == UpTo(|c|)
  {
    if c != [] {
      OutsRow(c[..|c| - 1], e);
    }
  }

  lemma TcpOuts(rules: seq<Rule>, i: nat)
    requires i < |rules|
    ensures Outs(TcpConns(rules, i), Classifier(rules[i])) == UpTo(|TcpLines(rules[i])|)
    ensures forall e :: e != Classifier(rules[i]) ==> Outs(TcpConns(rules, i), e) == []
    ensures TcpLines(rules[i]) == [] ==> TcpConns(rules, i) == []
  {
    hide PortOf, Flat, Classifier;
    var c, cl := TcpConns(rules, i), Classifier(rules[i]);
    OutsRow(c, cl);
    forall e | e != cl
      ensures Outs(c, e) == []
    {
      OutsNone(c, e);
    }
  }

  lemma {:induction false} ClassifierOuts(rules: seq<Rule>, i: nat, n: nat)
    requires ValidRules(rules) && i < |rules| && n <= |rules| && TcpLines(rules[i]) != []
    ensures Outs(Pass(TcpConns, rules, n), Classifier(rules[i])) == if i < n then UpTo(|TcpLines(rules[i])|) else []
  {
    hide TcpLines, TcpConns, Classifier, ValidRules, Outs, Pass, UpTo;
    if n > 0 {
      ClassifierOuts(rules, i, n - 1);
      OutsPass(TcpConns, rules, n, Classifier(rules[i]));
      TcpOuts(rules, n - 1);
      if n - 1 != i && TcpLines(rules[n - 1]) != [] && Classifier(rules[i]) == Classifier(rules[n - 1]) {
        OwnClassifier(rules, i, n - 1);
      }
    }
  }

  /** Every output of a rule's own classifier is connected exactly once, in order. */
  lemma ClassifierConnected(rules: seq<Rule>, i: nat)
    requires ValidRules(rules) && i < |rules| && TcpLines(rules[i]) != []
    ensures Outs(AllConns(rules), Classifier(rules[i])) == UpTo(|TcpLines(rules[i])|)
  {
    hide TcpLines, Flat, ValidRules, Outs, Pass;
    var e := Classifier(rules[i]);
    OutsAll(rules, e);
    ClassifierNames(rules[i], rules[i]);
    ClassifierOuts(rules, i, |rules|);
    PassOthers(rules, e);
  }

  /** The other two passes connect only outputs of the shared classifiers. */
  lemma PassOthers(rules: seq<Rule>, e: string)
    ensures e != "ip_from_extern" ==> Outs(Pass(ExtConns, rules, |rules|), e) == []
    ensures e != "ip_from_intern_src" ==> Outs(Pass(SrcConns, rules, |rules|), e) == []
    ensures e == "ip_from_extern" || e == "ip_from_intern_src" ==> Outs(Pass(TcpConns, rules, |rules|), e) == []
  {
    hide Pass, Flat, Classifier;
    forall i | 0 <= i < |rules|
      ensures e != "ip_from_extern" ==> Outs(ExtConns(rules, i), e) == []
      ensures e != "ip_from_intern_src" ==> Outs(SrcConns(rules, i), e) == []
      ensures e == "ip_from_extern" || e == "ip_from_intern_src" ==> Outs(TcpConns(rules, i), e) == []
    {
      ClassifierNames(rules[i], rules[i]);
      TcpOuts(rules, i);
      if ExtConns(rules, i) != [] {
        OneConn(ExtConns(rules, i)[0], e);
      }
      if SrcConns(rules, i) != [] {
        OneConn(SrcConns(rules, i)[0], e);
      }
    }
    if e != "ip_from_extern" {
      PassNone(ExtConns, rules, |rules|, e);
    }
    if e != "ip_from_intern_src" {
      PassNone(SrcConns, rules, |rules|, e);
    }
    if e == "ip_from_extern" || e == "ip_from_intern_src" {
      PassNone(TcpConns, rules, |rules|, e);
    }
  }

  lemma FlatStep<T>(f: Rule -> seq<T>, rules: seq<Rule>, n: nat)
    requires 0 < n <= |rules|
    ensures Flat(f, rules[..n]) == Flat(f, rules[..n - 1]) + f(rules[n - 1])
  {
    assert rules[..n][..n - 1] == rules[..n - 1];
  }

  lemma {:induction false} ExternOuts(rules: seq<Rule>, n: nat)
    requires n <= |rules|
    ensures Outs(Pass(ExtConns, rules, n), "ip_from_extern") == UpTo(|Flat(ExtLines, rules[..n])|)
  {
    hide Pass, Flat, Outs, Classifier;
    if n > 0 {
      ExternOuts(rules, n - 1);
      OutsPass(ExtConns, rules, n, "ip_from_extern");
      FlatStep(ExtLines, rules, n);
      if ExtConns(rules, n - 1) != [] {
        OneConn(ExtConns(rules, n - 1)[0], "ip_from_extern");
      }
    }
  }

  /** Every output of `ip_from_extern` is connected exactly once, the last one first. */
  lemma ExternConnected(rules: seq<Rule>)
    requires ValidRules(rules)
    ensures var n := |IpFromExtern(rules)| - 1; Outs(AllConns(rules), "ip_from_extern") == [n] + UpTo(n)
  {
    hide Flat, ValidRules, Outs, Pass;
    OutsAll(rules, "ip_from_extern");
    ExternOuts(rules, |rules|);
    assert rules[..|rules|] == rules;
    PassOthers(rules, "ip_from_extern");
  }

  lemma {:induction false} SourceOuts(rules: seq<Rule>, n: nat)
    requires n <= |rules|
    ensures var outs := Outs(Pass(SrcConns, rules, n), "ip_from_intern_src");
      && |outs| == |Flat(SrcLines, rules[..n])|
      && ((forall i :: 0 <= i < n ==> rules[i].name == "INTERNAL" ==> !IsNat(rules[i])) ==> outs == UpTo(|outs|))
      && forall i :: 0 <= i < n && rules[i].name == "INTERNAL" && IsNat(rules[i]) ==> |Flat(SrcLines, rules)| in outs
  {
    hide Pass, Flat, Outs;
    if n > 0 {
      SourceOuts(rules, n - 1);
      OutsPass(SrcConns, rules, n, "ip_from_intern_src");
      FlatStep(SrcLines, rules, n);
      if SrcConns(rules, n - 1) != [] {
        OneConn(SrcConns(rules, n - 1)[0], "ip_from_intern_src");
      }
    }
  }

  /** The outputs of `ip_from_intern_src`: those the rules connect, and the last line. */
  function SourceList(rules: seq<Rule>): seq<nat> {
    Outs(Pass(SrcConns, rules, |rules|), "ip_from_intern_src")
  }

  lemma SourceAll(rules: seq<Rule>)
    requires ValidRules(rules)
    ensures Outs(AllConns(rules), "ip_from_intern_src") == SourceList(rules) + [|Flat(SrcLines, rules)|]
    ensures |SourceList(rules)| == |Flat(SrcLines, rules)|
  {
    hide Flat, Outs, Pass, ValidRules;
    OutsAll(rules, "ip_from_intern_src");
    SourceOuts(rules, |rules|);
    assert rules[..|rules|] == rules;
    PassOthers(rules, "ip_from_intern_src");
  }

  lemma SourceInOrder(rules: seq<Rule>)
    requires forall i :: 0 <= i < |rules| && rules[i].name == "INTERNAL" ==> !IsNat(rules[i])
    ensures SourceList(rules) == UpTo(|Flat(SrcLines, rules)|)
  {
    hide Flat, Outs, Pass;
    SourceOuts(rules, |rules|);
    assert rules[..|rules|] == rules;
  }

  lemma SourceTwice(rules: seq<Rule>, i: nat)
    requires i < |rules| && rules[i].name == "INTERNAL" && IsNat(rules[i])
    ensures |Flat(SrcLines, rules)| in SourceList(rules)
  {
    hide Flat, Outs, Pass;
    SourceOuts(rules, |rules|);
    assert rules[..|rules|] == rules;
  }

  lemma TwiceIsNotInOrder(outs: seq<nat>, m: nat)
    requires m in outs && |outs| == m
    ensures outs + [m] != UpTo(m + 1)
  {
    var k :| 0 <= k < |outs| && outs[k] == m;
    assert (outs + [m])[k] == m && UpTo(m + 1)[k] == k;
  }

  /** Every output of `ip_from_intern_src` is connected exactly once if and only if the rule named
      INTERNAL is not itself a translation rule; such a rule loses the port of its own line to the
      number of the last one. */
  lemma SourceConnectedIff(rules: seq<Rule>)
    requires ValidRules(rules)
    ensures Outs(AllConns(rules), "ip_from_intern_src") == UpTo(|IpFromInternSrc(rules)|)
      <==> !IsNat(rules[Find(rules, "INTERNAL")])
  {
    hide Flat, Outs, Pass, SourceList, AllConns;
    var m, inside := |Flat(SrcLines, rules)|, Find(rules, "INTERNAL");
    SourceAll(rules);
    if IsNat(rules[inside]) {
      SourceTwice(rules, inside);
      TwiceIsNotInOrder(SourceList(rules), m);
    } else {
      assert forall i :: 0 <= i < |rules| && rules[i].name == "INTERNAL" ==> i == inside;
      SourceInOrder(rules);
    }
  }

  // ---------- where accepted traffic goes ----------

  lemma {:induction false} PassHas(f: (seq<Rule>, nat) --> seq<Conn>, rules: seq<Rule>, n: nat, i: nat, c: Conn)
    requires i < n <= |rules| && (forall k :: 0 <= k < n ==> f.requires(rules, k)) && c in f(rules, i)
    ensures c in Pass(f, rules, n)
  {
    if i < n - 1 {
      PassHas(f, rules, n - 1, i, c);
    }
  }

  lemma Emitted(rules: seq<Rule>, i: nat, c: Conn)
    requires ValidRules(rules) && i < |rules|
    requires c in ExtConns(rules, i) || c in TcpConns(rules, i) || c in SrcConns(rules, i)
    ensures c in AllConns(rules)
  {
    hide Pass, Flat, ValidRules, ExtConns, TcpConns, SrcConns;
    if c in ExtConns(rules, i) {
      PassHas(ExtConns, rules, |rules|, i, c);
    } else if c in TcpConns(rules, i) {
      PassHas(TcpConns, rules, |rules|, i, c);
    } else {
      PassHas(SrcConns, rules, |rules|, i, c);
    }
  }

  /** The line of a rule's classifier that its accepted traffic matches. */
  function AcceptLine(r: Rule): string {
    if r.ports == "*" then "tcp or udp" else "dst tcp " + r.ports
  }

  function OwnInput(r: Rule): Input {
    if r.kind.LbNapt? then Mapper(MappedLabel(r) + "_lb_mapper") else Pattern(InPat(r), 1, 0)
  }

  /** Traffic for the outside address of an accepting rule goes to the rule's classifier, what that
      accepts goes to the rewriter input that holds the rule's own mapping, and what comes from the
      rule's inside address leaves through the rule's own outgoing pattern. */
  lemma AcceptedReachesOwnInput(rules: seq<Rule>, i: nat)
    requires ValidRules(rules) && i < |rules| && Accepting(rules[i])
    ensures var r := rules[i];
      var p, k, q := PortOf(ExtLines, rules, i), if r.ports == "*" then 1 else 0, PortOf(RwLines, rules, i);
      && p < |IpFromExtern(rules)| && IpFromExtern(rules)[p] == "dst host " + r.name + "_ext"
      && Conn("ip_from_extern", p, Classifier(r), None) in AllConns(rules)
      && TcpLines(r)[k] == AcceptLine(r)
      && Conn(Classifier(r), k, "rw", Some(q + 1)) in AllConns(rules)
      && q + 1 < |Rw(rules)| && Rw(rules)[q + 1] == OwnInput(r) && Rw(rules)[q] == Pattern(OutPat(r), 0, 1)
    ensures rules[i].name != "INTERNAL" ==>
      var m := PortOf(SrcLines, rules, i);
      && m < |IpFromInternSrc(rules)| && IpFromInternSrc(rules)[m] == SrcLines(rules[i])[0]
      && Conn("ip_from_intern_src", m, "rw", Some(PortOf(RwLines, rules, i))) in AllConns(rules)
  {
    hide Flat, ValidRules, AllConns;
    var r := rules[i];
    var p, q, m := PortOf(ExtLines, rules, i), PortOf(RwLines, rules, i), PortOf(SrcLines, rules, i);
    LinesAt(ExtLines, rules, i);
    LinesAt(RwLines, rules, i);
    LinesAt(SrcLines, rules, i);
    assert Flat(ExtLines, rules)[p] == Flat(ExtLines, rules)[p..p + 1][0] == ExtLines(r)[0];
    assert Flat(RwLines, rules)[q] == Flat(RwLines, rules)[q..q + 2][0] == RwLines(r)[0];
    assert Flat(RwLines, rules)[q + 1] == Flat(RwLines, rules)[q..q + 2][1] == RwLines(r)[1];
    assert Flat(SrcLines, rules)[m] == Flat(SrcLines, rules)[m..m + 1][0] == SrcLines(r)[0];
    Emitted(rules, i, ExtConns(rules, i)[0]);
    var k := if r.ports == "*" then 1 else 0;
    Emitted(rules, i, TcpConns(rules, i)[k]);
    Emitted(rules, i, SrcConns(rules, i)[0]);
  }

  /** Traffic a rule does not accept is handed to the rewriter's last line, which drops what it does
      not know. */
  lemma RestIsDropped(rules: seq<Rule>, i: nat)
    requires ValidRules(rules) && i < |rules| && IsNat(rules[i]) && !(Accepting(rules[i]) && rules[i].ports == "*")
    ensures var k := if Accepting(rules[i]) then 2 else 1;
      && TcpLines(rules[i])[k] == "tcp or udp"
      && Conn(Classifier(rules[i]), k, "rw", Some(DropPort(rules))) in AllConns(rules)
      && Rw(rules)[DropPort(rules)] == Drop
  {
    hide Flat, ValidRules, AllConns;
    Emitted(rules, i, TcpConns(rules, i)[if Accepting(rules[i]) then 2 else 1]);
  }

  // ---------- where all other traffic goes ----------

  /** Output `out` of `from` goes to the rewriter input that holds `line`. */
  ghost predicate ReachesInput(rules: seq<Rule>, from: string, out: nat, line: Input)
    requires ValidRules(rules)
  {
    exists q: nat :: q < |Rw(rules)| && Rw(rules)[q] == line && Conn(from, out, "rw", Some(q)) in AllConns(rules)
  }

  /** A rule with a classifier gets there what is sent to its own address. In the classifier, FTP control
      traffic goes to the second input of the TCP rewriter, and the last line, which matches all the rest,
      is thrown away. */
  lemma ClassifierTraffic(rules: seq<Rule>, i: nat)
    requires ValidRules(rules) && i < |rules| && (IsNat(rules[i]) || IsExternal(rules[i]))
    ensures exists p: nat ::
      && p < |IpFromExtern(rules)|
      && IpFromExtern(rules)[p] == "dst host " + (if IsNat(rules[i]) then rules[i].name + "_ext" else "extern")
      && Conn("ip_from_extern", p, Classifier(rules[i]), None) in AllConns(rules)
    ensures exists k: nat ::
      && k < |TcpLines(rules[i])| && TcpLines(rules[i])[k] == "src tcp port ftp"
      && Conn(Classifier(rules[i]), k, "tcp_rw", Some(1)) in AllConns(rules)
    ensures var k := |TcpLines(rules[i])| - 1;
      k > 0 && TcpLines(rules[i])[k] == "-" && Conn(Classifier(rules[i]), k, "Discard", None) in AllConns(rules)
  {
    hide Flat, ValidRules, AllConns, Classifier;
    var p := PortOf(ExtLines, rules, i);
    LinesAt(ExtLines, rules, i);
    assert Flat(ExtLines, rules)[p] == Flat(ExtLines, rules)[p..p + 1][0] == ExtLines(rules[i])[0];
    assert IpFromExtern(rules)[p] == ExtLines(rules[i])[0];
    Emitted(rules, i, ExtConns(rules, i)[0]);
    var n := |TcpLines(rules[i])|;
    var k := n - 3;
    assert TcpLines(rules[i])[k] == "src tcp port ftp";
    Emitted(rules, i, TcpConns(rules, i)[k]);
    Emitted(rules, i, TcpConns(rules, i)[n - 1]);
  }

  /** TCP and UDP traffic for the gateway itself is handed to its host unchanged, through output 2. */
  lemma GatewayTraffic(rules: seq<Rule>, i: nat)
    requires ValidRules(rules) && i < |rules| && IsExternal(rules[i])
    ensures TcpLines(rules[i])[1] == "tcp or udp"
    ensures ReachesInput(rules, Classifier(rules[i]), 1, NoChange(2))
  {
    hide Flat, ValidRules, AllConns, Classifier;
    Emitted(rules, i, TcpConns(rules, i)[1]);
    assert Rw(rules)[ExtToGw(rules)] == NoChange(2);
  }

  /** What comes from the inside addresses of a translation rule, accepting or not, leaves through the
      rule's own outgoing pattern. */
  lemma InsideTraffic(rules: seq<Rule>, i: nat)
    requires ValidRules(rules) && i < |rules| && IsNat(rules[i]) && rules[i].name != "INTERNAL"
    ensures exists m: nat ::
      && m < |IpFromInternSrc(rules)|
      && IpFromInternSrc(rules)[m] == (if rules[i].kind.Nat? then "src host " + rules[i].name + "_int:ip"
                                       else "src net " + rules[i].name + "_net:ipnet")
      && ReachesInput(rules, "ip_from_intern_src", m, Pattern(rules[i].name + "_out", 0, 1))
  {
    hide Flat, ValidRules, AllConns;
    var q, m := PortOf(RwLines, rules, i), PortOf(SrcLines, rules, i);
    LinesAt(RwLines, rules, i);
    LinesAt(SrcLines, rules, i);
    assert Flat(RwLines, rules)[q] == Flat(RwLines, rules)[q..q + |RwLines(rules[i])|][0] == RwLines(rules[i])[0];
    assert Flat(SrcLines, rules)[m] == Flat(SrcLines, rules)[m..m + 1][0] == SrcLines(rules[i])[0];
    Emitted(rules, i, SrcConns(rules, i)[0]);
    assert Rw(rules)[q] == Pattern(rules[i].name + "_out", 0, 1);
    assert IpFromInternSrc(rules)[m] == SrcLines(rules[i])[0];
  }

  /** Everything else from outside is thrown away, and everything else from inside leaves through the
      outgoing pattern of EXTERNAL, if it has a line in the rewriter. */
  lemma EverythingElse(rules: seq<Rule>)
    requires ValidRules(rules)
    ensures var n := |IpFromExtern(rules)| - 1;
      IpFromExtern(rules)[n] == "-" && Conn("ip_from_extern", n, "Discard", None) in AllConns(rules)
    ensures var n, ext := |IpFromInternSrc(rules)| - 1, rules[Find(rules, "EXTERNAL")];
      && IpFromInternSrc(rules)[n] == "-"
      && if IsNat(ext) || IsExternal(ext) then ReachesInput(rules, "ip_from_intern_src", n, Pattern(OutPat(ext), 0, 1))
         else Conn("ip_from_intern_src", n, "rw", None) in AllConns(rules)
  {
    hide Flat, Pass;
    var e := Find(rules, "EXTERNAL");
    if IsNat(rules[e]) || IsExternal(rules[e]) {
      var q := PortOf(RwLines, rules, e);
      LinesAt(RwLines, rules, e);
      assert Flat(RwLines, rules)[q] == Flat(RwLines, rules)[q..q + |RwLines(rules[e])|][0] == RwLines(rules[e])[0];
      assert Rw(rules)[q] == Pattern(OutPat(rules[e]), 0, 1);
    }
  }

  // ---------- pattern names ----------

  lemma {:induction false} FlatHas<T>(f: Rule -> seq<T>, rules: seq<Rule>, x: T)
    ensures x in Flat(f, rules) <==> exists i :: 0 <= i < |rules| && x in f(rules[i])
  {
    if rules != [] {
      var init := rules[..|rules| - 1];
      FlatHas(f, init, x);
      if x in Flat(f, init) {
        var i :| 0 <= i < |init| && x in f(init[i]);
        assert x in f(rules[i]);
      }
      forall i | 0 <= i < |rules| && x in f(rules[i])
        ensures x in Flat(f, rules)
      {
        if i < |rules| - 1 {
          assert init[i] == rules[i];
        }
      }
    }
  }

  lemma PatternNames(r: Rule)
    ensures InPat(r) != "dns_pat" && OutPat(r) != "dns_pat"
  {
    var d, a, b := "dns_pat", InPat(r), OutPat(r);
    assert a[|a| - 1] == "_in"[2] && d[6] == 't';
    assert b[|b| - 2] == "_out"[2] && d[5] == 'a';
  }

  predicate NamesIntDns(rules: seq<Rule>) {
    exists i :: 0 <= i < |rules| && rules[i].kind.IpLabel? && rules[i].name == "INTDNS"
  }

  lemma DnsPatternDefined(rules: seq<Rule>)
    ensures "dns_pat" in Flat(PatLines, rules) <==> NamesIntDns(rules)
  {
    hide InPat, OutPat;
    FlatHas(PatLines, rules, "dns_pat");
    forall i | 0 <= i < |rules|
      ensures "dns_pat" in PatLines(rules[i]) <==> rules[i].kind.IpLabel? && rules[i].name == "INTDNS"
    {
      PatternNames(rules[i]);
    }
  }

  lemma OtherPatternDefined(rules: seq<Rule>, l: Input)
    requires l in Flat(RwLines, rules) && l.Pattern?
    ensures l.name in Flat(PatLines, rules) ||
            (l.name == "dns_pat" && exists i :: 0 <= i < |rules| && rules[i].kind.IpLabel?)
  {
    hide InPat, OutPat, Flat;
    FlatHas(RwLines, rules, l);
    var i :| 0 <= i < |rules| && l in RwLines(rules[i]);
    if !rules[i].kind.IpLabel? {
      assert l.name in PatLines(rules[i]);
      FlatHas(PatLines, rules, l.name);
    }
  }

  /** Every pattern the rewriter names is defined if and only if no address label is listed, or the
      address label INTDNS is: each of them asks for the pattern that only INTDNS defines. */
  lemma PatternsDefinedIff(rules: seq<Rule>)
    ensures (forall l :: l in Rw(rules) && l.Pattern? ==> l.name in Flat(PatLines, rules))
      <==> ((exists i :: 0 <= i < |rules| && rules[i].kind.IpLabel?) ==> NamesIntDns(rules))
  {
    hide Flat, NamesIntDns, PatLines;
    DnsPatternDefined(rules);
    forall l | l in Rw(rules) && l.Pattern?
      ensures l.name in Flat(PatLines, rules) ||
              (l.name == "dns_pat" && exists i :: 0 <= i < |rules| && rules[i].kind.IpLabel?)
    {
      OtherPatternDefined(rules, l);
    }
    if i :| 0 <= i < |rules| && rules[i].kind.IpLabel? {
      var l := Pattern("dns_pat", 1, 1);
      assert l in RwLines(rules[i]);
      FlatHas(RwLines, rules, l);
      assert l in Rw(rules);
    }
  }

  // ---------- configurations that fail ----------

  /** A translation rule named INTERNAL: one output is connected twice and another not at all. */
  lemma InternalTranslated()
    ensures var rules := [Rule(Nat, "INTERNAL", "*"), Rule(IFace, "EXTERNAL", ""), Rule(IFace, "NEXTHOP", "")];
      ValidRules(rules) && Outs(AllConns(rules), "ip_from_intern_src") != UpTo(|IpFromInternSrc(rules)|)
  {
    var rules := [Rule(Nat, "INTERNAL", "*"), Rule(IFace, "EXTERNAL", ""), Rule(IFace, "NEXTHOP", "")];
    assert rules[0].name == "INTERNAL" && rules[1].name == "EXTERNAL" && rules[2].name == "NEXTHOP";
    assert rules[0].name[0] == 'I' && rules[1].name[0] == 'E' && rules[2].name[0] == 'N' && "gw"[0] == 'g';
    SourceConnectedIff(rules);
  }

  /** An address label that is not INTDNS: the rewriter asks for a pattern nobody defines. */
  lemma StrayLabel()
    ensures var rules := [Rule(IFace, "INTERNAL", ""), Rule(IFace, "EXTERNAL", ""), Rule(IFace, "NEXTHOP", ""),
                          Rule(IpLabel, "ns", "")];
      && ValidRules(rules)
      && Pattern("dns_pat", 1, 1) in Rw(rules) && "dns_pat" !in Flat(PatLines, rules)
  {
    var rules := [Rule(IFace, "INTERNAL", ""), Rule(IFace, "EXTERNAL", ""), Rule(IFace, "NEXTHOP", ""),
                  Rule(IpLabel, "ns", "")];
    assert rules[0].name == "INTERNAL" && rules[1].name == "EXTERNAL" && rules[2].name == "NEXTHOP";
    assert rules[0].name[0] == 'I' && rules[1].name[0] == 'E' && rules[2].name[0] == 'N' && "gw"[0] == 'g';
    assert |rules[3].name| == 2 && |"INTDNS"| == 6 && rules[3].name[0] == 'n';
    FlatHas(RwLines, rules, Pattern("dns_pat", 1, 1));
    assert Pattern("dns_pat", 1, 1) in RwLines(rules[3]);
    DnsPatternDefined(rules);
  }
}
