/** The rules that query every connected interface in turn:
    `test_switchport_port_security` (app.py:113-128),
    `test_switchport_port_security_violation` (app.py:131-146) and `test_cdp`
    (app.py:149-168).

    The switch is a function from a command to the text `read_all` returns
    for it; each rule's outcome records the commands it sent, in order. */
module InterfaceRules {
  import opened Strings
  import opened Verdicts
  import opened Extractors

  const INTERFACES_STATUS := "show interfaces status\n"

  datatype Check = PortSecurity | ViolationMode | Cdp

  /** The command each rule sends for one interface. */
  function Query(c: Check, name: string): string
  {
    match c
    case PortSecurity => "show port-security interface " + name + " \n"
    case ViolationMode => "show port-security interface " + name + " \n"
    case Cdp => "show cdp interface " + name + " \n"
  }

  /** The query of a check, as a function of the interface name. */
  function Command(c: Check): string -> string
  {
    name => Query(c, name)
  }

  /** Port security is on when the `Port Security` field contains `Enabled\r`;
      a reply without that field cannot be read. */
  function PortSecurityProbe(reply: string): (p: Probe)
    ensures p == Unparseable <==> Field(reply, "Port Security").None?
    ensures p == Offending <==> Field(reply, "Port Security").Some?
                                && !exists i: nat :: OccursAt(Field(reply, "Port Security").value, "Enabled\r", i)
  {
    match Field(reply, "Port Security")
    case None => Unparseable
    case Some(status) => if Contains(status, "Enabled\r") then Compliant else Offending
  }

  /** The violation mode is acceptable when its field contains `Restrict\r` or
      `Shutdown\r`; a reply without that field cannot be read. */
  function ViolationProbe(reply: string): (p: Probe)
    ensures p == Unparseable <==> Field(reply, "Violation Mode").None?
    ensures p == Offending <==> Field(reply, "Violation Mode").Some?
                                && (!exists i: nat :: OccursAt(Field(reply, "Violation Mode").value, "Restrict\r", i))
                                && (!exists i: nat :: OccursAt(Field(reply, "Violation Mode").value, "Shutdown\r", i))
  {
    match Field(reply, "Violation Mode")
    case None => Unparseable
    case Some(mode) =>
      if !Contains(mode, "Restrict\r") && !Contains(mode, "Shutdown\r") then Offending else Compliant
  }

  /** CDP runs on an interface when the status search reads `up`; a reply the
      search does not match is skipped, so this rule never breaks off. */
  function CdpProbe(reply: string): (p: Probe)
    ensures p != Unparseable
    ensures p == Offending <==> CdpStatus(Split(reply, '\n')) == Some("up")
  {
    match CdpStatus(Split(reply, '\n'))
    case None => Compliant
    case Some(status) => if status == "up" then Offending else Compliant
  }

  function FailureOf(c: Check, interfaces: string): Failure
  {
    match c
    case PortSecurity => NoPortSecurity(interfaces)
    case ViolationMode => NoViolationMode(interfaces)
    case Cdp => CdpRunning(interfaces)
  }

  /** The names of the interfaces whose state is exactly `connected`, in order. */
  function Connected(xs: seq<Interface>): (names: seq<string>)
    ensures |names| <= |xs|
  {
    if xs == [] then []
    else
      var x := xs[|xs| - 1];
      Connected(xs[..|xs| - 1]) + (if x.state == "connected" then [x.name] else [])
  }

  /** Exactly the interfaces in state `connected` are queried. */
  lemma {:induction false} ConnectedMembers(xs: seq<Interface>)
    ensures forall n :: n in Connected(xs) <==> exists k :: 0 <= k < |xs| && xs[k].state == "connected" && xs[k].name == n
  {
    if xs != [] {
      var front := xs[..|xs| - 1];
      ConnectedMembers(front);
      assert forall k :: 0 <= k < |front| ==> front[k] == xs[k];
    }
  }

  /** The connected interfaces among the first `i` are the first of all connected interfaces. */
  lemma {:induction false} ConnectedPrefix(xs: seq<Interface>, i: nat)
    requires i <= |xs|
    ensures |Connected(xs[..i])| <= |Connected(xs)|
    ensures Connected(xs[..i]) == Connected(xs)[..|Connected(xs[..i])|]
    decreases |xs|
  {
    if i < |xs| {
      var front := xs[..|xs| - 1];
      assert front[..i] == xs[..i];
      ConnectedPrefix(front, i);
    } else {
      assert xs[..i] == xs;
    }
  }

  /** The interfaces at fault, in order. */
  function Offenders(query: string -> string, judge: string -> Probe, device: string -> string, names: seq<string>): (bad: seq<string>)
    ensures |bad| <= |names|
  {
    if names == [] then []
    else
      var n := names[|names| - 1];
      Offenders(query, judge, device, names[..|names| - 1]) + (if ProbeOf(query, judge, device, n) == Offending then [n] else [])
  }

  /** The offenders are exactly the named interfaces whose reply shows them at fault. */
  lemma {:induction false} OffenderMembers(query: string -> string, judge: string -> Probe, device: string -> string, names: seq<string>)
    ensures forall n :: n in Offenders(query, judge, device, names) <==> n in names && ProbeOf(query, judge, device, n) == Offending
  {
    if names != [] {
      var front := names[..|names| - 1];
      OffenderMembers(query, judge, device, front);
      assert forall m :: m in names <==> m in front || m == names[|names| - 1];
    }
  }

  /** The offender list of the failure message: each name followed by one space. */
  function Spaced(names: seq<string>): (s: string)
    ensures s == "" <==> names == []
  {
    if names == [] then "" else Spaced(names[..|names| - 1]) + names[|names| - 1] + " "
  }

  /** The message's list reads back as the names, with an empty piece after
      the final space, when no name holds a space. */
  lemma {:induction false} SpacedSplits(names: seq<string>)
    requires forall k :: 0 <= k < |names| ==> ' ' !in names[k]
    ensures Split(Spaced(names), ' ') == names + [""]
  {
    SpacedIsJoin(names);
    SplitJoin(names + [""], ' ');
  }

  lemma {:induction false} SpacedIsJoin(names: seq<string>)
    ensures Spaced(names) == Join(names + [""], ' ')
  {
    if names != [] {
      var front := names[..|names| - 1];
      var n := names[|names| - 1];
      SpacedIsJoin(front);
      JoinSnoc(front, n);
      assert front + [n] == names;
    }
  }

  /** Appending a piece before the final empty one. */
  lemma {:induction false} JoinSnoc(front: seq<string>, n: string)
    ensures Join(front + [n] + [""], ' ') == Join(front + [""], ' ') + n + " "
    decreases |front|
  {
    if front == [] {
      assert [n] + [""] == [n, ""];
      assert Join([n, ""], ' ') == n + [' '] + Join([""], ' ');
    } else {
      JoinSnoc(front[1..], n);
      assert (front + [n] + [""])[1..] == front[1..] + [n] + [""];
      assert (front + [""])[1..] == front[1..] + [""];
    }
  }

  /** The loop of a per-interface rule over the listed interfaces `xs`: query
      the connected ones in order. The first reply that cannot be read breaks
      the rule off with the commands sent so far; otherwise the rule fails
      naming every offending interface, or passes when there is none. */
  function Audit(c: Check, query: string -> string, judge: string -> Probe, device: string -> string, xs: seq<Interface>): (o: Outcome)
    ensures |o.sent| <= |Connected(xs)|
    ensures forall k :: 0 <= k < |o.sent| ==> o.sent[k] == query(Connected(xs)[k])
    ensures |o.sent| < |Connected(xs)| ==> o.verdict == Broken(NoMatch)
    ensures o.verdict == Pass || o.verdict == Broken(NoMatch)
            || o.verdict == Fail(FailureOf(c, Spaced(Offenders(query, judge, device, Connected(xs)))))
  {
    var names := Connected(xs);
    var k := FirstIn(Probes(query, judge, device, names), {Unparseable}, 0);
    if k < |names| then
      assert forall j :: 0 <= j <= k ==> names[..k + 1][j] == names[j];
      Outcome(Broken(NoMatch), Queries(query, names[..k + 1]))
    else
      var bad := Offenders(query, judge, device, names);
      Outcome(if bad == [] then Pass else Fail(FailureOf(c, Spaced(bad))), Queries(query, names))
  }

  /** A whole per-interface rule: `show interfaces status` first, then the loop
      over the interfaces it lists. */
  function ConnectedAudit(c: Check, judge: string -> Probe, device: string -> string): (o: Outcome)
    ensures |o.sent| >= 1 && o.sent[0] == INTERFACES_STATUS
    ensures |o.sent| <= 1 + |Connected(AllInterfaces(device(INTERFACES_STATUS)))|
    ensures forall k :: 0 <= k < |o.sent| - 1 ==>
              o.sent[k + 1] == Command(c)(Connected(AllInterfaces(device(INTERFACES_STATUS)))[k])
    ensures o.verdict == Pass <==>
              forall n :: n in Connected(AllInterfaces(device(INTERFACES_STATUS))) ==> ProbeOf(Command(c), judge, device, n) == Compliant
  {
    var xs := AllInterfaces(device(INTERFACES_STATUS));
    AuditAfter(INTERFACES_STATUS, c, judge, device, xs);
    After(INTERFACES_STATUS, Audit(c, Command(c), judge, device, xs))
  }

  /** A first command and then the loop over a list of interfaces: that
      command, then one query per connected interface in list order, passing
      exactly when every connected interface is compliant. */
  lemma AuditAfter(first: string, c: Check, judge: string -> Probe, device: string -> string, xs: seq<Interface>)
    ensures var o := After(first, Audit(c, Command(c), judge, device, xs));
            && |o.sent| >= 1 && o.sent[0] == first && |o.sent| <= 1 + |Connected(xs)|
            && (forall k :: 0 <= k < |o.sent| - 1 ==> o.sent[k + 1] == Command(c)(Connected(xs)[k]))
            && (o.verdict == Pass <==> forall n :: n in Connected(xs) ==> ProbeOf(Command(c), judge, device, n) == Compliant)
  {
    AuditVerdict(c, Command(c), judge, device, xs);
  }

  /** The loop queries connected interfaces only, in order, without skipping
      one: its queries are those of a prefix of the connected interfaces, all
      of them unless it broke off. */
  lemma AuditQueriesConnected(c: Check, query: string -> string, judge: string -> Probe, device: string -> string, xs: seq<Interface>)
    ensures exists m :: 0 <= m <= |Connected(xs)|
              && Audit(c, query, judge, device, xs).sent == Queries(query, Connected(xs)[..m])
              && (m < |Connected(xs)| ==> Audit(c, query, judge, device, xs).verdict == Broken(NoMatch))
  {
    var names := Connected(xs);
    var k := FirstIn(Probes(query, judge, device, names), {Unparseable}, 0);
    if k < |names| {
      assert Audit(c, query, judge, device, xs).sent == Queries(query, names[..k + 1]);
    } else {
      assert names[..|names|] == names;
    }
  }

  /** The loop breaks off exactly when the reply for some connected interface
      cannot be read. */
  lemma AuditBreaks(c: Check, query: string -> string, judge: string -> Probe, device: string -> string, xs: seq<Interface>)
    ensures Audit(c, query, judge, device, xs).verdict == Broken(NoMatch) <==>
              exists n :: n in Connected(xs) && ProbeOf(query, judge, device, n) == Unparseable
  {
    var names := Connected(xs);
    var ps := Probes(query, judge, device, names);
    var k := FirstIn(ps, {Unparseable}, 0);
    if k < |names| {
      assert names[k] in names && ProbeOf(query, judge, device, names[k]) == Unparseable;
    } else {
      forall n | n in names
        ensures ProbeOf(query, judge, device, n) != Unparseable
      {
        var j :| 0 <= j < |names| && names[j] == n;
        assert ps[j] !in {Unparseable};
      }
    }
  }

  /** A loop that reads every reply passes exactly when every connected
      interface is compliant, and otherwise fails naming exactly the offending
      ones, in order, each followed by one space. */
  lemma AuditVerdict(c: Check, query: string -> string, judge: string -> Probe, device: string -> string, xs: seq<Interface>)
    ensures Audit(c, query, judge, device, xs).verdict == Pass <==>
              forall n :: n in Connected(xs) ==> ProbeOf(query, judge, device, n) == Compliant
    ensures Audit(c, query, judge, device, xs).verdict.Fail? ==>
              var bad := Offenders(query, judge, device, Connected(xs));
              bad != [] && Audit(c, query, judge, device, xs).verdict == Fail(FailureOf(c, Spaced(bad)))
  {
    AuditBreaks(c, query, judge, device, xs);
    OffenderMembers(query, judge, device, Connected(xs));
    var bad := Offenders(query, judge, device, Connected(xs));
    if bad != [] {
      assert bad[0] in bad;
    }
  }

  /** One more interface: its name joins the connected ones when its state is `connected`. */
  lemma ConnectedSnoc(xs: seq<Interface>, i: nat)
    requires i < |xs|
    ensures xs[i].state == "connected" ==> Connected(xs[..i + 1]) == Connected(xs[..i]) + [xs[i].name]
    ensures xs[i].state != "connected" ==> Connected(xs[..i + 1]) == Connected(xs[..i])
  {
    assert xs[..i + 1][..i] == xs[..i];
    assert Connected(xs[..i]) + [] == Connected(xs[..i]);
  }

  /** Every reply for the interfaces in `names` can be read. */
  ghost predicate Readable(query: string -> string, judge: string -> Probe, device: string -> string, names: seq<string>)
  {
    forall j :: 0 <= j < |names| ==> ProbeOf(query, judge, device, names[j]) != Unparseable
  }

  /** One more queried interface adds its command, its name and a space to
      the offender list when its reply shows it at fault, and keeps the
      replies readable when its own can be read. */
  lemma SeenSnoc(query: string -> string, judge: string -> Probe, device: string -> string, seen: seq<string>, n: string)
    ensures Queries(query, seen + [n]) == Queries(query, seen) + [query(n)]
    ensures Spaced(Offenders(query, judge, device, seen + [n]))
            == Spaced(Offenders(query, judge, device, seen))
               + (if ProbeOf(query, judge, device, n) == Offending then n + " " else "")
    ensures Readable(query, judge, device, seen) && ProbeOf(query, judge, device, n) != Unparseable
            ==> Readable(query, judge, device, seen + [n])
  {
    assert (seen + [n])[..|seen|] == seen;
    var bad := Offenders(query, judge, device, seen);
    if ProbeOf(query, judge, device, n) == Offending {
      assert Offenders(query, judge, device, seen + [n]) == bad + [n];
      assert (bad + [n])[..|bad|] == bad;
    } else {
      assert Offenders(query, judge, device, seen + [n]) == bad + [];
      assert bad + [] == bad;
    }
    assert forall j :: 0 <= j < |seen| ==> (seen + [n])[j] == seen[j];
  }

  /** A connected interface whose reply cannot be read ends the loop there. */
  lemma AuditStepStops(c: Check, query: string -> string, judge: string -> Probe, device: string -> string, xs: seq<Interface>, i: nat, seen: seq<string>)
    requires i < |xs| && seen == Connected(xs[..i])
    requires Readable(query, judge, device, seen)
    requires xs[i].state == "connected" && ProbeOf(query, judge, device, xs[i].name) == Unparseable
    ensures Audit(c, query, judge, device, xs) == Outcome(Broken(NoMatch), Queries(query, seen + [xs[i].name]))
  {
    ConnectedSnoc(xs, i);
    ConnectedPrefix(xs, i + 1);
    AuditStops(c, query, judge, device, xs, seen, xs[i].name);
  }

  /** The `for interface in interfaces` loop the three rules share. */
  method AuditInterfaces(c: Check, query: string -> string, judge: string -> Probe, device: string -> string, interfaces: seq<Interface>)
      returns (verdict: Verdict, sent: seq<string>)
    ensures Outcome(verdict, sent) == Audit(c, query, judge, device, interfaces)
  {
    ghost var seen: seq<string> := [];
    sent := [];
    var offenders := "";
    var i := 0;
    while i < |interfaces|
      invariant 0 <= i <= |interfaces|
      invariant seen == Connected(interfaces[..i])
      invariant Readable(query, judge, device, seen)
      invariant sent == Queries(query, seen)
      invariant offenders == Spaced(Offenders(query, judge, device, seen))
    {
      var x := interfaces[i];
      ConnectedSnoc(interfaces, i);
      if x.state == "connected" {
        SeenSnoc(query, judge, device, seen, x.name);
        sent := sent + [query(x.name)];
        var p := ProbeOf(query, judge, device, x.name);
        if p == Unparseable {
          AuditStepStops(c, query, judge, device, interfaces, i, seen);
          return Broken(NoMatch), sent;
        }
        if p == Offending {
          offenders := offenders + x.name + " ";
        }
        seen := seen + [x.name];
      }
      i := i + 1;
    }
    assert interfaces[..i] == interfaces;
    AuditRunsThrough(c, query, judge, device, interfaces);
    verdict := if offenders != "" then Fail(FailureOf(c, offenders)) else Pass;
  }

  /** The loop breaks off at the first connected interface whose reply cannot be read. */
  lemma AuditStops(c: Check, query: string -> string, judge: string -> Probe, device: string -> string, xs: seq<Interface>, seen: seq<string>, n: string)
    requires |seen| < |Connected(xs)| && seen + [n] == Connected(xs)[..|seen| + 1]
    requires Readable(query, judge, device, seen)
    requires ProbeOf(query, judge, device, n) == Unparseable
    ensures Audit(c, query, judge, device, xs) == Outcome(Broken(NoMatch), Queries(query, seen + [n]))
  {
    var names := Connected(xs);
    var ps := Probes(query, judge, device, names);
    assert names[|seen|] == (seen + [n])[|seen|];
    forall j | 0 <= j < |seen|
      ensures ps[j] != Unparseable
    {
      assert names[j] == (seen + [n])[j];
    }
    assert FirstIn(ps, {Unparseable}, 0) == |seen|;
  }

  /** A loop whose every reply can be read queries every connected interface. */
  lemma AuditRunsThrough(c: Check, query: string -> string, judge: string -> Probe, device: string -> string, xs: seq<Interface>)
    requires Readable(query, judge, device, Connected(xs))
    ensures var bad := Offenders(query, judge, device, Connected(xs));
            Audit(c, query, judge, device, xs)
            == Outcome(if bad == [] then Pass else Fail(FailureOf(c, Spaced(bad))), Queries(query, Connected(xs)))
  {
    var ps := Probes(query, judge, device, Connected(xs));
    forall j | 0 <= j < |ps|
      ensures ps[j] !in {Unparseable}
    {
    }
    assert FirstIn(ps, {Unparseable}, 0) == |Connected(xs)|;
  }

  /** A per-interface rule: list the interfaces, then run the loop over them. */
  method AuditConnected(c: Check, judge: string -> Probe, device: string -> string) returns (o: Outcome)
    ensures o == ConnectedAudit(c, judge, device)
  {
    var interfaces := AllInterfaces(device(INTERFACES_STATUS));
    var verdict, sent := AuditInterfaces(c, Command(c), judge, device, interfaces);
    o := After(INTERFACES_STATUS, Outcome(verdict, sent));
  }

  /** `test_switchport_port_security`. */
  method PortSecurityRule(device: string -> string) returns (o: Outcome)
    ensures o == ConnectedAudit(PortSecurity, PortSecurityProbe, device)
  {
    o := AuditConnected(PortSecurity, PortSecurityProbe, device);
  }

  /** `test_switchport_port_security_violation`. */
  method ViolationModeRule(device: string -> string) returns (o: Outcome)
    ensures o == ConnectedAudit(ViolationMode, ViolationProbe, device)
  {
    o := AuditConnected(ViolationMode, ViolationProbe, device);
  }

  /** `test_cdp`: a reply the status search does not match is skipped, so
      the rule never breaks off. */
  method CdpRule(device: string -> string) returns (o: Outcome)
    ensures o == ConnectedAudit(Cdp, CdpProbe, device)
    ensures o.verdict != Broken(NoMatch)
  {
    o := AuditConnected(Cdp, CdpProbe, device);
    AuditBreaks(Cdp, Command(Cdp), CdpProbe, device, AllInterfaces(device(INTERFACES_STATUS)));
  }
}
