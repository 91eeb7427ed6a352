/** What a compliance rule concludes. In the scanner a rule passes by returning,
    warns through `warnings.warn`, fails by raising its own exception, and
    breaks off when an unexpected reply makes Python raise (a `.groups()` on a
    failed search, an index past the end of a list). */
module Verdicts {

  /** Advisory findings (`warnings.warn`). */
  datatype Warning =
    | NoConsoleLogin | NoConsolePassword | ConsolePasswordPlain
    | NoEnablePassword | EnablePasswordPlain
    | TelnetOn | TcpSmallServersOn | UdpSmallServersOn | FingerOn
    | NoRootGuard | NoAaa | NoVmps | DenyAny
    | ErrdisableOff(feature: string)
    | NoTacacsServer | NoTacacsKey
    | GatewayReachable(address: string)

  /** Required fixes (the rule's own `raise Exception`). */
  datatype Failure =
    | NoPortSecurity(interfaces: string)
    | NoViolationMode(interfaces: string)
    | CdpRunning(interfaces: string)
    | VtpNoPassword
    | DtpRunning(ports: string)
    | NoDhcpSnooping
    | Dot1xDisabled | BpduGuardDisabled | LoopGuardDisabled
    | IgmpSnoopingOff(vlan: string)

  /** Why a rule broke off: a search that had to match did not, or a line the
      rule indexes does not exist. */
  datatype Fault = NoMatch | LineMissing

  datatype Verdict = Pass | Warn(warnings: seq<Warning>) | Fail(failure: Failure) | Broken(fault: Fault)

  /** A rule that talks to the switch more than once: its verdict and the
      commands it sent, in order. */
  datatype Outcome = Outcome(verdict: Verdict, sent: seq<string>)

  /** The warnings a rule raised; a rule that raised none passed. */
  function Warned(ws: seq<Warning>): (v: Verdict)
    ensures v == Pass <==> ws == []
    ensures v != Pass ==> v == Warn(ws)
  {
    if ws == [] then Pass else Warn(ws)
  }

  /** The warnings a verdict carries; none for any other verdict. */
  function Warnings(v: Verdict): seq<Warning>
  {
    if v.Warn? then v.warnings else []
  }

  /** What one reply in a multi-command rule says about the item it was asked
      about: the rule cannot read it, the item is fine, or it is at fault. */
  datatype Probe = Unparseable | Compliant | Offending

  /** The first index at or after `i` whose probe is in `halting`, or the length. */
  function FirstIn(ps: seq<Probe>, halting: set<Probe>, i: nat): (k: nat)
    requires i <= |ps|
    ensures i <= k <= |ps|
    ensures forall j :: i <= j < k ==> ps[j] !in halting
    ensures k < |ps| ==> ps[k] in halting
    decreases |ps| - i
  {
    if i == |ps| || ps[i] in halting then i else FirstIn(ps, halting, i + 1)
  }

  /** What the reply to the query about item `name` says, as `judge` reads it.
      `query` is the rule's command for one item and `device` the switch. */
  function ProbeOf(query: string -> string, judge: string -> Probe, device: string -> string, name: string): Probe
  {
    judge(device(query(name)))
  }

  /** The probes of the named items, in order. */
  function Probes(query: string -> string, judge: string -> Probe, device: string -> string, names: seq<string>): (ps: seq<Probe>)
    ensures |ps| == |names|
    ensures forall k :: 0 <= k < |names| ==> ps[k] == ProbeOf(query, judge, device, names[k])
  {
    if names == [] then []
    else Probes(query, judge, device, names[..|names| - 1]) + [ProbeOf(query, judge, device, names[|names| - 1])]
  }

  /** The commands sent for the named items, in order. */
  function Queries(query: string -> string, names: seq<string>): (qs: seq<string>)
    ensures |qs| == |names|
    ensures forall k :: 0 <= k < |names| ==> qs[k] == query(names[k])
  {
    if names == [] then []
    else Queries(query, names[..|names| - 1]) + [query(names[|names| - 1])]
  }

  /** A rule that sends `first` and then runs a loop: the loop's verdict, and
      `first` followed by the loop's commands. */
  function After(first: string, o: Outcome): (r: Outcome)
    ensures r.verdict == o.verdict
    ensures |r.sent| == |o.sent| + 1 && r.sent[0] == first
    ensures forall k :: 0 <= k < |o.sent| ==> r.sent[k + 1] == o.sent[k]
  {
    Outcome(o.verdict, [first] + o.sent)
  }
}
