/** The rules about VLAN trunking and VLANs: `test_vtp_password`
    (app.py:232-243) and `test_igmp_snooping` (app.py:342-350).

    As in the per-interface rules, the switch is a function from a command to
    the text `read_all` returns for it, and each outcome records the commands
    sent, in order. */
module VlanRules {
  import opened Strings
  import opened Verdicts
  import opened Extractors

  const VTP_STATUS := "show vtp status\n"
  const VTP_PASSWORD := "show vtp password\n"
  const VLAN_BRIEF := "show vlan brief\n"

  // ---------------------------------------------------------------------------
  // test_vtp_password

  /** `test_vtp_password`: read the VTP operating mode (the rest of its line,
      minus its last character); a switch in transparent mode passes without
      a second command; any other mode needs a password reply holding a `:`.
      A status reply without the mode field breaks the rule off. */
  function VtpRule(device: string -> string): (o: Outcome)
    ensures 1 <= |o.sent| <= 2 && o.sent[0] == VTP_STATUS
    ensures |o.sent| == 2 ==> o.sent[1] == VTP_PASSWORD
    ensures o.verdict == Broken(NoMatch) <==> Field(device(VTP_STATUS), "VTP Operating Mode").None?
    ensures |o.sent| == 2 <==> Field(device(VTP_STATUS), "VTP Operating Mode").Some?
                               && DropLast(Field(device(VTP_STATUS), "VTP Operating Mode").value) != "Transparent"
    ensures o.verdict == Fail(VtpNoPassword) <==>
              |o.sent| == 2 && !exists i: nat :: OccursAt(device(VTP_PASSWORD), ":", i)
    ensures o.verdict == Pass || o.verdict == Fail(VtpNoPassword) || o.verdict == Broken(NoMatch)
  {
    match Field(device(VTP_STATUS), "VTP Operating Mode")
    case None => Outcome(Broken(NoMatch), [VTP_STATUS])
    case Some(mode) =>
      if DropLast(mode) == "Transparent" then Outcome(Pass, [VTP_STATUS])
      else
        var verdict := if Contains(device(VTP_PASSWORD), ":") then Pass else Fail(VtpNoPassword);
        Outcome(verdict, [VTP_STATUS, VTP_PASSWORD])
  }

  /** A transparent switch is judged on its status reply alone: whatever the
      switch would answer to the password query, the outcome is the same. */
  lemma TransparentIgnoresPassword(device: string -> string, other: string -> string)
    requires device(VTP_STATUS) == other(VTP_STATUS)
    requires Field(device(VTP_STATUS), "VTP Operating Mode").Some?
    requires DropLast(Field(device(VTP_STATUS), "VTP Operating Mode").value) == "Transparent"
    ensures VtpRule(device) == VtpRule(other) == Outcome(Pass, [VTP_STATUS])
  {
  }

  // ---------------------------------------------------------------------------
  // test_igmp_snooping

  /** The query for one VLAN; the two spaces after `ip` are part of the command. */
  function IgmpQuery(id: string): string
  {
    "show ip  igmp snooping vlan " + id + " | begin Vlan " + id + "\n"
  }

  /** Line 3 of the reply states the snooping status; snooping is off when that
      line contains `Disabled`, and a reply of fewer than four lines cannot be
      read. */
  function IgmpProbe(reply: string): (p: Probe)
    ensures p == Unparseable <==> Count(reply, '\n') < 3
    ensures p == Offending ==>
              Count(reply, '\n') >= 3 && exists i: nat :: OccursAt(Split(reply, '\n')[3], "Disabled", i)
    ensures Count(reply, '\n') >= 3 && (exists i: nat :: OccursAt(Split(reply, '\n')[3], "Disabled", i)) ==>
              p == Offending
  {
    var lines := Split(reply, '\n');
    if |lines| < 4 then Unparseable
    else if Contains(lines[3], "Disabled") then Offending
    else Compliant
  }

  /** The VLAN numbers, in order. */
  function Ids(vlans: seq<Vlan>): (ids: seq<string>)
    ensures |ids| == |vlans|
    ensures forall k :: 0 <= k < |vlans| ==> ids[k] == vlans[k].id
  {
    if vlans == [] then [] else Ids(vlans[..|vlans| - 1]) + [vlans[|vlans| - 1].id]
  }

  /** The loop over the VLANs `ids`: query each in order and stop at the first
      reply that cannot be read or shows snooping off; pass when there is none. */
  function Sweep(query: string -> string, judge: string -> Probe, device: string -> string, ids: seq<string>): (o: Outcome)
    ensures |o.sent| <= |ids|
    ensures forall k :: 0 <= k < |o.sent| ==> o.sent[k] == query(ids[k])
    ensures o.verdict == Pass ==> |o.sent| == |ids|
    ensures o.verdict != Pass ==>
              0 < |o.sent| && (o.verdict == Broken(LineMissing) || o.verdict == Fail(IgmpSnoopingOff(ids[|o.sent| - 1])))
  {
    var ps := Probes(query, judge, device, ids);
    var k := FirstIn(ps, {Unparseable, Offending}, 0);
    if k == |ids| then Outcome(Pass, Queries(query, ids))
    else
      assert forall j :: 0 <= j <= k ==> ids[..k + 1][j] == ids[j];
      var verdict := if ps[k] == Unparseable then Broken(LineMissing) else Fail(IgmpSnoopingOff(ids[k]));
      Outcome(verdict, Queries(query, ids[..k + 1]))
  }

  /** The whole rule: `show vlan brief` first, then the loop over the active VLANs. */
  function IgmpSnooping(device: string -> string): (o: Outcome)
    ensures |o.sent| >= 1 && o.sent[0] == VLAN_BRIEF
    ensures |o.sent| <= 1 + |AllVlans(device(VLAN_BRIEF))|
    ensures forall k :: 0 <= k < |o.sent| - 1 ==> o.sent[k + 1] == IgmpQuery(AllVlans(device(VLAN_BRIEF))[k].id)
    ensures o.verdict == Pass <==>
              forall v :: v in AllVlans(device(VLAN_BRIEF)) ==> ProbeOf(IgmpQuery, IgmpProbe, device, v.id) == Compliant
  {
    var vlans := AllVlans(device(VLAN_BRIEF));
    SweepAfter(VLAN_BRIEF, IgmpQuery, IgmpProbe, device, vlans);
    After(VLAN_BRIEF, Sweep(IgmpQuery, IgmpProbe, device, Ids(vlans)))
  }

  /** A first command and then the loop over a list of VLANs: that command,
      then one query per VLAN in list order, passing exactly when every
      listed VLAN is compliant. */
  lemma SweepAfter(first: string, query: string -> string, judge: string -> Probe, device: string -> string, vlans: seq<Vlan>)
    ensures var o := After(first, Sweep(query, judge, device, Ids(vlans)));
            && |o.sent| >= 1 && o.sent[0] == first && |o.sent| <= 1 + |vlans|
            && (forall k :: 0 <= k < |o.sent| - 1 ==> o.sent[k + 1] == query(vlans[k].id))
            && (o.verdict == Pass <==> forall v :: v in vlans ==> ProbeOf(query, judge, device, v.id) == Compliant)
  {
    var ids := Ids(vlans);
    var w := Sweep(query, judge, device, ids);
    var o := After(first, w);
    SweepVlansVerdict(query, judge, device, vlans);
    forall k | 0 <= k < |o.sent| - 1
      ensures o.sent[k + 1] == query(vlans[k].id)
    {
      assert o.sent[k + 1] == w.sent[k] == query(ids[k]);
    }
  }

  /** Over a list of VLANs, the loop passes exactly when every listed VLAN is
      compliant. */
  lemma SweepVlansVerdict(query: string -> string, judge: string -> Probe, device: string -> string, vlans: seq<Vlan>)
    ensures Sweep(query, judge, device, Ids(vlans)).verdict == Pass <==>
              forall v :: v in vlans ==> ProbeOf(query, judge, device, v.id) == Compliant
  {
    SweepVerdict(query, judge, device, Ids(vlans));
    assert forall v :: v in vlans ==> exists k :: 0 <= k < |vlans| && v == vlans[k];
  }

  /** The loop stops at VLAN `k` when the VLANs before it are compliant and
      its own reply cannot be read or shows snooping off: it has queried the
      VLANs up to `k` and no later one, and it broke off or failed naming
      VLAN `k` according to that reply. */
  lemma SweepStops(query: string -> string, judge: string -> Probe, device: string -> string, ids: seq<string>, k: nat)
    requires k < |ids|
    requires forall j :: 0 <= j < k ==> ProbeOf(query, judge, device, ids[j]) == Compliant
    requires ProbeOf(query, judge, device, ids[k]) != Compliant
    ensures Sweep(query, judge, device, ids)
            == Outcome(if ProbeOf(query, judge, device, ids[k]) == Unparseable then Broken(LineMissing)
                       else Fail(IgmpSnoopingOff(ids[k])),
                       Queries(query, ids[..k + 1]))
  {
    var ps := Probes(query, judge, device, ids);
    FirstInIs(ps, {Unparseable, Offending}, 0, k);
  }

  /** A loop over compliant VLANs only queries them all and passes. */
  lemma SweepPasses(query: string -> string, judge: string -> Probe, device: string -> string, ids: seq<string>)
    requires forall j :: 0 <= j < |ids| ==> ProbeOf(query, judge, device, ids[j]) == Compliant
    ensures Sweep(query, judge, device, ids) == Outcome(Pass, Queries(query, ids))
  {
    var ps := Probes(query, judge, device, ids);
    FirstInIs(ps, {Unparseable, Offending}, 0, |ids|);
  }

  /** The loop passes exactly when every VLAN is compliant; otherwise it
      stopped at the first VLAN that is not. */
  lemma SweepVerdict(query: string -> string, judge: string -> Probe, device: string -> string, ids: seq<string>)
    ensures Sweep(query, judge, device, ids).verdict == Pass <==>
              forall k :: 0 <= k < |ids| ==> ProbeOf(query, judge, device, ids[k]) == Compliant
    ensures Sweep(query, judge, device, ids).verdict != Pass ==>
              exists k :: 0 <= k < |ids|
                && (forall j :: 0 <= j < k ==> ProbeOf(query, judge, device, ids[j]) == Compliant)
                && ProbeOf(query, judge, device, ids[k]) != Compliant
  {
    var ps := Probes(query, judge, device, ids);
    var k := FirstIn(ps, {Unparseable, Offending}, 0);
    if k < |ids| {
      assert ps[k] in {Unparseable, Offending};
      forall j | 0 <= j < k
        ensures ProbeOf(query, judge, device, ids[j]) == Compliant
      {
        assert ps[j] !in {Unparseable, Offending};
      }
      SweepStops(query, judge, device, ids, k);
    } else {
      forall j | 0 <= j < |ids|
        ensures ProbeOf(query, judge, device, ids[j]) == Compliant
      {
        assert ps[j] !in {Unparseable, Offending};
      }
    }
  }

  /** `FirstIn` is `k` when no probe from `i` up to `k` halts and the one at
      `k` does, or `k` is the end. */
  lemma {:induction false} FirstInIs(ps: seq<Probe>, halting: set<Probe>, i: nat, k: nat)
    requires i <= k <= |ps|
    requires forall j :: i <= j < k ==> ps[j] !in halting
    requires k < |ps| ==> ps[k] in halting
    ensures FirstIn(ps, halting, i) == k
    decreases k - i
  {
    if i < k {
      FirstInIs(ps, halting, i + 1, k);
    }
  }

  /** The VLAN numbers of a list, one VLAN longer. */
  lemma IdsSnoc(vlans: seq<Vlan>, i: nat)
    requires i < |vlans|
    ensures Ids(vlans[..i + 1]) == Ids(vlans[..i]) + [vlans[i].id]
  {
    assert vlans[..i + 1][..i] == vlans[..i];
  }

  /** Every VLAN in `ids` has a reply showing snooping on. */
  ghost predicate AllCompliant(query: string -> string, judge: string -> Probe, device: string -> string, ids: seq<string>)
  {
    forall j :: 0 <= j < |ids| ==> ProbeOf(query, judge, device, ids[j]) == Compliant
  }

  /** One more VLAN queried adds its command, and keeps the VLANs so far
      compliant when its own reply is. */
  lemma QueriedSnoc(query: string -> string, judge: string -> Probe, device: string -> string, seen: seq<string>, id: string)
    ensures Queries(query, seen + [id]) == Queries(query, seen) + [query(id)]
    ensures AllCompliant(query, judge, device, seen) && ProbeOf(query, judge, device, id) == Compliant
            ==> AllCompliant(query, judge, device, seen + [id])
  {
    assert (seen + [id])[..|seen|] == seen;
    assert forall j :: 0 <= j < |seen| ==> (seen + [id])[j] == seen[j];
  }

  /** A VLAN whose reply is not compliant, after compliant ones, ends the loop there. */
  lemma SweepStepStops(query: string -> string, judge: string -> Probe, device: string -> string, vlans: seq<Vlan>, i: nat, seen: seq<string>)
    requires i < |vlans| && seen == Ids(vlans[..i])
    requires AllCompliant(query, judge, device, seen)
    requires ProbeOf(query, judge, device, vlans[i].id) != Compliant
    ensures Sweep(query, judge, device, Ids(vlans))
            == Outcome(if ProbeOf(query, judge, device, vlans[i].id) == Unparseable then Broken(LineMissing)
                       else Fail(IgmpSnoopingOff(vlans[i].id)),
                       Queries(query, seen + [vlans[i].id]))
  {
    var ids := Ids(vlans);
    IdsSnoc(vlans, i);
    assert ids[..i + 1] == seen + [vlans[i].id] by {
      assert Ids(vlans[..i + 1]) == ids[..i + 1] by {
        assert forall k :: 0 <= k <= i ==> vlans[..i + 1][k] == vlans[k];
      }
    }
    assert forall j :: 0 <= j < i ==> ids[j] == seen[j];
    SweepStops(query, judge, device, ids, i);
  }

  /** The `for vlan in vlans` loop of `test_igmp_snooping`. */
  method SweepVlans(query: string -> string, judge: string -> Probe, device: string -> string, vlans: seq<Vlan>)
      returns (verdict: Verdict, sent: seq<string>)
    ensures Outcome(verdict, sent) == Sweep(query, judge, device, Ids(vlans))
  {
    ghost var seen: seq<string> := [];
    sent := [];
    var i := 0;
    while i < |vlans|
      invariant 0 <= i <= |vlans|
      invariant seen == Ids(vlans[..i])
      invariant AllCompliant(query, judge, device, seen)
      invariant sent == Queries(query, seen)
    {
      var id := vlans[i].id;
      IdsSnoc(vlans, i);
      QueriedSnoc(query, judge, device, seen, id);
      sent := sent + [query(id)];
      var p := ProbeOf(query, judge, device, id);
      if p != Compliant {
        SweepStepStops(query, judge, device, vlans, i, seen);
        verdict := if p == Unparseable then Broken(LineMissing) else Fail(IgmpSnoopingOff(id));
        return;
      }
      seen := seen + [id];
      i := i + 1;
    }
    assert vlans[..i] == vlans;
    SweepPasses(query, judge, device, seen);
    verdict := Pass;
  }

  /** `test_igmp_snooping`. */
  method IgmpSnoopingRule(device: string -> string) returns (o: Outcome)
    ensures o == IgmpSnooping(device)
  {
    var vlans := AllVlans(device(VLAN_BRIEF));
    var verdict, sent := SweepVlans(IgmpQuery, IgmpProbe, device, vlans);
    o := After(VLAN_BRIEF, Outcome(verdict, sent));
  }
}
