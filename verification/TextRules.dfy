/** The rules that send one command and judge its whole reply with a line
    count, a substring or one token of one line. Each takes the text `read_all`
    returned for its command.

    `show running-config | include X` answers with the echoed command, the
    matching configuration lines and the prompt, so the scanner reads a reply
    of four or more lines (three or more newlines) as "X is configured" and a
    shorter one as "X is not". */
module TextRules {
  import opened Strings
  import opened Verdicts
  import opened Extractors

  /** The reply holds at least one configuration line: more than three
      lines, that is at least three newlines. */
  function Configured(reply: string): (b: bool)
    ensures b <==> Count(reply, '\n') >= 3
  {
    |Split(reply, '\n')| > 3
  }

  /** The reply holds no configuration line: fewer than four lines. The two
      thresholds the rules use are exact complements. */
  function NotConfigured(reply: string): (b: bool)
    ensures b <==> !Configured(reply)
  {
    |Split(reply, '\n')| < 4
  }

  // ---------------------------------------------------------------------------
  // Unwanted services: test_telnet, test_tcp_small_servers,
  // test_udp_small_servers, test_service_finger

  datatype Service = Telnet | TcpSmallServers | UdpSmallServers | Finger

  function ServiceWarning(s: Service): Warning
  {
    match s
    case Telnet => TelnetOn
    case TcpSmallServers => TcpSmallServersOn
    case UdpSmallServers => UdpSmallServersOn
    case Finger => FingerOn
  }

  /** A service rule warns exactly when the reply to its filter has at least
      three newlines, and never fails. */
  function ServiceRule(s: Service, reply: string): (v: Verdict)
    ensures v == Pass || v == Warn([ServiceWarning(s)])
    ensures v != Pass <==> Count(reply, '\n') >= 3
  {
    if Configured(reply) then Warn([ServiceWarning(s)]) else Pass
  }

  // ---------------------------------------------------------------------------
  // Required safeguards: test_dhcp, test_stp_root_guard, test_aaa

  datatype Safeguard = DhcpSnooping | RootGuard | Aaa

  /** What the scanner reports when a safeguard is missing: DHCP snooping is
      required, the other two are advised. */
  function Missing(g: Safeguard): Verdict
  {
    match g
    case DhcpSnooping => Fail(NoDhcpSnooping)
    case RootGuard => Warn([NoRootGuard])
    case Aaa => Warn([NoAaa])
  }

  /** A safeguard rule reports the safeguard missing exactly when its reply
      has at most two newlines, and passes otherwise: the opposite threshold
      of `ServiceRule`. */
  function SafeguardRule(g: Safeguard, reply: string): (v: Verdict)
    ensures v == Pass || v == Missing(g)
    ensures v != Pass <==> Count(reply, '\n') <= 2
  {
    if NotConfigured(reply) then Missing(g) else Pass
  }

  // ---------------------------------------------------------------------------
  // Substring rules: test_acl, test_802_1x, test_stp_bpduguard, test_stp_loopguard

  datatype Token = DenyAll | Dot1x | BpduGuard | LoopGuard

  /** The text whose presence anywhere in the reply condemns it. */
  function TokenText(t: Token): string
  {
    match t
    case DenyAll => "deny   any"
    case Dot1x => "Disabled"
    case BpduGuard => "disabled"
    case LoopGuard => "disabled"
  }

  function Offence(t: Token): Verdict
  {
    match t
    case DenyAll => Warn([DenyAny])
    case Dot1x => Fail(Dot1xDisabled)
    case BpduGuard => Fail(BpduGuardDisabled)
    case LoopGuard => Fail(LoopGuardDisabled)
  }

  /** A substring rule reports its offence exactly when its text occurs
      somewhere in the reply. */
  function TokenRule(t: Token, reply: string): (v: Verdict)
    ensures v == Pass || v == Offence(t)
    ensures v != Pass <==> exists i: nat :: OccursAt(reply, TokenText(t), i)
  {
    if Contains(reply, TokenText(t)) then Offence(t) else Pass
  }

  // ---------------------------------------------------------------------------
  // test_enable_password (app.py:215-229)

  /** The line at index 2 of the reply (the first configuration line), when there are four lines. */
  function ConfigLine(reply: string): string
    requires Count(reply, '\n') >= 3
  {
    Split(reply, '\n')[2]
  }

  /** `enable password 7 <hash>` has four words; `enable password <text>` has three. */
  function EnablePasswordRule(reply: string): (v: Verdict)
    ensures Count(reply, '\n') <= 2 ==> v == Warn([NoEnablePassword])
    ensures Count(reply, '\n') >= 3 ==>
              (v == Warn([EnablePasswordPlain]) <==> Count(ConfigLine(reply), ' ') <= 2)
    ensures Count(reply, '\n') >= 3 ==>
              (v == Pass <==> Count(ConfigLine(reply), ' ') >= 3)
  {
    var lines := Split(reply, '\n');
    if |lines| < 4 then Warn([NoEnablePassword])
    else if |Split(lines[2], ' ')| < 4 then Warn([EnablePasswordPlain])
    else Pass
  }

  // ---------------------------------------------------------------------------
  // test_vmps (app.py:370-380)

  /** The rule warns when no VMPS server is configured; otherwise it reads the
      server's address as the third word of the configuration line, and breaks
      off when that line has fewer than three words. */
  function VmpsRule(reply: string): (v: Verdict)
    ensures v == Warn([NoVmps]) <==> Count(reply, '\n') <= 2
    ensures v == Broken(LineMissing) <==> Count(reply, '\n') >= 3 && Count(ConfigLine(reply), ' ') < 2
    ensures v == Pass || v == Warn([NoVmps]) || v == Broken(LineMissing)
  {
    var lines := Split(reply, '\n');
    if |lines| < 4 then Warn([NoVmps])
    else if |Split(lines[2], ' ')| < 3 then Broken(LineMissing)
    else Pass
  }

  // ---------------------------------------------------------------------------
  // test_default_gateway (app.py:471-481)

  /** A switch with a default gateway is reachable from outside: the rule warns
      with the gateway's address, the third word of the configuration line. */
  function GatewayRule(reply: string): (v: Verdict)
    ensures v == Pass <==> Count(reply, '\n') <= 2
    ensures v == Broken(LineMissing) <==> Count(reply, '\n') >= 3 && Count(ConfigLine(reply), ' ') < 2
    ensures v.Warn? ==> |v.warnings| == 1 && v.warnings[0].GatewayReachable?
                        && ' ' !in v.warnings[0].address && '\n' !in v.warnings[0].address
  {
    var lines := Split(reply, '\n');
    if |lines| < 4 then Pass
    else
      var words := Split(lines[2], ' ');
      if |words| < 3 then Broken(LineMissing)
      else
        assert '\n' !in lines[2];
        assert forall c :: c in words[2] ==> c in lines[2] by {
          assert Join(words, ' ') == lines[2];
          JoinHolds(words, 2, ' ');
        }
        Warn([GatewayReachable(words[2])])
  }

  /** Every character of a piece is a character of what `Join` glues. */
  lemma {:induction false} JoinHolds(pieces: seq<string>, k: nat, sep: char)
    requires k < |pieces|
    ensures forall c :: c in pieces[k] ==> c in Join(pieces, sep)
  {
    if |pieces| > 1 {
      if k > 0 {
        JoinHolds(pieces[1..], k - 1, sep);
        assert pieces[1..][k - 1] == pieces[k];
      }
      assert Join(pieces, sep) == pieces[0] + ([sep] + Join(pieces[1..], sep));
    }
  }

  /** For a configuration line of the words `words` (`ip default-gateway
      <address>`) the rule warns with exactly the third word, a trailing `\r`
      included, and breaks off when there is no third word. */
  lemma GatewayAddress(lines: seq<string>, words: seq<string>)
    requires |lines| >= 4 && |words| > 0 && lines[2] == Join(words, ' ')
    requires forall k :: 0 <= k < |lines| ==> '\n' !in lines[k]
    requires forall k :: 0 <= k < |words| ==> ' ' !in words[k]
    ensures GatewayRule(Join(lines, '\n'))
            == (if |words| >= 3 then Warn([GatewayReachable(words[2])]) else Broken(LineMissing))
  {
    SplitJoin(lines, '\n');
    SplitJoin(words, ' ');
  }

  /** An enable password is judged encrypted exactly when its configuration
      line has at least four words. */
  lemma EnablePasswordWords(lines: seq<string>, words: seq<string>)
    requires |lines| >= 4 && |words| > 0 && lines[2] == Join(words, ' ')
    requires forall k :: 0 <= k < |lines| ==> '\n' !in lines[k]
    requires forall k :: 0 <= k < |words| ==> ' ' !in words[k]
    ensures EnablePasswordRule(Join(lines, '\n')) == (if |words| >= 4 then Pass else Warn([EnablePasswordPlain]))
  {
    SplitJoin(lines, '\n');
    SplitJoin(words, ' ');
  }

  // ---------------------------------------------------------------------------
  // test_dtp (app.py:257-264)

  /** The DTP summary is the line before the last, without its first and last
      character; it starts with the number of ports running DTP. A reply
      without a newline has no such line. */
  function DtpRule(reply: string): (v: Verdict)
    ensures v == Broken(LineMissing) <==> Count(reply, '\n') == 0
    ensures v.Fail? ==> v.failure.DtpRunning? && ' ' !in v.failure.ports
    ensures v == Pass ==> Count(reply, '\n') > 0
  {
    LinesVerdict(Split(reply, '\n'))
  }

  /** The verdict on a reply already split into lines. */
  function LinesVerdict(lines: seq<string>): (v: Verdict)
    ensures v == Broken(LineMissing) <==> |lines| < 2
    ensures v.Fail? ==> v.failure.DtpRunning? && ' ' !in v.failure.ports
  {
    if |lines| < 2 then Broken(LineMissing)
    else SummaryVerdict(Inner(lines[|lines| - 2]))
  }

  /** The verdict on the DTP summary: pass when it starts with `0`, otherwise
      fail naming its first space-separated word. */
  function SummaryVerdict(summary: string): (v: Verdict)
    ensures v.Fail? ==> v.failure.DtpRunning? && ' ' !in v.failure.ports
    ensures v == Pass || v.Fail?
  {
    if StartsWith(summary, "0") then Pass
    else Fail(DtpRunning(Split(summary, ' ')[0]))
  }

  /** A summary line made of the words `words` between a leading and a
      trailing character (` 3 interfaces using DTP\r`), followed by one more
      line: the rule passes when the first word starts with `0` and otherwise
      fails naming that word, the empty word included (a summary line of two
      or fewer characters, or one whose inner text starts with a space). */
  lemma DtpCount(lines: seq<string>, words: seq<string>)
    requires |lines| >= 2 && |words| > 0 && Inner(lines[|lines| - 2]) == Join(words, ' ')
    requires forall k :: 0 <= k < |lines| ==> '\n' !in lines[k]
    requires forall k :: 0 <= k < |words| ==> ' ' !in words[k]
    ensures DtpRule(Join(lines, '\n'))
            == (if StartsWith(words[0], "0") then Pass else Fail(DtpRunning(words[0])))
  {
    SplitJoin(lines, '\n');
    SummaryWords(words);
  }

  /** A summary line of two or fewer characters leaves the empty text, which
      does not start with `0`: the rule fails naming the empty word. */
  lemma DtpShortSummary(lines: seq<string>)
    requires |lines| >= 2 && |lines[|lines| - 2]| <= 2
    requires forall k :: 0 <= k < |lines| ==> '\n' !in lines[k]
    ensures DtpRule(Join(lines, '\n')) == Fail(DtpRunning(""))
  {
    DtpCount(lines, [""]);
  }

  /** A summary made of the words `words` passes when the first word starts
      with `0` and otherwise fails naming that word. */
  lemma SummaryWords(words: seq<string>)
    requires |words| > 0
    requires forall k :: 0 <= k < |words| ==> ' ' !in words[k]
    ensures SummaryVerdict(Join(words, ' '))
            == (if StartsWith(words[0], "0") then Pass else Fail(DtpRunning(words[0])))
  {
    SplitJoin(words, ' ');
    LeadingChar(words);
  }

  /** Words glued with spaces start with `0` exactly when the first word does. */
  lemma LeadingChar(words: seq<string>)
    requires |words| > 0
    ensures StartsWith(Join(words, ' '), "0") <==> StartsWith(words[0], "0")
  {
    if |words| > 1 {
      assert Join(words, ' ') == words[0] + ([' '] + Join(words[1..], ' '));
    }
  }

  // ---------------------------------------------------------------------------
  // test_errdisable (app.py:361-367)

  /** The warning for one row: one when its detection is disabled. */
  function RowWarning(d: Detection): seq<Warning>
  {
    if d.disabled then [ErrdisableOff(d.cause)] else []
  }

  /** A row is warned about under cause `c` once when it is a disabled row of
      cause `c`, and not at all otherwise. */
  lemma RowCount(d: Detection, c: string)
    ensures multiset(RowWarning(d))[ErrdisableOff(c)] == multiset([d])[Detection(c, true)]
  {
    if d.disabled && d.cause == c {
      assert d == Detection(c, true);
    }
  }

  /** One warning per row whose detection is disabled, in row order. */
  function OffFeatures(ds: seq<Detection>): (ws: seq<Warning>)
    ensures |ws| <= |ds|
    ensures forall w :: w in ws ==> w.ErrdisableOff? && Detection(w.feature, true) in ds
    ensures ws == [] <==> forall d :: d in ds ==> !d.disabled
  {
    if ds == [] then []
    else
      assert forall d :: d in ds[1..] ==> d in ds;
      RowWarning(ds[0]) + OffFeatures(ds[1..])
  }

  /** Every disabled row is warned about once: a cause appears among the
      warnings as often as a disabled row names it. */
  lemma {:induction false} OffFeaturesCount(ds: seq<Detection>, c: string)
    ensures multiset(OffFeatures(ds))[ErrdisableOff(c)] == multiset(ds)[Detection(c, true)]
  {
    if ds != [] {
      OffFeaturesCount(ds[1..], c);
      var w := ErrdisableOff(c);
      var rest := OffFeatures(ds[1..]);
      assert multiset(RowWarning(ds[0]) + rest)[w] == multiset(RowWarning(ds[0]))[w] + multiset(rest)[w];
      RowCount(ds[0], c);
      assert ds == [ds[0]] + ds[1..];
    }
  }

  /** The warnings for two runs of rows are those for the first run followed
      by those for the second: the warnings keep the order of the rows. */
  lemma {:induction false} OffFeaturesAppend(a: seq<Detection>, b: seq<Detection>)
    ensures OffFeatures(a + b) == OffFeatures(a) + OffFeatures(b)
  {
    if a != [] {
      var head := RowWarning(a[0]);
      assert (a + b)[0] == a[0];
      assert (a + b)[1..] == a[1..] + b;
      assert OffFeatures(a + b) == head + OffFeatures(a[1..] + b);
      OffFeaturesAppend(a[1..], b);
      assert OffFeatures(a) == head + OffFeatures(a[1..]);
    } else {
      assert a + b == b;
    }
  }

  /** A single row gives its warning when it is disabled and none otherwise. */
  lemma OffFeaturesRow(d: Detection)
    ensures OffFeatures([d]) == if d.disabled then [ErrdisableOff(d.cause)] else []
  {
    assert [d][1..] == [];
  }

  /** The rule warns once for every row whose detection the switch has turned
      off, and passes when there is none. */
  function ErrdisableRule(reply: string): (v: Verdict)
    ensures v == Pass || v.Warn?
    ensures v == Pass <==> forall d :: d in Detections(reply) ==> !d.disabled
    ensures forall w :: w in Warnings(v) ==> w.ErrdisableOff? && Detection(w.feature, true) in Detections(reply)
  {
    Warned(OffFeatures(Detections(reply)))
  }

  /** The rule's warnings count the disabled rows of the reply cause by cause. */
  lemma ErrdisableCount(reply: string, c: string)
    ensures multiset(Warnings(ErrdisableRule(reply)))[ErrdisableOff(c)]
            == multiset(Detections(reply))[Detection(c, true)]
  {
    OffFeaturesCount(Detections(reply), c);
  }
}
