# switch-ios-scanner in Dafny

The model covers the core of the Cisco IOS switch auditor `app.py`. It sends
`show` commands to a switch, reads each reply across `--More-- ` pages, and
turns the text into a verdict for each compliance rule. A rule passes, warns
(`warnings.warn`), fails (the rule's own exception), or breaks off when an
unexpected reply makes Python raise.

The model has seven modules:

- `Strings` holds the Python string operations the rules use: `split` on one
  character with its `Join` inverse, the substring test `in`, and the slices
  `[:-1]` and `[1:-1]`.
- `Reader` models `read_all`. The connection is a `Session` object. It holds
  the chunks the switch will still send and the log of what was written to
  it. `ReadAll` is the pagination loop, proved against the `Reply` and
  `Pages` functions.
- `Verdicts` holds the verdict and outcome values. It also holds the shared
  vocabulary of the multi-command rules: a `Probe` is what one reply says
  about one interface or VLAN.
- `Extractors` holds the regular-expression searches, written as the
  position scanners they amount to:
  - `all_interfaces`, `all_vlans`, the errdisable rows and the `key +: value`
    field searches;
  - the CDP status search;
  - the `line con 0` block.

  Each scanner tries the pattern at every index, resumes after a match as
  `findall` does, and resolves the greedy backtracking by hand.
- `TextRules` holds the rules that judge one reply: line-count thresholds,
  substring tokens, and one word of one line.
- `ConsoleRules` holds the two flag-scanning loops: the console password and
  TACACS+.
- `InterfaceRules` and `VlanRules` hold the rules that send several commands.

In a multi-command rule the switch is a function `device` from a command to
the text `read_all` returns for it. Each outcome lists the commands sent, in
order.

The per-interface loop and the per-VLAN loop are written over three function
parameters:

- `query`: the command sent for one item;
- `judge`: what one reply says about that item;
- `device`: the switch.

The concrete rules instantiate these with their own command, probe function
and failure. The loops are proved once for every instance.

Where Python would raise, the model returns `Broken`:

- `.groups()` on a failed search gives `Broken(NoMatch)`;
- an index past the end of a list gives `Broken(LineMissing)`.

## Model

| member | source | states |
|---|---|---|
| Strings.Split | app.py:62 | `split` on one character gives one piece more than there are separators, no piece holds the separator, and joining the pieces gives back the text |
| Strings.SplitJoin | app.py:62 | splitting the join of separator-free pieces gives back exactly those pieces |
| Strings.Contains | app.py:239 | the substring test `in` holds exactly when the text occurs at some index |
| Strings.DropLast | app.py:236 | `[:-1]` drops exactly the last character, and leaves the empty text empty |
| Strings.Inner | app.py:189 | `[1:-1]` drops the first and last character |
| Reader.ReadAll | app.py:70-84 | writes the command, then one space per page; returns the first chunk and each continuation, in order, with the `--More-- ` fragments kept; leaves the unread chunks pending |
| Reader.ReplyGathers | app.py:73-76 | the reply is what was gathered after `Pages` reads; every intermediate text ends with `--More-- ` and the reply does not |
| Reader.ReplyIsConsumedChunks | app.py:79-82 | `read_all`'s answer is the concatenation of the first `Pages + 1` chunks, and at most as many chunks are read as the switch offers |
| Reader.Pages | app.py:74-76 | the number of spaces sent never exceeds the number of continuation chunks |
| Reader.Session.Read | app.py:73 | a read returns the next chunk and consumes it |
| Reader.Session.Write | app.py:72 | a write appends to the log of what was sent |
| Reader.Answers | app.py:61-64 | the login check accepts a `show version` reply exactly when it has at least three newlines |
| Extractors.Findall | app.py:89-90 | `findall` from an index finds nothing exactly when the pattern fails at every index from there on |
| Extractors.FindallScanned | app.py:89-90 | `findall` lists the items of matches at increasing positions, each match ending before the next one starts, and every index where the pattern matches lies inside one of those matches |
| Extractors.ScannedIsFindall | app.py:89-90 | only `findall`'s result and positions meet that description |
| Extractors.ScannedFirst | app.py:89-90 | when the pattern matches where the scan starts, the scan begins with that match and resumes where it ends |
| Extractors.StateAt | app.py:89 | the state word read at an index occurs there and is one of `notconnect`, `connected` and `disabled`; each of the three is read where it occurs |
| Extractors.InterfaceAtSound | app.py:89-90 | a match at an index is an interface row there: a port starting with `Fa` or `Gi` followed by digits and slashes, one or more spaces, then its state; the match ends after the state |
| Extractors.InterfaceAtFinds | app.py:89-90 | every interface row of the text is a match at its index, with exactly that port and state |
| Extractors.PortAt | app.py:89 | a port name followed by a space is exactly what the port part of the pattern reads |
| Extractors.AllInterfaces | app.py:87-92 | every extracted pair has the interface shape; the list is empty exactly when no index matches (an empty list, not an error) |
| Extractors.InterfaceStarts | app.py:89-91 | one match position per extracted pair, each inside the text |
| Extractors.AllInterfacesSound | app.py:87-92 | the k-th pair is the interface row of the text at the k-th match position |
| Extractors.AllInterfacesOrdered | app.py:87-92 | each match ends before the next one starts, so the pairs come in order of appearance |
| Extractors.AllInterfacesComplete | app.py:87-92 | every interface row of the text lies within one of the matches, so none is missed |
| Extractors.VlanAtSound | app.py:97 | a match at an index is a VLAN row there: the number, one or more spaces, then the name, one or more spaces and `active`, or an empty name when two or more spaces precede `active`; the match ends at the end of that line |
| Extractors.ActiveAtOccurs | app.py:97 | the word `active` spelled out character by character is the literal `active` occurring at that index |
| Extractors.VlanMatchSound | app.py:97 | over the measured runs, a match is a VLAN row with the row's end |
| Extractors.VlanMatchNamedRow | app.py:97 | the longest letter-digit run followed by one or more spaces and `active` gives a VLAN row with that name, ending with the line of `active` |
| Extractors.VlanMatchUnnamedRow | app.py:97 | two or more spaces after the number and `active` there give a VLAN row with the empty name, ending with the line of `active` |
| Extractors.VlanRowNamed | app.py:97 | a number, spaces, a non-empty name, spaces and `active` make a VLAN row ending with the line of `active` |
| Extractors.VlanRowUnnamed | app.py:97 | a number, two or more spaces and `active` make a VLAN row with the empty name |
| Extractors.VlanAtShape | app.py:97 | a matched number is a non-empty digit run and a matched name a letter-digit run |
| Extractors.VlanAtFinds | app.py:97 | every row with a non-empty name is a match at its index, with exactly that number and name |
| Extractors.VlanAtNamed | app.py:97 | with the longest name followed by spaces and `active`, the match takes that name |
| Extractors.VlanAtUnnamed | app.py:97 | a number followed by two or more spaces and `active` is a match with that number |
| Extractors.VlanRowHit | app.py:97 | every VLAN row of the text is a match |
| Extractors.AllVlans | app.py:95-99 | every extracted pair has the VLAN shape; the list is empty exactly when no row marked `active` matches |
| Extractors.VlanStarts | app.py:97-98 | one match position per extracted pair, each inside the text |
| Extractors.AllVlansSound | app.py:95-99 | the k-th pair is the VLAN row of the text at the k-th match position |
| Extractors.AllVlansOrdered | app.py:95-99 | each match ends before the next one starts, so the pairs come in order of appearance |
| Extractors.AllVlansComplete | app.py:95-99 | every VLAN row of the text lies within one of the matches, so none is missed |
| Extractors.DetectionAtSound | app.py:363 | a match at an index is a detection row there: a letter-digit cause, one or more spaces and `Enabled` or `Disabled`; the row is disabled exactly when that word is `Disabled`; the match ends at the end of that line |
| Extractors.DetectionAtFinds | app.py:363 | every detection row of the text is a match at its index, with exactly that cause and state |
| Extractors.Detections | app.py:363 | the row list is empty exactly when no index matches |
| Extractors.DetectionStarts | app.py:363 | one match position per extracted row, each inside the text |
| Extractors.DetectionsSound | app.py:363 | the k-th row is the detection row of the text at the k-th match position |
| Extractors.DetectionsOrdered | app.py:363 | each match ends before the next one starts, so the rows come in order of appearance |
| Extractors.DetectionsComplete | app.py:363 | every detection row of the text lies within one of the matches, so none is missed |
| Extractors.FieldAt | app.py:120 | the field pattern matches at an index exactly when the key, one or more spaces and `: ` are there; the value is the rest of that line after `: `, and holds no newline |
| Extractors.FieldIndex | app.py:120 | the search's leftmost match: no index before it matches, and it matches |
| Extractors.Field | app.py:120 | the field is absent exactly when no index matches; otherwise it is the value at the leftmost matching index |
| Extractors.FieldText | app.py:120 | the value is the text after the key, its spaces and `: ` at the leftmost match, up to the end of that line |
| Extractors.LastOccurrence | app.py:158 | the last occurrence of a text ending by a bound, and no later one |
| Extractors.CdpMatch | app.py:158 | a line matches exactly when some ` is ` has a comma after it; the third group runs from the last such ` is ` before the last comma up to that comma |
| Extractors.CdpLine | app.py:158 | the first line where the pattern matches: no line before it does |
| Extractors.CdpStatus | app.py:158-161 | the search finds nothing exactly when no line matches; otherwise it is the match of the first line that matches |
| Extractors.BlockEnd | app.py:186-188 | the block runs to the first line that does not begin with a space |
| Extractors.BlockFrom | app.py:186-189 | the indented lines with their first and last characters dropped; absent exactly when an empty line is reached inside the block |
| Extractors.ConsoleBlock | app.py:184-189 | line 2 without its last character, then the inner text of each following indented line; absent when there are fewer than three lines or an empty line comes inside the block |
| Extractors.ExtractConsoleBlock | app.py:185-189 | the extraction loop computes `ConsoleBlock` |
| TextRules.Configured | app.py:282 | `len(split) > 3` holds exactly when the reply has at least three newlines |
| TextRules.NotConfigured | app.py:272 | `len(split) < 4` is the exact complement of `Configured` |
| TextRules.ServiceRule | app.py:246-301 | telnet, the TCP and UDP small servers and finger warn exactly when the reply has at least three newlines, and never fail |
| TextRules.SafeguardRule | app.py:267-274 | DHCP snooping fails, and root guard and AAA warn, exactly when the reply has at most two newlines |
| TextRules.TokenRule | app.py:171-339 | the ACL rule (app.py:171-177) warns, and the 802.1X (app.py:312-316), BPDU guard (app.py:320-324) and loop guard (app.py:335-339) rules fail, exactly when their token occurs in the reply |
| TextRules.EnablePasswordRule | app.py:215-229 | no configuration line warns of a missing password; a line of at most three words warns of a plain password; otherwise the rule passes |
| TextRules.EnablePasswordWords | app.py:225-229 | for a configuration line made of given words, the rule passes exactly when there are at least four words |
| TextRules.VmpsRule | app.py:370-380 | warns exactly when no line is configured; breaks off exactly when the configuration line has fewer than three words |
| TextRules.GatewayRule | app.py:471-481 | passes exactly when no gateway is configured; breaks off when the line has fewer than three words; otherwise warns with one address holding no space or newline |
| TextRules.GatewayAddress | app.py:479-481 | the address in the warning is exactly the third word of the configuration line |
| TextRules.JoinHolds | app.py:479 | every character of a piece occurs in the joined text |
| TextRules.DtpRule | app.py:257-264 | breaks off exactly when the reply has no newline; a failure names one space-free word (the verdict on every reply is fixed by `DtpCount`) |
| TextRules.DtpCount | app.py:259-264 | for any reply (its lines) and any summary (its space-separated words, the empty first word included), the rule passes exactly when the first word starts with `0`, and otherwise fails naming that word |
| TextRules.DtpShortSummary | app.py:260-264 | a summary line of two or fewer characters leaves the empty text, so the rule fails naming the empty word |
| TextRules.SummaryWords | app.py:261-264 | a summary made of given words passes exactly when the first word starts with `0`, and otherwise fails naming that word |
| TextRules.LeadingChar | app.py:261 | words joined with spaces start with `0` exactly when the first word does, the empty word included |
| TextRules.OffFeatures | app.py:364-367 | no more warnings than rows; every warning names a disabled row; there are none exactly when no row is disabled |
| TextRules.RowCount | app.py:365-367 | one row is warned about under a cause once when it is a disabled row of that cause, and not at all otherwise |
| TextRules.OffFeaturesCount | app.py:364-367 | each cause is warned about exactly as many times as disabled rows name it: one warning per disabled row |
| TextRules.OffFeaturesAppend | app.py:364-367 | the warnings for two runs of rows are those of the first run followed by those of the second, so the warnings follow the row order |
| TextRules.OffFeaturesRow | app.py:365-367 | a single row gives one warning naming its cause when it is disabled, and none otherwise |
| TextRules.ErrdisableRule | app.py:361-367 | passes exactly when no detection is disabled, and otherwise only warns; each warning names a disabled detection of the reply |
| TextRules.ErrdisableCount | app.py:361-367 | the rule warns about each cause exactly as many times as disabled rows of the reply name it |
| ConsoleRules.EncryptedIsPassword | app.py:196-199 | the encrypted flag is only raised together with the password flag |
| ConsoleRules.FlagsOfSnoc | app.py:193-199 | one more fragment raises exactly the flags it sets; a `login` fragment is not checked for `password` |
| ConsoleRules.ScanConsole | app.py:190-199 | the flag loop computes, for each flag, whether some fragment raises it |
| ConsoleRules.ConsoleVerdict | app.py:201-212 | warns of no login exactly when no fragment enables login; warns of no password exactly when none sets one; warns of a plain password exactly when one is set but none is encrypted; the last two never together; passes exactly when all three flags hold |
| ConsoleRules.ConsolePasswordRule | app.py:180-212 | breaks off when the block cannot be read, and otherwise gives the console verdict of the block's flags |
| ConsoleRules.AnySnoc | app.py:389-393 | one more line raises the host flag when it contains `host`, and otherwise the key flag when it contains `key` |
| ConsoleRules.TacacsRule | app.py:383-400 | warns of no server exactly when no line contains `host`; warns of no key exactly when some line contains `host` and no line without `host` contains `key`; passes exactly when both hold |
| InterfaceRules.PortSecurityProbe | app.py:120-122 | cannot be read exactly when the `Port Security` field is missing; offending exactly when the field lacks `Enabled\r` |
| InterfaceRules.ViolationProbe | app.py:138-140 | cannot be read exactly when the `Violation Mode` field is missing; offending exactly when it holds neither `Restrict\r` nor `Shutdown\r` |
| InterfaceRules.CdpProbe | app.py:158-164 | never breaks the rule off; offending exactly when the status search reads `up` |
| InterfaceRules.Connected | app.py:116-117 | at most one name per listed interface |
| InterfaceRules.ConnectedMembers | app.py:116-117 | a name is queried exactly when some listed interface with that name is in state `connected` |
| InterfaceRules.ConnectedPrefix | app.py:116-117 | the connected interfaces among a prefix of the list are a prefix of all connected interfaces |
| InterfaceRules.ConnectedSnoc | app.py:116-117 | one more interface joins the connected ones exactly when its state is `connected` |
| InterfaceRules.Offenders | app.py:121-122 | no more offenders than queried interfaces |
| InterfaceRules.OffenderMembers | app.py:121-122 | the offenders are exactly the queried interfaces whose reply shows them at fault |
| InterfaceRules.Spaced | app.py:122-123 | the offender string is empty exactly when there is no offender |
| InterfaceRules.SpacedSplits | app.py:122 | the offender string splits back into the offender names, each followed by one space |
| InterfaceRules.SpacedIsJoin | app.py:122 | the offender string is the names joined with spaces, ending in a space |
| InterfaceRules.JoinSnoc | app.py:122 | appending a name appends it and one space |
| InterfaceRules.SeenSnoc | app.py:118-122 | one more queried interface adds its command, adds its name and a space to the offenders when its reply is at fault, and keeps every reply readable when its own is |
| InterfaceRules.Audit | app.py:115-128 | the loop sends one query per connected interface, in order, for a prefix of them, all of them unless it broke off; it passes, breaks off, or fails naming the offenders |
| InterfaceRules.ConnectedAudit | app.py:113-128 | sends `show interfaces status` first, then one query per connected interface it lists, in order; passes exactly when every connected interface is compliant |
| InterfaceRules.AuditAfter | app.py:113-128 | a first command and then the loop over any interface list: that command, then one query per connected interface in order, passing exactly when every connected interface is compliant |
| InterfaceRules.AuditQueriesConnected | app.py:116-119 | the loop queries a prefix of the connected interfaces in order, all of them unless it broke off |
| InterfaceRules.AuditBreaks | app.py:120 | the rule breaks off exactly when some connected interface's reply cannot be read |
| InterfaceRules.AuditVerdict | app.py:121-128 | passes exactly when every connected interface is compliant; a failure names exactly the offending interfaces, in order, each followed by one space |
| InterfaceRules.AuditStops | app.py:120 | the loop ends at the first connected interface whose reply cannot be read, with the commands sent so far |
| InterfaceRules.AuditStepStops | app.py:116-120 | an unreadable reply at position `i` ends the loop there |
| InterfaceRules.AuditRunsThrough | app.py:115-128 | when every reply can be read, all connected interfaces are queried and the verdict follows the offender list |
| InterfaceRules.AuditInterfaces | app.py:115-128 | the `for interface in interfaces` loop computes `Audit` |
| InterfaceRules.AuditConnected | app.py:114-128 | sends `show interfaces status` first, then runs the loop over the interfaces it lists |
| InterfaceRules.PortSecurityRule | app.py:113-128 | `test_switchport_port_security` is the loop with the port-security query and probe |
| InterfaceRules.ViolationModeRule | app.py:131-146 | `test_switchport_port_security_violation` is the loop with the violation-mode probe |
| InterfaceRules.CdpRule | app.py:149-168 | `test_cdp` is the loop with the CDP query and probe, and never breaks off |
| Verdicts.FirstIn | app.py:344-350 | the first index whose probe halts the loop: none before it halts, and it halts unless it is the end |
| Verdicts.Probes | app.py:118-120 | one probe per item, in order, each the judged reply to that item's query |
| Verdicts.Queries | app.py:118-119 | one command per item, in order |
| VlanRules.VtpRule | app.py:232-243 | sends `show vtp status` first; breaks off exactly when the mode field is missing; sends `show vtp password` exactly when the mode minus its last character is not `Transparent`; fails exactly when it did and the password reply holds no `:` |
| VlanRules.TransparentIgnoresPassword | app.py:237-238 | a transparent switch passes with one command whatever its password reply |
| VlanRules.IgmpProbe | app.py:348 | cannot be read exactly when the reply has fewer than three newlines; offending exactly when line 3 contains `Disabled` |
| VlanRules.Ids | app.py:344-347 | the VLAN numbers, one per VLAN, in order |
| VlanRules.Sweep | app.py:344-350 | the loop sends one query per VLAN, in order, for a prefix of them, all of them when it passes; otherwise it broke off or failed naming the last VLAN it queried |
| VlanRules.IgmpSnooping | app.py:342-350 | sends `show vlan brief` first, then one query per active VLAN it lists, in order; passes exactly when every listed VLAN has snooping on |
| VlanRules.SweepAfter | app.py:342-350 | a first command and then the loop over any VLAN list: that command, then one query per VLAN in list order, passing exactly when every listed VLAN is compliant |
| VlanRules.SweepVlansVerdict | app.py:344-350 | over a list of VLANs, the loop passes exactly when every listed VLAN is compliant |
| VlanRules.SweepStops | app.py:344-350 | the loop stops at the first VLAN that is not compliant: it queried the VLANs up to that one and no later, and broke off or failed naming that VLAN |
| VlanRules.SweepPasses | app.py:344-350 | when every VLAN is compliant, all are queried and the rule passes |
| VlanRules.SweepVerdict | app.py:344-350 | passes exactly when every VLAN is compliant; otherwise some VLAN is not, after compliant ones only |
| VlanRules.QueriedSnoc | app.py:345-348 | one more VLAN queried adds its query at the end of the commands, and a compliant reply keeps every VLAN so far compliant |
| VlanRules.SweepStepStops | app.py:344-350 | a non-compliant VLAN after compliant ones ends the loop there: the commands are the queries so far and its own, and the verdict breaks off or fails naming it according to its reply |
| VlanRules.FirstInIs | app.py:344-350 | the first halting index is the one before which nothing halts |
| VlanRules.SweepVlans | app.py:344-350 | the `for vlan in vlans` loop computes `Sweep` |
| VlanRules.IgmpSnoopingRule | app.py:342-350 | sends `show vlan brief` first, then runs the loop over the active VLANs it lists |

## Left out

- The `args` fixture (app.py:11-40) reads and validates `config.json`. That is file input, so it is not modelled.
- The `connect` fixture (app.py:44-67) is not modelled, except for the `show version` line check (`Reader.Answers`):
  - the telnet and SSH sessions;
  - the login and enable handshake;
  - `close()`.
- `read_all` has timeouts, `read_until` and `recv(4096)`. Each read is modelled as returning the next chunk the switch sends.
- No bound on the number of continuation pages is modelled, because `read_all` has none.
- The final ASCII decoding is not modelled. Replies are decoded strings.
- The telnet and SSH branches of `read_all` behave alike and are modelled once.
- `Reader.ReadAll` requires that the chunks eventually stop ending in `--More-- `. The source has no page limit and loops forever otherwise, so a switch that never settles is not modelled.
- The printed explanations and their wording are not modelled:
  - `termcolor`;
  - `print`;
  - the message texts;
  - the pytest runner.
- Warning and failure values keep what the messages report, such as interface names, VLAN numbers and the gateway address.
- `test_native_vlan` (app.py:102-110) is left out. It warns through `warnings.warn` when VLAN 1 is named `default`, and raises whenever its search `([1]) +([a-zA-Z-/]+) +` misses; that pattern would need a scanner of its own, which this model does not include.
- `test_all_ports_are_healthy` (app.py:304-309) is left out. Its pattern `(.*) +(.*)` needs a general backtracking matcher, which this model does not include.
- The print-only rules are left out because they compute no verdict:
  - `test_return_ips`;
  - `test_return_active_vlans`;
  - `test_banner_login`;
  - `test_banner_motd`;
  - `test_hostname`;
  - `test_privilege`.
- The address that `test_vmps` and `test_tacacs_server` print is not modelled. Only the index error that reading it can raise is kept, as `Broken(LineMissing)` in `VmpsRule`.
- The switch of a multi-command rule is a function, so the same command always gets the same reply. Replies that change between two identical commands are not modelled.
- The per-interface and per-VLAN loops use `judge` as a parameter. A concrete rule passes its own probe function, for example `InterfaceRules.PortSecurityProbe`. The loop's contract holds for every probe.
- The single-reply rules in `TextRules` take the reply text to their one command. The command strings they send are not modelled.
- A row such as `Fa0/1   1   connected   a-half` does not match `all_interfaces`'s pattern, because the state must follow the port after spaces only. The model follows the pattern, so such a row is not extracted.
