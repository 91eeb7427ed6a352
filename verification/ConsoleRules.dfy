/** The two rules that scan a block of lines and raise flags:
    `test_console_password` (app.py:180-212) and `test_tacacs_server`
    (app.py:383-400). */
module ConsoleRules {
  import opened Strings
  import opened Verdicts
  import opened Extractors

  // ---------------------------------------------------------------------------
  // test_console_password

  /** A fragment that enables the login prompt; it is not looked at further. */
  predicate LoginLine(e: string)
  {
    Contains(e, "login")
  }

  /** A fragment that sets a console password. */
  predicate PasswordLine(e: string)
  {
    !Contains(e, "login") && Contains(e, "password")
  }

  /** A password fragment of more than two words (`password 7 <hash>`) holds
      an encrypted password. */
  predicate EncryptedLine(e: string)
  {
    PasswordLine(e) && |Split(e, ' ')| > 2
  }

  datatype ConsoleFlags = ConsoleFlags(login: bool, password: bool, encrypted: bool)

  /** What the console block configures: each flag is raised by some fragment. */
  ghost function FlagsOf(block: seq<string>): ConsoleFlags
  {
    ConsoleFlags(
      exists k :: 0 <= k < |block| && LoginLine(block[k]),
      exists k :: 0 <= k < |block| && PasswordLine(block[k]),
      exists k :: 0 <= k < |block| && EncryptedLine(block[k]))
  }

  /** An encrypted password is a password: the encrypted flag never stands alone. */
  lemma EncryptedIsPassword(block: seq<string>)
    ensures FlagsOf(block).encrypted ==> FlagsOf(block).password
  {
    if FlagsOf(block).encrypted {
      var k :| 0 <= k < |block| && EncryptedLine(block[k]);
      assert PasswordLine(block[k]);
    }
  }

  /** One more fragment raises the flags it sets and leaves the others. */
  lemma {:induction false} FlagsOfSnoc(block: seq<string>, e: string)
    ensures FlagsOf(block + [e]).login <==> FlagsOf(block).login || LoginLine(e)
    ensures FlagsOf(block + [e]).password <==> FlagsOf(block).password || PasswordLine(e)
    ensures FlagsOf(block + [e]).encrypted <==> FlagsOf(block).encrypted || EncryptedLine(e)
  {
    var b := block + [e];
    assert b[|block|] == e;
    assert forall k :: 0 <= k < |block| ==> b[k] == block[k];
  }

  /** The flag loop of `test_console_password`. */
  method ScanConsole(block: seq<string>) returns (f: ConsoleFlags)
    ensures f == FlagsOf(block)
  {
    var login, password, encrypted := false, false, false;
    var i := 0;
    while i < |block|
      invariant 0 <= i <= |block|
      invariant ConsoleFlags(login, password, encrypted) == FlagsOf(block[..i])
    {
      var e := block[i];
      FlagsOfSnoc(block[..i], e);
      assert block[..i + 1] == block[..i] + [e];
      if Contains(e, "login") {
        login := true;
      } else if Contains(e, "password") {
        password := true;
        if |Split(e, ' ')| > 2 {
          encrypted := true;
        }
      }
      i := i + 1;
    }
    assert block[..i] == block;
    f := ConsoleFlags(login, password, encrypted);
  }

  /** The console verdict: no login warns on its own; a missing password and
      a plain password are never reported together. */
  function ConsoleVerdict(f: ConsoleFlags): (v: Verdict)
    ensures v.Pass? || v.Warn?
    ensures NoConsoleLogin in Warnings(v) <==> !f.login
    ensures NoConsolePassword in Warnings(v) <==> !f.password
    ensures ConsolePasswordPlain in Warnings(v) <==> f.password && !f.encrypted
    ensures !(NoConsolePassword in Warnings(v) && ConsolePasswordPlain in Warnings(v))
    ensures v == Pass <==> f.login && f.password && f.encrypted
  {
    var first := if f.login then [] else [NoConsoleLogin];
    var second := if !f.password then [NoConsolePassword]
                  else if !f.encrypted then [ConsolePasswordPlain]
                  else [];
    Warned(first + second)
  }

  /** `test_console_password`: the block after `line con 0`, its flags and the
      verdict; it breaks off where the block cannot be read (fewer than three
      lines, or an empty line inside the block). */
  method ConsolePasswordRule(reply: string) returns (v: Verdict)
    ensures ConsoleBlock(Split(reply, '\n')).None? ==> v == Broken(LineMissing)
    ensures ConsoleBlock(Split(reply, '\n')).Some? ==>
              v == ConsoleVerdict(FlagsOf(ConsoleBlock(Split(reply, '\n')).value))
  {
    var block := ExtractConsoleBlock(Split(reply, '\n'));
    if block.None? {
      return Broken(LineMissing);
    }
    var flags := ScanConsole(block.value);
    v := ConsoleVerdict(flags);
  }

  // ---------------------------------------------------------------------------
  // test_tacacs_server

  /** A line that names a TACACS+ server. */
  predicate HostLine(e: string)
  {
    Contains(e, "host")
  }

  /** A line that sets the shared key and names no server. */
  predicate KeyLine(e: string)
  {
    !Contains(e, "host") && Contains(e, "key")
  }

  /** Some line names a server. */
  ghost predicate AnyHost(lines: seq<string>)
  {
    exists k :: 0 <= k < |lines| && HostLine(lines[k])
  }

  /** Some line sets a key without naming a server. */
  ghost predicate AnyKey(lines: seq<string>)
  {
    exists k :: 0 <= k < |lines| && KeyLine(lines[k])
  }

  lemma {:induction false} AnySnoc(lines: seq<string>, e: string)
    ensures AnyHost(lines + [e]) <==> AnyHost(lines) || HostLine(e)
    ensures AnyKey(lines + [e]) <==> AnyKey(lines) || KeyLine(e)
  {
    var ls := lines + [e];
    assert ls[|lines|] == e;
    assert forall k :: 0 <= k < |lines| ==> ls[k] == lines[k];
  }

  /** `test_tacacs_server`: warn when no line names a server; otherwise warn
      when no line sets a key; otherwise pass. */
  method TacacsRule(reply: string) returns (v: Verdict)
    ensures v == Warn([NoTacacsServer]) <==> !AnyHost(Split(reply, '\n'))
    ensures v == Warn([NoTacacsKey]) <==> AnyHost(Split(reply, '\n')) && !AnyKey(Split(reply, '\n'))
    ensures v == Pass <==> AnyHost(Split(reply, '\n')) && AnyKey(Split(reply, '\n'))
  {
    var lines := Split(reply, '\n');
    var host, key := false, false;
    var i := 0;
    while i < |lines|
      invariant 0 <= i <= |lines|
      invariant host == AnyHost(lines[..i]) && key == AnyKey(lines[..i])
    {
      var e := lines[i];
      AnySnoc(lines[..i], e);
      assert lines[..i + 1] == lines[..i] + [e];
      if Contains(e, "host") {
        host := true;
      } else if Contains(e, "key") {
        key := true;
      }
      i := i + 1;
    }
    assert lines[..i] == lines;
    if !host {
      v := Warn([NoTacacsServer]);
    } else if !key {
      v := Warn([NoTacacsKey]);
    } else {
      v := Pass;
    }
  }
}
