/** The paginated command reader `read_all` (app.py:70-84) and the check of the
    `connect` fixture that a session really answers (app.py:61-64).

    The switch is seen through a `Session`: the chunks it will still deliver,
    one per read, and the log of everything written to it. A read on a switch
    that has nothing more to say returns the empty text, as a read that hits
    its idle timeout does. */
module Reader {
  import opened Strings

  /** What the switch prints when it holds back the rest of a reply. */
  const MORE_PROMPT := "--More-- "
  /** The keystroke that asks for the next page. */
  const CONTINUE := " "

  /** The chunks glued together in order. */
  function Concat(chunks: seq<string>): string
  {
    if chunks == [] then "" else chunks[0] + Concat(chunks[1..])
  }

  /** `k` continuation keystrokes. */
  function Spaces(k: nat): (r: seq<string>)
    ensures |r| == k && forall j :: 0 <= j < k ==> r[j] == CONTINUE
  {
    if k == 0 then [] else Spaces(k - 1) + [CONTINUE]
  }

  /** A reader holding `acc` whose further reads return the chunks `rest`
      reaches a text that does not end in the prompt before the chunks run out. */
  predicate Settles(acc: string, rest: seq<string>)
    decreases |rest|
  {
    !EndsWith(acc, MORE_PROMPT) || (rest != [] && Settles(acc + rest[0], rest[1..]))
  }

  /** The text the reader returns when it holds `acc` and the switch's further
      chunks are `rest`. */
  function Reply(acc: string, rest: seq<string>): string
    requires Settles(acc, rest)
    decreases |rest|
  {
    if !EndsWith(acc, MORE_PROMPT) then acc else Reply(acc + rest[0], rest[1..])
  }

  /** The number of continuations (single spaces) the reader sends on the way. */
  function Pages(acc: string, rest: seq<string>): (k: nat)
    requires Settles(acc, rest)
    ensures k <= |rest|
    decreases |rest|
  {
    if !EndsWith(acc, MORE_PROMPT) then 0 else 1 + Pages(acc + rest[0], rest[1..])
  }

  /** The text a reader holding `acc` has gathered after `j` more reads. */
  function Gathered(acc: string, rest: seq<string>, j: nat): string
    requires j <= |rest|
  {
    acc + Concat(rest[..j])
  }

  /** One more read on the front of `rest` is the same as starting from `acc + rest[0]`. */
  lemma GatheredStep(acc: string, rest: seq<string>, j: nat)
    requires j < |rest|
    ensures Gathered(acc, rest, j + 1) == Gathered(acc + rest[0], rest[1..], j)
  {
    assert rest[..j + 1] == [rest[0]] + rest[1..][..j];
    assert rest[..j + 1][1..] == rest[1..][..j];
  }

  /** The reader's answer is what it held followed by exactly the chunks it
      fetched, in order and with their prompt fragments; it no longer ends in
      the prompt; and every shorter gathering did end in it, so each space was
      sent exactly when the text so far ended in the prompt. */
  lemma {:induction false} ReplyGathers(acc: string, rest: seq<string>)
    requires Settles(acc, rest)
    ensures Reply(acc, rest) == Gathered(acc, rest, Pages(acc, rest))
    ensures !EndsWith(Reply(acc, rest), MORE_PROMPT)
    ensures forall j :: 0 <= j < Pages(acc, rest) ==> EndsWith(Gathered(acc, rest, j), MORE_PROMPT)
    decreases |rest|
  {
    assert Gathered(acc, rest, 0) == acc;
    if EndsWith(acc, MORE_PROMPT) {
      var k := Pages(acc + rest[0], rest[1..]);
      ReplyGathers(acc + rest[0], rest[1..]);
      GatheredStep(acc, rest, k);
      forall j | 0 <= j < k + 1
        ensures EndsWith(Gathered(acc, rest, j), MORE_PROMPT)
      {
        if j > 0 {
          GatheredStep(acc, rest, j - 1);
        }
      }
    }
  }

  /** The first chunk the switch sends, or nothing. */
  function First(chunks: seq<string>): string
  {
    if chunks == [] then "" else chunks[0]
  }

  /** The chunks after the first. */
  function Later(chunks: seq<string>): seq<string>
  {
    if chunks == [] then [] else chunks[1..]
  }

  /** What `read_all` needs of the switch to return at all: it has no bound on
      the number of continuations, so the pages must stop ending in the
      prompt before the switch falls silent. */
  predicate Completes(chunks: seq<string>)
  {
    Settles(First(chunks), Later(chunks))
  }

  /** `read_all`'s answer to a switch that will send `chunks`: the first
      `Continuations(chunks) + 1` of them glued in order, prompt fragments
      included, and no longer ending in the prompt. */
  lemma ReplyIsConsumedChunks(chunks: seq<string>)
    requires Completes(chunks) && chunks != []
    ensures Pages(First(chunks), Later(chunks)) < |chunks|
    ensures Reply(First(chunks), Later(chunks)) == Concat(chunks[..Pages(First(chunks), Later(chunks)) + 1])
    ensures !EndsWith(Reply(First(chunks), Later(chunks)), MORE_PROMPT)
  {
    var k := Pages(First(chunks), Later(chunks));
    ReplyGathers(First(chunks), Later(chunks));
    assert chunks[..k + 1] == [chunks[0]] + chunks[1..][..k];
    assert chunks[..k + 1][1..] == chunks[1..][..k];
  }

  /** One connection to the switch, seen from the scanner's side. */
  class Session {
    /** The chunks the switch will deliver, one per read. */
    var pending: seq<string>
    /** Everything written to the switch so far, one entry per write. */
    var written: seq<string>

    constructor (replies: seq<string>)
      ensures pending == replies && written == []
    {
      pending := replies;
      written := [];
    }

    method Write(data: string)
      modifies this
      ensures written == old(written) + [data]
      ensures pending == old(pending)
    {
      written := written + [data];
    }

    /** One read: the next chunk, or the empty text when the switch stays silent. */
    method Read() returns (chunk: string)
      modifies this
      ensures chunk == First(old(pending)) && pending == Later(old(pending))
      ensures written == old(written)
    {
      chunk := First(pending);
      pending := Later(pending);
    }
  }

  /** `read_all`: send `command`, read, and while the text gathered so far ends
      in the prompt, send one space and append the next read. */
  method ReadAll(conn: Session, command: string) returns (resp: string)
    requires Completes(conn.pending)
    modifies conn
    ensures resp == Reply(First(old(conn.pending)), Later(old(conn.pending)))
    ensures conn.written == old(conn.written) + [command] + Spaces(Pages(First(old(conn.pending)), Later(old(conn.pending))))
    ensures conn.pending == Later(old(conn.pending))[Pages(First(old(conn.pending)), Later(old(conn.pending)))..]
  {
    ghost var rest := Later(conn.pending);
    ghost var answer := Reply(First(conn.pending), rest);
    ghost var total := Pages(First(conn.pending), rest);
    ghost var log := conn.written + [command];
    conn.Write(command);
    resp := conn.Read();
    ghost var i := 0;
    while EndsWith(resp, MORE_PROMPT)
      invariant i <= |rest| && conn.pending == rest[i..]
      invariant Settles(resp, conn.pending)
      invariant Reply(resp, conn.pending) == answer
      invariant i + Pages(resp, conn.pending) == total
      invariant conn.written == log + Spaces(i)
      decreases |conn.pending|
    {
      ReadStep(resp, conn.pending);
      SpacesStep(log, i);
      DropStep(rest, i);
      conn.Write(CONTINUE);
      var chunk := conn.Read();
      resp := resp + chunk;
      i := i + 1;
    }
  }

  /** One more continuation after `i` of them. */
  lemma SpacesStep(log: seq<string>, i: nat)
    ensures log + Spaces(i) + [CONTINUE] == log + Spaces(i + 1)
  {
  }

  /** Dropping one more chunk from what is left after `i`. */
  lemma DropStep(rest: seq<string>, i: nat)
    requires i < |rest|
    ensures rest[i + 1..] == Later(rest[i..]) && First(rest[i..]) == rest[i]
  {
  }

  /** A reader holding a text that ends in the prompt has a chunk still to
      come, and reading it changes neither the answer nor, but for that one
      page, the number of continuations. */
  lemma ReadStep(acc: string, rest: seq<string>)
    requires Settles(acc, rest) && EndsWith(acc, MORE_PROMPT)
    ensures rest != [] && Settles(acc + rest[0], rest[1..])
    ensures Reply(acc + rest[0], rest[1..]) == Reply(acc, rest)
    ensures Pages(acc + rest[0], rest[1..]) + 1 == Pages(acc, rest)
  {
  }

  /** The `connect` fixture's check that the credentials worked: the reply to
      `show version` must run to at least four lines, that is three newlines. */
  function Answers(versionReply: string): (ok: bool)
    ensures ok <==> Count(versionReply, '\n') >= 3
  {
    !(|Split(versionReply, '\n')| < 4)
  }
}
