/** The fact extractors: `all_interfaces` (app.py:87-92), `all_vlans`
    (app.py:95-99), the field searches of the rules (`Port Security +: (.*)`,
    `Violation Mode +: (.*)`, `VTP Operating Mode +: (.*)`), the detection rows of
    `test_errdisable` (app.py:363), the CDP status search (app.py:158) and the
    console-line block (app.py:185-189).

    Each regular expression is written out as the scanner it amounts to: tried
    at every index from left to right, with the backtracking of its greedy
    parts resolved by hand; `findall` resumes after the end of each match. */
module Extractors {
  import opened Strings

  datatype Option<T> = None | Some(value: T)

  /** A match of a pattern at one index: what it captured and where it ends. */
  datatype Hit<T> = Miss | Hit(item: T, end: nat)

  /** One row of `show interfaces status`: the port and its state. */
  datatype Interface = Interface(name: string, state: string)

  /** One active row of `show vlan brief`: the number and the name. */
  datatype Vlan = Vlan(id: string, name: string)

  /** One row of `show errdisable detect`: the cause and whether its detection is off. */
  datatype Detection = Detection(cause: string, disabled: bool)

  // ---------------------------------------------------------------------------
  // findall, over the attempts of a pattern at each index of a text

  /** The attempts of a pattern at each index of a text: a hit at index `j`
      ends after `j` and within the text. */
  ghost predicate Attempts<T>(hits: seq<Hit<T>>)
  {
    forall j :: 0 <= j < |hits| && hits[j].Hit? ==> j < hits[j].end <= |hits|
  }

  /** `re.findall` from index `i` on: try the pattern at `i`; after a match
      resume at its end, otherwise at the next index. */
  function Findall<T>(hits: seq<Hit<T>>, i: nat): (r: seq<T>)
    requires Attempts(hits) && i <= |hits|
    ensures r == [] <==> forall j :: i <= j < |hits| ==> hits[j].Miss?
    decreases |hits| - i
  {
    if i == |hits| then []
    else if hits[i].Hit? then [hits[i].item] + Findall(hits, hits[i].end)
    else Findall(hits, i + 1)
  }

  /** The indices where the matches of `Findall(hits, i)` start. */
  ghost function Starts<T>(hits: seq<Hit<T>>, i: nat): seq<nat>
    requires Attempts(hits) && i <= |hits|
    decreases |hits| - i
  {
    if i == |hits| then []
    else if hits[i].Hit? then [i] + Starts(hits, hits[i].end)
    else Starts(hits, i + 1)
  }

  /** What `findall` returns from index `i` on, stated without the scan: `r`
      lists, in order, the items of hits starting at indices `ps` at or after
      `i`; each match ends before the next one starts; and every hit from `i`
      on starts inside one of those matches (a hit inside an earlier match is
      skipped, and no other hit is). */
  ghost predicate Scanned<T>(hits: seq<Hit<T>>, i: nat, r: seq<T>, ps: seq<nat>)
  {
    Listed(hits, i, r, ps) && Ordered(hits, ps) && Covers(hits, i, ps)
  }

  /** `r` holds the items of the hits at `ps`, all at or after `i`. */
  ghost predicate Listed<T>(hits: seq<Hit<T>>, i: nat, r: seq<T>, ps: seq<nat>)
  {
    |ps| == |r| && forall k :: 0 <= k < |ps| ==> i <= ps[k] < |hits| && hits[ps[k]].Hit? && hits[ps[k]].item == r[k]
  }

  /** Each match at `ps` ends before any later one starts. */
  ghost predicate Ordered<T>(hits: seq<Hit<T>>, ps: seq<nat>)
  {
    forall k1, k2 :: 0 <= k1 < k2 < |ps| && ps[k1] < |hits| && hits[ps[k1]].Hit? ==> hits[ps[k1]].end <= ps[k2]
  }

  /** Every hit from `i` on lies within one of the matches at `ps`. */
  ghost predicate Covers<T>(hits: seq<Hit<T>>, i: nat, ps: seq<nat>)
  {
    forall j {:trigger Covered(hits, ps, j)} :: i <= j < |hits| && hits[j].Hit? ==> Covered(hits, ps, j)
  }

  /** Index `j` lies within one of the matches starting at `ps`. */
  ghost predicate Covered<T>(hits: seq<Hit<T>>, ps: seq<nat>, j: nat)
  {
    exists k :: 0 <= k < |ps| && ps[k] < |hits| && hits[ps[k]].Hit? && ps[k] <= j < hits[ps[k]].end
  }

  /** The scan meets that description. */
  lemma FindallScanned<T>(hits: seq<Hit<T>>, i: nat)
    requires Attempts(hits) && i <= |hits|
    ensures Scanned(hits, i, Findall(hits, i), Starts(hits, i))
  {
    FindallListed(hits, i);
    FindallOrdered(hits, i);
    FindallCovers(hits, i);
  }

  lemma {:induction false} FindallListed<T>(hits: seq<Hit<T>>, i: nat)
    requires Attempts(hits) && i <= |hits|
    ensures Listed(hits, i, Findall(hits, i), Starts(hits, i))
    decreases |hits| - i
  {
    if i < |hits| {
      if hits[i].Hit? {
        var e := hits[i].end;
        FindallListed(hits, e);
        var r', ps' := Findall(hits, e), Starts(hits, e);
        var r, ps := Findall(hits, i), Starts(hits, i);
        assert r == [hits[i].item] + r' && ps == [i] + ps';
        forall k | 0 < k < |ps|
          ensures i <= ps[k] < |hits| && hits[ps[k]].Hit? && hits[ps[k]].item == r[k]
        {
          assert ps[k] == ps'[k - 1] && r[k] == r'[k - 1];
        }
      } else {
        FindallListed(hits, i + 1);
      }
    }
  }

  lemma {:induction false} FindallOrdered<T>(hits: seq<Hit<T>>, i: nat)
    requires Attempts(hits) && i <= |hits|
    ensures Ordered(hits, Starts(hits, i))
    decreases |hits| - i
  {
    if i < |hits| {
      if hits[i].Hit? {
        var e := hits[i].end;
        FindallOrdered(hits, e);
        FindallListed(hits, e);
        var ps' := Starts(hits, e);
        var ps := Starts(hits, i);
        assert ps == [i] + ps';
        forall k1, k2 | 0 <= k1 < k2 < |ps| && ps[k1] < |hits| && hits[ps[k1]].Hit?
          ensures hits[ps[k1]].end <= ps[k2]
        {
          assert ps[k2] == ps'[k2 - 1];
          if k1 > 0 {
            assert ps[k1] == ps'[k1 - 1];
          }
        }
      } else {
        FindallOrdered(hits, i + 1);
      }
    }
  }

  lemma {:induction false} FindallCovers<T>(hits: seq<Hit<T>>, i: nat)
    requires Attempts(hits) && i <= |hits|
    ensures Covers(hits, i, Starts(hits, i))
    decreases |hits| - i
  {
    if i < |hits| {
      var ps := Starts(hits, i);
      if hits[i].Hit? {
        var e := hits[i].end;
        FindallCovers(hits, e);
        var ps' := Starts(hits, e);
        assert ps == [i] + ps';
        forall j | i <= j < |hits| && hits[j].Hit?
          ensures Covered(hits, ps, j)
        {
          if j < e {
            assert ps[0] <= j < hits[ps[0]].end;
          } else {
            assert Covered(hits, ps', j);
            var k' :| 0 <= k' < |ps'| && ps'[k'] < |hits| && hits[ps'[k']].Hit? && ps'[k'] <= j < hits[ps'[k']].end;
            assert ps[k' + 1] == ps'[k'];
          }
        }
      } else {
        FindallCovers(hits, i + 1);
        forall j | i <= j < |hits| && hits[j].Hit?
          ensures Covered(hits, ps, j)
        {
          assert j != i;
          assert Covered(hits, ps, j);
        }
      }
    }
  }

  /** Only the scan meets it: the description determines `findall`'s result. */
  lemma {:induction false} ScannedIsFindall<T>(hits: seq<Hit<T>>, i: nat, r: seq<T>, ps: seq<nat>)
    requires Attempts(hits) && i <= |hits|
    requires Scanned(hits, i, r, ps)
    ensures r == Findall(hits, i) && ps == Starts(hits, i)
    decreases |hits| - i
  {
    assert Listed(hits, i, r, ps) && Ordered(hits, ps) && Covers(hits, i, ps);
    if i == |hits| {
      assert ps == [];
    } else if hits[i].Miss? {
      assert forall k :: 0 <= k < |ps| ==> ps[k] != i;
      assert Covers(hits, i + 1, ps) by {
        forall j | i + 1 <= j < |hits| && hits[j].Hit?
          ensures Covered(hits, ps, j)
        {
          assert Covered(hits, ps, j);
        }
      }
      ScannedIsFindall(hits, i + 1, r, ps);
    } else {
      ScannedFirst(hits, i, r, ps);
      ScannedIsFindall(hits, hits[i].end, r[1..], ps[1..]);
      assert r == [r[0]] + r[1..] && ps == [ps[0]] + ps[1..];
    }
  }

  /** When the pattern matches at `i`, a description of the scan from `i` starts
      with that match, and the rest describes the scan from where it ends. */
  lemma ScannedFirst<T>(hits: seq<Hit<T>>, i: nat, r: seq<T>, ps: seq<nat>)
    requires Attempts(hits) && i < |hits| && hits[i].Hit?
    requires Scanned(hits, i, r, ps)
    ensures |ps| > 0 && ps[0] == i && r[0] == hits[i].item
    ensures Scanned(hits, hits[i].end, r[1..], ps[1..])
  {
    assert Listed(hits, i, r, ps) && Ordered(hits, ps) && Covers(hits, i, ps);
    assert Covered(hits, ps, i);
    var k :| 0 <= k < |ps| && ps[k] < |hits| && hits[ps[k]].Hit? && ps[k] <= i < hits[ps[k]].end;
    assert forall k' :: 0 < k' < |ps| ==> i <= ps[0] < hits[ps[0]].end <= ps[k'];
    assert k == 0;
    var e := hits[i].end;
    var r', ps' := r[1..], ps[1..];
    assert Listed(hits, e, r', ps') by {
      forall k' | 0 <= k' < |ps'|
        ensures e <= ps'[k'] < |hits| && hits[ps'[k']].Hit? && hits[ps'[k']].item == r'[k']
      {
        assert ps'[k'] == ps[k' + 1] && r'[k'] == r[k' + 1];
        assert hits[ps[0]].end <= ps[k' + 1];
      }
    }
    assert Ordered(hits, ps') by {
      forall k1, k2 | 0 <= k1 < k2 < |ps'| && ps'[k1] < |hits| && hits[ps'[k1]].Hit?
        ensures hits[ps'[k1]].end <= ps'[k2]
      {
        assert ps'[k1] == ps[k1 + 1] && ps'[k2] == ps[k2 + 1];
      }
    }
    assert Covers(hits, e, ps') by {
      forall j | e <= j < |hits| && hits[j].Hit?
        ensures Covered(hits, ps', j)
      {
        assert Covered(hits, ps, j);
        var m :| 0 <= m < |ps| && ps[m] < |hits| && hits[ps[m]].Hit? && ps[m] <= j < hits[ps[m]].end;
        assert m > 0;
        assert ps'[m - 1] == ps[m];
      }
    }
  }

  // ---------------------------------------------------------------------------
  // all_interfaces: ((Fa|Gi)([0-9]*/)*[0-9]*) +(notconnect|connected|disabled)

  /** What the pattern can capture: `Fa` or `Gi`, then digits and slashes;
      one of the three states. */
  predicate InterfaceShape(x: Interface)
  {
    && (x.state == "notconnect" || x.state == "connected" || x.state == "disabled")
    && |x.name| >= 2 && (x.name[..2] == "Fa" || x.name[..2] == "Gi")
    && forall k :: 2 <= k < |x.name| ==> InClass(x.name[k], PortChar)
  }

  /** The text `s` has the interface row `x` at `i`: the port, one or more
      spaces and the state. */
  predicate InterfaceRow(s: string, i: nat, x: Interface)
  {
    && InterfaceShape(x) && OccursAt(s, x.name, i)
    && i + |x.name| < SkipSpaces(s, i + |x.name|)
    && OccursAt(s, x.state, SkipSpaces(s, i + |x.name|))
  }

  /** The state word at index `q`, if one of the three is there. */
  function StateAt(s: string, q: nat): (t: Option<string>)
    requires q <= |s|
    ensures t.Some? ==> OccursAt(s, t.value, q) && (t.value == "notconnect" || t.value == "connected" || t.value == "disabled")
    ensures OccursAt(s, "notconnect", q) ==> t == Some("notconnect")
    ensures OccursAt(s, "connected", q) ==> t == Some("connected")
    ensures OccursAt(s, "disabled", q) ==> t == Some("disabled")
  {
    if OccursAt(s, "notconnect", q) then
      assert s[q] == 'n';
      Some("notconnect")
    else if OccursAt(s, "connected", q) then
      assert s[q] == 'c';
      Some("connected")
    else if OccursAt(s, "disabled", q) then
      assert s[q] == 'd';
      Some("disabled")
    else None
  }

  /** The interface pattern tried at index `i`. Its port part matches any run
      of digits and slashes after the prefix; only the longest run can be
      followed by a space, and only the longest run of spaces by the first
      letter of a state, so no backtracking is left to do. */
  function InterfaceAt(s: string, i: nat): (h: Hit<Interface>)
    requires i <= |s|
    ensures h.Hit? ==> i < h.end <= |s|
  {
    if !(OccursAt(s, "Fa", i) || OccursAt(s, "Gi", i)) then Miss
    else
      var n := 2 + Span(s, i + 2, PortChar);
      var q := SkipSpaces(s, i + n);
      if q == i + n then Miss
      else
        match StateAt(s, q)
        case None => Miss
        case Some(w) => Hit(Interface(Slice(s, i, n), w), q + |w|)
  }

  /** A hit is the port at `i` (`Fa` or `Gi`, then digits and slashes), one
      or more spaces and one of the three states, where the match ends. */
  lemma InterfaceAtSound(s: string, i: nat)
    requires i <= |s|
    ensures var h := InterfaceAt(s, i);
            h.Hit? ==> InterfaceRow(s, i, h.item) && h.end == SkipSpaces(s, i + |h.item.name|) + |h.item.state|
  {
    var h := InterfaceAt(s, i);
    if h.Hit? {
      SpanRun(s, i + 2, PortChar);
      var name := h.item.name;
      assert name[..2] == s[i..i + 2];
      forall k | 2 <= k < |name|
        ensures InClass(name[k], PortChar)
      {
        assert name[k] == s[i + k];
      }
    }
  }

  /** Conversely, a port at `i` followed by spaces and a state is a hit. */
  lemma InterfaceAtFinds(s: string, i: nat, x: Interface)
    requires InterfaceRow(s, i, x)
    ensures InterfaceAt(s, i) == Hit(x, SkipSpaces(s, i + |x.name|) + |x.state|)
  {
    PortAt(s, i, x.name);
    assert StateAt(s, SkipSpaces(s, i + |x.name|)) == Some(x.state);
    InterfaceAtHit(s, i, |x.name|, x.state);
    assert Slice(s, i, |x.name|) == x.name;
  }

  /** A port name at `i` followed by a space is what the port part of the
      pattern reads there. */
  lemma PortAt(s: string, i: nat, name: string)
    requires |name| >= 2 && (name[..2] == "Fa" || name[..2] == "Gi")
    requires forall k :: 2 <= k < |name| ==> InClass(name[k], PortChar)
    requires OccursAt(s, name, i) && i + |name| < |s| && s[i + |name|] == ' '
    ensures OccursAt(s, "Fa", i) || OccursAt(s, "Gi", i)
    ensures 2 + Span(s, i + 2, PortChar) == |name|
  {
    assert s[i..i + 2] == name[..2];
    SpanOfWord(s, i + 2, name[2..], PortChar);
  }

  /** The pattern at `i` with a port of length `n`, spaces and the state `w`. */
  lemma InterfaceAtHit(s: string, i: nat, n: nat, w: string)
    requires OccursAt(s, "Fa", i) || OccursAt(s, "Gi", i)
    requires n == 2 + Span(s, i + 2, PortChar)
    requires i + n < SkipSpaces(s, i + n) && StateAt(s, SkipSpaces(s, i + n)) == Some(w)
    ensures InterfaceAt(s, i) == Hit(Interface(Slice(s, i, n), w), SkipSpaces(s, i + n) + |w|)
  {
  }

  /** The attempts of the interface pattern at each index. */
  function InterfaceAttempts(s: string): (hits: seq<Hit<Interface>>)
    ensures |hits| == |s| && Attempts(hits)
    ensures forall j :: 0 <= j < |s| ==> hits[j] == InterfaceAt(s, j)
  {
    seq(|s|, j requires 0 <= j < |s| => InterfaceAt(s, j))
  }

  /** `all_interfaces`: the (name, state) pairs of `show interfaces status`, in
      order of appearance. Every state is one of the three, every name starts
      with `Fa` or `Gi`, and text with no such row gives the empty list. */
  function AllInterfaces(s: string): (r: seq<Interface>)
    ensures exists ps :: Scanned(InterfaceAttempts(s), 0, r, ps)
    ensures forall k :: 0 <= k < |r| ==> InterfaceShape(r[k])
    ensures r == [] <==> forall j :: 0 <= j < |s| ==> InterfaceAt(s, j).Miss?
  {
    var hits := InterfaceAttempts(s);
    FindallScanned(hits, 0);
    var r := Findall(hits, 0);
    assert forall k :: 0 <= k < |r| ==> InterfaceShape(r[k]) by {
      var ps := Starts(hits, 0);
      forall k | 0 <= k < |r|
        ensures InterfaceShape(r[k])
      {
        InterfaceAtSound(s, ps[k]);
        assert InterfaceAt(s, ps[k]).item == r[k];
      }
    }
    r
  }

  /** Where the matches of `all_interfaces` start, in order. */
  ghost function InterfaceStarts(s: string): (ps: seq<nat>)
    ensures |ps| == |AllInterfaces(s)| && forall k :: 0 <= k < |ps| ==> ps[k] < |s|
  {
    FindallListed(InterfaceAttempts(s), 0);
    Starts(InterfaceAttempts(s), 0)
  }

  /** Soundness of `all_interfaces`: the k-th result is the row of the text
      at the k-th match position. */
  lemma AllInterfacesSound(s: string)
    ensures var r, ps := AllInterfaces(s), InterfaceStarts(s);
            forall k :: 0 <= k < |r| ==> InterfaceRow(s, ps[k], r[k])
  {
    var hits := InterfaceAttempts(s);
    FindallListed(hits, 0);
    var r, ps := AllInterfaces(s), InterfaceStarts(s);
    forall k | 0 <= k < |r|
      ensures InterfaceRow(s, ps[k], r[k])
    {
      InterfaceAtSound(s, ps[k]);
    }
  }

  /** Order: the matches follow one another, each ending before the next
      one starts. */
  lemma AllInterfacesOrdered(s: string)
    ensures var r, ps := AllInterfaces(s), InterfaceStarts(s);
            forall k :: 0 <= k < |r| - 1 ==> InterfaceAt(s, ps[k]).Hit? && InterfaceAt(s, ps[k]).end <= ps[k + 1]
  {
    var hits := InterfaceAttempts(s);
    FindallListed(hits, 0);
    FindallOrdered(hits, 0);
  }

  /** Completeness: every row of the text lies within one of the matches, so
      none is missed (a row inside an earlier match is not read again). */
  lemma AllInterfacesComplete(s: string)
    ensures var r, ps := AllInterfaces(s), InterfaceStarts(s);
            forall j: nat, x :: j < |s| && InterfaceRow(s, j, x) ==>
              exists k :: 0 <= k < |r| && InterfaceAt(s, ps[k]).Hit? && ps[k] <= j < InterfaceAt(s, ps[k]).end
  {
    var hits := InterfaceAttempts(s);
    FindallCovers(hits, 0);
    var r, ps := AllInterfaces(s), InterfaceStarts(s);
    forall j: nat, x | j < |s| && InterfaceRow(s, j, x)
      ensures exists k :: 0 <= k < |r| && InterfaceAt(s, ps[k]).Hit? && ps[k] <= j < InterfaceAt(s, ps[k]).end
    {
      InterfaceAtFinds(s, j, x);
      assert Covered(hits, ps, j);
    }
  }

  // ---------------------------------------------------------------------------
  // all_vlans: ([0-9]+) +([a-zA-Z0-9]*) +active(.*)

  /** The word `active` at index `r`, spelled out one character at a time. */
  predicate ActiveAt(s: string, r: nat)
  {
    && r + 6 <= |s|
    && s[r] == 'a' && s[r + 1] == 'c' && s[r + 2] == 't'
    && s[r + 3] == 'i' && s[r + 4] == 'v' && s[r + 5] == 'e'
  }

  /** Spelling `active` out is the same as finding the word at `r`. */
  lemma ActiveAtOccurs(s: string, r: nat)
    ensures ActiveAt(s, r) <==> OccursAt(s, "active", r)
  {
    if r + 6 <= |s| {
      var w := s[r..r + 6];
      assert forall k :: 0 <= k < 6 ==> w[k] == s[r + k];
      if ActiveAt(s, r) {
        assert w == "active";
      }
    }
  }

  predicate VlanShape(v: Vlan)
  {
    && |v.id| > 0 && (forall k :: 0 <= k < |v.id| ==> InClass(v.id[k], Digit))
    && forall k :: 0 <= k < |v.name| ==> InClass(v.name[k], Alnum)
  }

  /** The text `s` has the VLAN row `v` at `i`: the number, one or more
      spaces, then either the name, one or more spaces and `active`, or, with
      an empty name, two or more spaces and `active`. */
  predicate VlanRow(s: string, i: nat, v: Vlan)
  {
    && VlanShape(v) && OccursAt(s, v.id, i)
    && var p := i + |v.id|; var q := SkipSpaces(s, p);
       && p < q && OccursAt(s, v.name, q)
       && (|v.name| > 0 ==> var e := q + |v.name|; e < SkipSpaces(s, e) && ActiveAt(s, SkipSpaces(s, e)))
       && (|v.name| == 0 ==> p + 2 <= q && ActiveAt(s, q))
  }

  /** Where the VLAN row `v` at `i` ends: at the end of the line holding its `active`. */
  function VlanEnd(s: string, i: nat, v: Vlan): nat
    requires VlanRow(s, i, v)
  {
    var q := SkipSpaces(s, i + |v.id|);
    if |v.name| > 0 then LineEnd(s, SkipSpaces(s, q + |v.name|) + 6) else LineEnd(s, q + 6)
  }

  /** The VLAN pattern tried at index `i`: the longest digit run, the longest
      run of spaces, then the longest letter-digit run as the name when one or
      more spaces and `active` follow it; failing that, backtracking gives the
      empty name when two or more spaces come before an `active`. The match
      runs to the end of the line. */
  function VlanAt(s: string, i: nat): (h: Hit<Vlan>)
    requires i <= |s|
    ensures h.Hit? ==> i < h.end <= |s|
  {
    var d := Span(s, i, Digit);
    var q := SkipSpaces(s, i + d);
    var n := Span(s, q, Alnum);
    VlanMatch(s, i, d, q, n, SkipSpaces(s, q + n))
  }

  /** The pattern at `i` once its runs are measured: `d` digits, spaces up to
      `q`, `n` letters and digits, and spaces up to `r`. */
  function VlanMatch(s: string, i: nat, d: nat, q: nat, n: nat, r: nat): (h: Hit<Vlan>)
    requires i + d <= q && q + n <= r <= |s|
    ensures h.Hit? ==> i < h.end <= |s|
  {
    if d == 0 || q == i + d then Miss
    else if r > q + n && ActiveAt(s, r) then
      Hit(Vlan(Slice(s, i, d), Slice(s, q, n)), LineEnd(s, r + 6))
    else if q - (i + d) >= 2 && ActiveAt(s, q) then
      Hit(Vlan(Slice(s, i, d), ""), LineEnd(s, q + 6))
    else Miss
  }

  /** A hit is the number at `i`, one or more spaces, the name, one or more
      spaces and `active`, to the end of the line; the name is empty only
      when two or more spaces precede `active`. */
  lemma VlanAtSound(s: string, i: nat)
    requires i <= |s|
    ensures var h := VlanAt(s, i); h.Hit? ==> VlanRow(s, i, h.item) && h.end == VlanEnd(s, i, h.item)
  {
    var d := Span(s, i, Digit);
    var q := SkipSpaces(s, i + d);
    var n := Span(s, q, Alnum);
    VlanAtMatch(s, i, d, q, n, SkipSpaces(s, q + n));
    VlanMatchSound(s, i, d, q, n, SkipSpaces(s, q + n));
  }

  /** The pattern at `i` is its match over the runs measured there. */
  lemma VlanAtMatch(s: string, i: nat, d: nat, q: nat, n: nat, r: nat)
    requires i <= |s| && d == Span(s, i, Digit) && q == SkipSpaces(s, i + d)
    requires n == Span(s, q, Alnum) && r == SkipSpaces(s, q + n)
    ensures VlanAt(s, i) == VlanMatch(s, i, d, q, n, r)
  {
  }

  /** The same, for the pattern with its runs measured. */
  lemma VlanMatchSound(s: string, i: nat, d: nat, q: nat, n: nat, r: nat)
    requires i <= |s| && d == Span(s, i, Digit) && q == SkipSpaces(s, i + d)
    requires n == Span(s, q, Alnum) && r == SkipSpaces(s, q + n)
    ensures var h := VlanMatch(s, i, d, q, n, r); h.Hit? ==> VlanRow(s, i, h.item) && h.end == VlanEnd(s, i, h.item)
  {
    if d > 0 && q > i + d {
      if r > q + n && ActiveAt(s, r) {
        VlanMatchNamedRow(s, i, d, q, n, r);
      } else if q - (i + d) >= 2 && ActiveAt(s, q) {
        VlanMatchUnnamedRow(s, i, d, q);
      }
    }
  }

  /** The match with the longest name is a VLAN row. */
  lemma VlanMatchNamedRow(s: string, i: nat, d: nat, q: nat, n: nat, r: nat)
    requires i <= |s| && d == Span(s, i, Digit) && q == SkipSpaces(s, i + d) && 0 < d && i + d < q
    requires n == Span(s, q, Alnum) && r == SkipSpaces(s, q + n) && q + n < r && ActiveAt(s, r)
    ensures var v := Vlan(Slice(s, i, d), Slice(s, q, n)); VlanRow(s, i, v) && VlanEnd(s, i, v) == LineEnd(s, r + 6)
  {
    var v := Vlan(Slice(s, i, d), Slice(s, q, n));
    SpanSlice(s, i, Digit);
    SpanSlice(s, q, Alnum);
    SkipSpacesIdempotent(s, i + d);
    assert i + |v.id| == i + d;
    VlanRowNamed(s, i, q, n, v);
  }

  /** The match with the empty name is a VLAN row. */
  lemma VlanMatchUnnamedRow(s: string, i: nat, d: nat, q: nat)
    requires i <= |s| && d == Span(s, i, Digit) && q == SkipSpaces(s, i + d) && 0 < d && i + d + 2 <= q
    requires ActiveAt(s, q)
    ensures var v := Vlan(Slice(s, i, d), ""); VlanRow(s, i, v) && VlanEnd(s, i, v) == LineEnd(s, q + 6)
  {
    var v := Vlan(Slice(s, i, d), "");
    SpanSlice(s, i, Digit);
    assert i + |v.id| == i + d;
    VlanRowUnnamed(s, i, q, v);
  }

  /** A number, spaces up to `q`, a name of `n` letters and digits at `q`,
      spaces and `active` make a VLAN row, ending with the line of `active`. */
  lemma VlanRowNamed(s: string, i: nat, q: nat, n: nat, v: Vlan)
    requires VlanShape(v)
    requires OccursAt(s, v.id, i)
    requires q == SkipSpaces(s, i + |v.id|)
    requires i + |v.id| < q
    requires q + n <= |s|
    requires v.name == Slice(s, q, n)
    requires q + n < SkipSpaces(s, q + n)
    requires ActiveAt(s, SkipSpaces(s, q + n))
    requires SkipSpaces(s, q) == q
    ensures VlanRow(s, i, v) && VlanEnd(s, i, v) == LineEnd(s, SkipSpaces(s, q + n) + 6)
  {
    assert |v.name| == n > 0;
  }

  /** A number followed by two or more spaces up to `q` and `active` there
      make a VLAN row with the empty name, ending with the line of `active`. */
  lemma VlanRowUnnamed(s: string, i: nat, q: nat, v: Vlan)
    requires VlanShape(v) && OccursAt(s, v.id, i) && q == SkipSpaces(s, i + |v.id|) && i + |v.id| + 2 <= q
    requires v.name == "" && ActiveAt(s, q)
    ensures VlanRow(s, i, v) && VlanEnd(s, i, v) == LineEnd(s, q + 6)
  {
  }

  /** The number and the name of a hit are runs of digits and of letters and digits. */
  lemma VlanAtShape(s: string, i: nat)
    requires i <= |s| && VlanAt(s, i).Hit?
    ensures VlanShape(VlanAt(s, i).item)
  {
    SpanSlice(s, i, Digit);
    SpanSlice(s, SkipSpaces(s, i + Span(s, i, Digit)), Alnum);
  }

  /** Conversely, a number at `i` followed by spaces, a non-empty name, spaces
      and `active` is a hit with that number and name. */
  lemma VlanAtFinds(s: string, i: nat, v: Vlan)
    requires VlanShape(v) && |v.name| > 0 && OccursAt(s, v.id, i)
    requires i + |v.id| < SkipSpaces(s, i + |v.id|)
    requires OccursAt(s, v.name, SkipSpaces(s, i + |v.id|))
    requires var e := SkipSpaces(s, i + |v.id|) + |v.name|;
             e < SkipSpaces(s, e) && ActiveAt(s, SkipSpaces(s, e))
    ensures VlanAt(s, i) == Hit(v, LineEnd(s, SkipSpaces(s, SkipSpaces(s, i + |v.id|) + |v.name|) + 6))
  {
    var q := SkipSpaces(s, i + |v.id|);
    SpanOfWord(s, i, v.id, Digit);
    SpanOfWord(s, q, v.name, Alnum);
    VlanAtNamed(s, i, |v.id|, |v.name|);
    assert Slice(s, i, |v.id|) == v.id;
    assert Slice(s, q, |v.name|) == v.name;
  }

  /** The pattern at `i` with a number of `d` digits and a name of `n`
      letters and digits, followed by spaces and `active`. */
  lemma VlanAtNamed(s: string, i: nat, d: nat, n: nat)
    requires i <= |s| && 0 < d == Span(s, i, Digit) && i + d < SkipSpaces(s, i + d)
    requires n == Span(s, SkipSpaces(s, i + d), Alnum)
    requires var e := SkipSpaces(s, i + d) + n; e < SkipSpaces(s, e) && ActiveAt(s, SkipSpaces(s, e))
    ensures VlanAt(s, i) == Hit(Vlan(Slice(s, i, d), Slice(s, SkipSpaces(s, i + d), n)),
                                LineEnd(s, SkipSpaces(s, SkipSpaces(s, i + d) + n) + 6))
  {
  }

  /** With two or more spaces after the number and `active` right after them,
      the pattern always matches at `i`, with that number. */
  lemma VlanAtUnnamed(s: string, i: nat, id: string)
    requires |id| > 0 && (forall k :: 0 <= k < |id| ==> InClass(id[k], Digit)) && OccursAt(s, id, i)
    requires i + |id| + 2 <= SkipSpaces(s, i + |id|)
    requires ActiveAt(s, SkipSpaces(s, i + |id|))
    ensures VlanAt(s, i).Hit? && VlanAt(s, i).item.id == id
  {
    SpanOfWord(s, i, id, Digit);
    assert Slice(s, i, |id|) == id;
  }

  /** The attempts of the VLAN pattern at each index. */
  function VlanAttempts(s: string): (hits: seq<Hit<Vlan>>)
    ensures |hits| == |s| && Attempts(hits)
    ensures forall j :: 0 <= j < |s| ==> hits[j] == VlanAt(s, j)
  {
    seq(|s|, j requires 0 <= j < |s| => VlanAt(s, j))
  }

  /** `all_vlans`: the (number, name) pairs of the rows of `show vlan brief`
      marked `active`, in order; the empty list when there are none. */
  function AllVlans(s: string): (r: seq<Vlan>)
    ensures exists ps :: Scanned(VlanAttempts(s), 0, r, ps)
    ensures forall k :: 0 <= k < |r| ==> VlanShape(r[k])
    ensures r == [] <==> forall j :: 0 <= j < |s| ==> VlanAt(s, j).Miss?
  {
    var hits := VlanAttempts(s);
    FindallScanned(hits, 0);
    var r := Findall(hits, 0);
    assert forall k :: 0 <= k < |r| ==> VlanShape(r[k]) by {
      var ps := Starts(hits, 0);
      forall k | 0 <= k < |r|
        ensures VlanShape(r[k])
      {
        VlanAtSound(s, ps[k]);
        assert VlanAt(s, ps[k]).item == r[k];
      }
    }
    r
  }

  /** Every VLAN row of the text is a place where the pattern matches. */
  lemma VlanRowHit(s: string, i: nat, v: Vlan)
    requires VlanRow(s, i, v)
    ensures VlanAt(s, i).Hit?
  {
    if |v.name| > 0 {
      VlanAtFinds(s, i, v);
    } else {
      VlanAtUnnamed(s, i, v.id);
    }
  }

  /** Where the matches of `all_vlans` start, in order. */
  ghost function VlanStarts(s: string): (ps: seq<nat>)
    ensures |ps| == |AllVlans(s)| && forall k :: 0 <= k < |ps| ==> ps[k] < |s|
  {
    FindallListed(VlanAttempts(s), 0);
    Starts(VlanAttempts(s), 0)
  }

  /** Soundness of `all_vlans`: the k-th result is the row of the text at the
      k-th match position. */
  lemma AllVlansSound(s: string)
    ensures var r, ps := AllVlans(s), VlanStarts(s);
            forall k :: 0 <= k < |r| ==> VlanRow(s, ps[k], r[k])
  {
    var hits := VlanAttempts(s);
    FindallListed(hits, 0);
    var r, ps := AllVlans(s), VlanStarts(s);
    forall k | 0 <= k < |r|
      ensures VlanRow(s, ps[k], r[k])
    {
      VlanAtSound(s, ps[k]);
    }
  }

  /** Order: the matches follow one another, each ending (at the end of its
      line) before the next one starts. */
  lemma AllVlansOrdered(s: string)
    ensures var r, ps := AllVlans(s), VlanStarts(s);
            forall k :: 0 <= k < |r| - 1 ==> VlanAt(s, ps[k]).Hit? && VlanAt(s, ps[k]).end <= ps[k + 1]
  {
    var hits := VlanAttempts(s);
    FindallListed(hits, 0);
    FindallOrdered(hits, 0);
  }

  /** Completeness: every VLAN row of the text lies within one of the
      matches, so none is missed. */
  lemma AllVlansComplete(s: string)
    ensures var r, ps := AllVlans(s), VlanStarts(s);
            forall j: nat, v :: j < |s| && VlanRow(s, j, v) ==>
              exists k :: 0 <= k < |r| && VlanAt(s, ps[k]).Hit? && ps[k] <= j < VlanAt(s, ps[k]).end
  {
    var hits := VlanAttempts(s);
    FindallCovers(hits, 0);
    var r, ps := AllVlans(s), VlanStarts(s);
    forall j: nat, v | j < |s| && VlanRow(s, j, v)
      ensures exists k :: 0 <= k < |r| && VlanAt(s, ps[k]).Hit? && ps[k] <= j < VlanAt(s, ps[k]).end
    {
      VlanRowHit(s, j, v);
      assert Covered(hits, ps, j);
    }
  }

  // ---------------------------------------------------------------------------
  // test_errdisable: ([a-zA-Z0-9]*) +(Enabled|Disabled).*

  /** The detection pattern tried at index `i`: the longest letter-digit run
      (possibly empty), one or more spaces, then `Enabled` or `Disabled`, to
      the end of the line. */
  function DetectionAt(s: string, i: nat): (h: Hit<Detection>)
    requires i <= |s|
    ensures h.Hit? ==> i < h.end <= |s|
  {
    var a := Span(s, i, Alnum);
    DetectionMatch(s, i, a, SkipSpaces(s, i + a))
  }

  /** The detection pattern at `i` once its runs are measured: `a` letters
      and digits, then spaces up to `q`. */
  function DetectionMatch(s: string, i: nat, a: nat, q: nat): (h: Hit<Detection>)
    requires i + a <= q <= |s|
    ensures h.Hit? ==> i < h.end <= |s|
  {
    if q == i + a then Miss
    else if OccursAt(s, "Enabled", q) then Hit(Detection(Slice(s, i, a), false), LineEnd(s, q + 7))
    else if OccursAt(s, "Disabled", q) then Hit(Detection(Slice(s, i, a), true), LineEnd(s, q + 8))
    else Miss
  }

  /** The detection pattern at `i` is its match over the runs measured there. */
  lemma DetectionAtMatch(s: string, i: nat, a: nat, q: nat)
    requires i <= |s| && a == Span(s, i, Alnum) && q == SkipSpaces(s, i + a)
    ensures DetectionAt(s, i) == DetectionMatch(s, i, a, q)
  {
  }

  /** The word a detection row shows for its state. */
  function StateWord(disabled: bool): string
  {
    if disabled then "Disabled" else "Enabled"
  }

  /** The text `s` has the detection row `d` at `i`: the letter-digit cause,
      one or more spaces and the word for its state. */
  predicate DetectionRow(s: string, i: nat, d: Detection)
  {
    && (forall k :: 0 <= k < |d.cause| ==> InClass(d.cause[k], Alnum)) && OccursAt(s, d.cause, i)
    && i + |d.cause| < SkipSpaces(s, i + |d.cause|)
    && OccursAt(s, StateWord(d.disabled), SkipSpaces(s, i + |d.cause|))
  }

  /** A hit is a letter-digit cause at `i`, one or more spaces and the state
      word, to the end of the line; the row is marked disabled exactly when
      that word is `Disabled`. */
  lemma DetectionAtSound(s: string, i: nat)
    requires i <= |s|
    ensures var h := DetectionAt(s, i);
            h.Hit? ==> && DetectionRow(s, i, h.item)
                       && var q := SkipSpaces(s, i + |h.item.cause|);
                          && (h.item.disabled <==> OccursAt(s, "Disabled", q))
                          && h.end == LineEnd(s, q + |StateWord(h.item.disabled)|)
  {
    var h := DetectionAt(s, i);
    if h.Hit? {
      SpanSlice(s, i, Alnum);
      var cause := h.item.cause;
      var q := SkipSpaces(s, i + |cause|);
      if !h.item.disabled {
        assert s[q] == 'E';
      }
    }
  }

  /** Conversely, a letter-digit cause at `i` followed by spaces and
      `Enabled` or `Disabled` is a hit for that row. */
  lemma DetectionAtFinds(s: string, i: nat, d: Detection)
    requires DetectionRow(s, i, d)
    ensures DetectionAt(s, i) == Hit(d, LineEnd(s, SkipSpaces(s, i + |d.cause|) + |StateWord(d.disabled)|))
  {
    SpanOfWord(s, i, d.cause, Alnum);
    var q := SkipSpaces(s, i + |d.cause|);
    DetectionAtMatch(s, i, |d.cause|, q);
    DetectionMatchFinds(s, i, q, d);
  }

  /** The same, for the pattern with its runs measured. */
  lemma DetectionMatchFinds(s: string, i: nat, q: nat, d: Detection)
    requires i + |d.cause| < q <= |s| && OccursAt(s, d.cause, i) && OccursAt(s, StateWord(d.disabled), q)
    ensures DetectionMatch(s, i, |d.cause|, q) == Hit(d, LineEnd(s, q + |StateWord(d.disabled)|))
  {
    OccursAtFirst(s, StateWord(d.disabled), q);
    OccursAtFirst(s, "Enabled", q);
    assert Slice(s, i, |d.cause|) == d.cause;
  }

  /** The attempts of the detection pattern at each index. */
  function DetectionAttempts(s: string): (hits: seq<Hit<Detection>>)
    ensures |hits| == |s| && Attempts(hits)
    ensures forall j :: 0 <= j < |s| ==> hits[j] == DetectionAt(s, j)
  {
    seq(|s|, j requires 0 <= j < |s| => DetectionAt(s, j))
  }

  /** The rows of `show errdisable detect`, in order. */
  function Detections(s: string): (r: seq<Detection>)
    ensures exists ps :: Scanned(DetectionAttempts(s), 0, r, ps)
    ensures r == [] <==> forall j :: 0 <= j < |s| ==> DetectionAt(s, j).Miss?
  {
    var hits := DetectionAttempts(s);
    FindallScanned(hits, 0);
    Findall(hits, 0)
  }

  /** Where the matches of the detection scan start, in order. */
  ghost function DetectionStarts(s: string): (ps: seq<nat>)
    ensures |ps| == |Detections(s)| && forall k :: 0 <= k < |ps| ==> ps[k] < |s|
  {
    FindallListed(DetectionAttempts(s), 0);
    Starts(DetectionAttempts(s), 0)
  }

  /** Soundness of the detection scan: the k-th result is the row of the text
      at the k-th match position, disabled exactly when its word is
      `Disabled`. */
  lemma DetectionsSound(s: string)
    ensures var r, ps := Detections(s), DetectionStarts(s);
            forall k :: 0 <= k < |r| ==> DetectionRow(s, ps[k], r[k])
  {
    var hits := DetectionAttempts(s);
    FindallListed(hits, 0);
    var r, ps := Detections(s), DetectionStarts(s);
    forall k | 0 <= k < |r|
      ensures DetectionRow(s, ps[k], r[k])
    {
      DetectionAtSound(s, ps[k]);
    }
  }

  /** Order: the matches follow one another, each ending (at the end of its
      line) before the next one starts. */
  lemma DetectionsOrdered(s: string)
    ensures var r, ps := Detections(s), DetectionStarts(s);
            forall k :: 0 <= k < |r| - 1 ==> DetectionAt(s, ps[k]).Hit? && DetectionAt(s, ps[k]).end <= ps[k + 1]
  {
    var hits := DetectionAttempts(s);
    FindallListed(hits, 0);
    FindallOrdered(hits, 0);
  }

  /** Completeness: every detection row of the text lies within one of the
      matches, so none is missed. */
  lemma DetectionsComplete(s: string)
    ensures var r, ps := Detections(s), DetectionStarts(s);
            forall j: nat, d :: j < |s| && DetectionRow(s, j, d) ==>
              exists k :: 0 <= k < |r| && DetectionAt(s, ps[k]).Hit? && ps[k] <= j < DetectionAt(s, ps[k]).end
  {
    var hits := DetectionAttempts(s);
    FindallCovers(hits, 0);
    var r, ps := Detections(s), DetectionStarts(s);
    forall j: nat, d | j < |s| && DetectionRow(s, j, d)
      ensures exists k :: 0 <= k < |r| && DetectionAt(s, ps[k]).Hit? && ps[k] <= j < DetectionAt(s, ps[k]).end
    {
      DetectionAtFinds(s, j, d);
      assert Covered(hits, ps, j);
    }
  }

  // ---------------------------------------------------------------------------
  // re.search(key + " +: (.*)", s)

  /** The field pattern tried at index `i`: `key`, one or more spaces and
      `: ` at `i`; the value is the rest of that line, `\r` included. */
  function FieldAt(s: string, key: string, i: nat): (v: Option<string>)
    requires i <= |s|
    ensures v.Some? <==> OccursAt(s, key, i)
                         && i + |key| < SkipSpaces(s, i + |key|) && OccursAt(s, ": ", SkipSpaces(s, i + |key|))
    ensures v.Some? ==> var q := SkipSpaces(s, i + |key|); v.value == s[q + 2..LineEnd(s, q + 2)]
    ensures v.Some? ==> '\n' !in v.value
  {
    if !OccursAt(s, key, i) then None
    else
      var q := SkipSpaces(s, i + |key|);
      if q > i + |key| && OccursAt(s, ": ", q) then
        LineEndRun(s, q + 2);
        Some(s[q + 2..LineEnd(s, q + 2)])
      else None
  }

  /** The first index at or after `i` where the field pattern matches, or `|s| + 1`. */
  function FieldIndex(s: string, key: string, i: nat): (k: nat)
    requires i <= |s|
    ensures i <= k <= |s| + 1
    ensures forall j :: i <= j < k ==> FieldAt(s, key, j).None?
    ensures k <= |s| ==> FieldAt(s, key, k).Some?
    decreases |s| - i
  {
    if FieldAt(s, key, i).Some? then i
    else if i == |s| then |s| + 1
    else FieldIndex(s, key, i + 1)
  }

  /** The first group of `re.search(key + " +: (.*)", s)`: the rest of the line
      after the leftmost match, `\r` included; `None` where `.groups()` would
      fail on a missing match. */
  function Field(s: string, key: string): (v: Option<string>)
    ensures v.None? <==> forall j :: 0 <= j <= |s| ==> FieldAt(s, key, j).None?
    ensures v.Some? ==> exists j :: 0 <= j <= |s| && FieldAt(s, key, j) == v
                                    && forall i :: 0 <= i < j ==> FieldAt(s, key, i).None?
  {
    var k := FieldIndex(s, key, 0);
    if k <= |s| then FieldAt(s, key, k) else None
  }

  /** The field read against the text: `key` at the leftmost match index `j`,
      one or more spaces and `: ` at `q`, and the value is the text after
      `: ` up to the end of that line. */
  lemma FieldText(s: string, key: string)
    ensures Field(s, key).Some? ==>
              exists j: nat :: j <= |s| && OccursAt(s, key, j) && (forall i :: 0 <= i < j ==> FieldAt(s, key, i).None?)
                && var q := SkipSpaces(s, j + |key|);
                   && j + |key| < q && OccursAt(s, ": ", q)
                   && Field(s, key).value == s[q + 2..LineEnd(s, q + 2)]
  {
    var k := FieldIndex(s, key, 0);
    if k <= |s| {
      assert FieldAt(s, key, k).Some?;
    }
  }

  // ---------------------------------------------------------------------------
  // test_cdp: re.search(r"(.*) (is) (.*),(.*)", reply)

  /** The largest index `j` with `t` at `j` and ending by `hi`. */
  function LastOccurrence(s: string, t: string, hi: nat): (r: Option<nat>)
    requires hi <= |s|
    ensures r.Some? ==> r.value + |t| <= hi && OccursAt(s, t, r.value)
    ensures r.Some? ==> forall j: nat :: r.value < j && j + |t| <= hi ==> !OccursAt(s, t, j)
    ensures r.None? ==> forall j: nat :: j + |t| <= hi ==> !OccursAt(s, t, j)
    decreases hi
  {
    if hi < |t| then None
    else if OccursAt(s, t, hi - |t|) then Some(hi - |t|)
    else LastOccurrence(s, t, hi - 1)
  }

  /** ` is ` at `p` and a comma at `c` after it: a way for the CDP pattern to
      match within one line. */
  predicate CdpSplit(line: string, p: nat, c: nat)
  {
    OccursAt(line, " is ", p) && p + 4 <= c && OccursAt(line, ",", c)
  }

  /** The third group of `(.*) (is) (.*),(.*)` within one line. There is a
      match exactly when some ` is ` has a comma after it. The greedy first
      group ends at the last ` is ` that still has a comma after it; the greedy
      third group runs from there to the last comma. */
  function CdpMatch(line: string): (g: Option<string>)
    ensures g.None? <==> forall p: nat, c: nat :: !CdpSplit(line, p, c)
    ensures g.Some? ==>
              exists p: nat, c: nat ::
                && CdpSplit(line, p, c) && g.value == line[p + 4..c]
                && (forall c2: nat :: c < c2 ==> !OccursAt(line, ",", c2))
                && (forall p2: nat :: p < p2 && p2 + 4 <= c ==> !OccursAt(line, " is ", p2))
  {
    match LastOccurrence(line, ",", |line|)
    case None => None
    case Some(c) =>
      match LastOccurrence(line, " is ", c)
      case None =>
        assert forall p: nat, c': nat :: CdpSplit(line, p, c') ==> c' <= c;
        None
      case Some(p) =>
        assert CdpSplit(line, p, c);
        Some(line[p + 4..c])
  }

  /** Index of the first line where the CDP pattern matches, or the number of lines. */
  function CdpLine(lines: seq<string>, i: nat): (k: nat)
    requires i <= |lines|
    ensures i <= k <= |lines|
    ensures forall j :: i <= j < k ==> CdpMatch(lines[j]).None?
    ensures k < |lines| ==> CdpMatch(lines[k]).Some?
    decreases |lines| - i
  {
    if i == |lines| || CdpMatch(lines[i]).Some? then i else CdpLine(lines, i + 1)
  }

  /** The third group of the search over a reply split into `lines`: the
      pattern cannot cross a newline, so it is that of the first line where it
      matches, and there is none when no line matches. */
  function CdpStatus(lines: seq<string>): (g: Option<string>)
    ensures g.None? <==> forall j :: 0 <= j < |lines| ==> CdpMatch(lines[j]).None?
    ensures g.Some? ==> exists k :: 0 <= k < |lines| && CdpMatch(lines[k]) == g
                                   && forall j :: 0 <= j < k ==> CdpMatch(lines[j]).None?
  {
    var k := CdpLine(lines, 0);
    if k < |lines| then CdpMatch(lines[k]) else None
  }

  // ---------------------------------------------------------------------------
  // test_console_password: the `line con 0` block (app.py:185-189)

  /** A line that begins with a space belongs to the block. */
  predicate Indented(line: string)
  {
    |line| > 0 && line[0] == ' '
  }

  /** The first line at or after `i` that does not begin with a space. */
  function BlockEnd(lines: seq<string>, i: nat): (e: nat)
    requires i <= |lines|
    ensures i <= e <= |lines|
    ensures forall j :: i <= j < e ==> Indented(lines[j])
    ensures e == |lines| || !Indented(lines[e])
    decreases |lines| - i
  {
    if i == |lines| || !Indented(lines[i]) then i else BlockEnd(lines, i + 1)
  }

  /** The indented lines from `i` on, each without its first and last character. */
  function BlockFrom(lines: seq<string>, i: nat): (b: Option<seq<string>>)
    requires i <= |lines|
    ensures b.None? <==> BlockEnd(lines, i) < |lines| && lines[BlockEnd(lines, i)] == ""
    ensures b.Some? ==> |b.value| == BlockEnd(lines, i) - i
    ensures b.Some? ==> forall j :: i <= j < BlockEnd(lines, i) ==> b.value[j - i] == Inner(lines[j])
    decreases |lines| - i
  {
    if i == |lines| then Some([])
    else if lines[i] == "" then None
    else if lines[i][0] != ' ' then Some([])
    else
      match BlockFrom(lines, i + 1)
      case None => None
      case Some(rest) => Some([Inner(lines[i])] + rest)
  }

  /** The console block of `show running-config | begin line con 0`, split on
      newlines: line 2 without its last character, then each following line
      that begins with a space, without its first and last character, up to
      the first line that does not. `None` where Python raises an IndexError:
      fewer than three lines, or an empty line reached inside the block. */
  function ConsoleBlock(lines: seq<string>): (b: Option<seq<string>>)
    ensures b.None? <==> |lines| < 3 || (BlockEnd(lines, 3) < |lines| && lines[BlockEnd(lines, 3)] == "")
    ensures b.Some? ==> |b.value| == BlockEnd(lines, 3) - 2 && b.value[0] == DropLast(lines[2])
    ensures b.Some? ==> forall j :: 3 <= j < BlockEnd(lines, 3) ==> b.value[j - 2] == Inner(lines[j])
  {
    if |lines| < 3 then None
    else
      match BlockFrom(lines, 3)
      case None => None
      case Some(rest) => Some([DropLast(lines[2])] + rest)
  }

  /** The block extraction loop of `test_console_password`. */
  method ExtractConsoleBlock(lines: seq<string>) returns (block: Option<seq<string>>)
    ensures block == ConsoleBlock(lines)
  {
    if |lines| < 3 {
      return None;
    }
    var fragments := [DropLast(lines[2])];
    var i := 3;
    while i < |lines|
      invariant 3 <= i <= |lines|
      invariant forall j :: 3 <= j < i ==> Indented(lines[j])
      invariant |fragments| == i - 2 && fragments[0] == DropLast(lines[2])
      invariant forall j :: 3 <= j < i ==> fragments[j - 2] == Inner(lines[j])
    {
      if lines[i] == "" {
        assert i == BlockEnd(lines, 3);
        return None;
      }
      if lines[i][0] != ' ' {
        break;
      }
      fragments := fragments + [Inner(lines[i])];
      i := i + 1;
    }
    assert i == BlockEnd(lines, 3);
    var rest := BlockFrom(lines, 3).value;
    forall m | 0 <= m < |rest|
      ensures fragments[m + 1] == rest[m]
    {
      assert fragments[(m + 3) - 2] == Inner(lines[m + 3]);
    }
    assert fragments == [DropLast(lines[2])] + rest;
    block := Some(fragments);
  }
}
