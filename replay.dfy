/** The backlog replay of publishStoredData as a function of the lines of
    the data file and of the transport's answers: which publishes are made,
    in which order, and which lines make up the file afterwards. */
module Replay {
  import opened Wrappers
  import opened RecordFormat

  /** The two Adafruit IO feeds, temp_sensor_1 and temp_sensor_2. */
  datatype Feed = Feed1 | Feed2

  /** One `publish` call: the feed and the value read from the line. */
  datatype Attempt = Attempt(feed: Feed, value: Decimal)

  /** What one replay leaves: the new content of the data file and the
      publish calls it made, in call order. */
  datatype Outcome = Outcome(log: seq<string>, attempts: seq<Attempt>)

  /** The transport: the k-th publish call of a replay (from 0) succeeds when
      `acks[k]` is true; calls past the end of `acks` fail. */
  predicate Ack(acks: seq<bool>, k: nat) {
    k < |acks| && acks[k]
  }

  /** The first `n` publish calls all succeed. */
  predicate AllAcked(acks: seq<bool>, n: nat) {
    forall k :: 0 <= k < n ==> Ack(acks, k)
  }

  /** The publishes a well-formed line calls for: feed 1, then feed 2. */
  function Pair(f: Fields): seq<Attempt> {
    [Attempt(Feed1, f.t1), Attempt(Feed2, f.t2)]
  }

  /** The line test of the replay: the length check and the sscanf
      conversion (RecordFormat.AcceptLine on the device). The replay is
      stated for any such test so that its proofs do not depend on how a
      line is scanned. */
  type Accept = string -> Option<Fields>

  /** The parsed fields of the lines that pass the acceptance test, in order. */
  function Records(accept: Accept, lines: seq<string>): seq<Fields> {
    if lines == [] then []
    else
      match accept(lines[0])
      case None => Records(accept, lines[1..])
      case Some(f) => [f] + Records(accept, lines[1..])
  }

  /** The publishes that deliver `recs` in order, both feeds each. */
  function Plan(recs: seq<Fields>): (p: seq<Attempt>)
    ensures |p| == 2 * |recs|
  {
    if recs == [] then [] else Pair(recs[0]) + Plan(recs[1..])
  }

  /** publishStoredData's loop once the data file and the staging file are
      open: skip a line that fails the acceptance test; publish feed 1 then
      feed 2 of a well-formed line; on the first failed publish keep that
      line and every line after it, unread, and stop. */
  function Drain(accept: Accept, lines: seq<string>, acks: seq<bool>): (r: Outcome)
    ensures |r.log| <= |lines|
    decreases |lines|
  {
    if lines == [] then Outcome([], [])
    else
      match accept(lines[0])
      case None => Drain(accept, lines[1..], acks)
      case Some(f) =>
        if !Ack(acks, 0) then Outcome(lines, [Attempt(Feed1, f.t1)])
        else if !Ack(acks, 1) then Outcome(lines, Pair(f))
        else
          var r := Drain(accept, lines[1..], acks[2..]);
          Outcome(r.log, Pair(f) + r.attempts)
  }

  /** The new log is a suffix of the old one: the replay only removes lines
      from the front, and never changes or reorders the ones it keeps. */
  lemma {:induction false} DrainSuffix(accept: Accept, lines: seq<string>, acks: seq<bool>)
    ensures var r := Drain(accept, lines, acks);
      r.log == lines[|lines| - |r.log|..]
    decreases |lines|
  {
    if lines != [] {
      var rest := lines[1..];
      match accept(lines[0])
      case None =>
        DrainSuffix(accept, rest, acks);
        var r := Drain(accept, rest, acks);
        assert rest[|rest| - |r.log|..] == lines[|lines| - |r.log|..];
      case Some(f) =>
        if Ack(acks, 0) && Ack(acks, 1) {
          DrainSuffix(accept, rest, acks[2..]);
          var r := Drain(accept, rest, acks[2..]);
          assert rest[|rest| - |r.log|..] == lines[|lines| - |r.log|..];
        }
    }
  }

  // ---------------------------------------------------------------------
  // A non-recursive description of the replay

  /** The replay removed the first `k` lines and produced `r`: every
      well-formed line among them was published on both feeds, in order, and
      acknowledged; if lines remain, the first of them is well-formed and
      its feed-1 publish, or else its feed-2 publish, was the one that
      failed and the last one made. */
  ghost predicate StopsAfter(accept: Accept, lines: seq<string>, acks: seq<bool>, k: nat, r: Outcome) {
    && k <= |lines|
    && r.log == lines[k..]
    && var sent := Plan(Records(accept, lines[..k]));
    && AllAcked(acks, |sent|)
    && if k == |lines| then r.attempts == sent
       else
         && accept(lines[k]).Some?
         && var f := accept(lines[k]).value;
         || (!Ack(acks, |sent|) && r.attempts == sent + [Attempt(Feed1, f.t1)])
         || (Ack(acks, |sent|) && !Ack(acks, |sent| + 1) && r.attempts == sent + Pair(f))
  }

  lemma {:induction false} RecordsConcat(accept: Accept, a: seq<string>, b: seq<string>)
    ensures Records(accept, a + b) == Records(accept, a) + Records(accept, b)
  {
    if a != [] {
      assert (a + b)[0] == a[0];
      assert (a + b)[1..] == a[1..] + b;
      RecordsConcat(accept, a[1..], b);
    } else {
      assert a + b == b;
    }
  }

  lemma {:induction false} PlanConcat(a: seq<Fields>, b: seq<Fields>)
    ensures Plan(a + b) == Plan(a) + Plan(b)
  {
    if a != [] {
      assert (a + b)[0] == a[0];
      assert (a + b)[1..] == a[1..] + b;
      PlanConcat(a[1..], b);
      assert Pair(a[0]) + (Plan(a[1..]) + Plan(b)) == (Pair(a[0]) + Plan(a[1..])) + Plan(b);
    } else {
      assert a + b == b;
    }
  }

  /** Dropping the first line of a replay that got past it. */
  lemma RecordsAfterHead(accept: Accept, lines: seq<string>, k: nat)
    requires 1 <= k <= |lines|
    ensures Records(accept, lines[..k])
         == Records(accept, [lines[0]]) + Records(accept, lines[1..][..k - 1])
    ensures lines[k..] == lines[1..][k - 1..]
  {
    assert lines[..k] == [lines[0]] + lines[1..][..k - 1];
    RecordsConcat(accept, [lines[0]], lines[1..][..k - 1]);
  }

  lemma AckShift(acks: seq<bool>, n: nat)
    requires Ack(acks, 0) && Ack(acks, 1) && AllAcked(acks[2..], n)
    ensures AllAcked(acks, n + 2)
  {
    forall j | 0 <= j < n + 2
      ensures Ack(acks, j)
    {
      if j >= 2 {
        assert Ack(acks[2..], j - 2);
      }
    }
  }

  /** Drain is described by StopsAfter, with k the number of lines removed. */
  lemma {:induction false} DrainStops(accept: Accept, lines: seq<string>, acks: seq<bool>)
    ensures var r := Drain(accept, lines, acks);
      StopsAfter(accept, lines, acks, |lines| - |r.log|, r)
    decreases |lines|
  {
    var r := Drain(accept, lines, acks);
    if lines == [] {
      assert lines[..0] == [];
    } else {
      var rest := lines[1..];
      match accept(lines[0])
      case None =>
        assert r == Drain(accept, rest, acks);
        DrainStops(accept, rest, acks);
        var k' := |rest| - |r.log|;
        StopsAfterSkip(accept, lines, acks, k' + 1, r);
      case Some(f) =>
        if !Ack(acks, 0) || !Ack(acks, 1) {
          StopsAtHead(accept, lines, acks, f);
        } else {
          var r' := Drain(accept, rest, acks[2..]);
          assert r == Outcome(r'.log, Pair(f) + r'.attempts);
          DrainStops(accept, rest, acks[2..]);
          StopsAfterPublished(accept, lines, acks, f, |rest| - |r'.log|, r');
        }
    }
  }

  /** A malformed first line is dropped without a publish. */
  lemma StopsAfterSkip(accept: Accept, lines: seq<string>, acks: seq<bool>, k: nat, r: Outcome)
    requires lines != [] && accept(lines[0]).None? && k >= 1
    requires StopsAfter(accept, lines[1..], acks, k - 1, r)
    ensures StopsAfter(accept, lines, acks, k, r)
  {
    var rest := lines[1..];
    assert Records(accept, [lines[0]]) == [];
    RecordsAfterHead(accept, lines, k);
    assert Records(accept, lines[..k]) == Records(accept, rest[..k - 1]);
    if k < |lines| {
      assert lines[k] == rest[k - 1];
    }
  }

  /** A well-formed first line whose publish fails stops the replay there. */
  lemma StopsAtHead(accept: Accept, lines: seq<string>, acks: seq<bool>, f: Fields)
    requires lines != [] && accept(lines[0]) == Some(f)
    requires !Ack(acks, 0) || !Ack(acks, 1)
    ensures StopsAfter(accept, lines, acks, 0, Drain(accept, lines, acks))
  {
    var r := Drain(accept, lines, acks);
    assert lines[..0] == [] && lines[0..] == lines;
    assert Plan(Records(accept, lines[..0])) == [];
    if !Ack(acks, 0) {
      assert r.attempts == [] + [Attempt(Feed1, f.t1)];
    } else {
      assert r.attempts == [] + Pair(f);
    }
  }

  /** A well-formed first line whose two publishes succeed is removed, and
      the replay goes on with the rest of the lines and of the answers. */
  lemma StopsAfterPublished(accept: Accept, lines: seq<string>, acks: seq<bool>, f: Fields,
                            k': nat, r': Outcome)
    requires lines != [] && accept(lines[0]) == Some(f) && Ack(acks, 0) && Ack(acks, 1)
    requires StopsAfter(accept, lines[1..], acks[2..], k', r')
    ensures StopsAfter(accept, lines, acks, k' + 1, Outcome(r'.log, Pair(f) + r'.attempts))
  {
    var rest := lines[1..];
    var r := Outcome(r'.log, Pair(f) + r'.attempts);
    var k := k' + 1;
    assert Records(accept, [lines[0]]) == [f];
    RecordsAfterHead(accept, lines, k);
    var sent' := Plan(Records(accept, rest[..k - 1]));
    var sent := Plan(Records(accept, lines[..k]));
    assert sent == Pair(f) + sent' by {
      assert Records(accept, lines[..k]) == [f] + Records(accept, rest[..k - 1]);
    }
    AckShift(acks, |sent'|);
    forall j: nat
      ensures Ack(acks[2..], j) <==> Ack(acks, j + 2)
    {
    }
    assert r.log == lines[k..];
    assert |sent| == |sent'| + 2;
    if k < |lines| {
      assert lines[k] == rest[k - 1];
      var g := accept(lines[k]).value;
      assert Ack(acks[2..], |sent'|) <==> Ack(acks, |sent|);
      assert Ack(acks[2..], |sent'| + 1) <==> Ack(acks, |sent| + 1);
      if !Ack(acks, |sent|) {
        assert r'.attempts == sent' + [Attempt(Feed1, g.t1)];
        assert Pair(f) + (sent' + [Attempt(Feed1, g.t1)]) == sent + [Attempt(Feed1, g.t1)];
      } else {
        assert r'.attempts == sent' + Pair(g);
        assert Pair(f) + (sent' + Pair(g)) == sent + Pair(g);
      }
    }
  }

  /** More lines never have fewer records. */
  lemma RecordsGrow(accept: Accept, lines: seq<string>, j: nat, j': nat)
    requires j <= j' <= |lines|
    ensures Records(accept, lines[..j']) == Records(accept, lines[..j]) + Records(accept, lines[j..j'])
  {
    assert lines[..j'] == lines[..j] + lines[j..j'];
    RecordsConcat(accept, lines[..j], lines[j..j']);
  }

  /** A replay that got past line k published both feeds of it. */
  lemma PastLine(accept: Accept, lines: seq<string>, acks: seq<bool>, k: nat, k': nat, r: Outcome)
    requires k < k' && StopsAfter(accept, lines, acks, k', r)
    requires accept(lines[k]).Some?
    ensures var n := |Plan(Records(accept, lines[..k]))|; Ack(acks, n) && Ack(acks, n + 1)
  {
    RecordsGrow(accept, lines, k, k');
    RecordsGrow(accept, lines, k, k + 1);
    RecordsGrow(accept, lines, k + 1, k');
    assert lines[k..k + 1] == [lines[k]];
    var n := |Plan(Records(accept, lines[..k]))|;
    assert |Plan(Records(accept, lines[..k']))| >= n + 2;
  }

  /** StopsAfter determines the outcome: it describes Drain and nothing else. */
  lemma StopsAfterIsDrain(accept: Accept, lines: seq<string>, acks: seq<bool>, k: nat, r: Outcome)
    requires StopsAfter(accept, lines, acks, k, r)
    ensures r == Drain(accept, lines, acks)
  {
    var d := Drain(accept, lines, acks);
    var k0 := |lines| - |d.log|;
    DrainStops(accept, lines, acks);
    if k < k0 {
      PastLine(accept, lines, acks, k, k0, d);
      assert false;
    } else if k0 < k {
      PastLine(accept, lines, acks, k0, k, r);
      assert false;
    }
  }

  /** The replay empties the log exactly when every publish that the
      well-formed lines call for succeeds. */
  lemma DrainEmptiesLog(accept: Accept, lines: seq<string>, acks: seq<bool>)
    ensures Drain(accept, lines, acks).log == [] <==> AllAcked(acks, 2 * |Records(accept, lines)|)
  {
    var r := Drain(accept, lines, acks);
    var k := |lines| - |r.log|;
    DrainStops(accept, lines, acks);
    assert lines[..|lines|] == lines;
    if r.log != [] {
      var n := |Plan(Records(accept, lines[..k]))|;
      RecordsGrow(accept, lines, k, |lines|);
      RecordsGrow(accept, lines, k, k + 1);
      RecordsGrow(accept, lines, k + 1, |lines|);
      assert lines[k..k + 1] == [lines[k]];
      assert 2 * |Records(accept, lines)| >= n + 2;
      assert !Ack(acks, n) || !Ack(acks, n + 1);
    }
  }

  /** The records of the first k lines around a well-formed line i < k. */
  lemma RecordsAround(accept: Accept, lines: seq<string>, i: nat, k: nat)
    requires i < k <= |lines| && accept(lines[i]).Some?
    ensures Records(accept, lines[..k])
         == Records(accept, lines[..i]) + [accept(lines[i]).value] + Records(accept, lines[i + 1..k])
  {
    RecordsGrow(accept, lines, i, k);
    RecordsGrow(accept, lines, i, i + 1);
    RecordsGrow(accept, lines, i + 1, k);
    assert lines[i..i + 1] == [lines[i]];
    assert lines[i..k] == lines[i..i + 1] + lines[i + 1..k];
    RecordsConcat(accept, lines[i..i + 1], lines[i + 1..k]);
  }

  /** In a plan, record number |before| is published by calls 2|before| and 2|before| + 1. */
  lemma PlanAt(before: seq<Fields>, f: Fields, after: seq<Fields>)
    ensures var p := 2 * |before|;
      p + 2 <= |Plan(before + [f] + after)| && Plan(before + [f] + after)[p..p + 2] == Pair(f)
  {
    PlanConcat(before + [f], after);
    PlanConcat(before, [f]);
    assert Plan([f]) == Pair(f) + Plan([]);
  }

  /** At-least-once delivery: a well-formed line the replay removes from the
      log was published on feed 1 and then feed 2 (calls p and p + 1, p
      counting the publishes of the well-formed lines before it), and both
      calls succeeded. */
  lemma RemovedLineDelivered(accept: Accept, lines: seq<string>, acks: seq<bool>, i: nat)
    requires i < |lines| - |Drain(accept, lines, acks).log|
    requires accept(lines[i]).Some?
    ensures var r := Drain(accept, lines, acks);
      var p := 2 * |Records(accept, lines[..i])|;
      && p + 2 <= |r.attempts|
      && r.attempts[p..p + 2] == Pair(accept(lines[i]).value)
      && Ack(acks, p) && Ack(acks, p + 1)
  {
    var r := Drain(accept, lines, acks);
    var k := |lines| - |r.log|;
    var before := Records(accept, lines[..i]);
    var f := accept(lines[i]).value;
    var after := Records(accept, lines[i + 1..k]);
    var sent := Plan(Records(accept, lines[..k]));
    var p := 2 * |before|;
    assert sent <= r.attempts && AllAcked(acks, |sent|) by {
      DrainSent(accept, lines, acks);
    }
    assert sent == Plan(before + [f] + after) by {
      RecordsAround(accept, lines, i, k);
    }
    assert p + 2 <= |sent| && sent[p..p + 2] == Pair(f) by {
      PlanAt(before, f, after);
    }
    assert r.attempts[p..p + 2] == sent[p..p + 2];
    assert Ack(acks, p) && Ack(acks, p + 1);
  }

  /** The publishes for the removed lines come first, and all succeeded. */
  lemma DrainSent(accept: Accept, lines: seq<string>, acks: seq<bool>)
    ensures var r := Drain(accept, lines, acks);
      var sent := Plan(Records(accept, lines[..|lines| - |r.log|]));
      sent <= r.attempts && AllAcked(acks, |sent|)
  {
    DrainStops(accept, lines, acks);
  }

  /** What a malformed line between `a` and `b` changes in a replay: the
      same publishes are made, and the line stays in the log exactly when
      the replay stopped on a line of `a`. */
  ghost predicate Isolated(accept: Accept, a: seq<string>, bad: string, b: seq<string>, acks: seq<bool>) {
    SameBut(Drain(accept, a + [bad] + b, acks), Drain(accept, a + b, acks), bad, b)
  }

  /** `r` and `r'` made the same publishes, and `r` kept `bad` before `b`
      when `r'` stopped before `b`. */
  predicate SameBut(r: Outcome, r': Outcome, bad: string, b: seq<string>) {
    && r.attempts == r'.attempts
    && if |r'.log| > |b| then r.log == r'.log[..|r'.log| - |b|] + [bad] + b else r.log == r'.log
  }

  /** Corruption isolation: a malformed line causes no publish and does not
      change the publishes made for the lines around it. */
  lemma {:induction false} MalformedLineIsolated(accept: Accept, a: seq<string>, bad: string,
                                                 b: seq<string>, acks: seq<bool>)
    requires accept(bad).None?
    ensures Isolated(accept, a, bad, b, acks)
    decreases |a|
  {
    if a == [] {
      IsolatedAtHead(accept, bad, b, acks);
    } else {
      match accept(a[0])
      case None =>
        MalformedLineIsolated(accept, a[1..], bad, b, acks);
        IsolatedAfterSkip(accept, a, bad, b, acks);
      case Some(f) =>
        if !Ack(acks, 0) || !Ack(acks, 1) {
          IsolatedAfterStop(accept, a, bad, b, acks, f);
        } else {
          MalformedLineIsolated(accept, a[1..], bad, b, acks[2..]);
          IsolatedAfterPublished(accept, a, bad, b, acks, f);
        }
    }
  }

  lemma IsolatedAtHead(accept: Accept, bad: string, b: seq<string>, acks: seq<bool>)
    requires accept(bad).None?
    ensures Isolated(accept, [], bad, b, acks)
  {
    var lines := [] + [bad] + b;
    assert lines[0] == bad && lines[1..] == b && [] + b == b;
    assert Drain(accept, lines, acks) == Drain(accept, b, acks);
  }

  lemma IsolatedAfterSkip(accept: Accept, a: seq<string>, bad: string, b: seq<string>, acks: seq<bool>)
    requires a != [] && accept(a[0]).None?
    requires Isolated(accept, a[1..], bad, b, acks)
    ensures Isolated(accept, a, bad, b, acks)
  {
    var lines := a + [bad] + b;
    assert lines[0] == a[0] && lines[1..] == a[1..] + [bad] + b;
    assert (a + b)[0] == a[0] && (a + b)[1..] == a[1..] + b;
    assert Drain(accept, lines, acks) == Drain(accept, a[1..] + [bad] + b, acks);
    assert Drain(accept, a + b, acks) == Drain(accept, a[1..] + b, acks);
  }

  lemma IsolatedAfterStop(accept: Accept, a: seq<string>, bad: string, b: seq<string>, acks: seq<bool>,
                          f: Fields)
    requires a != [] && accept(a[0]) == Some(f) && (!Ack(acks, 0) || !Ack(acks, 1))
    ensures Isolated(accept, a, bad, b, acks)
  {
    var lines := a + [bad] + b;
    assert lines[0] == a[0] && (a + b)[0] == a[0];
    var r := Drain(accept, lines, acks);
    var r' := Drain(accept, a + b, acks);
    assert r.log == lines && r'.log == a + b;
    assert (a + b)[..|a|] == a;
  }

  lemma IsolatedAfterPublished(accept: Accept, a: seq<string>, bad: string, b: seq<string>,
                               acks: seq<bool>, f: Fields)
    requires a != [] && accept(a[0]) == Some(f) && Ack(acks, 0) && Ack(acks, 1)
    requires Isolated(accept, a[1..], bad, b, acks[2..])
    ensures Isolated(accept, a, bad, b, acks)
  {
    var lines := a + [bad] + b;
    assert lines[0] == a[0] && lines[1..] == a[1..] + [bad] + b;
    assert (a + b)[0] == a[0] && (a + b)[1..] == a[1..] + b;
    var s := Drain(accept, a[1..] + [bad] + b, acks[2..]);
    var s' := Drain(accept, a[1..] + b, acks[2..]);
    assert SameBut(s, s', bad, b);
    assert Drain(accept, lines, acks) == Outcome(s.log, Pair(f) + s.attempts);
    assert Drain(accept, a + b, acks) == Outcome(s'.log, Pair(f) + s'.attempts);
    assert SameBut(Outcome(s.log, Pair(f) + s.attempts), Outcome(s'.log, Pair(f) + s'.attempts), bad, b);
  }

  // ---------------------------------------------------------------------
  // The replay one line at a time

  /** After reading the first `k` lines and making `call` publish calls that
      produced `sent`, going on with the rest gives the whole replay. */
  ghost predicate Resumes(accept: Accept, lines: seq<string>, acks: seq<bool>, k: nat, call: nat,
                          sent: seq<Attempt>) {
    && k <= |lines| && call <= |acks|
    && var r := Drain(accept, lines[k..], acks[call..]);
    Drain(accept, lines, acks) == Outcome(r.log, sent + r.attempts)
  }

  lemma ResumeStart(accept: Accept, lines: seq<string>, acks: seq<bool>)
    ensures Resumes(accept, lines, acks, 0, 0, [])
  {
    assert lines[0..] == lines && acks[0..] == acks;
  }

  /** A line that fails the acceptance test is passed over. */
  lemma ResumeSkip(accept: Accept, lines: seq<string>, acks: seq<bool>, k: nat, call: nat,
                   sent: seq<Attempt>)
    requires Resumes(accept, lines, acks, k, call, sent)
    requires k < |lines| && accept(lines[k]).None?
    ensures Resumes(accept, lines, acks, k + 1, call, sent)
  {
    assert lines[k..][0] == lines[k] && lines[k..][1..] == lines[k + 1..];
  }

  /** A line whose two publishes succeed is done with. */
  lemma ResumePublished(accept: Accept, lines: seq<string>, acks: seq<bool>, k: nat, call: nat,
                        sent: seq<Attempt>)
    requires Resumes(accept, lines, acks, k, call, sent)
    requires k < |lines| && accept(lines[k]).Some?
    requires Ack(acks, call) && Ack(acks, call + 1)
    ensures Resumes(accept, lines, acks, k + 1, call + 2, sent + Pair(accept(lines[k]).value))
  {
    var f := accept(lines[k]).value;
    assert lines[k..][0] == lines[k] && lines[k..][1..] == lines[k + 1..];
    assert Ack(acks[call..], 0) && Ack(acks[call..], 1);
    assert acks[call..][2..] == acks[call + 2..];
    var r := Drain(accept, lines[k + 1..], acks[call + 2..]);
    assert Drain(accept, lines[k..], acks[call..]) == Outcome(r.log, Pair(f) + r.attempts);
    assert sent + (Pair(f) + r.attempts) == sent + Pair(f) + r.attempts;
  }

  /** The first failed publish ends the replay: the log is this line and the
      ones after it, and the failed call is the last one made. */
  lemma ResumeFailed(accept: Accept, lines: seq<string>, acks: seq<bool>, k: nat, call: nat,
                     sent: seq<Attempt>)
    requires Resumes(accept, lines, acks, k, call, sent)
    requires k < |lines| && accept(lines[k]).Some?
    requires !Ack(acks, call) || !Ack(acks, call + 1)
    ensures var f := accept(lines[k]).value;
      Drain(accept, lines, acks)
        == Outcome(lines[k..], sent + if Ack(acks, call) then Pair(f) else [Attempt(Feed1, f.t1)])
  {
    assert lines[k..][0] == lines[k];
    assert Ack(acks[call..], 0) <==> Ack(acks, call);
    assert call + 1 <= |acks| ==> (Ack(acks[call..], 1) <==> Ack(acks, call + 1));
  }

  /** Every line read: the replay made exactly the calls so far and left nothing. */
  lemma ResumeDone(accept: Accept, lines: seq<string>, acks: seq<bool>, call: nat, sent: seq<Attempt>)
    requires Resumes(accept, lines, acks, |lines|, call, sent)
    ensures Drain(accept, lines, acks) == Outcome([], sent)
  {
    assert lines[|lines|..] == [];
    assert sent + [] == sent;
  }

  /** When every publish succeeds, a well-formed line added at the end of the
      log is published last, and the log ends up empty. */
  lemma LastLinePublishedLast(accept: Accept, lines: seq<string>, l: string, acks: seq<bool>)
    requires accept(l).Some?
    requires AllAcked(acks, 2 * |Records(accept, lines + [l])|)
    ensures var r := Drain(accept, lines + [l], acks);
      && r.log == []
      && |r.attempts| >= 2 && r.attempts[|r.attempts| - 2..] == Pair(accept(l).value)
  {
    var all := lines + [l];
    var f := accept(l).value;
    RecordsConcat(accept, lines, [l]);
    assert Records(accept, [l]) == [f];
    var recs := Records(accept, lines);
    DrainEmptiesLog(accept, all, acks);
    DrainStops(accept, all, acks);
    assert all[..|all|] == all;
    PlanConcat(recs, [f]);
    assert Plan([f]) == Pair(f) + Plan([]);
  }
}
