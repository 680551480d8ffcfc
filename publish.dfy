/** The read loop of publishStoredData over the bytes of the data file: it
    reads line by line, publishes, and on the first failed publish writes
    the requeued text for the staging file /tmp.csv. The sscanf conversion
    is a parameter here so that the proof of the loop does not depend on how
    a line is scanned; Logger passes RecordFormat.ScanLine. */
module Publish {
  import opened Wrappers
  import opened RecordFormat
  import opened LogFile
  import opened Replay

  /** The line test made of the length check and a conversion `scan`. */
  ghost predicate GatedBy(accept: Accept, scan: Accept) {
    forall l :: accept(l) == if |l| < MinLineLength then None else scan(l)
  }

  /** The data file after a replay over `content`: empty when every line was
      dealt with; otherwise the line whose publish failed, written back with
      println, then everything after it as it was. */
  function ReplayedFile(accept: Accept, content: string, acks: seq<bool>): string {
    var lines := ReadLines(content);
    var r := Drain(accept, lines, acks);
    if r.log == [] then [] else r.log[0] + "\r\n" + After(content, |lines| - |r.log| + 1)
  }

  /** A replay of a complete file leaves a complete file: the requeued line
      ends with println's "\r\n", and the unread rest ends as the file did. */
  lemma ReplayedFileComplete(accept: Accept, content: string, acks: seq<bool>)
    requires Complete(content)
    ensures Complete(ReplayedFile(accept, content, acks))
  {
    var lines := ReadLines(content);
    var r := Drain(accept, lines, acks);
    if r.log != [] {
      var rest := After(content, |lines| - |r.log| + 1);
      assert Complete(rest) by {
        AfterComplete(content, |lines| - |r.log| + 1);
      }
      assert ReplayedFile(accept, content, acks) == r.log[0] + "\r\n" + rest;
      PrintlnComplete(r.log[0], rest);
    }
  }

  /** A println'd line followed by complete text is complete. */
  lemma PrintlnComplete(l: string, rest: string)
    requires Complete(rest)
    ensures Complete(l + "\r\n" + rest)
  {
    var f := l + "\r\n" + rest;
    assert rest != [] ==> f[|f| - 1] == rest[|rest| - 1];
  }

  /** Read back, the replayed file holds the lines the replay kept, the first
      of them with a carriage return added by println. */
  lemma ReplayedFileLines(accept: Accept, content: string, acks: seq<bool>)
    ensures var r := Drain(accept, ReadLines(content), acks);
      ReadLines(ReplayedFile(accept, content, acks))
        == if r.log == [] then [] else [r.log[0] + "\r"] + r.log[1..]
  {
    var lines := ReadLines(content);
    var r := Drain(accept, lines, acks);
    if r.log != [] {
      var k := |lines| - |r.log|;
      assert r.log == lines[k..] by {
        DrainSuffix(accept, lines, acks);
      }
      var l := lines[k];
      var rest := After(content, k + 1);
      assert NoNewline(l) by {
        ReadLinesSize(content);
        assert l in lines;
      }
      assert ReadLines(rest) == r.log[1..] by {
        ReadAfter(content, k + 1);
        assert lines[k + 1..] == r.log[1..];
      }
      assert ReplayedFile(accept, content, acks) == l + "\r\n" + rest by {
        StagedAt(accept, content, acks, k);
      }
      ReadPrintln(l, rest);
    }
  }

  /** The replay stopped at line k: the staged file is that line, written
      with println, then the text after it. */
  lemma StagedAt(accept: Accept, src: string, acks: seq<bool>, k: nat)
    requires k < |ReadLines(src)| && Drain(accept, ReadLines(src), acks).log == ReadLines(src)[k..]
    ensures ReplayedFile(accept, src, acks) == ReadLines(src)[k] + "\r\n" + After(src, k + 1)
  {
    var lines := ReadLines(src);
    var r := Drain(accept, lines, acks);
    assert |lines| - |r.log| + 1 == k + 1;
    assert r.log != [] && r.log[0] == lines[k];
  }

  /** `!tempFeed1.publish(t1) || !tempFeed2.publish(t2)`: feed 1 first, and
      feed 2 only when feed 1 succeeded. Publish call number `call` and the
      next succeed as Ack says. */
  method PublishPair(f: Fields, acks: seq<bool>, call: nat) returns (ok: bool, made: seq<Attempt>)
    ensures ok <==> Ack(acks, call) && Ack(acks, call + 1)
    ensures made == if Ack(acks, call) then Pair(f) else [Attempt(Feed1, f.t1)]
  {
    made := [Attempt(Feed1, f.t1)];
    ok := Ack(acks, call);
    if ok {
      made := made + [Attempt(Feed2, f.t2)];
      ok := Ack(acks, call + 1);
    }
  }

  /** What the loop body does with one line: skip it when the line test
      rejects it; otherwise make feed 1's publish and, when that succeeds,
      feed 2's. `failed` tells whether a publish failed; `next` is the number
      of the next publish call. */
  predicate LineHandled(accept: Accept, line: string, acks: seq<bool>, call: nat,
                        failed: bool, made: seq<Attempt>, next: nat) {
    match accept(line)
    case None => !failed && made == [] && next == call
    case Some(f) =>
      && (failed <==> !Ack(acks, call) || !Ack(acks, call + 1))
      && made == (if Ack(acks, call) then Pair(f) else [Attempt(Feed1, f.t1)])
      && next == call + 2
  }

  /** The loop body for a line it has read: the length check against
      MinLineLength (5), the conversion, and the two publishes. */
  method ReplayLine(accept: Accept, scan: Accept, line: string, acks: seq<bool>, call: nat)
    returns (failed: bool, made: seq<Attempt>, next: nat)
    requires GatedBy(accept, scan)
    ensures LineHandled(accept, line, acks, call, failed, made, next)
  {
    var fields := if |line| < MinLineLength then None else scan(line);
    assert fields == accept(line);
    if fields.None? {
      return false, [], call;
    }
    var ok;
    ok, made := PublishPair(fields.value, acks, call);
    return !ok, made, call + 2;
  }

  /** One iteration of the read loop on line k: either the replay goes on
      with the next line, or it stopped, and then the staged file is this
      line written with println and the text after it. */
  lemma Advance(accept: Accept, src: string, acks: seq<bool>, k: nat, call: nat, sent: seq<Attempt>,
                failed: bool, made: seq<Attempt>, next: nat)
    requires k < |ReadLines(src)| && Resumes(accept, ReadLines(src), acks, k, call, sent)
    requires LineHandled(accept, ReadLines(src)[k], acks, call, failed, made, next)
    ensures failed ==>
      && ReplayedFile(accept, src, acks) == ReadLines(src)[k] + "\r\n" + After(src, k + 1)
      && Drain(accept, ReadLines(src), acks).attempts == sent + made
    ensures !failed ==> Resumes(accept, ReadLines(src), acks, k + 1, next, sent + made)
  {
    var lines := ReadLines(src);
    if accept(lines[k]).None? {
      ResumeSkip(accept, lines, acks, k, call, sent);
      assert sent + made == sent;
    } else if failed {
      ResumeFailed(accept, lines, acks, k, call, sent);
      StagedAt(accept, src, acks, k);
    } else {
      ResumePublished(accept, lines, acks, k, call, sent);
    }
  }

  /** `while (src.available())`: skip short lines and lines `scan` rejects;
      publish feed 1 then feed 2 (the k-th call succeeds when Ack(acks, k));
      on the first failure stage the line with "\r\n" and the unread rest,
      and stop. Returns what /tmp.csv holds afterwards and the calls made. */
  method ReadAndRequeue(accept: Accept, scan: Accept, src: string, acks: seq<bool>)
    returns (staged: string, attempts: seq<Attempt>)
    requires GatedBy(accept, scan)
    ensures staged == ReplayedFile(accept, src, acks)
    ensures attempts == Drain(accept, ReadLines(src), acks).attempts
  {
    ghost var lines := ReadLines(src);
    ghost var k := 0;
    var rest := src;
    staged := [];
    attempts := [];
    var call := 0;
    ResumeStart(accept, lines, acks);
    while rest != []
      invariant k <= |lines| && rest == After(src, k)
      invariant staged == [] && Resumes(accept, lines, acks, k, call, attempts)
      decreases |rest|
    {
      var line := rest[..LineEnd(rest)];
      rest := NextLine(rest);
      assert k < |lines| && line == lines[k] && rest == After(src, k + 1) by {
        ReadStep(src, k);
      }
      var failed, made, next := ReplayLine(accept, scan, line, acks, call);
      Advance(accept, src, acks, k, call, attempts, failed, made, next);
      attempts := attempts + made;
      if failed {
        staged := line + "\r\n" + rest;
        return;
      }
      call := next;
      k := k + 1;
    }
    assert staged == ReplayedFile(accept, src, acks)
        && attempts == Drain(accept, ReadLines(src), acks).attempts by {
      ReadEnd(src, k);
      ResumeDone(accept, lines, acks, call, attempts);
    }
  }
}
