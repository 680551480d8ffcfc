/** The data file as bytes and as the sequence of lines the rest of the
    model works on. storeToFS ends every line with '\n'; the replay reads
    the file back with `readStringUntil('\n')` while bytes remain. */
module LogFile {

  predicate NoNewline(l: string) {
    '\n' !in l
  }

  /** The bytes of a file whose lines each end in a newline. */
  function Content(lines: seq<string>): string {
    if lines == [] then [] else lines[0] + "\n" + Content(lines[1..])
  }

  /** Where the current line ends: the first newline, or the end of input. */
  function LineEnd(s: string): (n: nat)
    ensures n <= |s|
  {
    NewlineFrom(s, 0)
  }

  /** The first newline at or after position `i`, or the end of input. */
  function NewlineFrom(s: string, i: nat): (n: nat)
    requires i <= |s|
    ensures i <= n <= |s|
    decreases |s| - i
  {
    if i == |s| || s[i] == '\n' then i else NewlineFrom(s, i + 1)
  }

  lemma {:induction false} NewlineFromFacts(s: string, i: nat)
    requires i <= |s|
    ensures forall j :: i <= j < NewlineFrom(s, i) ==> s[j] != '\n'
    ensures NewlineFrom(s, i) < |s| ==> s[NewlineFrom(s, i)] == '\n'
    decreases |s| - i
  {
    if i < |s| && s[i] != '\n' {
      NewlineFromFacts(s, i + 1);
    }
  }

  /** The search from `i` stops at `n` when `n` holds a newline (or is the
      end) and nothing between holds one. */
  lemma {:induction false} NewlineFromIs(s: string, i: nat, n: nat)
    requires i <= n <= |s|
    requires forall j :: i <= j < n ==> s[j] != '\n'
    requires n == |s| || s[n] == '\n'
    ensures NewlineFrom(s, i) == n
    decreases n - i
  {
    if i < n {
      NewlineFromIs(s, i + 1, n);
    }
  }

  /** The line holds no newline, and it stops at one unless the input ran out. */
  lemma LineEndFacts(s: string)
    ensures NoNewline(s[..LineEnd(s)])
    ensures LineEnd(s) < |s| ==> s[LineEnd(s)] == '\n'
  {
    NewlineFromFacts(s, 0);
  }

  /** What is left to read after one `readStringUntil('\n')`: the text after
      the line's newline. */
  function NextLine(content: string): (rest: string)
    ensures |rest| < |content| || content == []
  {
    if content == [] then []
    else
      var n := LineEnd(content);
      if n < |content| then content[n + 1..] else []
  }

  /** The lines `while (src.available()) src.readStringUntil('\n')` returns:
      the newline is consumed and not returned, and a last line without one
      is returned too. */
  function ReadLines(content: string): seq<string>
    decreases |content|
  {
    if content == [] then [] else [content[..LineEnd(content)]] + ReadLines(NextLine(content))
  }

  lemma {:induction false} ReadLinesSize(content: string)
    ensures ReadLines(content) == [] <==> content == []
    ensures forall l <- ReadLines(content) :: NoNewline(l)
    decreases |content|
  {
    if content != [] {
      LineEndFacts(content);
      ReadLinesSize(NextLine(content));
    }
  }

  /** Reading back a file written line by line gives the lines written, as
      long as none of them holds a newline. */
  lemma {:induction false} ReadContent(lines: seq<string>)
    requires forall l <- lines :: NoNewline(l)
    ensures ReadLines(Content(lines)) == lines
  {
    if lines != [] {
      var l := lines[0];
      var c := Content(lines);
      assert c == l + ("\n" + Content(lines[1..]));
      assert LineEnd(c) == |l| by {
        LineEndAt(l, Content(lines[1..]));
      }
      assert c[..|l|] == l;
      assert c[|l| + 1..] == Content(lines[1..]);
      ReadContent(lines[1..]);
    }
  }

  lemma LineEndAt(l: string, rest: string)
    requires NoNewline(l)
    ensures LineEnd(l + ("\n" + rest)) == |l|
  {
    var c := l + ("\n" + rest);
    forall j | 0 <= j < |l|
      ensures c[j] != '\n'
    {
      assert c[j] == l[j] && l[j] in l;
    }
    NewlineFromIs(c, 0, |l|);
  }

  /** A file whose last line is finished: it is empty or ends in a newline. */
  predicate Complete(c: string) {
    c == [] || c[|c| - 1] == '\n'
  }

  /** What is left after reading one line of a complete file is complete. */
  lemma NextLineComplete(c: string)
    requires Complete(c)
    ensures Complete(NextLine(c))
  {
    if c != [] {
      var n := LineEnd(c);
      if n < |c| {
        var rest := c[n + 1..];
        assert rest == [] || rest[|rest| - 1] == c[|c| - 1];
      }
    }
  }

  /** What `readString()` returns from a complete file is complete. */
  lemma {:induction false} AfterComplete(c: string, k: nat)
    requires Complete(c)
    ensures Complete(After(c, k))
  {
    if k > 0 {
      AfterComplete(c, k - 1);
      NextLineComplete(After(c, k - 1));
    }
  }

  /** What is left to read after `k` lines; `readString()` returns it. */
  function After(content: string, k: nat): string {
    if k == 0 then content else NextLine(After(content, k - 1))
  }

  /** The lines left after reading `k` of them are the lines of the file
      from the k-th on. */
  lemma {:induction false} ReadAfter(content: string, k: nat)
    requires k <= |ReadLines(content)|
    ensures ReadLines(After(content, k)) == ReadLines(content)[k..]
  {
    if k > 0 {
      var lines := ReadLines(content);
      var x := After(content, k - 1);
      assert ReadLines(x) == lines[k - 1..] by {
        ReadAfter(content, k - 1);
      }
      assert ReadLines(NextLine(x)) == lines[k..] by {
        ReadNext(x, lines[k - 1..]);
        assert lines[k - 1..][1..] == lines[k..];
      }
    }
  }

  lemma ReadNext(x: string, lines: seq<string>)
    requires ReadLines(x) == lines && lines != []
    ensures ReadLines(NextLine(x)) == lines[1..]
  {
    ReadLinesSize(x);
  }

  /** A line written back with `println` (the line, then "\r\n") ahead of
      the rest of a file reads back as that line with a carriage return. */
  lemma ReadPrintln(l: string, rest: string)
    requires NoNewline(l)
    ensures ReadLines(l + "\r\n" + rest) == [l + "\r"] + ReadLines(rest)
  {
    var c := l + "\r\n" + rest;
    var l' := l + "\r";
    assert c == l' + ("\n" + rest);
    LineEndAt(l', rest);
    assert c[..|l'|] == l';
    assert c[|l'| + 1..] == rest;
  }

  /** The first line of a file that has a newline, and the lines after it. */
  lemma ReadFirstLine(c: string)
    requires LineEnd(c) < |c|
    ensures ReadLines(c) == [c[..LineEnd(c)]] + ReadLines(c[LineEnd(c) + 1..])
  {
    var n := LineEnd(c);
    var t := c[n + 1..];
    assert NextLine(c) == t;
    assert ReadLines(c) == [c[..n]] + ReadLines(NextLine(c));
  }

  /** Appending a line to a file whose lines are complete adds exactly that
      line at the end. */
  lemma AppendAfterNewline(content: string, l: string)
    requires Complete(content)
    requires NoNewline(l)
    ensures ReadLines(content + l + "\n") == ReadLines(content) + [l]
  {
    assert content + l + "\n" == content + (l + "\n");
    ReadConcat(content, l + "\n");
    OneLine(l);
  }

  /** After complete lines, the lines of a file are those lines followed by
      the lines of the rest. */
  lemma {:induction false} ReadConcat(content: string, x: string)
    requires Complete(content)
    ensures ReadLines(content + x) == ReadLines(content) + ReadLines(x)
    decreases |content|
  {
    if content == [] {
      assert content + x == x;
    } else {
      CompleteFirstLine(content);
      var tail := content[LineEnd(content) + 1..];
      ReadConcat(tail, x);
      ReadConcatStep(content, x);
    }
  }

  lemma ReadConcatStep(content: string, x: string)
    requires content != [] && LineEnd(content) < |content|
    requires var tail := content[LineEnd(content) + 1..];
      ReadLines(tail + x) == ReadLines(tail) + ReadLines(x)
    ensures ReadLines(content + x) == ReadLines(content) + ReadLines(x)
  {
    var n := LineEnd(content);
    var h, tail := content[..n], content[n + 1..];
    assert ReadLines(content) == [h] + ReadLines(tail)
        && ReadLines(content + x) == [h] + ReadLines(tail + x) by {
      SplitAppended(content, x);
    }
    Regroup([h], ReadLines(tail), ReadLines(x));
  }

  lemma Regroup(a: seq<string>, b: seq<string>, c: seq<string>)
    ensures a + (b + c) == a + b + c
  {
  }

  /** In a file whose last byte is a newline, the first line ends before the
      end, and what follows it ends in a newline too (or is empty). */
  lemma CompleteFirstLine(content: string)
    requires content != [] && content[|content| - 1] == '\n'
    ensures var n := LineEnd(content);
      && n < |content|
      && var tail := content[n + 1..]; tail == [] || tail[|tail| - 1] == '\n'
  {
    LineEndFacts(content);
    assert content[..|content|] == content;
    assert content[|content| - 1] in content;
  }

  /** A file of one line and its newline. */
  lemma OneLine(l: string)
    requires NoNewline(l)
    ensures ReadLines(l + "\n") == [l]
  {
    var c := l + ("\n" + []);
    assert l + "\n" == c;
    LineEndAt(l, []);
    ReadFirstLine(c);
    assert c[..|l|] == l && c[|l| + 1..] == [];
  }

  /** Text appended after a file's first complete line leaves that line, and
      appends to what follows it. */
  lemma SplitAppended(content: string, x: string)
    requires LineEnd(content) < |content|
    ensures var n := LineEnd(content);
      && ReadLines(content) == [content[..n]] + ReadLines(content[n + 1..])
      && ReadLines(content + x) == [content[..n]] + ReadLines(content[n + 1..] + x)
  {
    var n := LineEnd(content);
    var c := content + x;
    assert ReadLines(content) == [content[..n]] + ReadLines(content[n + 1..]) by {
      ReadFirstLine(content);
    }
    assert LineEnd(c) == n && n < |c| by {
      LineEndExtend(content, x);
    }
    assert ReadLines(c) == [c[..n]] + ReadLines(c[n + 1..]) by {
      ReadFirstLine(c);
    }
    assert c[..n] == content[..n];
    assert c[n + 1..] == content[n + 1..] + x;
  }

  /** Appending to a file whose last line was cut short (no newline) glues
      the new line onto it: the two read back as one line. */
  lemma {:induction false} AppendAfterTruncated(content: string, l: string)
    requires content != [] && content[|content| - 1] != '\n'
    requires NoNewline(l)
    ensures var lines := ReadLines(content);
      lines != [] && ReadLines(content + l + "\n") == Glued(lines, l)
    decreases |content|
  {
    LineEndFacts(content);
    var n := LineEnd(content);
    if n == |content| {
      TruncatedLastLine(content, l);
      assert Glued([content], l) == [content + l];
    } else {
      var tail := content[n + 1..];
      assert tail != [] && tail[|tail| - 1] == content[|content| - 1];
      AppendAfterTruncated(tail, l);
      TruncatedStep(content, l);
    }
  }

  /** One complete line ahead of a cut-short file keeps its place when a line
      is glued onto the end. */
  lemma TruncatedStep(content: string, l: string)
    requires LineEnd(content) < |content|
    requires var tail := content[LineEnd(content) + 1..];
      ReadLines(tail) != [] && ReadLines(tail + l + "\n") == Glued(ReadLines(tail), l)
    ensures ReadLines(content) != [] && ReadLines(content + l + "\n") == Glued(ReadLines(content), l)
  {
    var x := l + "\n";
    var n := LineEnd(content);
    var h, tail := content[..n], content[n + 1..];
    assert content + l + "\n" == content + x && tail + l + "\n" == tail + x;
    assert ReadLines(content) == [h] + ReadLines(tail)
        && ReadLines(content + x) == [h] + ReadLines(tail + x) by {
      SplitAppended(content, x);
    }
    GluedCons(h, ReadLines(tail), l);
  }

  /** `lines` with `l` added to the end of its last line. */
  function Glued(lines: seq<string>, l: string): seq<string>
    requires lines != []
  {
    lines[..|lines| - 1] + [lines[|lines| - 1] + l]
  }

  lemma GluedCons(h: string, rest: seq<string>, l: string)
    requires rest != []
    ensures Glued([h] + rest, l) == [h] + Glued(rest, l)
  {
    var lines := [h] + rest;
    assert lines[..|lines| - 1] == [h] + rest[..|rest| - 1];
  }

  /** A file of one unterminated line, with a line appended. */
  lemma TruncatedLastLine(content: string, l: string)
    requires content != [] && LineEnd(content) == |content| && NoNewline(l)
    ensures ReadLines(content) == [content]
    ensures ReadLines(content + l + "\n") == [content + l]
  {
    LineEndFacts(content);
    var c := (content + l) + ("\n" + []);
    assert content + l + "\n" == c;
    assert content[..|content|] == content;
    assert NoNewline(content + l) by {
      assert content[..LineEnd(content)] == content;
    }
    LineEndAt(content + l, []);
    ReadFirstLine(c);
    assert c[..|content + l|] == content + l && c[|content + l| + 1..] == [];
  }

  /** The end of the first line does not move when text is appended after it. */
  lemma LineEndExtend(s: string, x: string)
    requires LineEnd(s) < |s|
    ensures LineEnd(s + x) == LineEnd(s)
  {
    NewlineFromFacts(s, 0);
    var n := LineEnd(s);
    forall j | 0 <= j < n
      ensures (s + x)[j] != '\n'
    {
    }
    NewlineFromIs(s + x, 0, n);
  }

  /** Reading one more line: the next line of the file, and what is left. */
  lemma ReadStep(content: string, k: nat)
    requires k <= |ReadLines(content)| && After(content, k) != []
    ensures var rest := After(content, k);
      && k < |ReadLines(content)|
      && ReadLines(content)[k] == rest[..LineEnd(rest)]
      && After(content, k + 1) == NextLine(rest)
      && k + 1 <= |ReadLines(content)|
  {
    var lines := ReadLines(content);
    var rest := After(content, k);
    ReadAfter(content, k);
    assert ReadLines(rest) == [rest[..LineEnd(rest)]] + ReadLines(NextLine(rest));
    assert lines[k..][0] == lines[k];
  }

  /** Nothing left to read: every line has been read. */
  lemma ReadEnd(content: string, k: nat)
    requires k <= |ReadLines(content)| && After(content, k) == []
    ensures k == |ReadLines(content)|
  {
    ReadAfter(content, k);
  }
}
