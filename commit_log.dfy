/** The commit log as GitFlashback reads it and writes it back out: one
    `git log --pretty=format:%H:%cd:%an:%s --date=short` line per commit, split
    into its four fields, and the `commits.txt` file of one paragraph per commit. */
module CommitLog {
  import opened Wrappers
  import PyStrings

  /** The four fields of one log line, in the order the format string gives them. */
  datatype CommitRecord = CommitRecord(hash: string, date: string, author: string, subject: string)

  /** Unpacking the split line into four names raises ValueError when the line
      has fewer than three colons; `got` is the number of pieces there were. */
  datatype FieldError = TooFewFields(got: nat)

  /** The log line git prints for a commit under the format `%H:%cd:%an:%s`. */
  function LogLine(c: CommitRecord): string
  {
    c.hash + ":" + c.date + ":" + c.author + ":" + c.subject
  }

  /** The first three fields hold no colon, so the line is cut where git joined them. */
  predicate ColonFree(c: CommitRecord)
  {
    ':' !in c.hash && ':' !in c.date && ':' !in c.author
  }

  lemma JoinFour(a: string, b: string, c: string, d: string, sep: string)
    ensures PyStrings.Join([a, b, c, d], sep) == a + sep + b + sep + c + sep + d
  {
    PyStrings.JoinCons(c, [d], sep);
    PyStrings.JoinCons(b, [c, d], sep);
    PyStrings.JoinCons(a, [b, c, d], sep);
    assert [c] + [d] == [c, d];
    assert [b] + [c, d] == [b, c, d];
    assert [a] + [b, c, d] == [a, b, c, d];
  }

  /** What `line.split(":", 3)` gives: four colon-free-headed fields that join
      back into the line when it has three colons, fewer pieces otherwise. */
  lemma SplitFields(line: string)
    ensures var fields := PyStrings.Split(line, ":", 3);
      && (|fields| == 4 <==> PyStrings.Count(line, ':') >= 3)
      && (|fields| < 4 ==> |fields| == PyStrings.Count(line, ':') + 1)
      && (|fields| == 4 ==>
            && fields[0] + ":" + fields[1] + ":" + fields[2] + ":" + fields[3] == line
            && ':' !in fields[0] && ':' !in fields[1] && ':' !in fields[2])
  {
    var fields := PyStrings.Split(line, ":", 3);
    PyStrings.SplitCount(line, ':', 3);
    if |fields| == 4 {
      assert fields == [fields[0], fields[1], fields[2], fields[3]];
      PyStrings.JoinSplit(line, ":", 3);
      JoinFour(fields[0], fields[1], fields[2], fields[3], ":");
      PyStrings.SplitPiecesFree(line, ":", 3);
      PyStrings.ContainsChar(fields[0], ':');
      PyStrings.ContainsChar(fields[1], ':');
      PyStrings.ContainsChar(fields[2], ':');
    }
  }

  /** `line.split(":", 3)` unpacked into hash, date, author and subject;
      `ParseLineFields` states what the fields are. */
  function ParseLine(line: string): (r: Result<CommitRecord, FieldError>)
    ensures r.Success? <==> PyStrings.Count(line, ':') >= 3
    ensures r.Failure? ==> r.error == TooFewFields(PyStrings.Count(line, ':') + 1)
  {
    var fields := PyStrings.Split(line, ":", 3);
    SplitFields(line);
    if |fields| < 4 then
      Failure(TooFewFields(|fields|))
    else
      Success(CommitRecord(fields[0], fields[1], fields[2], fields[3]))
  }

  /** A line that unpacks is `hash:date:author:subject`, cut at its first three
      colons: hash, date and author hold none. */
  lemma ParseLineFields(line: string)
    requires ParseLine(line).Success?
    ensures LogLine(ParseLine(line).value) == line && ColonFree(ParseLine(line).value)
  {
    SplitFields(line);
  }

  /** Cutting `a + ":" + b` at its first colon when `a` has none. */
  lemma SplitAtFirstColon(a: string, b: string, maxsplit: nat)
    requires ':' !in a && maxsplit > 0
    ensures PyStrings.Split(a + ":" + b, ":", maxsplit) == [a] + PyStrings.Split(b, ":", maxsplit - 1)
  {
    PyStrings.PartitionFirstChar(a, ':', b);
  }

  /** Parsing the line git prints gives the commit back, whatever the subject
      holds, colons included. */
  lemma ParseLogLine(c: CommitRecord)
    requires ColonFree(c)
    ensures ParseLine(LogLine(c)) == Success(c)
  {
    var tail2 := c.author + ":" + c.subject;
    var tail1 := c.date + ":" + tail2;
    assert LogLine(c) == c.hash + ":" + tail1;
    SplitAtFirstColon(c.hash, tail1, 3);
    SplitAtFirstColon(c.date, tail2, 2);
    SplitAtFirstColon(c.author, c.subject, 1);
    assert PyStrings.Split(c.subject, ":", 0) == [c.subject];
    assert PyStrings.Split(tail2, ":", 1) == [c.author, c.subject];
    assert PyStrings.Split(tail1, ":", 2) == [c.date, c.author, c.subject];
    assert PyStrings.Split(LogLine(c), ":", 3) == [c.hash, c.date, c.author, c.subject];
  }

  /** The paragraph `commits.txt` holds for one commit. */
  function FormatRecord(c: CommitRecord): (r: string)
    ensures |r| == |c.hash| + |c.date| + |c.author| + |c.subject| + 6
    ensures r[..|c.hash|] == c.hash && r[|r| - 2..] == "\n\n"
  {
    c.hash + ": " + c.date + " " + c.author + "\n" + c.subject + "\n\n"
  }

  /** Writing one more record appends its paragraph. */
  lemma RenderLogSnoc(cs: seq<CommitRecord>, c: CommitRecord)
    ensures RenderLog(cs + [c]) == RenderLog(cs) + FormatRecord(c)
  {
    assert (cs + [c])[..|cs|] == cs;
  }

  /** The whole of `commits.txt`: the paragraphs of the records in log order,
      defined from the back as the file is written one record at a time. */
  function RenderLog(cs: seq<CommitRecord>): (r: string)
    ensures |r| >= 6 * |cs|
    ensures r == "" <==> |cs| == 0
  {
    if |cs| == 0 then "" else RenderLog(cs[..|cs| - 1]) + FormatRecord(cs[|cs| - 1])
  }

  lemma {:induction false} RenderLogCons(c: CommitRecord, cs: seq<CommitRecord>)
    ensures RenderLog([c] + cs) == FormatRecord(c) + RenderLog(cs)
    decreases |cs|
  {
    var all := [c] + cs;
    if |cs| == 0 {
      assert all[..0] == [];
    } else {
      var init, last := cs[..|cs| - 1], cs[|cs| - 1];
      assert all[..|all| - 1] == [c] + init;
      calc {
        RenderLog(all);
        RenderLog([c] + init) + FormatRecord(last);
        { RenderLogCons(c, init); }
        FormatRecord(c) + RenderLog(init) + FormatRecord(last);
        FormatRecord(c) + (RenderLog(init) + FormatRecord(last));
        FormatRecord(c) + RenderLog(cs);
      }
    }
  }

  lemma {:induction false} RenderLogAppend(a: seq<CommitRecord>, b: seq<CommitRecord>)
    ensures RenderLog(a + b) == RenderLog(a) + RenderLog(b)
    decreases |b|
  {
    if |b| == 0 {
      assert a + b == a;
    } else {
      var init, last := b[..|b| - 1], b[|b| - 1];
      assert (a + b)[..|a + b| - 1] == a + init;
      assert (a + b)[|a + b| - 1] == last;
      calc {
        RenderLog(a + b);
        RenderLog(a + init) + FormatRecord(last);
        { RenderLogAppend(a, init); }
        RenderLog(a) + RenderLog(init) + FormatRecord(last);
        RenderLog(a) + (RenderLog(init) + FormatRecord(last));
        RenderLog(a) + RenderLog(b);
      }
    }
  }

  /** What a paragraph can hold and still be read back: no colon in the hash, no
      space in the date (git's short date has none), no line break in the author
      or the subject (the log is read one line per commit). */
  predicate Readable(c: CommitRecord)
  {
    ':' !in c.hash && ' ' !in c.date && '\n' !in c.author && '\n' !in c.subject
  }

  /** Reads the first paragraph of `text`: the record and the text after it. */
  function ReadRecord(text: string): (r: Option<(CommitRecord, string)>)
    ensures r.Some? ==> |r.value.1| < |text|
  {
    match PyStrings.Partition(text, ":")
    case None => None
    case Some((hash, rest1)) =>
      if |rest1| == 0 || rest1[0] != ' ' then None
      else match PyStrings.Partition(rest1[1..], " ")
      case None => None
      case Some((date, rest2)) =>
        match PyStrings.Partition(rest2, "\n")
        case None => None
        case Some((author, rest3)) =>
          match PyStrings.Partition(rest3, "\n")
          case None => None
          case Some((subject, rest4)) =>
            if |rest4| == 0 || rest4[0] != '\n' then None
            else Some((CommitRecord(hash, date, author, subject), rest4[1..]))
  }

  /** A paragraph followed by more text, as the reader cuts it. */
  lemma FormatRecordNests(c: CommitRecord, rest: string)
    ensures FormatRecord(c) + rest ==
      c.hash + ":" + (" " + c.date + " " + (c.author + "\n" + (c.subject + "\n" + ("\n" + rest))))
  {
  }

  /** Reads `commits.txt` back into its records; None when it is not a sequence
      of paragraphs. */
  function ReadLog(text: string): (r: Option<seq<CommitRecord>>)
    decreases |text|
  {
    if |text| == 0 then Some([])
    else
      match ReadRecord(text)
      case None => None
      case Some((c, rest)) =>
        match ReadLog(rest)
        case None => None
        case Some(cs) => Some([c] + cs)
  }

  /** The reader's four cuts, taken one at a time, give the record. */
  lemma ReadRecordCuts(text: string, c: CommitRecord, rest1: string, rest2: string, rest3: string, rest4: string)
    requires PyStrings.Partition(text, ":") == Some((c.hash, rest1))
    requires |rest1| > 0 && rest1[0] == ' '
    requires PyStrings.Partition(rest1[1..], " ") == Some((c.date, rest2))
    requires PyStrings.Partition(rest2, "\n") == Some((c.author, rest3))
    requires PyStrings.Partition(rest3, "\n") == Some((c.subject, rest4))
    requires |rest4| > 0 && rest4[0] == '\n'
    ensures ReadRecord(text) == Some((c, rest4[1..]))
  {
  }

  /** A paragraph written for a readable record reads back as that record,
      leaving the text after it. */
  lemma ReadFormattedRecord(c: CommitRecord, rest: string)
    requires Readable(c)
    ensures ReadRecord(FormatRecord(c) + rest) == Some((c, rest))
  {
    var rest4 := "\n" + rest;
    var rest3 := c.subject + "\n" + rest4;
    var rest2 := c.author + "\n" + rest3;
    var rest1 := " " + c.date + " " + rest2;
    FormatRecordNests(c, rest);
    PyStrings.PartitionFirstChar(c.hash, ':', rest1);
    assert rest1[1..] == c.date + " " + rest2;
    PyStrings.PartitionFirstChar(c.date, ' ', rest2);
    PyStrings.PartitionFirstChar(c.author, '\n', rest3);
    PyStrings.PartitionFirstChar(c.subject, '\n', rest4);
    assert rest4[1..] == rest;
    ReadRecordCuts(FormatRecord(c) + rest, c, rest1, rest2, rest3, rest4);
  }

  /** Reading `commits.txt` gives back every record, in log order: N records make
      exactly N paragraphs. */
  lemma {:induction false} ReadRenderedLog(cs: seq<CommitRecord>)
    requires forall k :: 0 <= k < |cs| ==> Readable(cs[k])
    ensures ReadLog(RenderLog(cs)) == Some(cs)
    decreases |cs|
  {
    if |cs| > 0 {
      var tail := cs[1..];
      assert cs == [cs[0]] + tail;
      RenderLogCons(cs[0], tail);
      ReadFormattedRecord(cs[0], RenderLog(tail));
      assert |FormatRecord(cs[0])| > 0;
      ReadRenderedLog(tail);
    }
  }

  /** The line at `index` was the first that could not be unpacked. */
  datatype LineFailure = LineFailure(index: nat, error: FieldError)

  /** The records of the lines parsed before the loop stopped, and why it stopped. */
  datatype Parsed = Parsed(records: seq<CommitRecord>, failure: Option<LineFailure>)

  /** Parses the log lines in order, stopping at the first that cannot be
      unpacked; defined from the back as the loop consumes them. */
  function ParseLines(lines: seq<string>): (p: Parsed)
    ensures |p.records| <= |lines|
    ensures forall k :: 0 <= k < |p.records| ==> ParseLine(lines[k]) == Success(p.records[k])
    ensures p.failure.None? ==> |p.records| == |lines|
    ensures p.failure.Some? ==>
      && p.failure.value.index == |p.records| < |lines|
      && ParseLine(lines[|p.records|]) == Failure(p.failure.value.error)
  {
    if |lines| == 0 then Parsed([], None)
    else
      var init := lines[..|lines| - 1];
      var prior := ParseLines(init);
      assert forall k :: 0 <= k < |init| ==> init[k] == lines[k];
      if prior.failure.Some? then prior
      else match ParseLine(lines[|lines| - 1])
        case Failure(e) => Parsed(prior.records, Some(LineFailure(|lines| - 1, e)))
        case Success(c) =>
          var records := prior.records + [c];
          assert forall k :: 0 <= k < |records| ==> ParseLine(lines[k]) == Success(records[k]) by {
            forall k | 0 <= k < |records|
              ensures ParseLine(lines[k]) == Success(records[k])
            {
              if k < |prior.records| {
                assert records[k] == prior.records[k] && lines[k] == init[k];
              }
            }
          }
          Parsed(records, None)
  }

  /** One more line for a loop that has not failed yet: a line that unpacks adds
      its record, one that does not stops the loop at its index. */
  lemma ParseLinesStep(lines: seq<string>, i: nat)
    requires i < |lines| && ParseLines(lines[..i]).failure.None?
    ensures var prior := ParseLines(lines[..i]).records;
      ParseLines(lines[..i + 1]) == match ParseLine(lines[i])
        case Failure(e) => Parsed(prior, Some(LineFailure(i, e)))
        case Success(c) => Parsed(prior + [c], None)
  {
    assert lines[..i + 1][..i] == lines[..i];
  }

  /** Parsing succeeds exactly when every line has three colons; otherwise the
      failure names the first line that has not. */
  lemma ParseLinesFirstFailure(lines: seq<string>)
    ensures ParseLines(lines).failure.None? <==>
      forall k :: 0 <= k < |lines| ==> PyStrings.Count(lines[k], ':') >= 3
    ensures ParseLines(lines).failure.Some? ==>
      var i := ParseLines(lines).failure.value.index;
      PyStrings.Count(lines[i], ':') < 3 &&
      forall k :: 0 <= k < i ==> PyStrings.Count(lines[k], ':') >= 3
  {
    var p := ParseLines(lines);
    forall k | 0 <= k < |p.records|
      ensures PyStrings.Count(lines[k], ':') >= 3
    {
      assert ParseLine(lines[k]).Success?;
    }
  }

  /** Lines after a failing one are never looked at. */
  lemma {:induction false} ParseLinesStopsAfterFailure(lines: seq<string>, n: nat)
    requires n <= |lines| && ParseLines(lines[..n]).failure.Some?
    ensures ParseLines(lines) == ParseLines(lines[..n])
    decreases |lines| - n
  {
    if n < |lines| {
      var init := lines[..|lines| - 1];
      assert init[..n] == lines[..n];
      ParseLinesStopsAfterFailure(init, n);
    } else {
      assert lines[..n] == lines;
    }
  }

  /** The records parsed from log lines can be read back from `commits.txt`
      when their dates hold no space. */
  lemma ParsedRecordsReadable(lines: seq<string>)
    requires forall k :: 0 <= k < |lines| ==> '\n' !in lines[k]
    requires forall k :: 0 <= k < |ParseLines(lines).records| ==> ' ' !in ParseLines(lines).records[k].date
    ensures ReadLog(RenderLog(ParseLines(lines).records)) == Some(ParseLines(lines).records)
  {
    var cs := ParseLines(lines).records;
    forall k | 0 <= k < |cs|
      ensures Readable(cs[k])
    {
      ParseLineFields(lines[k]);
      ParsedFieldsOnOneLine(lines[k], cs[k]);
    }
    ReadRenderedLog(cs);
  }

  /** The author and subject parsed from a line without a line break hold none either. */
  lemma ParsedFieldsOnOneLine(line: string, c: CommitRecord)
    requires '\n' !in line && LogLine(c) == line
    ensures '\n' !in c.author && '\n' !in c.subject
  {
    NoCharInPart(line, '\n', c.hash + ":" + c.date + ":", c.author, ":" + c.subject);
    NoCharInPart(line, '\n', c.hash + ":" + c.date + ":" + c.author + ":", c.subject, "");
  }

  lemma NoCharInPart(s: string, ch: char, a: string, b: string, c: string)
    requires s == a + b + c && ch !in s
    ensures ch !in b
  {
  }
}
