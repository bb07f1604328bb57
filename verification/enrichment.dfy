/**
 Per-issue enrichment: the lines the tool appends to its output file for one
 issue, one line per value of the issue's list-valued feature field, each
 holding the feature, the issue key and the severity value separated by tabs.
 The tracker query and the JSON lookups that produce the three inputs are not
 modelled; the key, the severity value and the feature values arrive as plain
 strings.
 */
module Enrichment {
  import opened Strings

  /** One issue as the per-issue query returns it: its key, its severity value and its feature values in field order. */
  datatype Issue = Issue(key: string, severity: string, features: seq<string>)

  /** One enrichment record: a (feature, issue key, severity) triple. */
  datatype Record = Record(feature: string, key: string, severity: string)

  datatype Option<T> = None | Some(value: T)

  /** The output line of one record: three tab-separated fields and a "\n" terminator. */
  function FormatLine(rec: Record): (line: string)
  {
    rec.feature + "\t" + rec.key + "\t" + rec.severity + "\n"
  }

  /** Reads a record back from an output line; `None` unless the line holds exactly three tab-separated fields. */
  function ParseLine(line: string): (rec: Option<Record>)
  {
    var fields := Split(Chomp(line), '\t');
    if |fields| == 3 then Some(Record(fields[0], fields[1], fields[2])) else None
  }

  /** No field of the record holds a tab, so its line can be split back into fields. */
  predicate TabFree(rec: Record)
  {
    '\t' !in rec.feature && '\t' !in rec.key && '\t' !in rec.severity
  }

  /** The three fields joined by tabs, as the output line holds them before its terminator. */
  lemma JoinThree(a: string, b: string, c: string)
    ensures Join([a, b, c], '\t') == a + "\t" + b + "\t" + c
  {
    assert [a, b, c][1..] == [b, c];
    assert [b, c][1..] == [c];
    assert Join([c], '\t') == c;
    assert Join([b, c], '\t') == b + ['\t'] + c;
    assert Join([a, b, c], '\t') == a + ['\t'] + (b + ['\t'] + c);
  }

  /** A formatted line parses back to its record when no field holds a tab; the line always contains its feature. */
  lemma FormatParse(rec: Record)
    ensures IsSubstring(rec.feature, FormatLine(rec))
    ensures TabFree(rec) ==> ParseLine(FormatLine(rec)) == Some(rec)
  {
    var line := FormatLine(rec);
    var parts := [rec.feature, rec.key, rec.severity];
    JoinThree(rec.feature, rec.key, rec.severity);
    assert line == Join(parts, '\t') + "\n";
    assert Chomp(line) == Join(parts, '\t');
    if TabFree(rec) {
      SplitJoin(parts, '\t');
    }
    assert line[..|rec.feature|] == rec.feature;
    assert IsPrefix(rec.feature, line);
  }

  /** A "\n"-terminated line that parses to a record is exactly that record's formatted line. */
  lemma ParseFormat(line: string, rec: Record)
    requires |line| > 0 && line[|line| - 1] == '\n'
    requires ParseLine(line) == Some(rec)
    ensures FormatLine(rec) == line
  {
    var fields := Split(Chomp(line), '\t');
    JoinSplit(Chomp(line), '\t');
    assert fields == [rec.feature, rec.key, rec.severity];
    JoinThree(rec.feature, rec.key, rec.severity);
    assert line == Chomp(line) + "\n";
  }

  /** The records of one issue: one per feature value, all with the issue's key and severity. */
  function Records(issue: Issue): (recs: seq<Record>)
  {
    seq(|issue.features|, j requires 0 <= j < |issue.features| =>
      Record(issue.features[j], issue.key, issue.severity))
  }

  /** The lines written for one issue, in feature order. */
  function IssueLines(issue: Issue): (lines: seq<string>)
  {
    seq(|issue.features|, j requires 0 <= j < |issue.features| => FormatLine(Records(issue)[j]))
  }

  /**
   An issue with k feature values yields exactly k lines; line j carries
   feature j and the issue's key and severity, and contains feature j.
   */
  lemma IssueLinesSpec(issue: Issue)
    ensures |IssueLines(issue)| == |issue.features|
    ensures issue.features == [] ==> IssueLines(issue) == []
    ensures forall j :: 0 <= j < |issue.features| ==> IsSubstring(issue.features[j], IssueLines(issue)[j])
    ensures '\t' !in issue.key && '\t' !in issue.severity ==>
      forall j :: 0 <= j < |issue.features| && '\t' !in issue.features[j] ==>
        ParseLine(IssueLines(issue)[j]) == Some(Record(issue.features[j], issue.key, issue.severity))
  {
    forall j | 0 <= j < |issue.features|
      ensures IsSubstring(issue.features[j], IssueLines(issue)[j])
      ensures TabFree(Records(issue)[j]) ==> ParseLine(IssueLines(issue)[j]) == Some(Records(issue)[j])
    {
      FormatParse(Records(issue)[j]);
    }
  }

  /** The write loop for one issue: appends one formatted line per feature value, in field order. */
  method WriteFeatureLines(issue: Issue) returns (lines: seq<string>)
    ensures |lines| == |issue.features|
    ensures forall j :: 0 <= j < |lines| ==> lines[j] == FormatLine(Record(issue.features[j], issue.key, issue.severity))
  {
    lines := [];
    var j := 0;
    while j < |issue.features|
      invariant 0 <= j <= |issue.features|
      invariant |lines| == j
      invariant forall i :: 0 <= i < j ==> lines[i] == FormatLine(Record(issue.features[i], issue.key, issue.severity))
    {
      var feature := issue.features[j];
      lines := lines + [feature + "\t" + issue.key + "\t" + issue.severity + "\n"];
      j := j + 1;
    }
  }

  /**
   No field of the issue holds a line break ("\n", or "\r", which reading in
   text mode turns into one), so each of its lines is read back as written.
   */
  predicate LineBreakFree(issue: Issue)
  {
    && '\n' !in issue.key && '\r' !in issue.key
    && '\n' !in issue.severity && '\r' !in issue.severity
    && forall j :: 0 <= j < |issue.features| ==> '\n' !in issue.features[j] && '\r' !in issue.features[j]
  }

  /** A line written for a record without "\n" in its fields ends with its only "\n". */
  lemma FormatLineTerminated(rec: Record)
    requires '\n' !in rec.feature && '\n' !in rec.key && '\n' !in rec.severity
    ensures Terminated(FormatLine(rec))
  {
    var line := FormatLine(rec);
    assert line[..|line| - 1] == rec.feature + "\t" + rec.key + "\t" + rec.severity;
  }

  /** Every line written for an issue without line breaks ends with its only "\n". */
  lemma IssueLinesTerminated(issue: Issue)
    requires LineBreakFree(issue)
    ensures forall j :: 0 <= j < |IssueLines(issue)| ==> Terminated(IssueLines(issue)[j])
  {
    forall j | 0 <= j < |IssueLines(issue)|
      ensures Terminated(IssueLines(issue)[j])
    {
      FormatLineTerminated(Records(issue)[j]);
    }
  }

  /** The output file after the issues' lines were appended one issue after another, in the given order. */
  function EnrichmentFile(issues: seq<Issue>): (lines: seq<string>)
    decreases |issues|
  {
    if |issues| == 0 then [] else IssueLines(issues[0]) + EnrichmentFile(issues[1..])
  }

  /** Every line of a file written for issues without line breaks ends with its only "\n". */
  lemma {:induction false} EnrichmentFileTerminated(issues: seq<Issue>)
    requires forall n :: 0 <= n < |issues| ==> LineBreakFree(issues[n])
    ensures forall k :: 0 <= k < |EnrichmentFile(issues)| ==> Terminated(EnrichmentFile(issues)[k])
    decreases |issues|
  {
    if |issues| > 0 {
      IssueLinesTerminated(issues[0]);
      EnrichmentFileTerminated(issues[1..]);
    }
  }

  /** Nothing is written exactly when no issue has a feature value. */
  lemma {:induction false} EnrichmentFileEmptyIff(issues: seq<Issue>)
    ensures EnrichmentFile(issues) == [] <==> forall n :: 0 <= n < |issues| ==> issues[n].features == []
    decreases |issues|
  {
    if |issues| > 0 {
      IssueLinesSpec(issues[0]);
      EnrichmentFileEmptyIff(issues[1..]);
      if forall n :: 0 <= n < |issues| - 1 ==> issues[1..][n].features == [] {
        if issues[0].features == [] {
          forall n | 0 < n < |issues|
            ensures issues[n].features == []
          {
            assert issues[n] == issues[1..][n - 1];
          }
        }
      }
      if forall n :: 0 <= n < |issues| ==> issues[n].features == [] {
        forall n | 0 <= n < |issues| - 1
          ensures issues[1..][n].features == []
        {
          assert issues[1..][n] == issues[n + 1];
        }
      }
    }
  }

  /** Appending two batches of issues appends their lines. */
  lemma {:induction false} EnrichmentFileAppend(xs: seq<Issue>, ys: seq<Issue>)
    ensures EnrichmentFile(xs + ys) == EnrichmentFile(xs) + EnrichmentFile(ys)
    decreases |xs|
  {
    if |xs| == 0 {
      assert xs + ys == ys;
    } else {
      assert (xs + ys)[1..] == xs[1..] + ys;
      EnrichmentFileAppend(xs[1..], ys);
    }
  }

  /** The order in which two batches of issues finish does not change which lines the file holds, nor how often. */
  lemma {:induction false} BatchOrderIrrelevant(xs: seq<Issue>, ys: seq<Issue>)
    ensures multiset(EnrichmentFile(xs + ys)) == multiset(EnrichmentFile(ys + xs))
  {
    EnrichmentFileAppend(xs, ys);
    EnrichmentFileAppend(ys, xs);
  }
}
