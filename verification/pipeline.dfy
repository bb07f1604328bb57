/**
 The pipeline of the main program once the tracker has answered: the issues'
 lines appended to the enrichment file, then the pivot report built from the
 reference file and that enrichment file. Worked examples, whose reports are
 proved for small literal inputs, show its behaviour, quirks included.
 */
module Pipeline {
  import opened Strings
  import opened Enrichment
  import opened Pivot

  /**
   The report of a run, or `None` when opening the enrichment file for reading
   fails. Start-up empties the enrichment file only if it exists; it is
   created by the first line appended to it. So when it did not exist and no
   issue yields a line, there is no file to read and no report is written.
   Otherwise it holds the issues' lines in the given order, and both files are
   read back through file iteration.
   */
  function Run(issues: seq<Issue>, referenceText: string, outputExisted: bool): (report: Option<seq<string>>)
  {
    var file := EnrichmentFile(issues);
    if !outputExisted && file == [] then None
    else Some(Report(IterLines(referenceText), IterLines(Concat(file))))
  }

  /** A run writes no report exactly when the enrichment file did not exist and no issue has a feature value. */
  lemma RunFailsIff(issues: seq<Issue>, referenceText: string, outputExisted: bool)
    ensures Run(issues, referenceText, outputExisted) == None <==>
      !outputExisted && forall n :: 0 <= n < |issues| ==> issues[n].features == []
  {
    EnrichmentFileEmptyIff(issues);
  }

  /** An enrichment file written for issues without line breaks is read back line for line as written. */
  lemma {:induction false} EnrichmentReadBack(issues: seq<Issue>)
    requires forall n :: 0 <= n < |issues| ==> LineBreakFree(issues[n])
    ensures IterLines(Concat(EnrichmentFile(issues))) == EnrichmentFile(issues)
  {
    EnrichmentFileTerminated(issues);
    IterLinesOfTerminated(EnrichmentFile(issues));
  }

  /** Every line written for an issue is in the enrichment file and contains the feature it was written for. */
  lemma {:induction false} IssueLineInFile(issues: seq<Issue>, n: int, j: int)
    requires 0 <= n < |issues| && 0 <= j < |issues[n].features|
    ensures |IssueLines(issues[n])| == |issues[n].features|
    ensures IsSubstring(issues[n].features[j], IssueLines(issues[n])[j])
    ensures IssueLines(issues[n])[j] in EnrichmentFile(issues)
    decreases n
  {
    IssueLinesSpec(issues[n]);
    if n > 0 {
      IssueLineInFile(issues[1..], n - 1, j);
    }
  }

  /**
   A reference feature equal to one of an issue's feature values makes the run
   write a report, pulls that issue's line into it, and keeps its own
   reference line out of the unmatched section that follows the matched one.
   */
  lemma ReferencedFeatureReported(issues: seq<Issue>, referenceText: string, outputExisted: bool, i: int, n: int, j: int)
    requires forall m :: 0 <= m < |issues| ==> LineBreakFree(issues[m])
    requires 0 <= i < |SplitLines(referenceText)|
    requires 0 <= n < |issues| && 0 <= j < |issues[n].features|
    requires SplitLines(referenceText)[i] == issues[n].features[j]
    ensures Run(issues, referenceText, outputExisted).Some?
    ensures IssueLines(issues[n])[j] in Run(issues, referenceText, outputExisted).value
    ensures var reference := IterLines(referenceText);
      var read := IterLines(Concat(EnrichmentFile(issues)));
      var report := Run(issues, referenceText, outputExisted).value;
      var m := |Matched(Features(reference), read)|;
      i < |reference| && m <= |report| && reference[i] !in report[m..]
  {
    var reference := IterLines(referenceText);
    var file := EnrichmentFile(issues);
    var line := IssueLines(issues[n])[j];
    FeaturesAreSplitLines(referenceText);
    EnrichmentReadBack(issues);
    IssueLineInFile(issues, n, j);
    var matched := Matched(Features(reference), file);
    MatchedMember(Features(reference), file, line);
    FoundFeatureNotReported(reference, file, i, line);
    var report := Report(reference, file);
    assert report[|matched|..] == Unmatched(reference, Concat(matched));
  }

  /**
   With issues free of line breaks, a non-blank reference line is reported as
   unmatched exactly when no matched line contains its stripped text: the
   joined text of the second pass never matches across a line boundary.
   */
  lemma {:induction false} UnmatchedIffNoMatchedLine(issues: seq<Issue>, referenceText: string, line: string)
    requires forall m :: 0 <= m < |issues| ==> LineBreakFree(issues[m])
    requires NonBlank(line) && '\n' !in Strip(line)
    ensures var reference := IterLines(referenceText);
      var matched := Matched(Features(reference), EnrichmentFile(issues));
      line in Unmatched(reference, Concat(matched)) <==>
        line in reference && forall m :: m in matched ==> !IsSubstring(Strip(line), m)
  {
    var reference := IterLines(referenceText);
    var file := EnrichmentFile(issues);
    EnrichmentFileTerminated(issues);
    forall e | e in file
      ensures Terminated(e)
    {
    }
    NoBoundaryMatch(Features(reference), file, line);
    UnmatchedCount(reference, Concat(Matched(Features(reference), file)), line);
  }

  // ---------------------------------------------------------------------------
  // Building blocks of the worked examples below

  /** A report whose two passes are known. */
  lemma ReportFromPasses(reference: seq<string>, enrichment: seq<string>, matched: seq<string>, unmatched: seq<string>)
    requires Matched(Features(reference), enrichment) == matched
    requires Unmatched(reference, Concat(matched)) == unmatched
    ensures Report(reference, enrichment) == matched + unmatched
  {
  }

  /** The first pass over a feature list, one feature at a time. */
  lemma MatchedCons(f: string, fs: seq<string>, enrichment: seq<string>)
    ensures Matched([f] + fs, enrichment) == LinesContaining(f, enrichment) + Matched(fs, enrichment)
  {
    assert ([f] + fs)[1..] == fs;
  }

  /** One scan, one enrichment line at a time. */
  lemma LinesContainingCons(f: string, line: string, rest: seq<string>)
    ensures LinesContaining(f, [line] + rest) ==
      (if IsSubstring(f, line) then [line] else []) + LinesContaining(f, rest)
  {
    assert ([line] + rest)[1..] == rest;
  }

  /** The second pass over a reference list, one line at a time. */
  lemma UnmatchedCons(line: string, rest: seq<string>, matchedText: string)
    ensures Unmatched([line] + rest, matchedText) ==
      (if FoundIn(matchedText, line) then [] else [line]) + Unmatched(rest, matchedText)
  {
    assert ([line] + rest)[1..] == rest;
  }

  /** The features of reference lines that all end with "\n". */
  lemma FeaturesTerminated(words: seq<string>, reference: seq<string>)
    requires |reference| == |words|
    requires forall i :: 0 <= i < |words| ==> reference[i] == words[i] + "\n"
    ensures Features(reference) == words
  {
    forall i | 0 <= i < |words|
      ensures Features(reference)[i] == words[i]
    {
      ChompLine(words[i]);
    }
  }

  /** The stripped text of a plain word followed by "\n". */
  lemma StripWord(w: string, line: string)
    requires |w| > 0 && !IsSpace(w[0]) && !IsSpace(w[|w| - 1])
    requires line == w + "\n"
    ensures Strip(line) == w
  {
    StripPadded("", w, "\n");
    assert "" + w + "\n" == line;
  }

  /** The first pass of two features over two lines, of which only the first feature occurs in the first line. */
  lemma TwoByTwoFirstPass(f0: string, f1: string, e0: string, e1: string)
    requires IsSubstring(f0, e0) && !IsSubstring(f0, e1)
    requires !IsSubstring(f1, e0) && !IsSubstring(f1, e1)
    ensures Matched([f0, f1], [e0, e1]) == [e0]
  {
    LinesContainingCons(f0, e0, [e1]);
    LinesContainingCons(f0, e1, []);
    LinesContainingCons(f1, e0, [e1]);
    LinesContainingCons(f1, e1, []);
    assert [e0] + [e1] == [e0, e1];
    MatchedCons(f0, [f1], [e0, e1]);
    MatchedCons(f1, [], [e0, e1]);
    assert [f0] + [f1] == [f0, f1];
  }

  /** The first pass over one enrichment line, one feature at a time. */
  lemma MatchedOneLine(f: string, fs: seq<string>, e0: string)
    ensures Matched([f] + fs, [e0]) == (if IsSubstring(f, e0) then [e0] else []) + Matched(fs, [e0])
  {
    LinesContainingCons(f, e0, []);
    MatchedCons(f, fs, [e0]);
  }

  /** The second pass over two reference lines. */
  lemma UnmatchedTwo(r0: string, r1: string, text: string)
    ensures Unmatched([r0, r1], text) ==
      (if FoundIn(text, r0) then [] else [r0]) + (if FoundIn(text, r1) then [] else [r1])
  {
    UnmatchedCons(r0, [r1], text);
    UnmatchedCons(r1, [], text);
    assert [r0] + [r1] == [r0, r1];
  }

  /** The second pass over three reference lines. */
  lemma UnmatchedThree(r0: string, r1: string, r2: string, text: string)
    ensures Unmatched([r0, r1, r2], text) ==
      (if FoundIn(text, r0) then [] else [r0]) + (if FoundIn(text, r1) then [] else [r1])
      + (if FoundIn(text, r2) then [] else [r2])
  {
    UnmatchedCons(r0, [r1, r2], text);
    UnmatchedTwo(r1, r2, text);
    assert [r0] + [r1, r2] == [r0, r1, r2];
  }

  /** A one-line concatenation is that line. */
  lemma ConcatOne(e0: string)
    ensures Concat([e0]) == e0
  {
    assert e0 + "" == e0;
  }

  /** A two-line concatenation is the two lines joined. */
  lemma ConcatTwo(e0: string, e1: string)
    ensures Concat([e0, e1]) == e0 + e1
  {
    assert [e0, e1][1..] == [e1];
    ConcatOne(e1);
  }

  // ---------------------------------------------------------------------------
  // Facts about the literal strings of the worked examples below. Each takes
  // its strings as parameters pinned by `requires`, so that the literals are
  // not unfolded inside the generic building blocks.

  /** For `MatchedAndUnmatchedExample` and `WhitespaceQuirkExample`: feature "alpha" is in the alpha line and its reference line is found there. */
  lemma AlphaFacts(r0: string, e0: string)
    requires r0 == "alpha\n" && e0 == "alpha\tISS-1\tHigh\n"
    ensures Chomp(r0) == "alpha" && IsSubstring("alpha", e0) && FoundIn(e0, r0)
  {
    ChompLine("alpha");
    assert IsPrefix("alpha", e0);
    StripWord("alpha", r0);
  }

  /** For `MatchedAndUnmatchedExample`: "gamma" is in neither enrichment line, so its reference line is not found. */
  lemma GammaFacts(r1: string, e0: string, e1: string)
    requires r1 == "gamma\n" && e0 == "alpha\tISS-1\tHigh\n" && e1 == "beta\tISS-2\tLow\n"
    ensures Chomp(r1) == "gamma" && !IsSubstring("gamma", e0) && !IsSubstring("gamma", e1) && !FoundIn(e0, r1)
  {
    ChompLine("gamma");
    NotSubstringByChar("gamma", e0, 'm');
    NotSubstringByChar("gamma", e1, 'm');
    StripWord("gamma", r1);
  }

  /** For `MatchedAndUnmatchedExample`: "alpha" is not in the beta line. */
  lemma BetaLineFacts(e1: string)
    requires e1 == "beta\tISS-2\tLow\n"
    ensures !IsSubstring("alpha", e1)
  {
    NotSubstringByChar("alpha", e1, 'p');
  }

  /** For `SubstringNotFieldExample`: "log" is a substring of the line whose feature is "login". */
  lemma LogFacts(r0: string, e0: string)
    requires r0 == "log\n" && e0 == "login\tISS-7\tMedium\n"
    ensures IsSubstring(Chomp(r0), e0) && FoundIn(e0, r0)
  {
    ChompLine("log");
    assert IsPrefix("log", e0);
    StripWord("log", r0);
  }

  /** For `WhitespaceQuirkExample`: the unstripped feature " alpha" is not in the alpha line. */
  lemma PaddedAlphaFacts(r1: string, e0: string)
    requires r1 == " alpha\n" && e0 == "alpha\tISS-1\tHigh\n"
    ensures Chomp(r1) == " alpha" && !IsSubstring(" alpha", e0)
  {
    ChompLine(" alpha");
    NotSubstringByChar(" alpha", e0, ' ');
  }

  /** For `WhitespaceQuirkExample`: the stripped reference line " alpha" is found in the alpha line. */
  lemma PaddedAlphaStrip(r1: string, e0: string)
    requires r1 == " alpha\n" && e0 == "alpha\tISS-1\tHigh\n"
    ensures FoundIn(e0, r1)
  {
    StripPadded(" ", "alpha", "\n");
    assert " " + "alpha" + "\n" == r1;
    assert IsPrefix("alpha", e0);
  }

  /** For `BoundaryQuirkExample`: the features are "a", "b" and "ba", and only "a" and "b" are in the line "ab". */
  lemma BoundaryFeatures(r0: string, r1: string, r2: string, e0: string)
    requires r0 == "a\n" && r1 == "b\n" && r2 == "ba\n" && e0 == "ab"
    ensures Features([r0, r1, r2]) == ["a", "b", "ba"]
    ensures IsSubstring("a", e0) && IsSubstring("b", e0) && !IsSubstring("ba", e0)
  {
    FeaturesTerminated(["a", "b", "ba"], [r0, r1, r2]);
    assert IsPrefix("a", e0);
    SubstringAt("b", e0, 1);
    SubstringIffOccurs("ba", e0);
    assert e0[0..2] == "ab";
  }

  /** For `BoundaryQuirkExample`: all three stripped reference lines are found in the joined text "abab". */
  lemma BoundaryStrip(r0: string, r1: string, r2: string, text: string)
    requires r0 == "a\n" && r1 == "b\n" && r2 == "ba\n" && text == "abab"
    ensures FoundIn(text, r0) && FoundIn(text, r1) && FoundIn(text, r2)
  {
    StripWord("a", r0);
    StripWord("b", r1);
    StripWord("ba", r2);
    assert IsPrefix("a", text);
    SubstringAt("b", text, 1);
    SubstringAt("ba", text, 1);
  }

  // ---------------------------------------------------------------------------
  // Worked examples: the report proved for small literal inputs

  /** Reference ["alpha", "gamma"] against two enrichment lines: alpha matched, gamma reported unmatched. */
  lemma MatchedAndUnmatchedExample(r0: string, r1: string, e0: string, e1: string)
    requires r0 == "alpha\n" && r1 == "gamma\n"
    requires e0 == "alpha\tISS-1\tHigh\n" && e1 == "beta\tISS-2\tLow\n"
    ensures Report([r0, r1], [e0, e1]) == [e0, r1]
  {
    AlphaFacts(r0, e0);
    GammaFacts(r1, e0, e1);
    BetaLineFacts(e1);
    assert Features([r0, r1]) == ["alpha", "gamma"];
    TwoByTwoFirstPass("alpha", "gamma", e0, e1);
    ConcatOne(e0);
    UnmatchedTwo(r0, r1, e0);
    ReportFromPasses([r0, r1], [e0, e1], [e0], [r1]);
  }

  /** Matching is by substring, not by field: reference "log" matches the line of feature "login". */
  lemma SubstringNotFieldExample(r0: string, e0: string)
    requires r0 == "log\n" && e0 == "login\tISS-7\tMedium\n"
    ensures Report([r0], [e0]) == [e0]
  {
    LogFacts(r0, e0);
    assert Features([r0]) == [Chomp(r0)];
    MatchedOneLine(Chomp(r0), [], e0);
    ConcatOne(e0);
    UnmatchedCons(r0, [], e0);
    ReportFromPasses([r0], [e0], [e0], []);
  }

  /**
   The passes disagree on surrounding whitespace: " alpha" is in no enrichment
   line, yet its stripped text is in the matched text, so it is not reported.
   */
  lemma WhitespaceQuirkExample(r0: string, r1: string, e0: string)
    requires r0 == "alpha\n" && r1 == " alpha\n" && e0 == "alpha\tISS-1\tHigh\n"
    ensures !IsSubstring(Chomp(r1), e0)
    ensures Report([r0, r1], [e0]) == [e0]
  {
    AlphaFacts(r0, e0);
    PaddedAlphaFacts(r1, e0);
    PaddedAlphaStrip(r1, e0);
    assert Features([r0, r1]) == ["alpha", " alpha"];
    MatchedOneLine("alpha", [" alpha"], e0);
    MatchedOneLine(" alpha", [], e0);
    assert ["alpha"] + [" alpha"] == ["alpha", " alpha"];
    ConcatOne(e0);
    UnmatchedTwo(r0, r1, e0);
    ReportFromPasses([r0, r1], [e0], [e0], []);
  }

  /**
   The concatenation joins lines across their boundaries: with an enrichment
   line lacking its terminator, "ba" is in no enrichment line yet occurs in
   the joined text "abab", so it is not reported.
   */
  lemma BoundaryQuirkExample(r0: string, r1: string, r2: string, e0: string)
    requires r0 == "a\n" && r1 == "b\n" && r2 == "ba\n" && e0 == "ab"
    ensures !IsSubstring(Chomp(r2), e0)
    ensures Report([r0, r1, r2], [e0]) == [e0, e0]
  {
    BoundaryFeatures(r0, r1, r2, e0);
    ChompLine("ba");
    MatchedOneLine("a", ["b", "ba"], e0);
    MatchedOneLine("b", ["ba"], e0);
    MatchedOneLine("ba", [], e0);
    assert ["a"] + ["b", "ba"] == ["a", "b", "ba"];
    assert ["b"] + ["ba"] == ["b", "ba"];
    ConcatTwo(e0, e0);
    assert e0 + e0 == "abab";
    BoundaryStrip(r0, r1, r2, "abab");
    UnmatchedThree(r0, r1, r2, "abab");
    ReportFromPasses([r0, r1, r2], [e0], [e0, e0], []);
  }
}
