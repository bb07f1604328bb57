/**
 Pivot reconciliation: the report built from the reference feature file and
 the enrichment output file, both given as sequences of lines.

 The reference file is given as file iteration yields its lines (each with its
 "\n" terminator, the last possibly without one). The first pass reads the
 same file through `splitlines()`, so its features are those lines without the
 terminator but otherwise unstripped. The second pass strips each line before
 testing it against the concatenation of all matched lines, and emits the line
 verbatim, terminator included, when that test fails.
 */
module Pivot {
  import opened Strings
  import opened Seqs

  /** The feature names of the first pass, as `splitlines()` yields them from the reference file. */
  function Features(reference: seq<string>): (fs: seq<string>)
    ensures |fs| == |reference|
    ensures forall i :: 0 <= i < |reference| ==> fs[i] == Chomp(reference[i])
  {
    seq(|reference|, i requires 0 <= i < |reference| => Chomp(reference[i]))
  }

  /**
   The reference file's `splitlines()` view and its iterated lines agree line
   by line: the first pass's features are exactly the iterated lines without
   their terminators, so both passes walk the same lines.
   */
  lemma FeaturesAreSplitLines(text: string)
    ensures Features(IterLines(text)) == SplitLines(text)
  {
    SplitLinesChomp(text);
  }

  /** The test of one scan: does the line contain the feature (Python's `feature in line`)? */
  function ContainsFeature(feature: string): (test: string -> bool)
  {
    line => IsSubstring(feature, line)
  }

  /** One scan of the enrichment file from its start: the lines containing `feature`, in file order. */
  function LinesContaining(feature: string, enrichment: seq<string>): (hits: seq<string>)
  {
    Filter(ContainsFeature(feature), enrichment)
  }

  /** The first pass: one full rescan of the enrichment file per feature, in feature order. */
  function Matched(features: seq<string>, enrichment: seq<string>): (matched: seq<string>)
    decreases |features|
  {
    if |features| == 0 then []
    else LinesContaining(features[0], enrichment) + Matched(features[1..], enrichment)
  }

  /** The stripped text of a reference line occurs in the matched text (Python's `feature.strip() in text`). */
  predicate FoundIn(matchedText: string, line: string)
  {
    IsSubstring(Strip(line), matchedText)
  }

  /** The test of the second pass: the stripped line does not occur in the matched text. */
  function NotFoundIn(matchedText: string): (test: string -> bool)
  {
    line => !FoundIn(matchedText, line)
  }

  /** The second pass: the reference lines, verbatim and in file order, whose stripped text the matched text lacks. */
  function Unmatched(reference: seq<string>, matchedText: string): (unmatched: seq<string>)
  {
    Filter(NotFoundIn(matchedText), reference)
  }

  /** The report: every matched line first, then the unmatched reference lines. */
  function Report(reference: seq<string>, enrichment: seq<string>): (report: seq<string>)
  {
    var matched := Matched(Features(reference), enrichment);
    matched + Unmatched(reference, Concat(matched))
  }

  /** The number of features that occur in `line`, counted with repetition. */
  function Hits(features: seq<string>, line: string): (count: nat)
    decreases |features|
  {
    if |features| == 0 then 0
    else (if IsSubstring(features[0], line) then 1 else 0) + Hits(features[1..], line)
  }

  /** A line is not blank: something other than whitespace remains after `strip()`. */
  predicate NonBlank(line: string)
  {
    Strip(line) != ""
  }

  // ---------------------------------------------------------------------------
  // First pass

  /** One scan keeps file order: scanning two stretches of the file scans the first, then the second. */
  lemma {:induction false} LinesContainingAppend(feature: string, xs: seq<string>, ys: seq<string>)
    ensures LinesContaining(feature, xs + ys) == LinesContaining(feature, xs) + LinesContaining(feature, ys)
  {
    FilterAppend(ContainsFeature(feature), xs, ys);
  }

  /** One scan keeps a line as often as the file holds it if the line contains the feature, and drops it otherwise. */
  lemma {:induction false} LinesContainingCount(feature: string, enrichment: seq<string>, line: string)
    ensures multiset(LinesContaining(feature, enrichment))[line] ==
      if IsSubstring(feature, line) then multiset(enrichment)[line] else 0
  {
    FilterCount(ContainsFeature(feature), enrichment, line);
  }

  /** The matched section is the concatenation of one block per feature, in feature order. */
  lemma {:induction false} MatchedBlocks(xs: seq<string>, ys: seq<string>, enrichment: seq<string>)
    ensures Matched(xs + ys, enrichment) == Matched(xs, enrichment) + Matched(ys, enrichment)
    ensures Matched([], enrichment) == []
    ensures forall f :: Matched([f], enrichment) == LinesContaining(f, enrichment)
    decreases |xs|
  {
    if |xs| == 0 {
      assert xs + ys == ys;
    } else {
      assert (xs + ys)[1..] == xs[1..] + ys;
      MatchedBlocks(xs[1..], ys, enrichment);
    }
  }

  /** `h` copies of a count `n`, added up one copy at a time. */
  function Copies(n: nat, h: nat): (total: nat)
    decreases h
  {
    if h == 0 then 0 else n + Copies(n, h - 1)
  }

  /** `Copies` is multiplication. */
  lemma {:induction false} CopiesIsProduct(n: nat, h: nat)
    ensures Copies(n, h) == n * h
    decreases h
  {
    if h > 0 {
      CopiesIsProduct(n, h - 1);
    }
  }

  /**
   A line appears in the matched section once per feature it contains, times
   the number of times the enrichment file holds it.
   */
  lemma {:induction false} MatchedCount(features: seq<string>, enrichment: seq<string>, line: string)
    ensures multiset(Matched(features, enrichment))[line] == Copies(multiset(enrichment)[line], Hits(features, line))
    decreases |features|
  {
    if |features| > 0 {
      var hit := IsSubstring(features[0], line);
      MatchedCount(features[1..], enrichment, line);
      LinesContainingCount(features[0], enrichment, line);
      CountStep(LinesContaining(features[0], enrichment), Matched(features[1..], enrichment), line,
        multiset(enrichment)[line], Hits(features[1..], line), hit);
      assert Hits(features, line) == if hit then Hits(features[1..], line) + 1 else Hits(features[1..], line);
    }
  }

  /** Prepending a block that holds the line `n` times (or not at all) adds one copy (or none). */
  lemma CountStep(block: seq<string>, rest: seq<string>, line: string, n: nat, h: nat, hit: bool)
    requires multiset(block)[line] == if hit then n else 0
    requires multiset(rest)[line] == Copies(n, h)
    ensures multiset(block + rest)[line] == Copies(n, if hit then h + 1 else h)
  {
    assert multiset(block + rest) == multiset(block) + multiset(rest);
  }

  /** A line is in the matched section exactly when it is an enrichment line containing some (unstripped) feature. */
  lemma {:induction false} MatchedMember(features: seq<string>, enrichment: seq<string>, line: string)
    ensures line in Matched(features, enrichment) <==>
      line in enrichment && exists i :: 0 <= i < |features| && IsSubstring(features[i], line)
    decreases |features|
  {
    if |features| > 0 {
      MatchedMember(features[1..], enrichment, line);
      FilterMember(ContainsFeature(features[0]), enrichment, line);
      if exists i :: 0 <= i < |features| && IsSubstring(features[i], line) {
        var i :| 0 <= i < |features| && IsSubstring(features[i], line);
        if i > 0 {
          assert features[1..][i - 1] == features[i];
        }
      }
      if exists i :: 0 <= i < |features| - 1 && IsSubstring(features[1..][i], line) {
        var i :| 0 <= i < |features| - 1 && IsSubstring(features[1..][i], line);
        assert features[i + 1] == features[1..][i];
      }
    }
  }

  /** An empty feature (an empty reference line) is in every line, so every enrichment line is matched. */
  lemma EmptyFeatureMatchesAll(features: seq<string>, enrichment: seq<string>)
    requires "" in features
    ensures forall line :: line in enrichment ==> line in Matched(features, enrichment)
    ensures |Matched(features, enrichment)| >= |enrichment|
  {
    var i :| 0 <= i < |features| && features[i] == "";
    forall line | line in enrichment
      ensures line in Matched(features, enrichment)
    {
      assert IsPrefix(features[i], line);
      MatchedMember(features, enrichment, line);
    }
    MatchedBlocks(features[..i], features[i..], enrichment);
    assert features[..i] + features[i..] == features;
    assert features[i..] == [features[i]] + features[i + 1..];
    MatchedBlocks([features[i]], features[i + 1..], enrichment);
    FilterExt(ContainsFeature(""), (line: string) => true, enrichment);
    AllPass(enrichment);
  }

  /** Keeping every element keeps the whole sequence. */
  lemma {:induction false} AllPass(xs: seq<string>)
    ensures Filter((line: string) => true, xs) == xs
    decreases |xs|
  {
    if |xs| > 0 {
      AllPass(xs[1..]);
    }
  }

  /** Features that no enrichment line contains match nothing. */
  lemma {:induction false} NoHitsMatchedEmpty(features: seq<string>, enrichment: seq<string>)
    requires forall i, e :: 0 <= i < |features| && e in enrichment ==> !IsSubstring(features[i], e)
    ensures Matched(features, enrichment) == []
    decreases |features|
  {
    if |features| > 0 {
      NoHitsMatchedEmpty(features[1..], enrichment);
      forall k | 0 <= k < |enrichment|
        ensures !ContainsFeature(features[0])(enrichment[k])
      {
        assert enrichment[k] in enrichment;
      }
      FilterNone(ContainsFeature(features[0]), enrichment);
    }
  }

  // ---------------------------------------------------------------------------
  // Second pass

  /** The second pass keeps the reference file's order. */
  lemma {:induction false} UnmatchedAppend(xs: seq<string>, ys: seq<string>, matchedText: string)
    ensures Unmatched(xs + ys, matchedText) == Unmatched(xs, matchedText) + Unmatched(ys, matchedText)
  {
    FilterAppend(NotFoundIn(matchedText), xs, ys);
  }

  /**
   A reference line is reported, as often as the reference file holds it,
   exactly when its stripped text does not occur in the matched text.
   */
  lemma {:induction false} UnmatchedCount(reference: seq<string>, matchedText: string, line: string)
    ensures multiset(Unmatched(reference, matchedText))[line] ==
      if IsSubstring(Strip(line), matchedText) then 0 else multiset(reference)[line]
    ensures line in Unmatched(reference, matchedText) <==>
      line in reference && !IsSubstring(Strip(line), matchedText)
  {
    FilterCount(NotFoundIn(matchedText), reference, line);
  }

  /** A blank or whitespace-only reference line is never reported: its stripped text is empty, which occurs in any text. */
  lemma BlankNeverUnmatched(reference: seq<string>, matchedText: string, line: string)
    requires forall k :: 0 <= k < |line| ==> IsSpace(line[k])
    ensures line !in Unmatched(reference, matchedText)
  {
    StripEmptyIff(line);
    assert IsPrefix(Strip(line), matchedText);
    UnmatchedCount(reference, matchedText, line);
  }

  /**
   A reference line whose feature some enrichment line contains is never
   reported as unmatched: that enrichment line is in the matched text, and the
   stripped reference line is a substring of the feature.
   */
  lemma FoundFeatureNotReported(reference: seq<string>, enrichment: seq<string>, i: int, e: string)
    requires 0 <= i < |reference|
    requires e in enrichment && IsSubstring(Chomp(reference[i]), e)
    ensures reference[i] !in Unmatched(reference, Concat(Matched(Features(reference), enrichment)))
  {
    var features := Features(reference);
    var matched := Matched(features, enrichment);
    MatchedMember(features, enrichment, e);
    var k :| 0 <= k < |matched| && matched[k] == e;
    LineInConcat(matched, k);
    StripInChomp(reference[i]);
    SubstringTransitive(Strip(reference[i]), Chomp(reference[i]), e);
    SubstringTransitive(Strip(reference[i]), e, Concat(matched));
    UnmatchedCount(reference, Concat(matched), reference[i]);
  }

  /**
   When every enrichment line ends with its only "\n", the second pass's test
   against the joined matched text is the per-line test: a non-blank stripped
   reference line without "\n" is found exactly when some matched line
   contains it.
   */
  lemma NoBoundaryMatch(features: seq<string>, enrichment: seq<string>, line: string)
    requires forall e :: e in enrichment ==> Terminated(e)
    requires NonBlank(line) && '\n' !in Strip(line)
    ensures FoundIn(Concat(Matched(features, enrichment)), line) <==>
      exists m :: m in Matched(features, enrichment) && IsSubstring(Strip(line), m)
  {
    var matched := Matched(features, enrichment);
    forall k | 0 <= k < |matched|
      ensures Terminated(matched[k])
    {
      MatchedMember(features, enrichment, matched[k]);
    }
    SubstringOfTerminatedConcat(Strip(line), matched);
  }

  // ---------------------------------------------------------------------------
  // The whole report

  /**
   The report is the matched section, written first in full, followed by the
   unmatched section: each line of the first part is an enrichment line
   containing some reference feature, each line of the second part is a
   reference line whose stripped text is absent from the first part's text.
   */
  lemma ReportSections(reference: seq<string>, enrichment: seq<string>)
    ensures var r := Report(reference, enrichment);
      var n := |Matched(Features(reference), enrichment)|;
      && n <= |r|
      && (forall k :: 0 <= k < n ==>
            r[k] in enrichment && exists i :: 0 <= i < |reference| && IsSubstring(Chomp(reference[i]), r[k]))
      && (forall k :: n <= k < |r| ==>
            r[k] in reference && !IsSubstring(Strip(r[k]), Concat(r[..n])))
  {
    var features := Features(reference);
    var matched := Matched(features, enrichment);
    var r := Report(reference, enrichment);
    var n := |matched|;
    assert r[..n] == matched;
    forall k | 0 <= k < n
      ensures r[k] in enrichment && exists i :: 0 <= i < |reference| && IsSubstring(Chomp(reference[i]), r[k])
    {
      assert r[k] == matched[k];
      MatchedMember(features, enrichment, r[k]);
    }
    forall k | n <= k < |r|
      ensures r[k] in reference && !IsSubstring(Strip(r[k]), Concat(r[..n]))
    {
      var u := Unmatched(reference, Concat(matched));
      assert r[k] == u[k - n];
      UnmatchedCount(reference, Concat(matched), r[k]);
    }
  }

  /**
   When no enrichment line contains any reference feature, the report is
   exactly the non-blank reference lines, verbatim and in order.
   */
  lemma {:induction false} NoMatchReport(reference: seq<string>, enrichment: seq<string>)
    requires forall i, e :: 0 <= i < |reference| && e in enrichment ==> !IsSubstring(Chomp(reference[i]), e)
    ensures Report(reference, enrichment) == Filter(NonBlank, reference)
  {
    NoHitsMatchedEmpty(Features(reference), enrichment);
    forall k | 0 <= k < |reference|
      ensures NotFoundIn("")(reference[k]) == NonBlank(reference[k])
    {
      assert IsSubstring(Strip(reference[k]), "") <==> Strip(reference[k]) == "";
    }
    FilterExt(NotFoundIn(""), NonBlank, reference);
  }

  // ---------------------------------------------------------------------------
  // The program's loops, statement by statement

  /** One scan (lines 106-108): append every enrichment line that contains `feature`, reading from the file's start. */
  method ScanForFeature(feature: string, enrichment: seq<string>, matching: seq<string>) returns (matching': seq<string>)
    ensures matching' == matching + LinesContaining(feature, enrichment)
  {
    matching' := matching;
    var j := 0;
    while j < |enrichment|
      invariant 0 <= j <= |enrichment|
      invariant matching' == matching + LinesContaining(feature, enrichment[..j])
    {
      var line := enrichment[j];
      var found := Contains(feature, line);
      LinesContainingAppend(feature, enrichment[..j], [line]);
      assert enrichment[..j + 1] == enrichment[..j] + [line];
      if found {
        matching' := matching' + [line];
      }
      j := j + 1;
    }
    assert enrichment[..j] == enrichment;
  }

  /** The first pass (lines 101-109): one scan per feature, in feature order, into one accumulating list. */
  method FirstPass(features: seq<string>, enrichment: seq<string>) returns (matching: seq<string>)
    ensures matching == Matched(features, enrichment)
  {
    matching := [];
    var i := 0;
    while i < |features|
      invariant 0 <= i <= |features|
      invariant matching == Matched(features[..i], enrichment)
    {
      matching := ScanForFeature(features[i], enrichment, matching);
      MatchedBlocks(features[..i], [features[i]], enrichment);
      assert features[..i + 1] == features[..i] + [features[i]];
      i := i + 1;
    }
    assert features[..i] == features;
  }

  /** The second pass (lines 116-120): every reference line, verbatim, whose stripped text the joined matched lines lack. */
  method SecondPass(reference: seq<string>, matchedText: string) returns (unmatched: seq<string>)
    ensures unmatched == Unmatched(reference, matchedText)
  {
    unmatched := [];
    var k := 0;
    while k < |reference|
      invariant 0 <= k <= |reference|
      invariant unmatched == Unmatched(reference[..k], matchedText)
    {
      var line := reference[k];
      var found := Contains(Strip(line), matchedText);
      UnmatchedAppend(reference[..k], [line], matchedText);
      assert reference[..k + 1] == reference[..k] + [line];
      if !found {
        unmatched := unmatched + [line];
      }
      k := k + 1;
    }
    assert reference[..k] == reference;
  }

  /**
   The reconciliation as the program runs it: the first pass over the
   features `splitlines()` gives, the matched lines written in full, then the
   second pass over the reference file's lines appended.
   */
  method CreatePivotFile(reference: seq<string>, enrichment: seq<string>) returns (report: seq<string>)
    ensures report == Report(reference, enrichment)
  {
    var matching := FirstPass(Features(reference), enrichment);
    var unmatched := SecondPass(reference, Concat(matching));
    report := matching + unmatched;
  }
}
