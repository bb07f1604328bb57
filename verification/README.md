# Jira pivot data: a Dafny model of the reconciliation and enrichment logic

The tool behind `list-defects-threaded.py` asks an issue tracker for open defect
tickets, appends one tab-separated line per feature value of each ticket to an
enrichment file, and then builds a "pivot" report by reconciling that file
against a reference list of feature names. Everything except two pieces of
string and sequence logic is HTTP, JSON and file plumbing. This project models
those two pieces as pure functions over sequences of lines and proves what they
do.

- **Enrichment line formatting** (`Enrichment`): for one issue, one line
  `feature + "\t" + key + "\t" + severity + "\n"` per feature value, in field
  order. A parser (`ParseLine`, built on `Split`/`Join`) is its partner: the
  two round-trip whenever no field holds a tab.
- **Pivot reconciliation** (`Pivot`): the report is the matched section
  followed by the unmatched section.
  - Matched section: for each reference feature in list order, every
    enrichment line containing it as a substring. The file is rescanned from
    its start for each feature.
  - Unmatched section: every reference line, verbatim with its terminator and
    in file order, whose `strip()`ped text is not a substring of the
    concatenation of all matched lines.
  - The two passes read the reference file differently, and the model keeps
    that. The first pass uses the lines from `splitlines()`, without
    terminators but otherwise unstripped (`Features`). The second pass iterates
    the file's lines and strips each one.
  - The functional definition (`Report`) is the reference. The methods
    `CreatePivotFile`, `FirstPass`, `ScanForFeature` and `SecondPass` follow the
    program's loops statement by statement and are proved equal to it.
- **Strings** holds the Python primitives the program uses: `in` on strings
  (`IsSubstring`, a recursive left-to-right scan, and `Contains`, a loop),
  `str.strip()` over the exact set of code points for which `str.isspace()`
  is true, `''.join` (`Concat`), iteration over a text file (`IterLines`) and
  `splitlines()` (`SplitLines`). It also holds `Split` and `Join`, which the
  program does not call: they build `ParseLine`, the reader that serves as the
  partner of the line format.
- **Seqs** holds the order-preserving `Filter` that both passes are instances of.
- **Pipeline** composes the two pieces (`Run`): the enrichment file receives
  the issues' lines, and the report reads it and the reference file back
  through file iteration. Start-up empties the enrichment file only if it
  exists, and the first appended line creates it, so a run in which it did not
  exist and no issue yields a line fails to open it and writes no report
  (`RunFailsIff`). Worked examples prove the report's value on small literal
  inputs and show its behaviour and its quirks.

`Report` takes both files as sequences of lines, as file iteration yields
them: each ends with `"\n"`, except possibly the last. The first pass's
features are those lines with one trailing `"\n"` removed (`Features`, built on
`Chomp`). `FeaturesAreSplitLines` proves that this is exactly what
`splitlines()` yields from the same text, so both passes walk the same lines.

Unmatched reference lines are written as read, untrimmed and with their
terminator (line 120); `Unmatched` keeps them verbatim.

The code's behaviour is kept as written, including the concatenation-based
membership test of the second pass. Lemmas state its consequences in both
directions:
- `FoundFeatureNotReported`: a reference line whose feature some enrichment
  line contains is never reported.
- `WhitespaceQuirkExample` and `BoundaryQuirkExample`: a reference line whose
  feature no enrichment line contains can still go unreported. This happens
  when surrounding whitespace makes the two passes disagree, or when the joined
  text makes a match across line boundaries.
- The boundary case needs an enrichment line without its `"\n"`, which line 51
  never writes. `NoBoundaryMatch` proves that when every enrichment line ends
  with its only `"\n"`, the test against the joined text is the per-line test.
  `UnmatchedIffNoMatchedLine` carries this to a whole run: with no line break
  in any field, a non-blank reference line is reported exactly when no matched
  line contains its stripped text.

## Model

| member | source | states |
|---|---|---|
| Strings.SubstringIffOccurs | list-defects-threaded.py:107 | the recursive scan used for Python's `feature in line` holds exactly when the feature occurs at some index of the line |
| Strings.Contains | list-defects-threaded.py:107 | the loop that tries every start offset returns true exactly when the feature is a substring of the line |
| Strings.LineInConcat | list-defects-threaded.py:119 | every matched line is a substring of `''.join(matching_lines)` |
| Strings.StripSlice | list-defects-threaded.py:119 | `strip()` keeps one contiguous slice of the line whose ends are not whitespace, and removes only whitespace before and after it |
| Strings.StripEmptyIff | list-defects-threaded.py:119 | `strip()` yields the empty string exactly for an empty or whitespace-only line |
| Strings.StripInChomp | list-defects-threaded.py:98-119 | the stripped text of a reference line (second pass) is a substring of the same line as `splitlines()` yields it (first pass) |
| Strings.IterLinesConcat | list-defects-threaded.py:117 | iterating over a file loses nothing: its lines, joined, give back the text |
| Strings.IterLinesOfTerminated | list-defects-threaded.py:106 | text written as lines that each end with their only "\n" is read back by iteration as exactly those lines |
| Strings.SplitLinesChomp | list-defects-threaded.py:98 | `splitlines()` yields as many lines as iteration, and line k of it is iterated line k without its "\n" terminator |
| Strings.SubstringOfTerminatedConcat | list-defects-threaded.py:119 | in the join of lines that each end with their only "\n", a non-empty "\n"-free string occurs if and only if it occurs in one of the lines |
| Strings.JoinSplit | list-defects-threaded.py:51 | joining the tab-separated pieces of a text gives back the text |
| Strings.SplitJoin | list-defects-threaded.py:51 | splitting a tab-join of tab-free fields gives back exactly those fields |
| Enrichment.FormatParse | list-defects-threaded.py:51 | an output line contains its feature; when no field holds a tab, the line parses back to its (feature, key, severity) record |
| Enrichment.ParseFormat | list-defects-threaded.py:51 | a "\n"-terminated line that parses to a record is exactly that record's formatted line |
| Enrichment.IssueLinesSpec | list-defects-threaded.py:43-51 | an issue with k feature values yields exactly k lines, none when k = 0; line j holds feature j with the issue's key and severity and contains feature j |
| Enrichment.IssueLinesTerminated | list-defects-threaded.py:48-51 | when no field of an issue holds a line break, each line written for it ends with "\n" and holds no other "\n" |
| Enrichment.EnrichmentFileTerminated | list-defects-threaded.py:48-51 | when no issue field holds a line break, every line of the enrichment file ends with its only "\n" |
| Enrichment.WriteFeatureLines | list-defects-threaded.py:48-51 | the write loop produces one line per feature value, in field order, each `feature\tkey\tseverity\n` |
| Enrichment.EnrichmentFileAppend | list-defects-threaded.py:50-51 | appending the lines of two batches of issues gives the first batch's lines followed by the second's |
| Enrichment.BatchOrderIrrelevant | list-defects-threaded.py:91-92 | whichever of two batches of issues is written first, the enrichment file holds the same lines the same number of times |
| Pivot.FeaturesAreSplitLines | list-defects-threaded.py:97-98 | for every reference text, the features the first pass takes from `splitlines()` are exactly the lines the second pass iterates (line 117), each without its "\n" terminator, one for one and in order |
| Pivot.LinesContainingAppend | list-defects-threaded.py:106-108 | one scan keeps file order: scanning two stretches of the file gives the first stretch's hits, then the second's |
| Pivot.LinesContainingCount | list-defects-threaded.py:106-108 | one scan keeps a line exactly as often as the file holds it when the line contains the feature, and never otherwise |
| Pivot.MatchedBlocks | list-defects-threaded.py:104-109 | the matched section is one block per feature in list order, and the block of one feature is a full scan of the file from its start |
| Pivot.MatchedCount | list-defects-threaded.py:104-109 | a line appears in the matched section `Copies(n, h)` times, where n is how often the enrichment file holds it and h how many reference features it contains (`Pivot.CopiesIsProduct`: that is n × h), so a line with several features appears once per feature |
| Pivot.MatchedMember | list-defects-threaded.py:104-109 | a line is in the matched section if and only if it is an enrichment line containing some unstripped reference feature |
| Pivot.NoHitsMatchedEmpty | list-defects-threaded.py:101-109 | when no enrichment line contains any feature, the matched section is empty |
| Pivot.EmptyFeatureMatchesAll | list-defects-threaded.py:107 | an empty feature is in every line, so every enrichment line reaches the matched section |
| Pivot.UnmatchedAppend | list-defects-threaded.py:117-120 | the unmatched section keeps the reference file's order |
| Pivot.UnmatchedCount | list-defects-threaded.py:117-120 | a reference line is reported, verbatim and as often as the file holds it, if and only if its stripped text is not a substring of the matched text |
| Pivot.BlankNeverUnmatched | list-defects-threaded.py:119 | an empty or whitespace-only reference line is never reported as unmatched, whatever the matched text |
| Pivot.FoundFeatureNotReported | list-defects-threaded.py:104-120 | a reference line whose feature some enrichment line contains is never reported as unmatched |
| Pivot.NoBoundaryMatch | list-defects-threaded.py:112-119 | when every enrichment line ends with its only "\n", a non-blank stripped reference line is found in the joined matched text if and only if some matched line contains it |
| Pivot.ReportSections | list-defects-threaded.py:112-120 | the report is the matched section written first in full, each line an enrichment line containing some reference feature, followed only by reference lines whose stripped text is absent from the text of that first section |
| Pivot.NoMatchReport | list-defects-threaded.py:101-120 | when no enrichment line contains any reference feature, the report is exactly the non-blank reference lines, verbatim and in order |
| Pivot.ScanForFeature | list-defects-threaded.py:106-108 | the inner loop appends exactly the enrichment lines containing the feature, in file order |
| Pivot.FirstPass | list-defects-threaded.py:101-109 | the nested loops with the file rewound per feature build exactly the matched section |
| Pivot.SecondPass | list-defects-threaded.py:116-120 | the loop over the reference file's lines builds exactly the unmatched section |
| Pivot.CreatePivotFile | list-defects-threaded.py:94-120 | the program's two passes, run as loops, produce exactly the report |
| Pipeline.IssueLineInFile | list-defects-threaded.py:48-51 | an issue has one written line per feature value, and line j is in the enrichment file and contains feature j |
| Pipeline.EnrichmentReadBack | list-defects-threaded.py:104-106 | when no issue field holds a line break, reading the written enrichment file back by iteration gives exactly the lines written |
| Pipeline.ReferencedFeatureReported | list-defects-threaded.py:138-143 | with no line break in any issue field, a line of `splitlines()` of the reference text equal to one of an issue's feature values makes `Run` write a report, puts that issue's line into it, and keeps the same reference line out of the report's unmatched section |
| Pipeline.RunFailsIff | list-defects-threaded.py:134-143 | a run writes no report if and only if the enrichment file did not exist beforehand and no issue has a feature value, so nothing created it before line 104 opens it for reading |
| Pipeline.UnmatchedIffNoMatchedLine | list-defects-threaded.py:104-120 | with no line break in any issue field, a non-blank reference line (no "\n" inside its stripped text) is reported as unmatched if and only if it is a reference line and no matched line contains its stripped text |
| Pipeline.MatchedAndUnmatchedExample | list-defects-threaded.py:94-120 | reference `alpha`, `gamma` against lines for `alpha` and `beta`: the report is the `alpha` line followed by `gamma` |
| Pipeline.SubstringNotFieldExample | list-defects-threaded.py:107 | matching is by substring, not by field: reference `log` matches the line whose feature is `login` |
| Pipeline.WhitespaceQuirkExample | list-defects-threaded.py:105-119 | reference ` alpha` is in no enrichment line, yet its stripped text is in the matched text, so it is not reported |
| Pipeline.BoundaryQuirkExample | list-defects-threaded.py:112-119 | with an unterminated enrichment line `ab` matched twice, reference `ba` is in no enrichment line yet occurs in the joined text `abab`, so it is not reported |

## Left out

- The tracker requests (`make_request`, lines 11-18) and both searches (lines 20-41, 56-92) are not modelled. This includes the `errorMessages` check, `exit(1)`, the JQL strings and the `maxResults` cap. They are network I/O against a service whose behaviour is not part of this model.
- JSON response parsing and config loading (lines 43-49, 128-132) are not modelled. The issue key, the severity value and the feature values arrive as plain strings in `Enrichment.Issue`.
- The concurrency of the `ThreadPoolExecutor` (lines 91-92) is not modelled. `EnrichmentFile` writes whole issues one after another in a given order, and `BatchOrderIrrelevant` covers swapping two batches. Line-by-line interleaving between concurrent issues is not modelled.
- File open, seek, truncate and append mechanics (lines 50, 109, 112-117, 134-136) are not modelled, and neither is the closing `print` (line 122). `Pipeline.Run` starts from an empty enrichment file, which is what truncation leaves when the file exists; when it does not exist and nothing is appended, `Run` gives `None` for the failed open at line 104. A missing reference file is not modelled. The report is the sequence of pieces written to the pivot file, and the file's text is their concatenation.
- `Pivot.Features` and `Strings.SplitLines` treat `"\n"` as the only line break. They do not model the other separators of `splitlines()` (`\v`, `\f`, `\x1c`-`\x1e`, `\x85`, `\u2028`, `\u2029`), which would make the two passes disagree on the number of lines. `Strings.IterLines` does not model universal-newline translation of `\r\n` and `\r` when a file is read in text mode.
- `Pipeline.Run` reads the written enrichment text back with `IterLines`, which breaks lines only at `"\n"`. A field holding `"\n"` is read back as several lines, as in the program; a field holding `"\r"` is read back as one line here but as several by the program, whose text-mode reading turns `"\r"` into a line break. The lemmas about runs (`EnrichmentReadBack`, `ReferencedFeatureReported`, `UnmatchedIffNoMatchedLine`) therefore require every issue to be `LineBreakFree`, under which the model and the program read the same lines.
- Running the report twice on the same inputs gives the same output because `Report` is a function. No separate lemma states this.

## Quirks

- The first pass tests the unstripped feature. The second pass tests the stripped line against the joined matched text, not against the per-feature scan result. `WhitespaceQuirkExample` and `BoundaryQuirkExample` exhibit reference features that no enrichment line contains but that are still not reported; the second needs an unterminated enrichment line, which the program itself never writes (`NoBoundaryMatch`). `FoundFeatureNotReported` proves that the other direction never fails.
- A feature also matches inside keys, severities and longer feature names (`SubstringNotFieldExample`). An empty reference line matches every enrichment line (`EmptyFeatureMatchesAll`).
