/**
 The Python string primitives the pivot reconciliation relies on: the `in`
 operator on two strings, `str.strip()`, `''.join(lines)`, iteration over a
 text file and `splitlines()`. `str.split(sep)` and `sep.join(parts)`, which
 the program does not call, serve to read an enrichment line back into its
 fields.
 */
module Strings {

  /** `p` is a prefix of `s`. */
  predicate IsPrefix(p: string, s: string)
  {
    |p| <= |s| && p == s[..|p|]
  }

  /** Python's `p in s` on two strings: `p` starts at some position of `s`. */
  predicate IsSubstring(p: string, s: string)
    decreases |s|
  {
    IsPrefix(p, s) || (|s| > 0 && IsSubstring(p, s[1..]))
  }

  /** `p` occurs in `s` starting at index `i`. */
  predicate OccursAt(p: string, s: string, i: int)
  {
    0 <= i && i + |p| <= |s| && s[i..i + |p|] == p
  }

  /** The recursive scan agrees with the positional definition of an occurrence. */
  lemma {:induction false} SubstringIffOccurs(p: string, s: string)
    ensures IsSubstring(p, s) <==> exists i :: OccursAt(p, s, i)
    decreases |s|
  {
    if IsPrefix(p, s) {
      assert OccursAt(p, s, 0);
    }
    if |s| > 0 {
      SubstringIffOccurs(p, s[1..]);
      if IsSubstring(p, s[1..]) {
        var i :| OccursAt(p, s[1..], i);
        assert s[1..][i..i + |p|] == s[i + 1..i + 1 + |p|];
        assert OccursAt(p, s, i + 1);
      }
      if exists i :: OccursAt(p, s, i) {
        var i :| OccursAt(p, s, i);
        if i > 0 {
          assert s[1..][i - 1..i - 1 + |p|] == s[i..i + |p|];
          assert OccursAt(p, s[1..], i - 1);
        }
      }
    } else if exists i :: OccursAt(p, s, i) {
      var i :| OccursAt(p, s, i);
      assert IsPrefix(p, s);
    }
  }

  /** An occurrence at a known position makes `p` a substring. */
  lemma SubstringAt(p: string, s: string, i: int)
    requires OccursAt(p, s, i)
    ensures IsSubstring(p, s)
  {
    SubstringIffOccurs(p, s);
  }

  /** A character of `p` that `s` lacks rules out `p in s`. */
  lemma NotSubstringByChar(p: string, s: string, c: char)
    requires c in p && c !in s
    ensures !IsSubstring(p, s)
  {
    var k :| 0 <= k < |p| && p[k] == c;
    forall i | 0 <= i && i + |p| <= |s|
      ensures !OccursAt(p, s, i)
    {
      assert s[i..i + |p|][k] == s[i + k];
    }
    SubstringIffOccurs(p, s);
  }

  /** Substring containment is transitive. */
  lemma SubstringTransitive(a: string, b: string, c: string)
    requires IsSubstring(a, b) && IsSubstring(b, c)
    ensures IsSubstring(a, c)
  {
    SubstringIffOccurs(a, b);
    SubstringIffOccurs(b, c);
    var i :| OccursAt(a, b, i);
    var j :| OccursAt(b, c, j);
    forall m | 0 <= m < |a|
      ensures c[j + i..j + i + |a|][m] == a[m]
    {
      assert c[j + i + m] == c[j..j + |b|][i + m] == b[i + m] == b[i..i + |a|][m];
    }
    SubstringAt(a, c, j + i);
  }

  /** A substring of `s` stays one when text is put in front of `s`. */
  lemma SubstringOfSuffix(p: string, t: string, s: string)
    requires IsSubstring(p, s)
    ensures IsSubstring(p, t + s)
  {
    SubstringIffOccurs(p, s);
    var i :| OccursAt(p, s, i);
    assert (t + s)[|t| + i..|t| + i + |p|] == s[i..i + |p|];
    SubstringAt(p, t + s, |t| + i);
  }

  /** Python's `''.join(lines)`. */
  function Concat(lines: seq<string>): (text: string)
    decreases |lines|
  {
    if |lines| == 0 then "" else lines[0] + Concat(lines[1..])
  }

  /** Every line is a substring of the concatenation of all lines. */
  lemma {:induction false} LineInConcat(lines: seq<string>, k: int)
    requires 0 <= k < |lines|
    ensures IsSubstring(lines[k], Concat(lines))
    decreases k
  {
    if k == 0 {
      assert Concat(lines)[..|lines[0]|] == lines[0];
      assert IsPrefix(lines[0], Concat(lines));
    } else {
      LineInConcat(lines[1..], k - 1);
      SubstringOfSuffix(lines[k], lines[0], Concat(lines[1..]));
    }
  }

  /** Python's `str.isspace()` for one character: the 29 whitespace code points. */
  predicate IsSpace(c: char)
  {
    var n := c as int;
    || 9 <= n <= 13
    || 28 <= n <= 32
    || n == 0x85 || n == 0xA0 || n == 0x1680
    || 0x2000 <= n <= 0x200A
    || n == 0x2028 || n == 0x2029 || n == 0x202F || n == 0x205F || n == 0x3000
  }

  /** `s` without its leading whitespace. */
  function TrimLeft(s: string): (t: string)
    decreases |s|
  {
    if |s| > 0 && IsSpace(s[0]) then TrimLeft(s[1..]) else s
  }

  /** `s` without its trailing whitespace. */
  function TrimRight(s: string): (t: string)
    decreases |s|
  {
    if |s| > 0 && IsSpace(s[|s| - 1]) then TrimRight(s[..|s| - 1]) else s
  }

  /** Python's `s.strip()` with no argument. */
  function Strip(s: string): (t: string)
  {
    TrimRight(TrimLeft(s))
  }

  /** `TrimLeft` keeps a suffix that starts with a non-space and drops only whitespace. */
  lemma {:induction false} TrimLeftSpec(s: string)
    ensures var r := TrimLeft(s);
      && |r| <= |s| && r == s[|s| - |r|..]
      && (forall k :: 0 <= k < |s| - |r| ==> IsSpace(s[k]))
      && (|r| > 0 ==> !IsSpace(r[0]))
    decreases |s|
  {
    if |s| > 0 && IsSpace(s[0]) {
      TrimLeftSpec(s[1..]);
    }
  }

  /** `TrimRight` keeps a prefix that ends with a non-space and drops only whitespace. */
  lemma {:induction false} TrimRightSpec(s: string)
    ensures var r := TrimRight(s);
      && |r| <= |s| && r == s[..|r|]
      && (forall k :: |r| <= k < |s| ==> IsSpace(s[k]))
      && (|r| > 0 ==> !IsSpace(r[|r| - 1]))
    decreases |s|
  {
    if |s| > 0 && IsSpace(s[|s| - 1]) {
      TrimRightSpec(s[..|s| - 1]);
    }
  }

  /** `strip()` keeps one contiguous slice of `s`, bounded by non-spaces, and removes only whitespace around it. */
  lemma StripSlice(s: string) returns (a: int, b: int)
    ensures 0 <= a <= b <= |s| && Strip(s) == s[a..b]
    ensures a < b ==> !IsSpace(s[a]) && !IsSpace(s[b - 1])
    ensures forall k :: 0 <= k < a ==> IsSpace(s[k])
    ensures forall k :: b <= k < |s| ==> IsSpace(s[k])
  {
    var t := TrimLeft(s);
    TrimLeftSpec(s);
    var r := TrimRight(t);
    TrimRightSpec(t);
    a := |s| - |t|;
    b := a + |r|;
    assert r == s[a..][..|r|];
    forall k | b <= k < |s|
      ensures IsSpace(s[k])
    {
      assert s[k] == t[k - a];
    }
    if a < b {
      assert s[a] == t[0] == r[0];
      assert s[b - 1] == r[|r| - 1];
    }
  }

  /** `strip()` yields the empty string exactly for whitespace-only text. */
  lemma StripEmptyIff(s: string)
    ensures Strip(s) == "" <==> forall k :: 0 <= k < |s| ==> IsSpace(s[k])
  {
    var a, b := StripSlice(s);
    if a < b {
      assert !IsSpace(s[a]);
    }
  }

  /**
   A line as `splitlines()` yields it, given the line as file iteration yields
   it: without its "\n" terminator (the last line of a file may have none).
   */
  function Chomp(line: string): (text: string)
  {
    if |line| > 0 && line[|line| - 1] == '\n' then line[..|line| - 1] else line
  }

  /** A line with its "\n" terminator gives back its text. */
  lemma ChompLine(s: string)
    ensures Chomp(s + "\n") == s
  {
    assert (s + "\n")[..|s|] == s;
  }

  /** Whitespace in front of text that starts with a non-space is exactly what `TrimLeft` drops. */
  lemma {:induction false} TrimLeftPadded(w: string, s: string)
    requires forall k :: 0 <= k < |w| ==> IsSpace(w[k])
    requires |s| > 0 && !IsSpace(s[0])
    ensures TrimLeft(w + s) == s
    decreases |w|
  {
    if |w| > 0 {
      assert (w + s)[1..] == w[1..] + s;
      TrimLeftPadded(w[1..], s);
    } else {
      assert w + s == s;
    }
  }

  /** Whitespace after text that ends with a non-space is exactly what `TrimRight` drops. */
  lemma {:induction false} TrimRightPadded(s: string, w: string)
    requires forall k :: 0 <= k < |w| ==> IsSpace(w[k])
    requires |s| > 0 && !IsSpace(s[|s| - 1])
    ensures TrimRight(s + w) == s
    decreases |w|
  {
    if |w| > 0 {
      assert (s + w)[..|s + w| - 1] == s + w[..|w| - 1];
      TrimRightPadded(s, w[..|w| - 1]);
    } else {
      assert s + w == s;
    }
  }

  /** `strip()` of text padded with whitespace on both sides gives back the text. */
  lemma StripPadded(w1: string, s: string, w2: string)
    requires forall k :: 0 <= k < |w1| ==> IsSpace(w1[k])
    requires forall k :: 0 <= k < |w2| ==> IsSpace(w2[k])
    requires |s| > 0 && !IsSpace(s[0]) && !IsSpace(s[|s| - 1])
    ensures Strip(w1 + s + w2) == s
  {
    assert w1 + s + w2 == w1 + (s + w2);
    TrimLeftPadded(w1, s + w2);
    TrimRightPadded(s, w2);
  }

  /** The stripped text of a line is a substring of the line without its terminator. */
  lemma StripInChomp(line: string)
    ensures IsSubstring(Strip(line), Chomp(line))
  {
    var a, b := StripSlice(line);
    if a == b {
      assert IsPrefix(Strip(line), Chomp(line));
    } else {
      var c := Chomp(line);
      assert b <= |c|;
      assert c[a..b] == line[a..b];
      SubstringAt(Strip(line), c, a);
    }
  }

  // ---------------------------------------------------------------------------
  // Reading a text file whose only line break is "\n"

  /**
   The lines of a text as iterating over a file opened for reading yields them:
   each line ends just after its "\n", and text after the last "\n" is one
   more line, unterminated.
   */
  function IterLines(text: string): (lines: seq<string>)
    decreases |text|
  {
    if |text| == 0 then []
    else
      var rest := IterLines(text[1..]);
      if text[0] == '\n' || |rest| == 0 then [[text[0]]] + rest
      else [[text[0]] + rest[0]] + rest[1..]
  }

  /** A line that ends with "\n" and holds no other "\n". */
  predicate Terminated(line: string)
  {
    |line| > 0 && line[|line| - 1] == '\n' && '\n' !in line[..|line| - 1]
  }

  /** The pieces of a split without the empty piece that a final separator leaves. */
  function DropFinalEmpty(pieces: seq<string>): (r: seq<string>)
  {
    if |pieces| > 0 && pieces[|pieces| - 1] == "" then pieces[..|pieces| - 1] else pieces
  }

  /** Python's `text.splitlines()` for a text whose only line break is "\n". */
  function SplitLines(text: string): (lines: seq<string>)
  {
    DropFinalEmpty(Split(text, '\n'))
  }

  /** Iteration loses nothing: the lines put back together are the text. */
  lemma {:induction false} IterLinesConcat(text: string)
    ensures Concat(IterLines(text)) == text
    decreases |text|
  {
    if |text| > 0 {
      var rest := IterLines(text[1..]);
      IterLinesConcat(text[1..]);
      if text[0] == '\n' || |rest| == 0 {
        assert Concat([[text[0]]] + rest) == [text[0]] + Concat(rest);
      } else {
        var lines := [[text[0]] + rest[0]] + rest[1..];
        assert lines[1..] == rest[1..];
        assert Concat(rest) == rest[0] + Concat(rest[1..]);
      }
      assert text == [text[0]] + text[1..];
    }
  }

  /** A terminated line in front of a text is read back as one line of its own. */
  lemma {:induction false} IterLinesPrepend(line: string, text: string)
    requires Terminated(line)
    ensures IterLines(line + text) == [line] + IterLines(text)
    decreases |line|
  {
    var t := line + text;
    assert t[1..] == line[1..] + text;
    if |line| == 1 {
      assert line == "\n";
    } else {
      assert line[0] == line[..|line| - 1][0];
      assert line[1..][..|line| - 2] == line[..|line| - 1][1..];
      IterLinesPrepend(line[1..], text);
      assert line == [line[0]] + line[1..];
    }
  }

  /** Reading back the text written as terminated lines gives exactly those lines. */
  lemma {:induction false} IterLinesOfTerminated(lines: seq<string>)
    requires forall k :: 0 <= k < |lines| ==> Terminated(lines[k])
    ensures IterLines(Concat(lines)) == lines
    decreases |lines|
  {
    if |lines| > 0 {
      IterLinesOfTerminated(lines[1..]);
      IterLinesPrepend(lines[0], Concat(lines[1..]));
    }
  }

  /** A final empty piece is dropped only at the very end, whatever comes before it. */
  lemma DropFinalEmptyCons(p: string, pieces: seq<string>)
    requires |pieces| > 0
    ensures DropFinalEmpty([p] + pieces) == [p] + DropFinalEmpty(pieces)
  {
    if pieces[|pieces| - 1] == "" {
      assert ([p] + pieces)[..|pieces|] == [p] + pieces[..|pieces| - 1];
    }
  }

  /** `splitlines()` follows the same character-by-character recursion as file iteration. */
  lemma SplitLinesCons(c: char, rest: string)
    ensures SplitLines([c] + rest) ==
      if c == '\n' then [""] + SplitLines(rest)
      else if SplitLines(rest) == [] then [[c]]
      else [[c] + SplitLines(rest)[0]] + SplitLines(rest)[1..]
  {
    var t := [c] + rest;
    assert t[1..] == rest;
    var pieces := Split(rest, '\n');
    if c == '\n' {
      DropFinalEmptyCons("", pieces);
    } else if |pieces| == 1 {
      assert Split(t, '\n') == [[c] + pieces[0]];
      if pieces[0] == "" {
        assert [c] + pieces[0] == [c];
      } else {
        assert SplitLines(rest) == [pieces[0]];
      }
    } else {
      assert Split(t, '\n') == [[c] + pieces[0]] + pieces[1..];
      DropFinalEmptyCons([c] + pieces[0], pieces[1..]);
      DropFinalEmptyCons(pieces[0], pieces[1..]);
      assert pieces == [pieces[0]] + pieces[1..];
    }
  }

  /** Text in front of a line with no "\n" in front stays in front after the terminator is removed. */
  lemma ChompCons(c: char, line: string)
    requires c != '\n'
    ensures Chomp([c] + line) == [c] + Chomp(line)
  {
    if |line| > 0 && line[|line| - 1] == '\n' {
      assert ([c] + line)[..|line|] == [c] + line[..|line| - 1];
    }
  }

  /** Each of `chomped` is the matching one of `lines` without its "\n" terminator. */
  predicate ChompEach(chomped: seq<string>, lines: seq<string>)
  {
    |chomped| == |lines| && forall k :: 0 <= k < |lines| ==> chomped[k] == Chomp(lines[k])
  }

  /** `ChompEach` extends by one line at the front. */
  lemma ChompEachCons(x: string, y: string, chomped: seq<string>, lines: seq<string>)
    requires x == Chomp(y) && ChompEach(chomped, lines)
    ensures ChompEach([x] + chomped, [y] + lines)
  {
    forall k | 0 < k <= |lines|
      ensures ([x] + chomped)[k] == Chomp(([y] + lines)[k])
    {
      assert ([x] + chomped)[k] == chomped[k - 1];
      assert ([y] + lines)[k] == lines[k - 1];
    }
  }

  /** `ChompEach` holds of what follows the first line. */
  lemma ChompEachTail(chomped: seq<string>, lines: seq<string>)
    requires ChompEach(chomped, lines) && |lines| > 0
    ensures ChompEach(chomped[1..], lines[1..])
  {
    forall k | 0 <= k < |lines| - 1
      ensures chomped[1..][k] == Chomp(lines[1..][k])
    {
      assert chomped[1..][k] == chomped[k + 1];
      assert lines[1..][k] == lines[k + 1];
    }
  }

  /** Line k of `splitlines()` is line k of file iteration without its "\n" terminator. */
  lemma {:induction false} SplitLinesChomp(text: string)
    ensures ChompEach(SplitLines(text), IterLines(text))
    decreases |text|
  {
    if |text| > 0 {
      var c := text[0];
      var rest := IterLines(text[1..]);
      var split := SplitLines(text[1..]);
      SplitLinesChomp(text[1..]);
      assert text == [c] + text[1..];
      SplitLinesCons(c, text[1..]);
      var lines := IterLines(text);
      var sl := SplitLines(text);
      if c == '\n' {
        assert lines == ["\n"] + rest && sl == [""] + split;
        assert Chomp("\n") == "";
        ChompEachCons("", "\n", split, rest);
      } else if |rest| == 0 {
        assert lines == [[c]] && sl == [[c]];
        assert Chomp([c]) == [c];
      } else {
        assert lines == [[c] + rest[0]] + rest[1..] && sl == [[c] + split[0]] + split[1..];
        ChompCons(c, rest[0]);
        ChompEachTail(split, rest);
        ChompEachCons([c] + split[0], [c] + rest[0], split[1..], rest[1..]);
      }
    }
  }

  /**
   In text written as terminated lines, a "\n"-free non-empty string occurs
   exactly when it occurs within one of the lines: no occurrence runs across a
   line boundary.
   */
  lemma {:induction false} SubstringOfTerminatedConcat(p: string, lines: seq<string>)
    requires |p| > 0 && '\n' !in p
    requires forall k :: 0 <= k < |lines| ==> Terminated(lines[k])
    ensures IsSubstring(p, Concat(lines)) <==> exists k :: 0 <= k < |lines| && IsSubstring(p, lines[k])
    decreases |lines|
  {
    if exists k :: 0 <= k < |lines| && IsSubstring(p, lines[k]) {
      var k :| 0 <= k < |lines| && IsSubstring(p, lines[k]);
      LineInConcat(lines, k);
      SubstringTransitive(p, lines[k], Concat(lines));
    }
    if |lines| == 0 {
      SubstringIffOccurs(p, "");
    } else {
      SubstringOfTerminatedConcat(p, lines[1..]);
      if IsSubstring(p, Concat(lines)) {
        SubstringOfLineBreak(p, lines[0], Concat(lines[1..]));
        if IsSubstring(p, Concat(lines[1..])) {
          var k :| 0 <= k < |lines| - 1 && IsSubstring(p, lines[1..][k]);
          assert lines[k + 1] == lines[1..][k];
        }
      }
    }
  }

  /** An occurrence of a "\n"-free string in `line + text`, where `line` ends with "\n", lies in one of the two. */
  lemma SubstringOfLineBreak(p: string, line: string, text: string)
    requires '\n' !in p
    requires |line| > 0 && line[|line| - 1] == '\n'
    requires IsSubstring(p, line + text)
    ensures IsSubstring(p, line) || IsSubstring(p, text)
  {
    var t := line + text;
    SubstringIffOccurs(p, t);
    var i :| OccursAt(p, t, i);
    forall m | i <= m < i + |p|
      ensures t[m] != '\n'
    {
      assert t[m] == t[i..i + |p|][m - i];
    }
    assert t[|line| - 1] == '\n';
    if i + |p| <= |line| {
      assert t[i..i + |p|] == line[i..i + |p|];
      SubstringAt(p, line, i);
    } else {
      assert t[i..i + |p|] == text[i - |line|..i - |line| + |p|];
      SubstringAt(p, text, i - |line|);
    }
  }

  /** Python's `s.split(sep)` for a one-character separator: every piece between separators, empty ones included. */
  function Split(s: string, sep: char): (r: seq<string>)
    ensures |r| >= 1
    ensures forall k :: 0 <= k < |r| ==> sep !in r[k]
    decreases |s|
  {
    if |s| == 0 then [""]
    else
      var rest := Split(s[1..], sep);
      if s[0] == sep then [""] + rest else [[s[0]] + rest[0]] + rest[1..]
  }

  /** Python's `sep.join(parts)` for a one-character separator. */
  function Join(parts: seq<string>, sep: char): (joined: string)
    decreases |parts|
  {
    if |parts| == 0 then ""
    else if |parts| == 1 then parts[0]
    else parts[0] + [sep] + Join(parts[1..], sep)
  }

  /** Joining the pieces of a split gives back the original text. */
  lemma {:induction false} JoinSplit(s: string, sep: char)
    ensures Join(Split(s, sep), sep) == s
    decreases |s|
  {
    if |s| > 0 {
      var rest := Split(s[1..], sep);
      JoinSplit(s[1..], sep);
      if s[0] == sep {
        assert ([""] + rest)[1..] == rest;
      } else if |rest| == 1 {
        assert s == [s[0]] + s[1..];
      } else {
        var r := [[s[0]] + rest[0]] + rest[1..];
        assert r[1..] == rest[1..];
        assert s == [s[0]] + s[1..];
      }
    }
  }

  /** Splitting a separator-free text followed by a separator peels off that text. */
  lemma {:induction false} SplitAfterPiece(a: string, sep: char, b: string)
    requires sep !in a
    ensures Split(a + [sep] + b, sep) == [a] + Split(b, sep)
    decreases |a|
  {
    if |a| == 0 {
      assert a + [sep] + b == [sep] + b;
      assert ([sep] + b)[1..] == b;
    } else {
      SplitAfterPiece(a[1..], sep, b);
      assert (a + [sep] + b)[1..] == a[1..] + [sep] + b;
      assert a == [a[0]] + a[1..];
    }
  }

  /** A separator-free text splits into itself alone. */
  lemma {:induction false} SplitNoSep(a: string, sep: char)
    requires sep !in a
    ensures Split(a, sep) == [a]
    decreases |a|
  {
    if |a| > 0 {
      SplitNoSep(a[1..], sep);
      assert a == [a[0]] + a[1..];
    }
  }

  /** Splitting a join of separator-free pieces gives back the pieces. */
  lemma {:induction false} SplitJoin(parts: seq<string>, sep: char)
    requires |parts| >= 1
    requires forall k :: 0 <= k < |parts| ==> sep !in parts[k]
    ensures Split(Join(parts, sep), sep) == parts
    decreases |parts|
  {
    if |parts| == 1 {
      SplitNoSep(parts[0], sep);
    } else {
      SplitJoin(parts[1..], sep);
      SplitAfterPiece(parts[0], sep, Join(parts[1..], sep));
      assert [parts[0]] + parts[1..] == parts;
    }
  }

  /** Python's `p in s`, computed by trying every start offset from the left. */
  method Contains(p: string, s: string) returns (found: bool)
    ensures found <==> IsSubstring(p, s)
  {
    SubstringIffOccurs(p, s);
    if |p| > |s| {
      return false;
    }
    var i := 0;
    while i <= |s| - |p|
      invariant 0 <= i <= |s| - |p| + 1
      invariant forall j :: 0 <= j < i ==> !OccursAt(p, s, j)
    {
      if s[i..i + |p|] == p {
        assert OccursAt(p, s, i);
        return true;
      }
      i := i + 1;
    }
    return false;
  }
}
