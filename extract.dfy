/** Candidate extraction and validation: the filename-shaped token an LLM answer
    is searched for, the structural check a candidate must pass, and the small
    string helpers around them (main.py:28-29, 81-141, 189-205). */
module Extract {
  import opened StringOps

  const MIN_LENGTH: nat := 15
  const PDF: string := ".pdf"

  datatype Option<T> = None | Some(value: T)

  /** What `clean_llm_output` does to each character: a backslash goes, a
      newline becomes a space, anything else stays. */
  function Cleaned(text: string): string {
    if text == [] then []
    else (if text[0] == '\\' then "" else if text[0] == '\n' then " " else [text[0]]) + Cleaned(text[1..])
  }

  /** The two `replace` passes come to `Cleaned`. */
  lemma {:induction false} CleanedIsTwoPasses(text: string)
    ensures SubstChar(SubstChar(text, '\n', " "), '\\', "") == Cleaned(text)
  {
    if text != [] {
      var head: string := if text[0] == '\n' then " " else [text[0]];
      var spaced := SubstChar(text[1..], '\n', " ");
      assert SubstChar(text, '\n', " ") == head + spaced;
      SubstCharAppend(head, spaced, '\\', "");
      CleanedIsTwoPasses(text[1..]);
      assert SubstChar(head, '\\', "") == (if text[0] == '\\' then "" else if text[0] == '\n' then " " else [text[0]]) by {
        assert head[1..] == [];
      }
    }
  }

  /** `clean_llm_output`: a newline becomes a space, backslashes disappear. */
  function CleanLlmOutput(text: string): (r: string)
    ensures r == Cleaned(text)
    ensures '\n' !in r && '\\' !in r
    ensures |r| == |text| - Count(text, '\\')
    ensures CharsFrom(r, text, " ")
    ensures '\n' !in text && '\\' !in text ==> r == text
  {
    var spaced := ReplaceAll(text, "\n", " ");
    ReplaceCharRemovesIt(text, '\n', " ");
    ReplaceAllKeepsCount(text, "\n", " ", '\\');
    var r := ReplaceAll(spaced, "\\", "");
    ReplaceCharRemovesIt(spaced, '\\', "");
    DeleteCharLength(spaced, '\\');
    AbsentCharNoOccurrence(text, '\n');
    AbsentCharNoOccurrence(spaced, '\\');
    ReplaceCharIsSubst(text, '\n', " ");
    ReplaceCharIsSubst(spaced, '\\', "");
    CleanedIsTwoPasses(text);
    assert '\n' !in r && '\\' !in r;
    assert |r| == |text| - Count(text, '\\');
    assert CharsFrom(r, text, " ");
    r
  }

  // The pattern `["']?\s*([^"'>\s]*\.pdf)\s*["']?` (main.py:29), written out.

  predicate IsQuote(c: char) { c == '"' || c == '\'' }

  /** A character of the class `[^"'>\s]`. */
  predicate IsBody(c: char) { !IsQuote(c) && c != '>' && !IsSpace(c) }

  /** A split of `t` into the pattern's six parts: an optional quote `t[..i1]`,
      white space `t[i1..i2]`, body characters `t[i2..i3]`, the literal `.pdf`,
      white space `t[i3 + 4..i4]` and an optional quote `t[i4..]`. */
  ghost predicate Parse(t: string, i1: nat, i2: nat, i3: nat, i4: nat) {
    && i1 <= 1 && i1 <= i2 <= i3 && i3 + 4 <= i4 <= |t| && |t| <= i4 + 1
    && (i1 == 1 ==> IsQuote(t[0]))
    && (forall k :: i1 <= k < i2 ==> IsSpace(t[k]))
    && (forall k :: i2 <= k < i3 ==> IsBody(t[k]))
    && t[i3..i3 + 4] == PDF
    && (forall k :: i3 + 4 <= k < i4 ==> IsSpace(t[k]))
    && (i4 < |t| ==> IsQuote(t[i4]))
  }

  /** `t` is, as a whole, in the language of the pattern. */
  ghost predicate InPattern(t: string) {
    exists i1: nat, i2: nat, i3: nat, i4: nat :: Parse(t, i1, i2, i3, i4)
  }

  /** `.pdf` starts at `j` in `s`. */
  predicate PdfAt(s: string, j: nat) {
    j + 4 <= |s| && s[j..j + 4] == PDF
  }

  ghost predicate ContainsPdf(s: string) {
    exists j: nat :: PdfAt(s, j)
  }

  /** End of the run of white space that starts at `i`. */
  function SkipSpace(s: string, i: nat): (e: nat)
    requires i <= |s|
    ensures i <= e <= |s|
    ensures forall k :: i <= k < e ==> IsSpace(s[k])
    ensures e < |s| ==> !IsSpace(s[e])
    decreases |s| - i
  {
    if i < |s| && IsSpace(s[i]) then SkipSpace(s, i + 1) else i
  }

  /** End of the run of body characters that starts at `i`. */
  function SkipBody(s: string, i: nat): (e: nat)
    requires i <= |s|
    ensures i <= e <= |s|
    ensures forall k :: i <= k < e ==> IsBody(s[k])
    ensures e < |s| ==> !IsBody(s[e])
    decreases |s| - i
  {
    if i < |s| && IsBody(s[i]) then SkipBody(s, i + 1) else i
  }

  /** The last position `j` with `lo <= j` and `j + 4 <= hi` where `.pdf` starts. */
  function LastPdf(s: string, lo: nat, hi: nat): (r: Option<nat>)
    requires lo <= hi <= |s|
    ensures r.Some? ==> lo <= r.value && r.value + 4 <= hi && PdfAt(s, r.value)
    ensures r.Some? ==> forall j: nat :: r.value < j && j + 4 <= hi ==> !PdfAt(s, j)
    ensures r.None? ==> forall j: nat :: lo <= j && j + 4 <= hi ==> !PdfAt(s, j)
    decreases hi
  {
    if hi < lo + 4 then None
    else if s[hi - 4..hi] == PDF then Some(hi - 4)
    else LastPdf(s, lo, hi - 1)
  }

  /** End of an optional quote at `i`. */
  function SkipQuote(s: string, i: nat): (e: nat)
    requires i <= |s|
    ensures i <= e <= |s| && (e == i + 1 <==> i < |s| && IsQuote(s[i])) && (e == i || e == i + 1)
  {
    if i < |s| && IsQuote(s[i]) then i + 1 else i
  }

  /** What the backtracking matcher does at start position `p`: take the quote
      if there is one, all the white space, the body run up to its last `.pdf`,
      then all trailing white space and a quote if there is one. Gives the end
      of the match. */
  function MatchAt(s: string, p: nat): (r: Option<nat>)
    requires p <= |s|
    ensures r.Some? ==> p <= r.value <= |s|
  {
    var q := SkipSpace(s, SkipQuote(s, p));
    match LastPdf(s, q, SkipBody(s, q))
    case None => None
    case Some(j) => Some(SkipQuote(s, SkipSpace(s, j + 4)))
  }

  /** `re.search`: the first start position, from `p` on, where a match exists. */
  function SearchFrom(s: string, p: nat): (r: Option<(nat, nat)>)
    requires p <= |s|
    ensures r.Some? ==> p <= r.value.0 <= r.value.1 <= |s| && MatchAt(s, r.value.0) == Some(r.value.1)
    ensures r.Some? ==> forall p' :: p <= p' < r.value.0 ==> MatchAt(s, p').None?
    ensures r.None? ==> forall p' :: p <= p' <= |s| ==> MatchAt(s, p').None?
    decreases |s| - p
  {
    var m := MatchAt(s, p);
    if m.Some? then Some((p, m.value))
    else if p == |s| then None
    else SearchFrom(s, p + 1)
  }

  /** `find_match`: the whole match (`group(0)`) of the first search hit. */
  function FindMatch(s: string): (r: Option<string>)
  {
    match SearchFrom(s, 0)
    case None => None
    case Some((p, e)) => Some(s[p..e])
  }

  /** `Parse` of the slice `s[p..e]`, in positions of `s`. */
  ghost predicate ParseIn(s: string, p: nat, e: nat, a1: nat, a2: nat, a3: nat, a4: nat) {
    && p <= a1 <= p + 1 && a1 <= a2 <= a3 && a3 + 4 <= a4 <= e <= |s| && e <= a4 + 1
    && (a1 == p + 1 ==> IsQuote(s[p]))
    && (forall k :: a1 <= k < a2 ==> IsSpace(s[k]))
    && (forall k :: a2 <= k < a3 ==> IsBody(s[k]))
    && PdfAt(s, a3)
    && (forall k :: a3 + 4 <= k < a4 ==> IsSpace(s[k]))
    && (a4 < e ==> IsQuote(s[a4]))
  }

  lemma ParseSlice(s: string, p: nat, e: nat, i1: nat, i2: nat, i3: nat, i4: nat)
    requires p <= e <= |s|
    ensures Parse(s[p..e], i1, i2, i3, i4) <==> ParseIn(s, p, e, p + i1, p + i2, p + i3, p + i4)
  {
    var t := s[p..e];
    assert forall k :: 0 <= k < |t| ==> t[k] == s[p + k];
    if i3 + 4 <= |t| {
      assert t[i3..i3 + 4] == s[p + i3..p + i3 + 4];
    }
  }

  /** What the matcher returns is a match of the pattern. */
  lemma MatchAtSound(s: string, p: nat, e: nat)
    requires p <= e <= |s| && MatchAt(s, p) == Some(e)
    ensures InPattern(s[p..e])
  {
    var q0 := SkipQuote(s, p);
    var q := SkipSpace(s, q0);
    var b := SkipBody(s, q);
    var j := LastPdf(s, q, b).value;
    var t4 := SkipSpace(s, j + 4);
    assert e == SkipQuote(s, t4);
    assert forall k :: q <= k < j ==> IsBody(s[k]);
    assert ParseIn(s, p, e, q0, q, j, t4);
    ParseOfIn(s, p, e, q0, q, j, t4);
  }

  /** A parse in positions of `s` is a parse of the slice. */
  lemma ParseOfIn(s: string, p: nat, e: nat, a1: nat, a2: nat, a3: nat, a4: nat)
    requires ParseIn(s, p, e, a1, a2, a3, a4)
    ensures Parse(s[p..e], a1 - p, a2 - p, a3 - p, a4 - p)
  {
    ParseSlice(s, p, e, a1 - p, a2 - p, a3 - p, a4 - p);
    assert p + (a1 - p) == a1 && p + (a2 - p) == a2 && p + (a3 - p) == a3 && p + (a4 - p) == a4;
  }

  /** A parse fixes where the matcher's leading quote and white space end. */
  lemma ParseFixesPrefix(s: string, p: nat, e: nat, a1: nat, a2: nat, a3: nat, a4: nat)
    requires ParseIn(s, p, e, a1, a2, a3, a4)
    ensures SkipQuote(s, p) == a1 && SkipSpace(s, a1) == a2
  {
    assert s[a3] == '.' by { assert s[a3..a3 + 4][0] == PDF[0]; }
    assert !IsSpace(s[a2]) by {
      if a2 < a3 { assert IsBody(s[a2]); }
    }
  }

  /** A parse's `.pdf` lies inside the body run the matcher scans. */
  lemma ParseInBodyRun(s: string, p: nat, e: nat, a1: nat, a2: nat, a3: nat, a4: nat)
    requires ParseIn(s, p, e, a1, a2, a3, a4)
    ensures SkipBody(s, a2) >= a3 + 4
  {
    var pdf := s[a3..a3 + 4];
    assert s[a3] == pdf[0] && s[a3 + 1] == pdf[1] && s[a3 + 2] == pdf[2] && s[a3 + 3] == pdf[3];
    assert forall k :: a2 <= k < a3 + 4 ==> IsBody(s[k]);
  }

  /** Any match of the pattern that starts at `p` is found there, and it is
      no longer than the one found: greedy backtracking gives the longest. */
  lemma MatchAtComplete(s: string, p: nat, e: nat, i1: nat, i2: nat, i3: nat, i4: nat)
    requires p <= e <= |s| && Parse(s[p..e], i1, i2, i3, i4)
    ensures MatchAt(s, p).Some? && e <= MatchAt(s, p).value
  {
    ParseSlice(s, p, e, i1, i2, i3, i4);
    MatchAtCompleteIn(s, p, e, p + i1, p + i2, p + i3, p + i4);
  }

  lemma MatchAtCompleteIn(s: string, p: nat, e: nat, a1: nat, a2: nat, a3: nat, a4: nat)
    requires ParseIn(s, p, e, a1, a2, a3, a4)
    ensures MatchAt(s, p).Some? && e <= MatchAt(s, p).value
  {
    ParseFixesPrefix(s, p, e, a1, a2, a3, a4);
    ParseInBodyRun(s, p, e, a1, a2, a3, a4);
    var b := SkipBody(s, a2);
    var j := LastPdf(s, a2, b).value;
    assert j > a3 ==> IsBody(s[a3 + 4]);
    TailBound(s, e, a3, a4, j);
  }

  /** The matcher's end, after the last `.pdf` of the body run, is at or beyond
      the end of any parse whose `.pdf` starts no later. */
  lemma TailBound(s: string, e: nat, a3: nat, a4: nat, j: nat)
    requires a3 <= j && j + 4 <= |s| && a3 + 4 <= a4 <= e <= |s| && e <= a4 + 1
    requires forall k :: a3 + 4 <= k < a4 ==> IsSpace(s[k])
    requires a4 < e ==> IsQuote(s[a4])
    requires j > a3 ==> IsBody(s[a3 + 4])
    ensures e <= SkipQuote(s, SkipSpace(s, j + 4))
  {
    var t4 := SkipSpace(s, j + 4);
    if j == a3 {
      assert t4 >= a4;
    }
  }

  /** `s[p..e]` is the match `re.search` reports: a match of the pattern, no
      match starts earlier, and none that starts at `p` is longer. */
  ghost predicate LeftmostLongest(s: string, p: nat, e: nat)
    requires p <= e <= |s|
  {
    && InPattern(s[p..e])
    && forall p': nat, e': nat :: p' <= e' <= |s| && InPattern(s[p'..e']) ==> p < p' || (p == p' && e' <= e)
  }

  lemma SearchHitIsLeftmostLongest(s: string)
    requires SearchFrom(s, 0).Some?
    ensures LeftmostLongest(s, SearchFrom(s, 0).value.0, SearchFrom(s, 0).value.1)
  {
    var (p, e) := SearchFrom(s, 0).value;
    MatchAtSound(s, p, e);
    forall p': nat, e': nat | p' <= e' <= |s| && InPattern(s[p'..e'])
      ensures p < p' || (p == p' && e' <= e)
    {
      var i1: nat, i2: nat, i3: nat, i4: nat :| Parse(s[p'..e'], i1, i2, i3, i4);
      MatchAtComplete(s, p', e', i1, i2, i3, i4);
    }
  }

  /** A match of the pattern holds `.pdf`. */
  lemma PatternHoldsPdf(t: string)
    requires InPattern(t)
    ensures ContainsPdf(t)
  {
    var i1: nat, i2: nat, i3: nat, i4: nat :| Parse(t, i1, i2, i3, i4);
    assert PdfAt(t, i3);
  }

  lemma PdfInSlice(s: string, p: nat, e: nat)
    requires p <= e <= |s| && ContainsPdf(s[p..e])
    ensures ContainsPdf(s)
  {
    var j: nat :| PdfAt(s[p..e], j);
    var t := s[p..e];
    assert j + 4 <= |t| && t[j..j + 4] == PDF;
    assert forall k :: j <= k < j + 4 ==> t[k] == s[p + k];
    assert s[p + j..p + j + 4] == t[j..j + 4];
    assert PdfAt(s, p + j);
  }

  /** `find_match` finds nothing exactly when the answer holds no `.pdf`; what it
      finds is the leftmost, and among those the longest, match of the pattern,
      so it contains `.pdf` and may carry a quote or white space at either end. */
  lemma FindMatchSpec(s: string)
    ensures FindMatch(s).None? <==> !ContainsPdf(s)
    ensures FindMatch(s).Some? ==>
      (exists p: nat, e: nat :: p <= e <= |s| && FindMatch(s).value == s[p..e] && LeftmostLongest(s, p, e))
    ensures FindMatch(s).Some? ==> ContainsPdf(FindMatch(s).value)
  {
    var r := SearchFrom(s, 0);
    if r.Some? {
      var (p, e) := r.value;
      SearchHitIsLeftmostLongest(s);
      PatternHoldsPdf(s[p..e]);
      PdfInSlice(s, p, e);
    } else if ContainsPdf(s) {
      var j: nat :| PdfAt(s, j);
      assert Parse(s[j..j + 4], 0, 0, 0, 4);
      MatchAtComplete(s, j, j + 4, 0, 0, 0, 4);
    }
  }

  /** `is_valid`: a candidate must be present and non-empty, at least
      `MIN_LENGTH` characters long, and split on `.` into exactly two parts. */
  function IsValid(m: Option<string>): bool
  {
    if m.None? || m.value == "" then false
    else if |m.value| < MIN_LENGTH then false
    else if |Split(m.value, '.')| != 2 then false
    else true
  }

  /** A valid candidate is one of at least 15 characters, quotes and white
      space included, with exactly one `.`. */
  lemma IsValidSpec(m: Option<string>)
    ensures IsValid(m) <==> m.Some? && |m.value| >= MIN_LENGTH && Count(m.value, '.') == 1
  {
    if m.Some? {
      SplitLength(m.value, '.');
    }
  }

  /** The boundary cases: a dot-free stem and `.pdf` pass from 15 characters
      on and fail at 14; a second dot is refused whatever the length. */
  lemma IsValidBoundary(stem: string, more: string)
    requires '.' !in stem && '.' !in more
    ensures IsValid(Some(stem + PDF)) <==> |stem| >= 11
    ensures !IsValid(Some(stem + "." + more + PDF))
    ensures !IsValid(None)
  {
    assert Count(PDF, '.') == 1 by { assert PDF == "." + "pdf"; CountAppend(".", "pdf", '.'); }
    CountAppend(stem, PDF, '.');
    IsValidSpec(Some(stem + PDF));
    CountAppend(stem + "." + more, PDF, '.');
    CountAppend(stem + ".", more, '.');
    CountAppend(stem, ".", '.');
    IsValidSpec(Some(stem + "." + more + PDF));
  }

  /** `append_date_to_filename`: `-` and the date go in front of the last `.`
      (the cut of `rsplit('.', 1)`); the date is a parameter. */
  function AppendDate(fileName: string, date: string): (r: string)
    requires '.' in fileName
    ensures |r| == |fileName| + |date| + 1
    ensures r[..LastIndexOf(fileName, '.')] == fileName[..LastIndexOf(fileName, '.')]
    ensures r[|r| - (|fileName| - LastIndexOf(fileName, '.'))..] == fileName[LastIndexOf(fileName, '.')..]
    ensures r[LastIndexOf(fileName, '.')..LastIndexOf(fileName, '.') + |date| + 1] == "-" + date
  {
    var k := LastIndexOf(fileName, '.');
    fileName[..k] + "-" + date + "." + fileName[k + 1..]
  }

  /** With a date free of dots, the dated name keeps the number of dots and its
      extension after the last one. */
  lemma AppendDateKeepsDots(fileName: string, date: string)
    requires '.' in fileName && '.' !in date
    ensures Count(AppendDate(fileName, date), '.') == Count(fileName, '.')
    ensures var r := AppendDate(fileName, date);
      r[LastIndexOf(r, '.') + 1..] == fileName[LastIndexOf(fileName, '.') + 1..]
  {
    var k := LastIndexOf(fileName, '.');
    var stem, ext := fileName[..k], fileName[k + 1..];
    assert fileName == stem + "." + ext;
    CountAppend(stem + ".", ext, '.');
    CountAppend(stem, ".", '.');
    var r := AppendDate(fileName, date);
    assert r == stem + "-" + date + "." + ext;
    CountAppend(stem + "-" + date + ".", ext, '.');
    CountAppend(stem + "-" + date, ".", '.');
    CountAppend(stem + "-", date, '.');
    CountAppend(stem, "-", '.');
    var kr := |stem| + 1 + |date|;
    assert r[kr] == '.' && r[kr + 1..] == ext;
    assert LastIndexOf(r, '.') == kr;
  }

  /** `longest_string`: the first of the longest strings with more than 13
      characters, or the empty string when there is none. */
  method LongestString(strings: seq<string>) returns (longest: string)
    ensures longest == "" <==> forall i :: 0 <= i < |strings| ==> |strings[i]| <= 13
    ensures longest != "" ==>
      (exists i :: 0 <= i < |strings| && strings[i] == longest && |longest| > 13 &&
         forall j :: 0 <= j < i ==> |strings[j]| < |longest|)
    ensures forall i :: 0 <= i < |strings| && |strings[i]| > 13 ==> |strings[i]| <= |longest|
  {
    longest := "";
    ghost var at := 0;
    for n := 0 to |strings|
      invariant longest == "" <==> forall i :: 0 <= i < n ==> |strings[i]| <= 13
      invariant longest != "" ==>
        (at < n && strings[at] == longest && |longest| > 13
         && forall j :: 0 <= j < at ==> |strings[j]| < |longest|)
      invariant forall i :: 0 <= i < n && |strings[i]| > 13 ==> |strings[i]| <= |longest|
    {
      if |strings[n]| > 13 && |strings[n]| > |longest| {
        longest := strings[n];
        at := n;
      }
    }
  }
}
