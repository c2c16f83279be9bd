/** Label search in a text (main.py:208-241) and the person tag built from
    the names found in it (main.py:450-469). */
module Matching {
  import opened StringOps
  import opened Extract

  /** What the alternation `'|'.join(words)` needs to be read literally: no
      word empty, none holding a special character. */
  predicate Literals(words: seq<string>) {
    forall j :: 0 <= j < |words| ==> |words[j]| > 0 && IsRegexLiteral(words[j])
  }

  /** Literal words, at least one of them. */
  predicate WordList(words: seq<string>) {
    |words| > 0 && Literals(words)
  }

  /** `w` equals one of the words, ignoring case. */
  predicate IsLabel(w: string, words: seq<string>) {
    exists j | 0 <= j < |words| :: EqualsIgnoringCase(w, words[j])
  }

  /** `w` is a substring of `s` starting at or after `p`. */
  predicate SubstringFrom(w: string, s: string, p: nat) {
    exists q: nat | p <= q <= |s| :: OccursAt(s, w, q)
  }

  /** Some word occurs at position `p`, ignoring case. */
  predicate AnyAt(s: string, words: seq<string>, p: nat) {
    exists j | 0 <= j < |words| :: OccursAtIgnoringCase(s, words[j], p)
  }

  /** The alternative the alternation takes at `p`: the first word from index `j`
      on that occurs there. */
  function FirstWordAt(s: string, words: seq<string>, p: nat, j: nat): (r: Option<nat>)
    requires j <= |words|
    ensures r.Some? ==> j <= r.value < |words| && OccursAtIgnoringCase(s, words[r.value], p)
    ensures r.Some? ==> forall t :: j <= t < r.value ==> !OccursAtIgnoringCase(s, words[t], p)
    ensures r.None? ==> forall t :: j <= t < |words| ==> !OccursAtIgnoringCase(s, words[t], p)
    decreases |words| - j
  {
    if j == |words| then None
    else if OccursAtIgnoringCase(s, words[j], p) then Some(j)
    else FirstWordAt(s, words, p, j + 1)
  }

  /** The alternation takes some word at `p` exactly when one occurs there. */
  lemma FirstWordAtFinds(s: string, words: seq<string>, p: nat)
    ensures FirstWordAt(s, words, p, 0).Some? <==> AnyAt(s, words, p)
  {
    if FirstWordAt(s, words, p, 0).Some? {
      var j := FirstWordAt(s, words, p, 0).value;
      assert OccursAtIgnoringCase(s, words[j], p);
    }
  }

  /** `re.findall` of the alternation from position `p` on: at each position the
      first word that fits is taken, as spelled in the text, and the search goes
      on after it; where none fits the search moves one character on. */
  function FindWordsFrom(s: string, words: seq<string>, p: nat): (r: seq<string>)
    requires WordList(words) && p <= |s|
    decreases |s| - p
  {
    if p == |s| then []
    else
      match FirstWordAt(s, words, p, 0)
      case None => FindWordsFrom(s, words, p + 1)
      case Some(j) => [s[p..p + |words[j]|]] + FindWordsFrom(s, words, p + |words[j]|)
  }

  /** Every match is non-empty, equals one of the words ignoring case and is a
      piece of the text at or after `p`. */
  lemma {:induction false} FindWordsFromSound(s: string, words: seq<string>, p: nat, k: nat)
    requires WordList(words) && p <= |s| && k < |FindWordsFrom(s, words, p)|
    ensures |FindWordsFrom(s, words, p)[k]| > 0
    ensures IsLabel(FindWordsFrom(s, words, p)[k], words)
    ensures SubstringFrom(FindWordsFrom(s, words, p)[k], s, p)
    decreases |s| - p
  {
    var r := FindWordsFrom(s, words, p);
    match FirstWordAt(s, words, p, 0)
    case None =>
      assert r == FindWordsFrom(s, words, p + 1);
      FindWordsFromSound(s, words, p + 1, k);
      SubstringFromEarlier(r[k], s, p, p + 1);
    case Some(j) =>
      var n := |words[j]|;
      var w := s[p..p + n];
      var rest := FindWordsFrom(s, words, p + n);
      assert r == [w] + rest;
      if k == 0 {
        assert r[0] == w;
        assert IsLabel(w, words);
        assert OccursAt(s, w, p);
      } else {
        FindWordsFromSound(s, words, p + n, k - 1);
        LaterMatch(r, w, rest, k, words, s, p, p + n);
      }
  }

  /** A match found after the first one keeps its facts, from the earlier
      start on. */
  lemma LaterMatch(r: seq<string>, w: string, rest: seq<string>, k: nat, words: seq<string>, s: string, p: nat, p': nat)
    requires r == [w] + rest && 0 < k < |r| && p <= p'
    requires |rest[k - 1]| > 0 && IsLabel(rest[k - 1], words) && SubstringFrom(rest[k - 1], s, p')
    ensures |r[k]| > 0 && IsLabel(r[k], words) && SubstringFrom(r[k], s, p)
  {
    assert r[k] == rest[k - 1];
    SubstringFromEarlier(r[k], s, p, p');
  }

  lemma SubstringFromEarlier(w: string, s: string, p: nat, p': nat)
    requires p <= p' && SubstringFrom(w, s, p')
    ensures SubstringFrom(w, s, p)
  {
  }

  /** `find_words`. An empty list joins to the empty pattern, which matches the
      empty string at each of the `|s| + 1` positions. */
  function FindWords(s: string, words: seq<string>): (r: seq<string>)
    requires Literals(words)
    ensures words != [] ==> forall k :: 0 <= k < |r| ==> |r[k]| > 0 && IsLabel(r[k], words) && SubstringFrom(r[k], s, 0)
    ensures words == [] ==> |r| == |s| + 1 && forall k :: 0 <= k < |r| ==> r[k] == ""
  {
    if words == [] then seq(|s| + 1, _ => "") else
    var r := FindWordsFrom(s, words, 0);
    assert forall k :: 0 <= k < |r| ==> |r[k]| > 0 && IsLabel(r[k], words) && SubstringFrom(r[k], s, 0) by {
      forall k | 0 <= k < |r| ensures |r[k]| > 0 && IsLabel(r[k], words) && SubstringFrom(r[k], s, 0) {
        FindWordsFromSound(s, words, 0, k);
      }
    }
    r
  }

  /** A word that occurs at or after `i` gives the search from `i` a hit. */
  lemma {:induction false} FindWordsFromHit(s: string, words: seq<string>, i: nat, p: nat)
    requires WordList(words) && i <= p <= |s| && AnyAt(s, words, p)
    ensures |FindWordsFrom(s, words, i)| > 0
    decreases p - i
  {
    if FirstWordAt(s, words, i, 0).None? {
      assert i != p;
      FindWordsFromHit(s, words, i + 1, p);
    }
  }

  /** Without any occurrence from `i` on the search finds nothing. */
  lemma {:induction false} FindWordsFromMiss(s: string, words: seq<string>, i: nat)
    requires WordList(words) && i <= |s|
    requires forall p :: i <= p <= |s| ==> !AnyAt(s, words, p)
    ensures FindWordsFrom(s, words, i) == []
    decreases |s| - i
  {
    if i < |s| {
      FirstWordAtFinds(s, words, i);
      FindWordsFromMiss(s, words, i + 1);
    }
  }

  /** `find_words` finds nothing exactly when no word occurs anywhere in the
      text, ignoring case. */
  lemma FindWordsEmpty(s: string, words: seq<string>)
    requires WordList(words)
    ensures FindWords(s, words) == [] <==> forall p :: 0 <= p <= |s| ==> !AnyAt(s, words, p)
  {
    if exists p :: 0 <= p <= |s| && AnyAt(s, words, p) {
      var p :| 0 <= p <= |s| && AnyAt(s, words, p);
      FindWordsFromHit(s, words, 0, p);
    } else {
      FindWordsFromMiss(s, words, 0);
    }
  }

  /** The length of the longest word (0 for none). */
  function MaxLen(words: seq<string>): (n: nat)
    ensures forall j :: 0 <= j < |words| ==> |words[j]| <= n
    ensures words != [] ==> exists j :: 0 <= j < |words| && |words[j]| == n
  {
    if words == [] then 0
    else
      var m := MaxLen(words[1..]);
      assert forall j :: 1 <= j < |words| ==> words[j] == words[1..][j - 1];
      if |words[0]| >= m then |words[0]| else m
  }

  /** Two occurrences at or after `i`, the second at least the longest word's
      length after the first, give the search at least two hits: whichever word
      the search takes first, it resumes at or before the second occurrence. */
  lemma TwoOccurrencesFrom(s: string, words: seq<string>, i: nat, p: nat, q: nat)
    requires WordList(words) && i <= p && p + MaxLen(words) <= q <= |s|
    requires AnyAt(s, words, p) && AnyAt(s, words, q)
    ensures |FindWordsFrom(s, words, i)| >= 2
  {
    var k, j := FirstTaken(s, words, i, p);
    SearchTakes(s, words, k, j);
    assert |words[j]| <= MaxLen(words);
    FindWordsFromHit(s, words, k + |words[j]|, q);
  }

  /** With an occurrence at `p`, the search from `i` takes its first word, `j`,
      at some `k` no later than `p`, with nothing found before. */
  lemma {:induction false} FirstTaken(s: string, words: seq<string>, i: nat, p: nat) returns (k: nat, j: nat)
    requires WordList(words) && i <= p <= |s| && AnyAt(s, words, p)
    ensures i <= k <= p && k < |s| && FirstWordAt(s, words, k, 0) == Some(j)
    ensures |FindWordsFrom(s, words, i)| == |FindWordsFrom(s, words, k)|
    decreases p - i
  {
    var w := FirstWordAt(s, words, i, 0);
    if w.None? {
      assert i != p;
      k, j := FirstTaken(s, words, i + 1, p);
      SearchSkips(s, words, i);
    } else {
      assert i < |s|;
      k, j := i, w.value;
    }
  }

  /** Where no word fits, the search moves one character on. */
  lemma SearchSkips(s: string, words: seq<string>, p: nat)
    requires WordList(words) && p < |s| && FirstWordAt(s, words, p, 0).None?
    ensures |FindWordsFrom(s, words, p)| == |FindWordsFrom(s, words, p + 1)|
  {
  }

  /** Where word `j` is taken, the search adds one match and goes on after it. */
  lemma SearchTakes(s: string, words: seq<string>, p: nat, j: nat)
    requires WordList(words) && p < |s| && FirstWordAt(s, words, p, 0) == Some(j)
    ensures p + |words[j]| <= |s|
    ensures |FindWordsFrom(s, words, p)| == 1 + |FindWordsFrom(s, words, p + |words[j]|)|
    ensures FindWordsFrom(s, words, p)[0] == s[p..p + |words[j]|]
  {
  }

  /** `find_category`: a value only when the search finds exactly one
      occurrence in total. The value is spelled as in the text and equals a
      label only ignoring case. */
  function FindCategory(s: string, labels: seq<string>): (r: Option<string>)
    requires Literals(labels)
    ensures r.Some? && labels != [] ==> |r.value| > 0 && IsLabel(r.value, labels) && SubstringFrom(r.value, s, 0)
    ensures r.Some? && labels == [] ==> r.value == ""
    ensures r.Some? <==> |FindWords(s, labels)| == 1
  {
    var found := FindWords(s, labels);
    if |found| == 1 then Some(found[0]) else None
  }

  /** No label in the text: no category. */
  lemma NoLabelNoCategory(s: string, labels: seq<string>)
    requires WordList(labels)
    requires forall p :: 0 <= p <= |s| ==> !AnyAt(s, labels, p)
    ensures FindCategory(s, labels).None?
  {
    FindWordsEmpty(s, labels);
  }

  /** With nothing occurring from `i` up to `p`, the search from `i` reaches
      `p` without a match. */
  lemma {:induction false} SearchSkipsTo(s: string, words: seq<string>, i: nat, p: nat)
    requires WordList(words) && i <= p <= |s|
    requires forall q :: i <= q < p ==> !AnyAt(s, words, q)
    ensures FindWordsFrom(s, words, i) == FindWordsFrom(s, words, p)
    decreases p - i
  {
    if i < p {
      FirstWordAtFinds(s, words, i);
      SearchSkipsTo(s, words, i + 1, p);
    }
  }

  /** A single label occurrence in the whole text is the category, spelled as
      in the text and as long as the first label that fits there. */
  lemma OneOccurrenceIsTheCategory(s: string, labels: seq<string>, p: nat)
    requires WordList(labels) && p <= |s| && AnyAt(s, labels, p)
    requires forall q :: 0 <= q <= |s| && q != p ==> !AnyAt(s, labels, q)
    ensures FindCategory(s, labels) == Some(s[p..p + |labels[FirstWordAt(s, labels, p, 0).value]|])
  {
    var j := FirstWordIndex(s, labels, p);
    SearchSkipsTo(s, labels, 0, p);
    var k := SearchTakesUpTo(s, labels, p, j);
    FindWordsFromMiss(s, labels, k);
    SingleTakeIsTheCategory(s, labels, p, j, k);
  }

  /** The index of the word the alternation takes where some word occurs. */
  lemma FirstWordIndex(s: string, words: seq<string>, p: nat) returns (j: nat)
    requires AnyAt(s, words, p)
    ensures FirstWordAt(s, words, p, 0) == Some(j)
    ensures j < |words| && OccursAtIgnoringCase(s, words[j], p)
  {
    FirstWordAtFinds(s, words, p);
    j := FirstWordAt(s, words, p, 0).value;
  }

  /** `SearchTakes`, naming the position where the search goes on. */
  lemma SearchTakesUpTo(s: string, words: seq<string>, p: nat, j: nat) returns (k: nat)
    requires WordList(words) && p < |s| && FirstWordAt(s, words, p, 0) == Some(j)
    ensures k == p + |words[j]| && p < k <= |s|
    ensures |FindWordsFrom(s, words, p)| == 1 + |FindWordsFrom(s, words, k)|
    ensures FindWordsFrom(s, words, p)[0] == s[p..k]
  {
    k := p + |words[j]|;
    assert FindWordsFrom(s, words, p) == [s[p..k]] + FindWordsFrom(s, words, k);
  }

  lemma SingleTakeIsTheCategory(s: string, labels: seq<string>, p: nat, j: nat, k: nat)
    requires WordList(labels) && j < |labels| && k == p + |labels[j]| && p < k <= |s|
    requires FindWordsFrom(s, labels, 0) == FindWordsFrom(s, labels, p)
    requires FindWordsFrom(s, labels, k) == []
    requires |FindWordsFrom(s, labels, p)| == 1 + |FindWordsFrom(s, labels, k)|
    requires FindWordsFrom(s, labels, p)[0] == s[p..k]
    requires FirstWordAt(s, labels, p, 0) == Some(j)
    ensures FindCategory(s, labels) == Some(s[p..p + |labels[FirstWordAt(s, labels, p, 0).value]|])
  {
    CategoryOfSearch(s, labels);
  }

  /** `find_category` reads the search from the start of the text. */
  lemma CategoryOfSearch(s: string, labels: seq<string>)
    requires WordList(labels)
    ensures |FindWordsFrom(s, labels, 0)| == 1 ==> FindCategory(s, labels) == Some(FindWordsFrom(s, labels, 0)[0])
    ensures |FindWordsFrom(s, labels, 0)| != 1 ==> FindCategory(s, labels).None?
  {
  }

  /** Two label occurrences at least the longest label's length apart are two
      matches, so they give no category, whether the labels are the same or
      not. Closer occurrences can be read as one match: with the labels
      `BriefBrief` and `Brief`, the text `BriefBrief` is a single match. */
  lemma TwoOccurrencesNoCategory(s: string, labels: seq<string>, p: nat, q: nat)
    requires WordList(labels) && p + MaxLen(labels) <= q <= |s|
    requires AnyAt(s, labels, p) && AnyAt(s, labels, q)
    ensures FindCategory(s, labels).None?
  {
    TwoOccurrencesFrom(s, labels, 0, p, q);
  }

  /** Two different labels in the text, far enough apart, give no category. */
  lemma TwoLabelsNoCategory(s: string, labels: seq<string>, a: nat, b: nat, p: nat, q: nat)
    requires WordList(labels) && a < |labels| && b < |labels| && p + MaxLen(labels) <= q
    requires OccursAtIgnoringCase(s, labels[a], p) && OccursAtIgnoringCase(s, labels[b], q)
    ensures FindCategory(s, labels).None?
  {
    TwoOccurrencesNoCategory(s, labels, p, q);
  }

  /** With one label, two non-overlapping occurrences of it give no category. */
  lemma SameLabelTwiceNoCategory(s: string, word: string, p: nat, q: nat)
    requires WordList([word]) && p + |word| <= q
    requires OccursAtIgnoringCase(s, word, p) && OccursAtIgnoringCase(s, word, q)
    ensures FindCategory(s, [word]).None?
  {
    assert [word][0] == word;
    assert MaxLen([word]) == |word|;
    TwoOccurrencesNoCategory(s, [word], p, q);
  }

  /** Overlapping labels: `BriefBrief` holds `Brief` twice, but the search
      takes the longer label listed first and finds a single match. */
  lemma NestedLabelsOneMatch()
    ensures FindCategory("BriefBrief", ["BriefBrief", "Brief"]) == Some("BriefBrief")
  {
    var s, words := "BriefBrief", ["BriefBrief", "Brief"];
    assert WordList(words) by {
      assert IsRegexLiteral("BriefBrief") && IsRegexLiteral("Brief");
    }
    assert OccursAtIgnoringCase(s, words[0], 0) by {
      assert s[0..10] == s == words[0];
      EqualsIgnoringCaseReflexive(s);
    }
    assert FirstWordAt(s, words, 0, 0) == Some(0);
    assert FindWordsFrom(s, words, 0) == [s[0..10]] + FindWordsFrom(s, words, 10);
    assert s[0..10] == s;
  }

  /** The category keeps the text's casing: `BRIEF` against the label `Brief`
      comes back as `BRIEF`. */
  lemma CategoryKeepsTextCasing()
    ensures FindCategory("BRIEF", ["Brief"]) == Some("BRIEF")
  {
    var s, words := "BRIEF", ["Brief"];
    assert WordList(words) by { assert IsRegexLiteral("Brief"); }
    assert OccursAtIgnoringCase(s, words[0], 0) by {
      assert s[0..5] == s;
    }
    assert FindWordsFrom(s, words, 5) == [];
    assert FindWordsFrom(s, words, 0) == [s];
  }

  // Distinct names, in order of first appearance (Python's `set`).

  predicate NoDuplicates(xs: seq<string>) {
    forall i, j :: 0 <= i < j < |xs| ==> xs[i] != xs[j]
  }

  function Distinct(xs: seq<string>): (d: seq<string>)
    ensures NoDuplicates(d)
    ensures forall x :: x in d <==> x in xs
    ensures |d| <= |xs|
  {
    if xs == [] then []
    else
      var rest := Distinct(xs[..|xs| - 1]);
      var x := xs[|xs| - 1];
      assert xs == xs[..|xs| - 1] + [x];
      if x in rest then rest else rest + [x]
  }

  /** A non-empty list of copies of one name has one distinct name. */
  lemma {:induction false} DistinctOfCopies(xs: seq<string>, w: string)
    requires w in xs && forall i :: 0 <= i < |xs| ==> xs[i] == w
    ensures Distinct(xs) == [w]
    decreases |xs|
  {
    var init := xs[..|xs| - 1];
    if init != [] {
      assert init[0] == w;
      DistinctOfCopies(init, w);
    }
  }

  // Sorting (Python's `sorted` on `str`) by insertion.

  predicate StrictlySorted(xs: seq<string>) {
    forall i, j :: 0 <= i < j < |xs| ==> Less(xs[i], xs[j])
  }

  function Insert(x: string, ys: seq<string>): (r: seq<string>)
    requires StrictlySorted(ys) && x !in ys
    ensures StrictlySorted(r)
    ensures forall z :: z in r <==> z == x || z in ys
    ensures |r| == |ys| + 1
  {
    if ys == [] then [x]
    else if Less(x, ys[0]) then
      assert forall j :: 0 < j < |ys| ==> Less(x, ys[j]) by {
        forall j | 0 < j < |ys| ensures Less(x, ys[j]) { LessTransitive(x, ys[0], ys[j]); }
      }
      [x] + ys
    else
      LessTotal(x, ys[0]);
      var tail := Insert(x, ys[1..]);
      assert forall z :: z in tail ==> Less(ys[0], z);
      [ys[0]] + tail
  }

  function Sort(xs: seq<string>): (r: seq<string>)
    requires NoDuplicates(xs)
    ensures StrictlySorted(r)
    ensures forall z :: z in r <==> z in xs
    ensures |r| == |xs|
  {
    if xs == [] then []
    else
      assert xs[0] !in xs[1..];
      Insert(xs[0], Sort(xs[1..]))
  }

  /** Two strictly sorted lists of the same names are the same list, so the
      sorted list depends only on which names there are. */
  lemma {:induction false} SortedUnique(a: seq<string>, b: seq<string>)
    requires StrictlySorted(a) && StrictlySorted(b)
    requires forall x :: x in a <==> x in b
    ensures a == b
    decreases |a|
  {
    assert a != [] ==> a[0] in b;
    assert b != [] ==> b[0] in a;
    if a != [] {
      var k :| 0 <= k < |b| && b[k] == a[0];
      var m :| 0 <= m < |a| && a[m] == b[0];
      if k > 0 {
        if m > 0 {
          LessTransitive(a[0], b[0], a[0]);
        }
        LessIrreflexive(a[0]);
        assert false;
      }
      forall x ensures x in a[1..] <==> x in b[1..] {
        if x in a[1..] {
          var i :| 1 <= i < |a| && a[i] == x;
          assert Less(a[0], x);
          LessIrreflexive(x);
          assert x in b && x != b[0];
        }
        if x in b[1..] {
          var i :| 1 <= i < |b| && b[i] == x;
          assert Less(b[0], x);
          LessIrreflexive(x);
          assert x in a && x != a[0];
        }
      }
      SortedUnique(a[1..], b[1..]);
      assert a == [a[0]] + a[1..] && b == [b[0]] + b[1..];
    }
  }

  /** `match[:2].lower().capitalize()` */
  function Abbrev(m: string): (r: string)
    ensures |r| == if |m| < 2 then |m| else 2
    ensures |m| >= 2 ==> r == [Upper(Lower(m[0])), Lower(m[1])]
    ensures |m| == 1 ==> r == [Upper(Lower(m[0]))]
  {
    var head := m[..if |m| < 2 then |m| else 2];
    Capitalize(LowerAll(head))
  }

  /** The abbreviations of the names, concatenated in list order. */
  function Abbreviations(xs: seq<string>): (r: string)
    ensures |r| <= 2 * |xs|
  {
    if xs == [] then "" else Abbreviations(xs[..|xs| - 1]) + Abbrev(xs[|xs| - 1])
  }

  lemma AbbreviationsSnoc(xs: seq<string>, i: nat)
    requires i < |xs|
    ensures Abbreviations(xs[..i + 1]) == Abbreviations(xs[..i]) + Abbrev(xs[i])
  {
    assert xs[..i + 1][..i] == xs[..i];
  }

  /** `get_name_part` on the list of names found: one distinct name is returned
      as found; otherwise the abbreviations of the distinct names in sorted
      order (none at all gives the empty string). */
  function NamePart(matches: seq<string>): (r: string)
    ensures matches == [] ==> r == ""
  {
    var d := Distinct(matches);
    if |d| == 1 then d[0] else Abbreviations(Sort(d))
  }

  /** One distinct name, however often and wherever found, comes back verbatim. */
  lemma NamePartSingle(matches: seq<string>, w: string)
    requires w in matches && forall i :: 0 <= i < |matches| ==> matches[i] == w
    ensures NamePart(matches) == w
  {
    DistinctOfCopies(matches, w);
  }

  /** Several distinct names give the abbreviations of those names in sorted
      order, whichever sorted listing of them is taken, at most two characters
      per name. */
  lemma NamePartSeveral(matches: seq<string>)
    requires |Distinct(matches)| >= 2
    ensures NamePart(matches) == Abbreviations(Sort(Distinct(matches)))
    ensures |NamePart(matches)| <= 2 * |Distinct(matches)|
    ensures forall s :: StrictlySorted(s) && (forall x :: x in s <==> x in matches) ==>
      NamePart(matches) == Abbreviations(s)
  {
    forall s | StrictlySorted(s) && (forall x :: x in s <==> x in matches)
      ensures NamePart(matches) == Abbreviations(s)
    {
      SortedUnique(s, Sort(Distinct(matches)));
    }
  }

  /** The tag depends only on which names were found, not on how often or in
      what order they appear in the text. */
  lemma NamePartOrderIndependent(m1: seq<string>, m2: seq<string>)
    requires forall x :: x in m1 <==> x in m2
    ensures NamePart(m1) == NamePart(m2)
  {
    var d1, d2 := Distinct(m1), Distinct(m2);
    SortedUnique(Sort(d1), Sort(d2));
    if |d1| == 1 {
      assert Sort(d1)[0] in d1 && Sort(d2)[0] in d2;
    }
  }

  /** Without configured names the search yields only empty strings, one
      distinct name, so the tag is empty. */
  lemma NoNamesNoTag(text: string)
    ensures NamePart(FindWords(text, [])) == ""
  {
    var found := FindWords(text, []);
    assert found[0] == "";
    DistinctOfCopies(found, "");
  }

  /** `get_name_part`, with its loop over the sorted names. */
  method GetNamePart(text: string, nameList: seq<string>) returns (result: string)
    requires Literals(nameList)
    ensures result == NamePart(FindWords(text, nameList))
  {
    var matches := FindWords(text, nameList);
    var names := Distinct(matches);
    if |names| == 1 {
      return names[0];
    }
    result := "";
    var sorted := Sort(names);
    for i := 0 to |sorted|
      invariant result == Abbreviations(sorted[..i])
    {
      AbbreviationsSnoc(sorted, i);
      result := result + Abbrev(sorted[i]);
    }
    assert sorted[..|sorted|] == sorted;
  }
}
