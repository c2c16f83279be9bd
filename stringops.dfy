/** The Python string and `re` operations the document-identity logic relies on,
    stated for the literal (metacharacter-free) patterns it uses. Case-insensitive
    comparison is ASCII case folding. */
module StringOps {

  /** Characters for which Python's `str.isspace()` holds; `\s` in a `str` pattern
      and the argument-less `str.strip()` use the same set. */
  predicate IsSpace(c: char) {
    ('\t' <= c <= '\r') || ('\U{1C}' <= c <= ' ') || c == '\U{85}' || c == '\U{A0}'
    || c == '\U{1680}' || ('\U{2000}' <= c <= '\U{200A}') || c == '\U{2028}'
    || c == '\U{2029}' || c == '\U{202F}' || c == '\U{205F}' || c == '\U{3000}'
  }

  function Lower(c: char): (r: char)
    ensures 'A' <= c <= 'Z' ==> 'a' <= r <= 'z'
    ensures !('A' <= c <= 'Z') ==> r == c
  {
    if 'A' <= c <= 'Z' then (c as int + 32) as char else c
  }

  function Upper(c: char): (r: char)
    ensures 'a' <= c <= 'z' ==> 'A' <= r <= 'Z'
    ensures !('a' <= c <= 'z') ==> r == c
  {
    if 'a' <= c <= 'z' then (c as int - 32) as char else c
  }

  /** `str.lower()` */
  function LowerAll(s: string): (r: string)
    ensures |r| == |s|
    ensures forall i :: 0 <= i < |s| ==> r[i] == Lower(s[i])
  {
    if s == [] then [] else [Lower(s[0])] + LowerAll(s[1..])
  }

  /** `str.capitalize()`: first character upper case, the rest lower case. */
  function Capitalize(s: string): (r: string)
    ensures |r| == |s|
    ensures |s| > 0 ==> r[0] == Upper(s[0]) && r[1..] == LowerAll(s[1..])
  {
    if s == [] then [] else [Upper(s[0])] + LowerAll(s[1..])
  }

  /** `a.lower() == b.lower()` for ASCII case folding, one character at a time. */
  predicate EqualsIgnoringCase(a: string, b: string)
    decreases |a|
  {
    |a| == |b| && (a == [] || (Lower(a[0]) == Lower(b[0]) && EqualsIgnoringCase(a[1..], b[1..])))
  }

  /** The comparison holds exactly when the lengths agree and so does every
      character after folding. */
  lemma {:induction false} EqualsIgnoringCaseReflexive(a: string)
    ensures EqualsIgnoringCase(a, a)
    decreases |a|
  {
    if a != [] {
      EqualsIgnoringCaseReflexive(a[1..]);
    }
  }

  lemma {:induction false} EqualsIgnoringCasePointwise(a: string, b: string)
    ensures EqualsIgnoringCase(a, b) <==> |a| == |b| && forall i :: 0 <= i < |a| ==> Lower(a[i]) == Lower(b[i])
    decreases |a|
  {
    if |a| == |b| && a != [] {
      EqualsIgnoringCasePointwise(a[1..], b[1..]);
      assert forall i :: 1 <= i < |a| ==> a[1..][i - 1] == a[i] && b[1..][i - 1] == b[i];
    }
  }

  /** `pat` occurs (ignoring case) in `s` starting at `i`. */
  predicate OccursAtIgnoringCase(s: string, pat: string, i: nat) {
    i + |pat| <= |s| && EqualsIgnoringCase(s[i..i + |pat|], pat)
  }

  predicate OccursIgnoringCase(s: string, pat: string) {
    exists i: nat | i <= |s| :: OccursAtIgnoringCase(s, pat, i)
  }

  predicate OccursAt(s: string, pat: string, i: nat) {
    i + |pat| <= |s| && s[i..i + |pat|] == pat
  }

  /** `pat in s` */
  predicate Occurs(s: string, pat: string) {
    exists i: nat | i <= |s| :: OccursAt(s, pat, i)
  }

  /** `s.count(c)` for a single character. */
  function Count(s: string, c: char): (n: nat)
    ensures n <= |s|
    ensures n == 0 <==> c !in s
  {
    if s == [] then 0 else (if s[0] == c then 1 else 0) + Count(s[1..], c)
  }

  lemma {:induction false} CountAppend(a: string, b: string, c: char)
    ensures Count(a + b, c) == Count(a, c) + Count(b, c)
  {
    if a == [] {
      assert a + b == b;
    } else {
      assert (a + b)[1..] == a[1..] + b;
      CountAppend(a[1..], b, c);
    }
  }

  /** The `c`s of `s` are those before `k` and those from `k` on. */
  lemma CountSplit(s: string, k: nat, c: char)
    requires k <= |s|
    ensures Count(s, c) == Count(s[..k], c) + Count(s[k..], c)
  {
    assert s == s[..k] + s[k..];
    CountAppend(s[..k], s[k..], c);
  }

  /** The characters of `r` are characters of `s` or of `rep`. */
  ghost predicate CharsFrom(r: string, s: string, rep: string) {
    forall x :: x in r ==> x in s || x in rep
  }

  /** An occurrence in `s[1..]` is an occurrence in `s`, one position later. */
  lemma OccursInTail(s: string, pat: string)
    requires s != []
    ensures Occurs(s[1..], pat) ==> Occurs(s, pat)
    ensures OccursIgnoringCase(s[1..], pat) ==> OccursIgnoringCase(s, pat)
  {
    if Occurs(s[1..], pat) {
      var i: nat :| i <= |s[1..]| && OccursAt(s[1..], pat, i);
      assert s[i + 1..i + 1 + |pat|] == s[1..][i..i + |pat|];
      assert OccursAt(s, pat, i + 1);
    }
    if OccursIgnoringCase(s[1..], pat) {
      var i: nat :| i <= |s[1..]| && OccursAtIgnoringCase(s[1..], pat, i);
      OccursAtIgnoringCaseTail(s, pat, i);
    }
  }

  /** An occurrence at `i` in `s[1..]` is one at `i + 1` in `s`, and back. */
  lemma OccursAtIgnoringCaseTail(s: string, pat: string, i: nat)
    requires s != []
    ensures OccursAtIgnoringCase(s[1..], pat, i) <==> OccursAtIgnoringCase(s, pat, i + 1)
  {
    if i + 1 + |pat| <= |s| {
      assert s[i + 1..i + 1 + |pat|] == s[1..][i..i + |pat|];
    }
  }

  lemma OccursAtTail(s: string, pat: string, i: nat)
    requires s != []
    ensures OccursAt(s[1..], pat, i) <==> OccursAt(s, pat, i + 1)
  {
    if i + 1 + |pat| <= |s| {
      assert s[i + 1..i + 1 + |pat|] == s[1..][i..i + |pat|];
    }
  }

  /** A character that is absent gives no one-character occurrence. */
  lemma AbsentCharNoOccurrence(s: string, c: char)
    ensures c !in s ==> !Occurs(s, [c])
  {
    if Occurs(s, [c]) {
      var i: nat :| i <= |s| && OccursAt(s, [c], i);
      assert s[i] == c by { assert s[i..i + 1] == [c]; }
    }
  }

  /** One left-to-right pass of `s.replace(pat, rep)`: every non-overlapping
      occurrence of `pat`, leftmost first, becomes `rep`. */
  function ReplaceAll(s: string, pat: string, rep: string): (r: string)
    requires |pat| > 0
    ensures |rep| <= |pat| ==> |r| <= |s|
    ensures |rep| == |pat| ==> |r| == |s|
    ensures CharsFrom(r, s, rep)
    ensures !Occurs(s, pat) ==> r == s
    decreases |s|
  {
    if |s| < |pat| then s
    else if s[..|pat|] == pat then
      var tail := ReplaceAll(s[|pat|..], pat, rep);
      assert !Occurs(s, pat) ==> false by {
        assert OccursAt(s, pat, 0);
      }
      rep + tail
    else
      var tail := ReplaceAll(s[1..], pat, rep);
      OccursInTail(s, pat);
      [s[0]] + tail
  }

  /** The first occurrence of `pat`, at `i`, becomes `rep`: what comes before
      it is kept and the pass goes on right after it. */
  lemma ReplaceAllAtFirst(s: string, pat: string, rep: string, i: nat)
    requires |pat| > 0 && OccursAt(s, pat, i)
    requires forall j :: 0 <= j < i ==> !OccursAt(s, pat, j)
    ensures ReplaceAll(s, pat, rep) == s[..i] + (rep + ReplaceAll(s[i + |pat|..], pat, rep))
  {
    FirstAtFromAll(s, pat, i);
    ReplaceAllAfterFirst(s, pat, rep, i);
  }

  /** The first occurrence of `pat` in `s` starts at `i`, read one position
      at a time as the pass reads it. */
  predicate FirstAt(s: string, pat: string, i: nat)
    decreases i
  {
    if i == 0 then |pat| <= |s| && s[..|pat|] == pat
    else |pat| <= |s| && s != [] && s[..|pat|] != pat && FirstAt(s[1..], pat, i - 1)
  }

  lemma {:induction false} FirstAtFromAll(s: string, pat: string, i: nat)
    requires OccursAt(s, pat, i)
    requires forall j :: 0 <= j < i ==> !OccursAt(s, pat, j)
    ensures FirstAt(s, pat, i)
    decreases i
  {
    assert s[..|pat|] == s[0..|pat|];
    if i > 0 {
      assert !OccursAt(s, pat, 0);
      forall j | 0 <= j < i - 1
        ensures !OccursAt(s[1..], pat, j)
      {
        OccursAtTail(s, pat, j);
      }
      OccursAtTail(s, pat, i - 1);
      FirstAtFromAll(s[1..], pat, i - 1);
    }
  }

  lemma {:induction false} ReplaceAllAfterFirst(s: string, pat: string, rep: string, i: nat)
    requires |pat| > 0 && i + |pat| <= |s| && FirstAt(s, pat, i)
    ensures ReplaceAll(s, pat, rep) == s[..i] + (rep + ReplaceAll(s[i + |pat|..], pat, rep))
    decreases i
  {
    if i == 0 {
      ReplaceAllTake(s, pat, rep);
    } else {
      var j := i - 1;
      ReplaceAllAfterFirst(s[1..], pat, rep, j);
      ReplaceAllStep(s, pat, rep, i, j);
    }
  }

  /** One step of the pass where `pat` matches at the front. */
  lemma ReplaceAllTake(s: string, pat: string, rep: string)
    requires 0 < |pat| <= |s| && s[..|pat|] == pat
    ensures ReplaceAll(s, pat, rep) == s[..0] + (rep + ReplaceAll(s[0 + |pat|..], pat, rep))
  {
    var after := rep + ReplaceAll(s[|pat|..], pat, rep);
    assert ReplaceAll(s, pat, rep) == after;
    assert s[..0] + after == after;
  }

  /** The inductive step of `ReplaceAllAfterFirst`: a character in front of
      the first occurrence is copied. */
  lemma ReplaceAllStep(s: string, pat: string, rep: string, i: nat, j: nat)
    requires |pat| > 0 && i == j + 1 && i + |pat| <= |s| && s[..|pat|] != pat
    requires ReplaceAll(s[1..], pat, rep) == s[1..][..j] + (rep + ReplaceAll(s[1..][j + |pat|..], pat, rep))
    ensures ReplaceAll(s, pat, rep) == s[..i] + (rep + ReplaceAll(s[i + |pat|..], pat, rep))
  {
    ReplaceAllSkip(s, pat, rep);
    ReplaceAllDrop(s, pat, rep, i, j);
    ConsChain(ReplaceAll(s, pat, rep), ReplaceAll(s[1..], pat, rep), s, i, j,
              rep + ReplaceAll(s[i + |pat|..], pat, rep));
  }

  /** One step of the pass where `pat` does not match at the front. */
  lemma ReplaceAllSkip(s: string, pat: string, rep: string)
    requires 0 < |pat| <= |s| && s[..|pat|] != pat
    ensures ReplaceAll(s, pat, rep) == [s[0]] + ReplaceAll(s[1..], pat, rep)
  {
  }

  lemma ReplaceAllDrop(s: string, pat: string, rep: string, i: nat, j: nat)
    requires |pat| > 0 && i == j + 1 && i + |pat| <= |s|
    ensures ReplaceAll(s[1..][j + |pat|..], pat, rep) == ReplaceAll(s[i + |pat|..], pat, rep)
  {
    assert s[1..][j + |pat|..] == s[i + |pat|..];
  }

  /** Equational step shared by the first-occurrence lemmas. */
  lemma ConsChain(whole: string, tail: string, s: string, i: nat, j: nat, rest: string)
    requires i == j + 1 && i <= |s|
    requires whole == [s[0]] + tail && tail == s[1..][..j] + rest
    ensures whole == s[..i] + rest
  {
    assert [s[0]] + s[1..][..j] == s[..i];
  }

  /** Replacing by something shorter shortens a string holding the pattern. */
  lemma {:induction false} ReplaceAllShortens(s: string, pat: string, rep: string)
    requires |rep| < |pat| && Occurs(s, pat)
    ensures |ReplaceAll(s, pat, rep)| < |s|
    decreases |s|
  {
    var i: nat :| i <= |s| && OccursAt(s, pat, i);
    if s[..|pat|] != pat {
      assert i != 0 by {
        assert s[..|pat|] == s[0..|pat|];
      }
      OccursAtTail(s, pat, i - 1);
      ReplaceAllShortens(s[1..], pat, rep);
    }
  }

  /** Each `c` of `s` replaced by `rep`, one character at a time. */
  function SubstChar(s: string, c: char, rep: string): string {
    if s == [] then [] else (if s[0] == c then rep else [s[0]]) + SubstChar(s[1..], c, rep)
  }

  /** Replacing a one-character pattern is replacing each of its occurrences. */
  lemma {:induction false} ReplaceCharIsSubst(s: string, c: char, rep: string)
    ensures ReplaceAll(s, [c], rep) == SubstChar(s, c, rep)
    decreases |s|
  {
    if s != [] {
      assert s[..1] == [s[0]];
      ReplaceCharIsSubst(s[1..], c, rep);
    }
  }

  lemma {:induction false} SubstCharAppend(a: string, b: string, c: char, rep: string)
    ensures SubstChar(a + b, c, rep) == SubstChar(a, c, rep) + SubstChar(b, c, rep)
    decreases |a|
  {
    if a != [] {
      assert (a + b)[0] == a[0] && (a + b)[1..] == a[1..] + b;
      SubstCharAppend(a[1..], b, c, rep);
    } else {
      assert a + b == b;
    }
  }

  /** Replacing a pattern that holds neither `c` nor a `c`-containing replacement
      keeps the number of `c`s. */
  lemma {:induction false} ReplaceAllKeepsCount(s: string, pat: string, rep: string, c: char)
    requires |pat| > 0 && c !in pat && c !in rep
    ensures Count(ReplaceAll(s, pat, rep), c) == Count(s, c)
    decreases |s|
  {
    if |s| < |pat| {
    } else if s[..|pat|] == pat {
      ReplaceAllKeepsCount(s[|pat|..], pat, rep, c);
      CountAppend(rep, ReplaceAll(s[|pat|..], pat, rep), c);
      assert s == s[..|pat|] + s[|pat|..];
      CountAppend(s[..|pat|], s[|pat|..], c);
      assert Count(rep, c) == 0 && Count(pat, c) == 0;
    } else {
      ReplaceAllKeepsCount(s[1..], pat, rep, c);
      CountAppend([s[0]], ReplaceAll(s[1..], pat, rep), c);
    }
  }

  /** Replacing every occurrence of one character by a replacement without it
      leaves no such character. */
  lemma {:induction false} ReplaceCharRemovesIt(s: string, c: char, rep: string)
    requires c !in rep
    ensures c !in ReplaceAll(s, [c], rep)
    decreases |s|
  {
    if |s| < 1 {
    } else if s[..1] == [c] {
      ReplaceCharRemovesIt(s[1..], c, rep);
    } else {
      assert s[0] != c by { assert s[..1] == [s[0]]; }
      ReplaceCharRemovesIt(s[1..], c, rep);
    }
  }

  /** Deleting a character that occurs `k` times shortens the string by `k`. */
  lemma {:induction false} DeleteCharLength(s: string, c: char)
    ensures |ReplaceAll(s, [c], "")| == |s| - Count(s, c)
    decreases |s|
  {
    if |s| < 1 {
    } else if s[..1] == [c] {
      DeleteCharLength(s[1..], c);
    } else {
      assert s[0] != c by { assert s[..1] == [s[0]]; }
      DeleteCharLength(s[1..], c);
    }
  }

  /** One pass of `re.sub(pat, "", s, flags=re.IGNORECASE)` for a pattern without
      metacharacters: every non-overlapping occurrence, leftmost first and ignoring
      case, is deleted. The empty pattern matches only empty strings, so deleting
      it changes nothing. */
  function RemoveAllIgnoringCase(s: string, pat: string): (r: string)
    ensures |r| <= |s|
    ensures CharsFrom(r, s, "")
    ensures !OccursIgnoringCase(s, pat) ==> r == s
    decreases |s|
  {
    if pat == [] || |s| < |pat| then s
    else if EqualsIgnoringCase(s[..|pat|], pat) then
      var tail := RemoveAllIgnoringCase(s[|pat|..], pat);
      assert !OccursIgnoringCase(s, pat) ==> false by {
        assert s[0..|pat|] == s[..|pat|];
        assert OccursAtIgnoringCase(s, pat, 0);
      }
      tail
    else
      var tail := RemoveAllIgnoringCase(s[1..], pat);
      OccursInTail(s, pat);
      [s[0]] + tail
  }

  lemma NoCharInMatch(m: string, pat: string, c: char)
    requires EqualsIgnoringCase(m, pat)
    requires forall i :: 0 <= i < |pat| ==> Lower(pat[i]) != Lower(c)
    ensures Count(m, c) == 0
  {
  }

  /** The first occurrence of `pat` ignoring case, at `i`, is deleted: what
      comes before it is kept and the pass goes on right after it. */
  lemma RemoveAllAtFirst(s: string, pat: string, i: nat)
    requires |pat| > 0 && OccursAtIgnoringCase(s, pat, i)
    requires forall j :: 0 <= j < i ==> !OccursAtIgnoringCase(s, pat, j)
    ensures RemoveAllIgnoringCase(s, pat) == s[..i] + RemoveAllIgnoringCase(s[i + |pat|..], pat)
  {
    FirstAtIgnoringCaseFromAll(s, pat, i);
    RemoveAllAfterFirst(s, pat, i);
  }

  /** The first occurrence of `pat` in `s`, ignoring case, starts at `i`,
      read one position at a time as the pass reads it. */
  predicate FirstAtIgnoringCase(s: string, pat: string, i: nat)
    decreases i
  {
    if i == 0 then |pat| <= |s| && EqualsIgnoringCase(s[..|pat|], pat)
    else |pat| <= |s| && s != [] && !EqualsIgnoringCase(s[..|pat|], pat)
         && FirstAtIgnoringCase(s[1..], pat, i - 1)
  }

  lemma {:induction false} FirstAtIgnoringCaseFromAll(s: string, pat: string, i: nat)
    requires OccursAtIgnoringCase(s, pat, i)
    requires forall j :: 0 <= j < i ==> !OccursAtIgnoringCase(s, pat, j)
    ensures FirstAtIgnoringCase(s, pat, i)
    decreases i
  {
    assert s[..|pat|] == s[0..|pat|];
    if i > 0 {
      assert !OccursAtIgnoringCase(s, pat, 0);
      forall j | 0 <= j < i - 1
        ensures !OccursAtIgnoringCase(s[1..], pat, j)
      {
        OccursAtIgnoringCaseTail(s, pat, j);
      }
      OccursAtIgnoringCaseTail(s, pat, i - 1);
      FirstAtIgnoringCaseFromAll(s[1..], pat, i - 1);
    }
  }

  lemma {:induction false} RemoveAllAfterFirst(s: string, pat: string, i: nat)
    requires |pat| > 0 && i + |pat| <= |s| && FirstAtIgnoringCase(s, pat, i)
    ensures RemoveAllIgnoringCase(s, pat) == s[..i] + RemoveAllIgnoringCase(s[i + |pat|..], pat)
    decreases i
  {
    if i == 0 {
      RemoveAllTake(s, pat);
    } else {
      var j := i - 1;
      RemoveAllAfterFirst(s[1..], pat, j);
      RemoveAllStep(s, pat, i, j);
    }
  }

  /** One step of the deletion pass where `pat` matches at the front. */
  lemma RemoveAllTake(s: string, pat: string)
    requires 0 < |pat| <= |s| && EqualsIgnoringCase(s[..|pat|], pat)
    ensures RemoveAllIgnoringCase(s, pat) == s[..0] + RemoveAllIgnoringCase(s[0 + |pat|..], pat)
  {
    var after := RemoveAllIgnoringCase(s[|pat|..], pat);
    assert RemoveAllIgnoringCase(s, pat) == after;
    assert s[..0] + after == after;
  }

  /** The inductive step of `RemoveAllAfterFirst`: a character in front of
      the first occurrence is copied. */
  lemma RemoveAllStep(s: string, pat: string, i: nat, j: nat)
    requires |pat| > 0 && i == j + 1 && i + |pat| <= |s| && !EqualsIgnoringCase(s[..|pat|], pat)
    requires RemoveAllIgnoringCase(s[1..], pat) == s[1..][..j] + RemoveAllIgnoringCase(s[1..][j + |pat|..], pat)
    ensures RemoveAllIgnoringCase(s, pat) == s[..i] + RemoveAllIgnoringCase(s[i + |pat|..], pat)
  {
    RemoveAllSkip(s, pat);
    RemoveAllDrop(s, pat, i, j);
    ConsChain(RemoveAllIgnoringCase(s, pat), RemoveAllIgnoringCase(s[1..], pat), s, i, j,
              RemoveAllIgnoringCase(s[i + |pat|..], pat));
  }

  /** One step of the deletion pass where `pat` does not match at the front. */
  lemma RemoveAllSkip(s: string, pat: string)
    requires 0 < |pat| <= |s| && !EqualsIgnoringCase(s[..|pat|], pat)
    ensures RemoveAllIgnoringCase(s, pat) == [s[0]] + RemoveAllIgnoringCase(s[1..], pat)
  {
  }

  lemma RemoveAllDrop(s: string, pat: string, i: nat, j: nat)
    requires i == j + 1 && i + |pat| <= |s|
    ensures RemoveAllIgnoringCase(s[1..][j + |pat|..], pat) == RemoveAllIgnoringCase(s[i + |pat|..], pat)
  {
    assert s[1..][j + |pat|..] == s[i + |pat|..];
  }

  /** A character that the pattern cannot match, even ignoring case, survives
      the deletion pass in the same number. */
  lemma {:induction false} RemoveKeepsCount(s: string, pat: string, c: char)
    requires forall i :: 0 <= i < |pat| ==> Lower(pat[i]) != Lower(c)
    ensures Count(RemoveAllIgnoringCase(s, pat), c) == Count(s, c)
    decreases |s|
  {
    if pat == [] || |s| < |pat| {
    } else if EqualsIgnoringCase(s[..|pat|], pat) {
      RemoveKeepsCount(s[|pat|..], pat, c);
      CountSplit(s, |pat|, c);
      NoCharInMatch(s[..|pat|], pat, c);
    } else {
      RemoveKeepsCount(s[1..], pat, c);
      CountCons(s[0], RemoveAllIgnoringCase(s[1..], pat), c);
    }
  }

  lemma CountCons(x: char, t: string, c: char)
    ensures Count([x] + t, c) == (if x == c then 1 else 0) + Count(t, c)
  {
    assert ([x] + t)[1..] == t;
  }

  /** A regular-expression special character of Python's `re`. */
  predicate IsRegexMeta(c: char) {
    c == '.' || c == '^' || c == '$' || c == '*' || c == '+' || c == '?' || c == '{' || c == '}'
    || c == '[' || c == ']' || c == '\\' || c == '|' || c == '(' || c == ')'
  }

  /** A string that `re` reads as itself: it holds no special character. */
  predicate IsRegexLiteral(w: string) {
    forall i :: 0 <= i < |w| ==> !IsRegexMeta(w[i])
  }

  lemma LiteralConcat(a: string, b: string)
    requires IsRegexLiteral(a) && IsRegexLiteral(b)
    ensures IsRegexLiteral(a + b)
  {
    assert forall i :: 0 <= i < |a + b| ==> (a + b)[i] == if i < |a| then a[i] else b[i - |a|];
  }

  /** Number of leading characters of `s` that are white space. */
  function LeadingSpace(s: string): (n: nat)
    ensures n <= |s|
    ensures forall i :: 0 <= i < n ==> IsSpace(s[i])
    ensures n < |s| ==> !IsSpace(s[n])
  {
    if s == [] || !IsSpace(s[0]) then 0 else 1 + LeadingSpace(s[1..])
  }

  /** Number of trailing characters of `s` that are white space. */
  function TrailingSpace(s: string): (n: nat)
    ensures n <= |s|
    ensures forall i :: |s| - n <= i < |s| ==> IsSpace(s[i])
    ensures n < |s| ==> !IsSpace(s[|s| - n - 1])
  {
    if s == [] || !IsSpace(s[|s| - 1]) then 0 else 1 + TrailingSpace(s[..|s| - 1])
  }

  /** `s.strip()` */
  function Strip(s: string): (r: string)
    ensures |r| <= |s|
    ensures r != [] ==> !IsSpace(r[0]) && !IsSpace(r[|r| - 1])
    ensures CharsFrom(r, s, "")
    ensures (s == [] || (!IsSpace(s[0]) && !IsSpace(s[|s| - 1]))) ==> r == s
    ensures exists a, b :: (0 <= a <= b <= |s| && r == s[a..b]
      && (forall i :: 0 <= i < a ==> IsSpace(s[i])) && (forall i :: b <= i < |s| ==> IsSpace(s[i])))
  {
    var lead := LeadingSpace(s);
    var b := |s| - TrailingSpace(s);
    if lead == |s| then
      assert s[lead..lead] == [];
      []
    else
      assert lead < b by {
        assert !IsSpace(s[lead]);
      }
      var r := s[lead..b];
      assert forall x :: x in r ==> x in s by {
        forall x | x in r ensures x in s {
          var i :| 0 <= i < |r| && r[i] == x;
          assert s[lead + i] == x;
        }
      }
      r
  }

  /** Index of the first `c` in `s` (`s.index(c)`). */
  function IndexOf(s: string, c: char): (k: nat)
    requires c in s
    ensures k < |s| && s[k] == c && c !in s[..k]
  {
    if s[0] == c then 0 else 1 + IndexOf(s[1..], c)
  }

  /** Index of the last `c` in `s` (the cut `s.rsplit(c, 1)` makes). */
  function LastIndexOf(s: string, c: char): (k: nat)
    requires c in s
    ensures k < |s| && s[k] == c && c !in s[k + 1..]
  {
    if s[|s| - 1] == c then |s| - 1
    else
      assert c in s[..|s| - 1] by {
        var i :| 0 <= i < |s| && s[i] == c;
        assert s[..|s| - 1][i] == c;
      }
      var k := LastIndexOf(s[..|s| - 1], c);
      assert s[k + 1..] == s[..|s| - 1][k + 1..] + [s[|s| - 1]];
      k
  }

  /** `s.split(sep)` for a one-character separator. */
  function Split(s: string, sep: char): (parts: seq<string>)
    ensures |parts| >= 1
    ensures forall i :: 0 <= i < |parts| ==> sep !in parts[i]
    decreases |s|
  {
    if sep !in s then [s]
    else
      var k := IndexOf(s, sep);
      [s[..k]] + Split(s[k + 1..], sep)
  }

  /** `sep.join(parts)` */
  function Join(parts: seq<string>, sep: char): string
    requires |parts| >= 1
  {
    if |parts| == 1 then parts[0] else parts[0] + [sep] + Join(parts[1..], sep)
  }

  /** Splitting on `sep` gives one more part than there are separators. */
  lemma {:induction false} SplitLength(s: string, sep: char)
    ensures |Split(s, sep)| == Count(s, sep) + 1
    decreases |s|
  {
    if sep in s {
      var k := IndexOf(s, sep);
      SplitLength(s[k + 1..], sep);
      CountSplit(s, k, sep);
      assert s[k..][1..] == s[k + 1..];
    }
  }

  /** Joining the parts with the separator gives back the string. */
  lemma {:induction false} JoinSplit(s: string, sep: char)
    ensures Join(Split(s, sep), sep) == s
    decreases |s|
  {
    if sep in s {
      var k := IndexOf(s, sep);
      JoinSplit(s[k + 1..], sep);
      JoinCons(s[..k], Split(s[k + 1..], sep), sep);
      assert s == s[..k] + [sep] + s[k + 1..];
    }
  }

  lemma JoinCons(part: string, rest: seq<string>, sep: char)
    requires |rest| >= 1
    ensures Join([part] + rest, sep) == part + [sep] + Join(rest, sep)
  {
    assert ([part] + rest)[1..] == rest;
  }

  // Python's ordering of `str` values: code points compared lexicographically,
  // a proper prefix first.

  predicate Less(a: string, b: string) {
    if a == [] then b != []
    else if b == [] then false
    else if a[0] == b[0] then Less(a[1..], b[1..])
    else a[0] < b[0]
  }

  lemma {:induction false} LessIrreflexive(a: string)
    ensures !Less(a, a)
  {
    if a != [] {
      LessIrreflexive(a[1..]);
    }
  }

  lemma {:induction false} LessTransitive(a: string, b: string, c: string)
    requires Less(a, b) && Less(b, c)
    ensures Less(a, c)
  {
    if a != [] && a[0] == b[0] && b[0] == c[0] {
      LessTransitive(a[1..], b[1..], c[1..]);
    }
  }

  lemma {:induction false} LessTotal(a: string, b: string)
    ensures a == b || Less(a, b) || Less(b, a)
  {
    if a != [] && b != [] && a[0] == b[0] {
      LessTotal(a[1..], b[1..]);
      if a[1..] == b[1..] {
        assert a == [a[0]] + a[1..] && b == [b[0]] + b[1..];
      }
    }
  }

  /** `str(n)` for a natural number. */
  function DecimalString(n: nat): (r: string)
    ensures |r| >= 1
    ensures forall i :: 0 <= i < |r| ==> '0' <= r[i] <= '9'
    ensures r[0] == '0' ==> n == 0
  {
    if n < 10 then [Digit(n)] else DecimalString(n / 10) + [Digit(n % 10)]
  }

  function Digit(d: nat): (c: char)
    requires d < 10
    ensures '0' <= c <= '9'
  {
    ('0' as int + d) as char
  }

  /** Reads back a string of decimal digits (`int(s)`). */
  function DecimalValue(s: string): nat
    requires forall i :: 0 <= i < |s| ==> '0' <= s[i] <= '9'
  {
    if s == [] then 0 else 10 * DecimalValue(s[..|s| - 1]) + (s[|s| - 1] as int - '0' as int)
  }

  /** `int(str(n)) == n` */
  lemma {:induction false} DecimalRoundTrip(n: nat)
    ensures DecimalValue(DecimalString(n)) == n
  {
    if n >= 10 {
      DecimalRoundTrip(n / 10);
      var r := DecimalString(n);
      assert r[..|r| - 1] == DecimalString(n / 10);
    }
  }

  /** A number below `10^k` (and at least 1 digit long) has at most `k` digits. */
  lemma {:induction false} DecimalLength(n: nat, k: nat)
    requires n < Pow10(k)
    ensures |DecimalString(n)| <= if k == 0 then 1 else k
  {
    if n >= 10 {
      assert k >= 2;
      assert n / 10 < Pow10(k - 1);
      DecimalLength(n / 10, k - 1);
    }
  }

  function Pow10(k: nat): (p: nat)
    ensures p >= 1
  {
    if k == 0 then 1 else 10 * Pow10(k - 1)
  }
}
