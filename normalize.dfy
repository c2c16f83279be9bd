/** The filename normaliser: quoting artefacts and the owner's names are stripped
    from a validated candidate (main.py:144-186). */
module Normalize {
  import opened StringOps

  /** The configured person names: the first names and the one last name. */
  datatype Names = Names(firstNames: seq<string>, lastName: string)

  /** Names that `re.sub` reads literally, as the normaliser needs. */
  predicate LiteralNames(names: Names) {
    IsRegexLiteral(names.lastName)
    && forall i :: 0 <= i < |names.firstNames| ==> IsRegexLiteral(names.firstNames[i])
  }

  /** `[f"{f}{suffix}" for f in firsts]` */
  function Suffixed(firsts: seq<string>, suffix: string): (r: seq<string>)
    ensures |r| == |firsts|
  {
    if firsts == [] then [] else [firsts[0] + suffix] + Suffixed(firsts[1..], suffix)
  }

  lemma {:induction false} SuffixedAt(firsts: seq<string>, suffix: string, i: nat)
    requires i < |firsts|
    ensures Suffixed(firsts, suffix)[i] == firsts[i] + suffix
  {
    if i > 0 {
      SuffixedAt(firsts[1..], suffix, i - 1);
    }
  }

  /** `[f"_{r}" for r in forms]` */
  function Prefixed(forms: seq<string>): (r: seq<string>)
    ensures |r| == |forms|
  {
    if forms == [] then [] else ["_" + forms[0]] + Prefixed(forms[1..])
  }

  lemma {:induction false} PrefixedAt(forms: seq<string>, i: nat)
    requires i < |forms|
    ensures Prefixed(forms)[i] == "_" + forms[i]
  {
    if i > 0 {
      PrefixedAt(forms[1..], i - 1);
    }
  }

  /** The names before the `_` goes in front: the last name, the first names,
      each `first_last` and each `firstlast`. */
  function NameForms(names: Names): (b: seq<string>)
    ensures |b| == 3 * |names.firstNames| + 1
  {
    var f, l := names.firstNames, names.lastName;
    [l] + f + Suffixed(f, "_" + l) + Suffixed(f, l)
  }

  /** Entry `k` of the name forms. */
  lemma NameFormAt(names: Names, k: nat)
    requires k < |NameForms(names)|
    ensures var f, l, n := names.firstNames, names.lastName, |names.firstNames|;
      NameForms(names)[k] ==
        if k == 0 then l
        else if k <= n then f[k - 1]
        else if k <= 2 * n then f[k - 1 - n] + ("_" + l)
        else f[k - 1 - 2 * n] + l
  {
    var f, l, n := names.firstNames, names.lastName, |names.firstNames|;
    if k <= n {
      HeadFormAt(names, k);
    } else if k <= 2 * n {
      SuffixFormAt(names, k, 1 + n, "_" + l);
    } else {
      SuffixFormAt(names, k, 1 + 2 * n, l);
    }
  }

  lemma HeadFormAt(names: Names, k: nat)
    requires k <= |names.firstNames|
    ensures NameForms(names)[k] == ([names.lastName] + names.firstNames)[k]
  {
  }

  /** Entry `k` of a suffixed block that starts at `start`. */
  lemma SuffixFormAt(names: Names, k: nat, start: nat, suffix: string)
    requires var f, l, n := names.firstNames, names.lastName, |names.firstNames|;
      (start == 1 + n && suffix == "_" + l) || (start == 1 + 2 * n && suffix == l)
    requires start <= k < start + |names.firstNames|
    ensures NameForms(names)[k] == names.firstNames[k - start] + suffix
  {
    var f, l, n := names.firstNames, names.lastName, |names.firstNames|;
    SuffixedAt(f, suffix, k - start);
    if start == 1 + n {
      assert NameForms(names)[k] == Suffixed(f, "_" + l)[k - start];
    } else {
      assert NameForms(names)[k] == Suffixed(f, l)[k - start];
    }
  }

  /** `get_replacements` */
  function Replacements(names: Names): (r: seq<string>)
    ensures |r| == 3 * |names.firstNames| + 2
  {
    Prefixed(NameForms(names)) + [names.lastName]
  }

  /** The layout of the replacement list: the last name, each first name, each
      `first_last` and each `firstlast`, all with a `_` in front, then the
      bare last name once more. */
  lemma ReplacementEntry(names: Names, k: nat)
    requires k < |Replacements(names)|
    ensures var f, l, n := names.firstNames, names.lastName, |names.firstNames|;
      Replacements(names)[k] ==
        if k == 0 then "_" + l
        else if k <= n then "_" + f[k - 1]
        else if k <= 2 * n then "_" + (f[k - 1 - n] + ("_" + l))
        else if k <= 3 * n then "_" + (f[k - 1 - 2 * n] + l)
        else l
  {
    if k < |NameForms(names)| {
      NameFormAt(names, k);
      PrefixedAt(NameForms(names), k);
      assert Replacements(names)[k] == Prefixed(NameForms(names))[k];
    }
  }

  /** Every entry but the last starts with `_`, and none holds a character
      that the names do not. */
  lemma ReplacementsShape(names: Names)
    ensures forall i :: 0 <= i < |Replacements(names)| - 1 ==>
      |Replacements(names)[i]| > 0 && Replacements(names)[i][0] == '_'
    ensures LiteralNames(names) ==> forall i :: 0 <= i < |Replacements(names)| ==>
      IsRegexLiteral(Replacements(names)[i])
  {
    forall i | 0 <= i < |Replacements(names)| - 1
      ensures |Replacements(names)[i]| > 0 && Replacements(names)[i][0] == '_'
    {
      ReplacementAt(names, i);
    }
    if LiteralNames(names) {
      forall i | 0 <= i < |Replacements(names)| ensures IsRegexLiteral(Replacements(names)[i]) {
        LiteralReplacementAt(names, i);
      }
    }
  }

  lemma ReplacementAt(names: Names, i: nat)
    requires i < |Replacements(names)| - 1
    ensures |Replacements(names)[i]| > 0 && Replacements(names)[i][0] == '_'
  {
    PrefixedAt(NameForms(names), i);
    assert Replacements(names)[i] == Prefixed(NameForms(names))[i];
  }

  lemma LiteralReplacementAt(names: Names, i: nat)
    requires LiteralNames(names) && i < |Replacements(names)|
    ensures IsRegexLiteral(Replacements(names)[i])
  {
    var forms := NameForms(names);
    if i < |forms| {
      LiteralNameForm(names, i);
      LiteralConcat("_", forms[i]);
      PrefixedAt(forms, i);
      assert Replacements(names)[i] == Prefixed(forms)[i];
    }
  }

  lemma LiteralNameForm(names: Names, k: nat)
    requires LiteralNames(names) && k < |NameForms(names)|
    ensures IsRegexLiteral(NameForms(names)[k])
  {
    var f, l, n := names.firstNames, names.lastName, |names.firstNames|;
    NameFormAt(names, k);
    if n < k <= 2 * n {
      LiteralConcat("_", l);
      LiteralConcat(f[k - 1 - n], "_" + l);
    } else if 2 * n < k {
      LiteralConcat(f[k - 1 - 2 * n], l);
    }
  }

  /** The first four steps of `tidy_match`: `__` becomes `_` in one pass, both
      quote characters go, and edge white space is stripped. */
  function Pretidy(m: string): (r: string)
    ensures |r| <= |m|
    ensures '"' !in r && '\'' !in r
    ensures r != [] ==> !IsSpace(r[0]) && !IsSpace(r[|r| - 1])
    ensures Occurs(m, "__") ==> |r| < |m|
  {
    var t1 := ReplaceAll(m, "__", "_");
    assert Occurs(m, "__") ==> |t1| < |m| by {
      if Occurs(m, "__") {
        ReplaceAllShortens(m, "__", "_");
      }
    }
    var t2 := ReplaceAll(t1, "\"", "");
    ReplaceCharRemovesIt(t1, '"', "");
    var t3 := ReplaceAll(t2, "'", "");
    ReplaceCharRemovesIt(t2, '\'', "");
    assert '"' !in t3;
    assert |t3| <= |t2| <= |t1|;
    Strip(t3)
  }

  /** The deletion passes of `tidy_match`, one per entry and in order. */
  function RemoveEach(s: string, reps: seq<string>): (r: string)
    decreases |reps|
  {
    if reps == [] then s else RemoveEach(RemoveAllIgnoringCase(s, reps[0]), reps[1..])
  }

  /** `tidy_match` */
  function Tidied(m: string, names: Names): string {
    RemoveEach(Pretidy(m), Replacements(names))
  }

  /** The deletion passes never lengthen and bring in no new character. */
  lemma {:induction false} RemoveEachShrinks(s: string, reps: seq<string>)
    ensures |RemoveEach(s, reps)| <= |s|
    ensures CharsFrom(RemoveEach(s, reps), s, "")
    decreases |reps|
  {
    if reps != [] {
      RemoveEachShrinks(RemoveAllIgnoringCase(s, reps[0]), reps[1..]);
    }
  }

  /** Passes over a string in which no entry occurs change nothing. */
  lemma {:induction false} RemoveEachAbsent(s: string, reps: seq<string>)
    requires forall i :: 0 <= i < |reps| ==> !OccursIgnoringCase(s, reps[i])
    ensures RemoveEach(s, reps) == s
    decreases |reps|
  {
    if reps != [] {
      RemoveEachAbsent(s, reps[1..]);
    }
  }

  /** Deleting literal entries keeps every `.` (no entry can hold one). */
  lemma {:induction false} RemoveEachKeepsDots(s: string, reps: seq<string>)
    requires forall i :: 0 <= i < |reps| ==> IsRegexLiteral(reps[i])
    ensures Count(RemoveEach(s, reps), '.') == Count(s, '.')
    decreases |reps|
  {
    if reps != [] {
      assert forall i :: 0 <= i < |reps[0]| ==> Lower(reps[0][i]) != Lower('.') by {
        forall i | 0 <= i < |reps[0]| ensures Lower(reps[0][i]) != Lower('.') {
          assert !IsRegexMeta(reps[0][i]);
        }
      }
      RemoveKeepsCount(s, reps[0], '.');
      RemoveEachKeepsDots(RemoveAllIgnoringCase(s, reps[0]), reps[1..]);
    }
  }

  /** `tidy_match` never lengthens its input and leaves no quote character. */
  lemma TidiedShape(m: string, names: Names)
    ensures |Tidied(m, names)| <= |m|
    ensures '"' !in Tidied(m, names) && '\'' !in Tidied(m, names)
  {
    RemoveEachShrinks(Pretidy(m), Replacements(names));
  }

  /** The normaliser keeps the number of dots, so a valid candidate still has
      exactly one after it and the date can be put in front of it. */
  lemma TidiedKeepsDots(m: string, names: Names)
    requires LiteralNames(names)
    ensures Count(Tidied(m, names), '.') == Count(m, '.')
  {
    ReplacementsShape(names);
    RemoveEachKeepsDots(Pretidy(m), Replacements(names));
    var t1 := ReplaceAll(m, "__", "_");
    ReplaceAllKeepsCount(m, "__", "_", '.');
    var t2 := ReplaceAll(t1, "\"", "");
    ReplaceAllKeepsCount(t1, "\"", "", '.');
    var t3 := ReplaceAll(t2, "'", "");
    ReplaceAllKeepsCount(t2, "'", "", '.');
    StripKeepsDots(t3);
  }

  /** Edge white space holds no dot. */
  lemma StripKeepsDots(s: string)
    ensures Count(Strip(s), '.') == Count(s, '.')
  {
    var a, b :| 0 <= a <= b <= |s| && Strip(s) == s[a..b]
      && (forall i :: 0 <= i < a ==> IsSpace(s[i])) && (forall i :: b <= i < |s| ==> IsSpace(s[i]));
    SpaceAroundKeepsDots(s, a, b);
  }

  /** Cutting white space off both ends keeps the dots. */
  lemma SpaceAroundKeepsDots(s: string, a: nat, b: nat)
    requires a <= b <= |s|
    requires forall i :: 0 <= i < a ==> IsSpace(s[i])
    requires forall i :: b <= i < |s| ==> IsSpace(s[i])
    ensures Count(s[a..b], '.') == Count(s, '.')
  {
    var head := s[..b];
    CountSplit(s, b, '.');
    CountSplit(head, a, '.');
    assert head[..a] == s[..a] && head[a..] == s[a..b];
    NoDotInSpace(s[..a]);
    NoDotInSpace(s[b..]);
  }

  /** White space holds no dot. */
  lemma NoDotInSpace(a: string)
    requires forall i :: 0 <= i < |a| ==> IsSpace(a[i])
    ensures Count(a, '.') == 0
  {
    assert !IsSpace('.');
  }

  /** A name already in normal form comes back unchanged: no `__`, no quote, no
      edge white space and no entry of the replacement list, ignoring case. */
  lemma TidiedKeepsNormalForm(m: string, names: Names)
    requires !Occurs(m, "__") && '"' !in m && '\'' !in m
    requires m == [] || (!IsSpace(m[0]) && !IsSpace(m[|m| - 1]))
    requires forall i :: 0 <= i < |Replacements(names)| ==> !OccursIgnoringCase(m, Replacements(names)[i])
    ensures Tidied(m, names) == m
  {
    var t1 := ReplaceAll(m, "__", "_");
    assert t1 == m;
    AbsentCharNoOccurrence(m, '"');
    AbsentCharNoOccurrence(m, '\'');
    assert Pretidy(m) == m;
    RemoveEachAbsent(m, Replacements(names));
  }

  /** `"__" -> "_"` is one pass, not repeated: three underscores become two. */
  lemma UnderscoresCollapseOnce()
    ensures ReplaceAll("___", "__", "_") == "__"
  {
    assert "___"[..2] == "__";
    assert "___"[2..] == "_";
    assert ReplaceAll("_", "__", "_") == "_";
  }

  /** Each deletion is a single pass, not a fixpoint: deleting `doe` from
      `DDoeoe` leaves `Doe`. */
  lemma RemovalIsOnePass()
    ensures RemoveAllIgnoringCase("DDoeoe", "doe") == "Doe"
  {
    var s := "DDoeoe";
    assert !EqualsIgnoringCase(s[..3], "doe") by { assert Lower(s[1]) != Lower('o'); }
    assert s[1..][..3] == "Doe";
    assert EqualsIgnoringCase("Doe", "doe");
    assert s[1..][3..] == "oe";
    assert RemoveAllIgnoringCase("oe", "doe") == "oe";
  }

  /** `tidy_match`, with its loop over the replacement entries. */
  method TidyMatch(candidate: string, names: Names) returns (tidied: string)
    ensures tidied == Tidied(candidate, names)
  {
    tidied := ReplaceAll(candidate, "__", "_");
    tidied := ReplaceAll(tidied, "\"", "");
    tidied := ReplaceAll(tidied, "'", "");
    tidied := Strip(tidied);
    var replacements := Replacements(names);
    for i := 0 to |replacements|
      invariant RemoveEach(tidied, replacements[i..]) == Tidied(candidate, names)
    {
      assert replacements[i..][1..] == replacements[i + 1..];
      tidied := RemoveAllIgnoringCase(tidied, replacements[i]);
    }
  }
}
