/** The margin voter over the category tally (main.py:244-263). A Python dict
    keeps its keys in insertion order, so the tally is a list of
    (category, count) pairs with distinct keys. */
module Voting {
  import opened Extract

  type Tally = seq<(string, nat)>

  predicate DistinctKeys(t: Tally) {
    forall i, j :: 0 <= i < j < |t| ==> t[i].0 != t[j].0
  }

  predicate HasKey(t: Tally, k: string) {
    exists i | 0 <= i < |t| :: t[i].0 == k
  }

  /** `t.get(k, 0)` */
  function CountOf(t: Tally, k: string): (c: nat)
    ensures !HasKey(t, k) ==> c == 0
  {
    if t == [] then 0 else if t[0].0 == k then t[0].1 else CountOf(t[1..], k)
  }

  lemma {:induction false} CountOfAt(t: Tally, a: nat)
    requires DistinctKeys(t) && a < |t|
    ensures CountOf(t, t[a].0) == t[a].1
  {
    if a > 0 {
      CountOfAt(t[1..], a - 1);
    }
  }

  /** `t[k] = t.get(k, 0) + 1`: an existing key keeps its place, a new key is
      appended with count 1. */
  function Bump(t: Tally, k: string): (r: Tally)
    ensures |r| > 0
  {
    if t == [] then [(k, 1)]
    else if t[0].0 == k then [(k, t[0].1 + 1)] + t[1..]
    else [t[0]] + Bump(t[1..], k)
  }

  /** Bumping keeps the keys distinct, adds one to the key's count and leaves
      every other count alone; the keys are the old ones and `k`, and a new
      key goes at the end. */
  lemma BumpSpec(t: Tally, k: string)
    requires DistinctKeys(t)
    ensures var r := Bump(t, k);
      && DistinctKeys(r)
      && CountOf(r, k) == CountOf(t, k) + 1
      && (forall j :: j != k ==> CountOf(r, j) == CountOf(t, j))
      && (forall j :: HasKey(r, j) <==> HasKey(t, j) || j == k)
      && (!HasKey(t, k) ==> r == t + [(k, 1)])
  {
    BumpKeys(t, k);
    BumpCounts(t, k);
    if !HasKey(t, k) {
      BumpAppends(t, k);
    }
  }

  /** The keys after a bump are the old ones and `k`, still distinct. */
  lemma {:induction false} BumpKeys(t: Tally, k: string)
    requires DistinctKeys(t)
    ensures DistinctKeys(Bump(t, k))
    ensures forall j :: HasKey(Bump(t, k), j) <==> HasKey(t, j) || j == k
  {
    var r := Bump(t, k);
    if t == [] {
      assert r == [(k, 1)];
      assert r[0].0 == k;
    } else if t[0].0 == k {
      assert r == [(k, t[0].1 + 1)] + t[1..];
      assert forall i :: 0 <= i < |r| ==> r[i].0 == t[i].0;
      forall j ensures HasKey(t, j) <==> j == t[0].0 || HasKey(t[1..], j) {
        HasKeyCons(t[0], t[1..], j);
      }
      forall j ensures HasKey(r, j) <==> j == k || HasKey(t[1..], j) {
        HasKeyCons((k, t[0].1 + 1), t[1..], j);
      }
    } else {
      var rest := Bump(t[1..], k);
      BumpKeys(t[1..], k);
      assert r == [t[0]] + rest;
      assert t == [t[0]] + t[1..];
      forall j ensures HasKey(t, j) <==> j == t[0].0 || HasKey(t[1..], j) {
        HasKeyCons(t[0], t[1..], j);
      }
      forall j ensures HasKey(r, j) <==> j == t[0].0 || HasKey(rest, j) {
        HasKeyCons(t[0], rest, j);
      }
      assert !HasKey(t[1..], t[0].0) by {
        forall i | 0 <= i < |t| - 1 ensures t[1..][i].0 != t[0].0 { assert t[1..][i] == t[i + 1]; }
      }
      assert forall i :: 0 <= i < |rest| ==> rest[i].0 != t[0].0;
    }
  }

  /** A bump adds one to the count of `k` and leaves the other counts alone. */
  lemma {:induction false} BumpCounts(t: Tally, k: string)
    ensures CountOf(Bump(t, k), k) == CountOf(t, k) + 1
    ensures forall j :: j != k ==> CountOf(Bump(t, k), j) == CountOf(t, j)
  {
    if t != [] {
      var r := Bump(t, k);
      if t[0].0 == k {
        assert r[1..] == t[1..];
      } else {
        BumpCounts(t[1..], k);
        assert r[1..] == Bump(t[1..], k);
      }
    }
  }

  /** A new key is appended with count one. */
  lemma {:induction false} BumpAppends(t: Tally, k: string)
    requires !HasKey(t, k)
    ensures Bump(t, k) == t + [(k, 1)]
  {
    if t != [] {
      assert t == [t[0]] + t[1..];
      HasKeyCons(t[0], t[1..], k);
      BumpAppends(t[1..], k);
      assert Bump(t, k) == [t[0]] + (t[1..] + [(k, 1)]);
    }
  }

  lemma HasKeyCons(x: (string, nat), t: Tally, k: string)
    ensures HasKey([x] + t, k) <==> x.0 == k || HasKey(t, k)
  {
    assert ([x] + t)[0] == x;
    if HasKey(t, k) {
      var i :| 0 <= i < |t| && t[i].0 == k;
      assert ([x] + t)[i + 1] == t[i];
    }
    if HasKey([x] + t, k) {
      var i :| 0 <= i < |t| + 1 && ([x] + t)[i].0 == k;
      if i > 0 {
        assert ([x] + t)[i] == t[i - 1];
        assert HasKey(t, k);
      } else {
        assert ([x] + t)[0] == x;
      }
    }
  }

  predicate SortedDesc(s: Tally) {
    forall i, j :: 0 <= i < j < |s| ==> s[i].1 >= s[j].1
  }

  /** Puts `x` in front of the first entry whose count is not larger, so it
      stays ahead of the entries with its own count that came after it. */
  function InsertDesc(x: (string, nat), s: Tally): (r: Tally)
    ensures |r| == |s| + 1
  {
    if s == [] || s[0].1 <= x.1 then [x] + s
    else [s[0]] + InsertDesc(x, s[1..])
  }

  /** Inserting into a sorted list keeps it sorted and adds just `x`. */
  lemma {:induction false} InsertDescSpec(x: (string, nat), s: Tally)
    requires SortedDesc(s)
    ensures SortedDesc(InsertDesc(x, s))
    ensures multiset(InsertDesc(x, s)) == multiset(s) + multiset{x}
  {
    if s == [] || s[0].1 <= x.1 {
      assert InsertDesc(x, s) == [x] + s;
    } else {
      var tail := InsertDesc(x, s[1..]);
      InsertDescSpec(x, s[1..]);
      assert InsertDesc(x, s) == [s[0]] + tail;
      assert multiset(s) == multiset{s[0]} + multiset(s[1..]) by { assert s == [s[0]] + s[1..]; }
      forall y | y in tail ensures s[0].1 >= y.1 {
        assert y in multiset(tail);
        if y != x {
          assert y in multiset(s[1..]);
        }
      }
    }
  }

  /** `sorted(t.items(), key=count, reverse=True)`, a stable sort by count,
      largest first. */
  function SortDesc(t: Tally): (s: Tally)
    ensures |s| == |t|
  {
    if t == [] then [] else InsertDesc(t[0], SortDesc(t[1..]))
  }

  /** The sort orders by count and is a permutation. */
  lemma {:induction false} SortDescSpec(t: Tally)
    ensures SortedDesc(SortDesc(t))
    ensures multiset(SortDesc(t)) == multiset(t)
  {
    if t != [] {
      SortDescSpec(t[1..]);
      InsertDescSpec(t[0], SortDesc(t[1..]));
      assert t == [t[0]] + t[1..];
    }
  }

  /** `highest_count_by_two` */
  function HighestCountByTwo(t: Tally): (r: Option<string>)
    requires |t| > 0
  {
    var s := SortDesc(t);
    if |s| == 1 then Some(s[0].0)
    else if s[0].1 >= s[1].1 + 2 then Some(s[0].0)
    else None
  }

  /** `k` leads every other key by at least two. */
  predicate LeadsByTwo(t: Tally, k: string) {
    forall i :: 0 <= i < |t| && t[i].0 != k ==> CountOf(t, k) >= t[i].1 + 2
  }

  /** With distinct keys no entry appears twice. */
  lemma {:induction false} AtMostOnce(t: Tally, x: (string, nat))
    requires DistinctKeys(t)
    ensures multiset(t)[x] <= 1
  {
    if t != [] {
      assert t == [t[0]] + t[1..];
      AtMostOnce(t[1..], x);
      if x == t[0] {
        assert x !in t[1..];
      }
    }
  }

  /** The voter returns `k` exactly when `k` is a key that leads every other key
      by two; with a single key that key is returned. */
  lemma HighestCountByTwoSpec(t: Tally, k: string)
    requires |t| > 0 && DistinctKeys(t)
    ensures HighestCountByTwo(t) == Some(k) <==> HasKey(t, k) && LeadsByTwo(t, k)
  {
    if HighestCountByTwo(t) == Some(k) {
      WinnerLeads(t, k);
    }
    if HasKey(t, k) && LeadsByTwo(t, k) {
      LeaderWins(t, k);
    }
  }

  lemma WinnerLeads(t: Tally, k: string)
    requires |t| > 0 && DistinctKeys(t) && HighestCountByTwo(t) == Some(k)
    ensures LeadsByTwo(t, k)
  {
    var s := SortDesc(t);
    SortDescSpec(t);
    assert s[0] in multiset(t);
    var a :| 0 <= a < |t| && t[a] == s[0];
    CountOfAt(t, a);
    forall i | 0 <= i < |t| && t[i].0 != k ensures CountOf(t, k) >= t[i].1 + 2 {
      assert t[i] in multiset(s);
      var m :| 0 <= m < |s| && s[m] == t[i];
      assert m >= 1;
    }
  }

  lemma LeaderWins(t: Tally, k: string)
    requires |t| > 0 && DistinctKeys(t) && HasKey(t, k) && LeadsByTwo(t, k)
    ensures HighestCountByTwo(t) == Some(k)
  {
    var s := SortDesc(t);
    SortDescSpec(t);
    var a :| 0 <= a < |t| && t[a].0 == k;
    CountOfAt(t, a);
    assert t[a] in multiset(s);
    var m :| 0 <= m < |s| && s[m] == t[a];
    assert s[0] in multiset(t);
    var b :| 0 <= b < |t| && t[b] == s[0];
    assert b == a;
    if |s| > 1 {
      assert s[1] in multiset(t);
      var c :| 0 <= c < |t| && t[c] == s[1];
      if c == a {
        TwoCopies(s, t[a]);
        AtMostOnce(t, t[a]);
      }
    }
  }

  /** An entry in the first two places is there at least twice. */
  lemma TwoCopies(s: Tally, x: (string, nat))
    requires |s| >= 2 && s[0] == x && s[1] == x
    ensures multiset(s)[x] >= 2
  {
    assert s == [s[0], s[1]] + s[2..];
  }

  /** A tie at the top gives no winner. */
  lemma TieGivesNone(t: Tally, i: nat, j: nat)
    requires DistinctKeys(t) && i < |t| && j < |t| && i != j && t[i].1 == t[j].1
    requires forall m :: 0 <= m < |t| ==> t[m].1 <= t[i].1
    ensures HighestCountByTwo(t).None?
  {
    if HighestCountByTwo(t).Some? {
      var k := HighestCountByTwo(t).value;
      HighestCountByTwoSpec(t, k);
      var a :| 0 <= a < |t| && t[a].0 == k;
      CountOfAt(t, a);
    }
  }
}
