/** Facts about sequences that several components share. */
module Sequences {

  predicate Distinct<T(==)>(s: seq<T>) {
    forall i, j | 0 <= i < j < |s| :: s[i] != s[j]
  }

  function ToSet<T>(s: seq<T>): set<T> { set x | x in s }

  function RemoveAt<T>(s: seq<T>, i: nat): seq<T>
    requires i < |s|
  {
    s[..i] + s[i + 1..]
  }

  function IndexOf<T(==)>(s: seq<T>, x: T): (i: nat)
    requires x in s
    ensures i < |s| && s[i] == x
  {
    if s[0] == x then 0 else 1 + IndexOf(s[1..], x)
  }

  lemma {:induction false} DistinctCardinality<T>(s: seq<T>)
    ensures |ToSet(s)| <= |s|
    ensures Distinct(s) ==> |ToSet(s)| == |s|
  {
    if s != [] {
      var init, last := s[..|s| - 1], s[|s| - 1];
      DistinctCardinality(init);
      assert s == init + [last];
      assert ToSet(s) == ToSet(init) + {last};
    }
  }

  lemma Append<T>(s: seq<T>, x: T)
    ensures ToSet(s + [x]) == ToSet(s) + {x}
    ensures Distinct(s) && x !in ToSet(s) ==> Distinct(s + [x])
  {
  }

  lemma SubsetCardinality<T>(a: set<T>, b: set<T>)
    requires a <= b
    ensures |a| <= |b|
    ensures |a| == |b| ==> a == b
  {
    assert b == a + (b - a);
    assert |b| == |a| + |b - a|;
  }

  lemma InsertMultiset<T>(s: seq<T>, i: nat, x: T)
    requires i <= |s|
    ensures multiset(s[..i] + [x] + s[i..]) == multiset(s) + multiset{x}
  {
    assert s == s[..i] + s[i..];
  }

  /** Removing one position removes one occurrence. */
  lemma RemoveAtMultiset<T>(s: seq<T>, i: nat)
    requires i < |s|
    ensures multiset(s) == multiset(RemoveAt(s, i)) + multiset{s[i]}
    ensures forall x | x in RemoveAt(s, i) :: x in s
  {
    assert s == s[..i] + [s[i]] + s[i + 1..];
  }

  /** The last entry of a list matches some entry of any permutation of it. */
  lemma MatchLast<T>(s: seq<T>, t: seq<T>) returns (i: nat)
    requires s != [] && multiset(s) == multiset(t)
    ensures i < |t| && t[i] == s[|s| - 1]
    ensures multiset(s[..|s| - 1]) == multiset(RemoveAt(t, i))
  {
    var m := |s| - 1;
    assert s == s[..m] + [s[m]];
    assert s[m] in multiset(t);
    i := IndexOf(t, s[m]);
    RemoveAtMultiset(t, i);
    assert multiset(s[..m]) == multiset(s) - multiset{s[m]};
  }

  lemma RemoveAtDistinct<T>(s: seq<T>, i: nat)
    requires i < |s| && Distinct(s)
    ensures Distinct(RemoveAt(s, i)) && s[i] !in RemoveAt(s, i)
    ensures ToSet(RemoveAt(s, i)) == ToSet(s) - {s[i]}
  {
    var r := RemoveAt(s, i);
    forall x | x in s && x != s[i] ensures x in r {
      var j := IndexOf(s, x);
      assert r[if j < i then j else j - 1] == x;
    }
  }

  lemma SameMultisetSameSet<T>(s: seq<T>, t: seq<T>)
    requires multiset(s) == multiset(t)
    ensures ToSet(s) == ToSet(t) && |s| == |t|
    ensures Distinct(s) ==> Distinct(t)
  {
    forall x ensures x in s <==> x in t {
      assert x in s <==> x in multiset(s);
      assert x in t <==> x in multiset(t);
    }
    assert |multiset(s)| == |s| && |multiset(t)| == |t|;
    if Distinct(s) && !Distinct(t) {
      var i, j :| 0 <= i < j < |t| && t[i] == t[j];
      var r := RemoveAt(t, j);
      assert r[i] == t[i];
      RemoveAtMultiset(t, j);
      forall x ensures x in r <==> x in t {
        if x in t && x != t[j] {
          var k := IndexOf(t, x);
          assert r[if k < j then k else k - 1] == x;
        }
      }
      assert ToSet(r) == ToSet(t);
      DistinctCardinality(s);
      DistinctCardinality(r);
    }
  }

  /** `picked` are the entries of `all` at the places that are kept, in order. */
  ghost predicate Picks<T>(picked: seq<T>, places: seq<nat>, all: seq<T>, keep: seq<bool>)
    requires |keep| == |all|
  {
    && (forall j, k | 0 <= j < k < |places| :: places[j] < places[k])
    && (forall i: nat :: i in places <==> i < |all| && keep[i])
    && |picked| == |places|
    && forall j | 0 <= j < |places| :: places[j] < |all| && picked[j] == all[places[j]]
  }

  lemma PicksKept<T>(picked: seq<T>, places: seq<nat>, all: seq<T>, keep: seq<bool>, x: T)
    requires |keep| == |all| && Picks(picked, places, all, keep)
    ensures Picks(picked + [x], places + [|all|], all + [x], keep + [true])
  {
    assert forall j | 0 <= j < |places| :: places[j] in places;
  }

  lemma PicksLeft<T>(picked: seq<T>, places: seq<nat>, all: seq<T>, keep: seq<bool>, x: T)
    requires |keep| == |all| && Picks(picked, places, all, keep)
    ensures Picks(picked, places, all + [x], keep + [false])
  {
  }
}
