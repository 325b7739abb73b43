/** The two selections that do not weigh nodes: the cyclic window and sampling. */
module Selection {
  import opened Basics
  import Digits
  import opened Sequences

  // ----- the cyclic window

  /** k consecutive node ids from offset `start` on a cycle of n, ids counting from 1. */
  function Window(start: nat, n: nat, k: nat): (ids: seq<nat>)
    requires n > 0
    ensures |ids| == k && forall i | 0 <= i < k :: 1 <= ids[i] <= n
  {
    seq(k, i requires 0 <= i < k => (start + i) % n + 1)
  }

  /** A window repeats no id exactly when it is no longer than the cycle. */
  lemma WindowDistinct(start: nat, n: nat, k: nat)
    requires n > 0
    ensures Distinct(Window(start, n, k)) <==> k <= n
  {
    var w := Window(start, n, k);
    if k > n {
      Digits.DivMod(n, start);
      Digits.DivModUnique(n, start / n + 1, start % n);
      assert (start + n) % n == start % n;
      assert w[0] == w[n];
    } else {
      forall i, j | 0 <= i < j < k ensures w[i] != w[j] {
        if w[i] == w[j] {
          SameRemainder(start + i, start + j, n);
          assert false;
        }
      }
    }
  }

  lemma SameRemainder(a: nat, b: nat, n: nat)
    requires n > 0 && a % n == b % n && a <= b < a + n
    ensures a == b
  {
    Digits.DivMod(n, a);
    Digits.DivMod(n, b);
    var p, q := a / n, b / n;
    if q > p {
      Digits.MulMonotone(p + 1, q, n);
    } else if q < p {
      Digits.MulMonotone(q + 1, p, n);
    }
  }

  /** The start offsets whose window has an id in its first k places. */
  function StartsFor(id: nat, n: nat, k: nat): set<nat>
    requires n > 0
  {
    set start | 0 <= start < n && id in Window(start, n, k)
  }

  /** The offset that puts `id` at place i. */
  function StartAt(id: nat, n: nat, i: nat): nat
    requires 1 <= id <= n && i < n
  {
    if i <= id - 1 then id - 1 - i else id - 1 - i + n
  }

  lemma StartAtUnique(id: nat, n: nat, i: nat, start: nat)
    requires 1 <= id <= n && i < n && start < n
    ensures StartAt(id, n, i) < n
    ensures (start + i) % n + 1 == id <==> start == StartAt(id, n, i)
  {
    if start + i < n {
      Digits.DivModUnique(n, 0, start + i);
    } else {
      Digits.DivModUnique(n, 1, start + i - n);
    }
  }

  /** Every id is in the windows of exactly k of the n start offsets. */
  lemma {:induction false} WindowFairness(id: nat, n: nat, k: nat)
    requires 1 <= id <= n && k <= n
    ensures |StartsFor(id, n, k)| == k
    decreases k
  {
    if k == 0 {
      assert StartsFor(id, n, 0) == {};
    } else {
      WindowFairness(id, n, k - 1);
      OneMoreStart(id, n, k);
      hide StartsFor, StartAt;
      assert |StartsFor(id, n, k - 1) + {StartAt(id, n, k - 1)}| == k;
    }
  }

  /** One more place in the window admits one more start. */
  lemma OneMoreStart(id: nat, n: nat, k: nat)
    requires 1 <= id <= n && 0 < k <= n
    ensures StartAt(id, n, k - 1) !in StartsFor(id, n, k - 1)
    ensures StartsFor(id, n, k) == StartsFor(id, n, k - 1) + {StartAt(id, n, k - 1)}
  {
    var next := StartAt(id, n, k - 1);
    forall start | 0 <= start < n
      ensures id in Window(start, n, k) <==> id in Window(start, n, k - 1) || start == next
    {
      StartAtUnique(id, n, k - 1, start);
      assert Window(start, n, k) == Window(start, n, k - 1) + [(start + (k - 1)) % n + 1];
    }
    StartAtUnique(id, n, k - 1, next);
    var w := Window(next, n, k - 1);
    forall i | 0 <= i < |w| ensures w[i] != id {
      StartAtUnique(id, n, i, next);
    }
  }

  // ----- the windows of the 256 first bytes

  /** How many of the first `bytes` byte values choose the id. */
  function Choices(bytes: nat, id: nat, n: nat, k: nat): nat
    requires n > 0
  {
    if bytes == 0 then 0 else
      Choices(bytes - 1, id, n, k) + if id in Window((bytes - 1) % n, n, k) then 1 else 0
  }

  /** The starts below a bound. */
  lemma {:induction false} ChoicesCount(bytes: nat, id: nat, n: nat, k: nat)
    requires 0 < n && bytes <= n
    ensures Choices(bytes, id, n, k) == |set start | start in StartsFor(id, n, k) && start < bytes|
    decreases bytes
  {
    if bytes == 0 {
      assert (set start | start in StartsFor(id, n, k) && start < 0) == {};
    } else {
      ChoicesCount(bytes - 1, id, n, k);
      Digits.DivModUnique(n, 0, bytes - 1);
      var starts := StartsFor(id, n, k);
      assert bytes - 1 in starts <==> id in Window(bytes - 1, n, k);
      hide StartsFor, Window;
      StartsBelow(starts, bytes);
    }
  }

  lemma StartsBelow(starts: set<nat>, bytes: nat)
    requires bytes > 0
    ensures |set start | start in starts && start < bytes|
         == |set start | start in starts && start < bytes - 1| + if bytes - 1 in starts then 1 else 0
  {
    var before := set start | start in starts && start < bytes - 1;
    assert (set start | start in starts && start < bytes) == before + if bytes - 1 in starts then {bytes - 1} else {};
  }

  lemma SkipCycle(x: nat, n: nat)
    requires n > 0
    ensures (n + x) % n == x % n
  {
    Digits.DivMod(n, x);
    Digits.DivModUnique(n, x / n + 1, x % n);
  }

  lemma {:induction false} ChoicesAddCycle(bytes: nat, id: nat, n: nat, k: nat)
    requires n > 0
    ensures Choices(n + bytes, id, n, k) == Choices(n, id, n, k) + Choices(bytes, id, n, k)
    decreases bytes
  {
    if bytes > 0 {
      ChoicesAddCycle(bytes - 1, id, n, k);
      SkipCycle(bytes - 1, n);
      assert n + bytes - 1 == n + (bytes - 1);
      hide Window;
    }
  }

  lemma ChoicesOfOneCycle(id: nat, n: nat, k: nat)
    requires 1 <= id <= n && k <= n
    ensures Choices(n, id, n, k) == k
  {
    ChoicesCount(n, id, n, k);
    WindowFairness(id, n, k);
    assert (set start | start in StartsFor(id, n, k) && start < n) == StartsFor(id, n, k);
  }

  lemma OneLess(q: nat, n: nat, rest: nat)
    requires q > 0
    ensures q * n + rest == n + ((q - 1) * n + rest)
    ensures (q - 1) * n >= 0
  {
  }

  /** Every full cycle chooses an id k times. */
  lemma {:induction false} ChoicesOfCycles(bytes: nat, q: nat, rest: nat, id: nat, n: nat, k: nat)
    requires 1 <= id <= n && k <= n && bytes == q * n + rest
    ensures Choices(bytes, id, n, k) == q * k + Choices(rest, id, n, k)
    decreases q
  {
    if q == 0 {
    } else {
      OneLess(q, n, rest);
      var less := bytes - n;
      ChoicesOfCycles(less, q - 1, rest, id, n, k);
      ChoicesAddCycle(less, id, n, k);
      ChoicesOfOneCycle(id, n, k);
      hide *;
      assert n + less == bytes;
      OneLess(q, k, Choices(rest, id, n, k));
    }
  }

  /** An id that no window reaches past the end of the cycle is chosen by the k offsets before it. */
  lemma UnwrappedStart(start: nat, id: nat, n: nat, k: nat)
    requires start < n && k <= id <= n && n > 0
    ensures id in Window(start, n, k) <==> id - k <= start < id
  {
    var w := Window(start, n, k);
    if id - k <= start < id {
      Digits.DivModUnique(n, 0, id - 1);
      assert w[id - 1 - start] == id;
    }
    forall i | 0 <= i < k && w[i] == id ensures id - k <= start < id {
      StartAtUnique(id, n, i, start);
    }
  }

  lemma {:induction false} UnwrappedChoices(bytes: nat, id: nat, n: nat, k: nat)
    requires bytes <= n && 0 < k <= id <= n
    ensures Choices(bytes, id, n, k)
         == if bytes <= id - k then 0 else if bytes < id then bytes - (id - k) else k
    decreases bytes
  {
    if bytes > 0 {
      UnwrappedChoices(bytes - 1, id, n, k);
      Digits.DivModUnique(n, 0, bytes - 1);
      UnwrappedStart(bytes - 1, id, n, k);
    }
  }

  /** A window of the whole cycle has every id. */
  lemma {:induction false} WholeCycle(bytes: nat, id: nat, n: nat)
    requires 1 <= id <= n
    ensures Choices(bytes, id, n, n) == bytes
    decreases bytes
  {
    if bytes > 0 {
      WholeCycle(bytes - 1, id, n);
      var start := (bytes - 1) % n;
      var i := if id - 1 >= start then id - 1 - start else id - 1 - start + n;
      StartAtUnique(id, n, i, start);
      assert Window(start, n, n)[i] == id;
    }
  }

  ghost predicate Fair(bytes: nat, n: nat, k: nat)
    requires n > 0
  {
    forall a, b | 1 <= a <= n && 1 <= b <= n :: Choices(bytes, a, n, k) == Choices(bytes, b, n, k)
  }

  /** A last cycle that is cut short chooses some id more often than the next one. */
  lemma CutCycle(bytes: nat, n: nat, k: nat)
    requires 0 < k < n && 0 < bytes < n
    ensures !Fair(bytes, n, k)
  {
    var id := if bytes > k then bytes else k;
    UnwrappedChoices(bytes, id, n, k);
    UnwrappedChoices(bytes, id + 1, n, k);
    hide Choices;
    assert Choices(bytes, id, n, k) != Choices(bytes, id + 1, n, k);
  }

  /** The byte values choose all ids equally often exactly when they make whole cycles, or all nodes
      are chosen. */
  lemma FairExactly(bytes: nat, n: nat, k: nat)
    requires 0 < k <= n
    ensures Fair(bytes, n, k) <==> bytes % n == 0 || k == n
  {
    var q, rest := bytes / n, bytes % n;
    Digits.DivMod(n, bytes);
    forall id | 1 <= id <= n ensures Choices(bytes, id, n, k) == q * k + Choices(rest, id, n, k) {
      ChoicesOfCycles(bytes, q, rest, id, n, k);
    }
    assert Fair(bytes, n, k) <==> Fair(rest, n, k) by {
      hide Choices;
    }
    if k == n {
      forall id | 1 <= id <= n ensures Choices(rest, id, n, n) == rest {
        WholeCycle(rest, id, n);
      }
    } else if rest > 0 {
      CutCycle(rest, n, k);
    }
  }

  function Min(a: nat, b: nat): nat { if a <= b then a else b }

  lemma WindowAt(b: nat, n: nat, k: nat, i: nat)
    requires n > 0 && i < k
    ensures Window(b % n, n, k)[i] == (b + i) % n + 1
  {
    Digits.DivMod(n, b);
    var r := b % n + i;
    Digits.DivMod(n, r);
    Digits.DivModUnique(n, b / n + r / n, r % n);
    assert b + i == (b / n + r / n) * n + r % n;
  }

  /** The 256 bytes choose from a set of ids only exactly when the first ids, up to the last that a byte
      reaches, are in the set. */
  lemma ReachesExactly(n: nat, k: nat, allowed: set<nat>)
    requires n > 0 && k > 0
    ensures (forall b: byte :: ToSet(Window(b % n, n, k)) <= allowed)
       <==> forall id | 1 <= id <= Min(n, 255 + k) :: id in allowed
  {
    if forall id | 1 <= id <= Min(n, 255 + k) :: id in allowed {
      forall b: byte ensures ToSet(Window(b % n, n, k)) <= allowed {
        ReachesAtMost(b, n, k);
      }
    }
    if forall b: byte :: ToSet(Window(b % n, n, k)) <= allowed {
      forall id | 1 <= id <= Min(n, 255 + k) ensures id in allowed {
        var b: byte := if id - 1 <= 255 then id - 1 else 255;
        ReachedBy(b, id, n, k);
        hide Window;
        assert id in ToSet(Window(b % n, n, k));
      }
    }
  }

  lemma ReachesAtMost(b: byte, n: nat, k: nat)
    requires n > 0
    ensures forall id | id in Window(b % n, n, k) :: 1 <= id <= Min(n, 255 + k)
  {
    forall i | 0 <= i < k ensures 1 <= Window(b % n, n, k)[i] <= Min(n, 255 + k) {
      WindowAt(b, n, k, i);
      RemainderAtMost(b + i, n);
    }
  }

  lemma ReachedBy(b: nat, id: nat, n: nat, k: nat)
    requires n > 0 && b < id <= n && id - 1 - b < k
    ensures id in Window(b % n, n, k)
  {
    WindowAt(b, n, k, id - 1 - b);
    Digits.DivModUnique(n, 0, id - 1);
  }

  lemma RemainderAtMost(x: nat, n: nat)
    requires n > 0
    ensures x % n <= x
  {
    Digits.DivMod(n, x);
    Digits.MulMonotone(0, x / n, n);
  }

  // ----- two windows

  /** Any two windows longer than half the cycle share an id. */
  lemma WindowsIntersect(a: nat, b: nat, n: nat, k: nat)
    requires 0 < k <= n < 2 * k
    ensures exists id :: id in Window(a, n, k) && id in Window(b, n, k)
  {
    var s, t := ToSet(Window(a, n, k)), ToSet(Window(b, n, k));
    WindowDistinct(a, n, k);
    WindowDistinct(b, n, k);
    DistinctCardinality(Window(a, n, k));
    DistinctCardinality(Window(b, n, k));
    WithinCycle(a, n, k);
    WithinCycle(b, n, k);
    WindowDistinct(0, n, n);
    DistinctCardinality(Window(0, n, n));
    SubsetCardinality(s + t, ToSet(Window(0, n, n)));
    assert |s + t| + |s * t| == |s| + |t|;
    var id :| id in s * t;
  }

  /** The whole cycle contains every window. */
  lemma WithinCycle(start: nat, n: nat, k: nat)
    requires n > 0
    ensures ToSet(Window(start, n, k)) <= ToSet(Window(0, n, n))
  {
    forall id | id in Window(start, n, k) ensures id in Window(0, n, n) {
      Digits.DivModUnique(n, 0, id - 1);
      assert Window(0, n, n)[id - 1] == id;
    }
  }

  /** Windows of at most half the cycle can miss each other. */
  lemma ShortWindowsCanMiss(n: nat, k: nat)
    requires 0 < k && 2 * k <= n
    ensures !exists id :: id in Window(0, n, k) && id in Window(k, n, k)
  {
    forall i | 0 <= i < k
      ensures Window(0, n, k)[i] == i + 1 && Window(k, n, k)[i] == k + i + 1
    {
      Digits.DivModUnique(n, 0, i);
      Digits.DivModUnique(n, 0, k + i);
    }
  }

  predicate Meet(a: nat, b: nat, n: nat, k: nat)
    requires n > 0
  {
    exists id :: id in Window(a % n, n, k) && id in Window(b % n, n, k)
  }

  /** The window from a later start holds the id at that start, and so does the earlier one if it is long
      enough. */
  lemma WindowsOverlap(a: nat, b: nat, n: nat, k: nat)
    requires a < n && b < n && a < b + k && b < a + k
    ensures Meet(a, b, n, k)
  {
    var low, high := if a <= b then a else b, if a <= b then b else a;
    Digits.DivModUnique(n, 0, high);
    WindowAt(low, n, k, high - low);
    WindowAt(high, n, k, 0);
    assert high + 1 in Window(low % n, n, k) && high + 1 in Window(high % n, n, k);
  }

  lemma LongerWindow(start: nat, n: nat, k: nat, id: nat)
    requires 0 < n <= k && id in Window(start, n, n)
    ensures id in Window(start, n, k)
  {
    var i :| 0 <= i < n && Window(start, n, n)[i] == id;
    assert Window(start, n, k)[i] == id;
  }

  lemma LongWindowsMeet(a: nat, b: nat, n: nat, k: nat)
    requires 0 < k && 0 < n < 2 * k
    ensures Meet(a, b, n, k)
  {
    var s, t := a % n, b % n;
    hide Window;
    if k <= n {
      WindowsIntersect(s, t, n, k);
    } else {
      WindowsIntersect(s, t, n, n);
      var id :| id in Window(s, n, n) && id in Window(t, n, n);
      LongerWindow(s, n, k, id);
      LongerWindow(t, n, k, id);
    }
  }

  lemma FirstOffsetsMiss(n: nat, k: nat)
    requires 0 < k && 2 * k <= n
    ensures !Meet(0, k, n, k)
  {
    Digits.DivModUnique(n, 0, 0);
    Digits.DivModUnique(n, 0, k);
    ShortWindowsCanMiss(n, k);
    hide Window;
  }

  /** The selections of any two sessions share a node exactly when they are more than half the nodes, or
      longer than the distance between any two offsets that a byte can give. */
  lemma SelectionsMeetExactly(n: nat, k: nat)
    requires 0 < k && 0 < n
    ensures (forall a: byte, b: byte :: Meet(a, b, n, k)) <==> 2 * k > n || k > 255
  {
    hide Meet, Window;
    if 2 * k > n {
      forall a: byte, b: byte ensures Meet(a, b, n, k) {
        LongWindowsMeet(a, b, n, k);
      }
    } else if k > 255 {
      forall a: byte, b: byte ensures Meet(a, b, n, k) {
        WindowsOverlap(a, b, n, k);
      }
    } else {
      FirstOffsetsMiss(n, k);
      var zero: byte, other: byte := 0, k;
      assert !Meet(zero, other, n, k);
    }
  }

  // ----- sampling without replacement

  /** Draw i is an index into what i earlier draws left of `count` entries. */
  predicate Draws(draws: seq<nat>, count: nat) {
    |draws| <= count && forall i | 0 <= i < |draws| :: draws[i] < count - i
  }

  /** What the draws leave, each removing one entry in place. */
  function Remaining(order: seq<nat>, draws: seq<nat>): (r: seq<nat>)
    requires Draws(draws, |order|)
    ensures |r| == |order| - |draws|
  {
    if draws == [] then order else
      var m := |draws| - 1;
      RemoveAt(Remaining(order, draws[..m]), draws[m])
  }

  /** What the draws choose, in order. */
  function Sample(order: seq<nat>, draws: seq<nat>): (s: seq<nat>)
    requires Draws(draws, |order|)
    ensures |s| == |draws|
  {
    if draws == [] then [] else
      var m := |draws| - 1;
      Sample(order, draws[..m]) + [Remaining(order, draws[..m])[draws[m]]]
  }

  /** One more draw. */
  lemma SampleStep(order: seq<nat>, draws: seq<nat>, index: nat)
    requires Draws(draws, |order|) && index < |order| - |draws|
    ensures Draws(draws + [index], |order|)
    ensures Sample(order, draws + [index]) == Sample(order, draws) + [Remaining(order, draws)[index]]
    ensures Remaining(order, draws + [index]) == RemoveAt(Remaining(order, draws), index)
  {
    assert (draws + [index])[..|draws|] == draws;
  }

  /** Chosen and remaining entries are together a permutation of the list, after every draw. */
  lemma {:induction false} SampleConserves(order: seq<nat>, draws: seq<nat>)
    requires Draws(draws, |order|)
    ensures multiset(Sample(order, draws)) + multiset(Remaining(order, draws)) == multiset(order)
  {
    if draws != [] {
      var m := |draws| - 1;
      SampleConserves(order, draws[..m]);
      RemoveAtMultiset(Remaining(order, draws[..m]), draws[m]);
    }
  }

  /** The chosen entries are different members of the list. */
  lemma SampleDistinct(order: seq<nat>, draws: seq<nat>)
    requires Draws(draws, |order|) && Distinct(order)
    ensures Distinct(Sample(order, draws) + Remaining(order, draws))
    ensures Distinct(Sample(order, draws)) && ToSet(Sample(order, draws)) <= ToSet(order)
  {
    var s, r := Sample(order, draws), Remaining(order, draws);
    SampleConserves(order, draws);
    assert multiset(s + r) == multiset(s) + multiset(r);
    SameMultisetSameSet(order, s + r);
    assert forall i | 0 <= i < |s| :: s[i] == (s + r)[i];
    assert forall x | x in s :: x in ToSet(s + r);
  }

  /** The draws that choose `want`. */
  function DrawsFor(order: seq<nat>, want: seq<nat>): (draws: seq<nat>)
    requires Distinct(order) && Distinct(want) && ToSet(want) <= ToSet(order)
    ensures Draws(draws, |order|) && Sample(order, draws) == want
  {
    if want == [] then [] else
      var m := |want| - 1;
      assert ToSet(want[..m]) <= ToSet(want);
      var init := DrawsFor(order, want[..m]);
      NextDraw(order, want, init);
      init + [IndexOf(Remaining(order, init), want[m])]
  }

  /** The entry wanted next is left over, and drawing it continues the sample. */
  lemma NextDraw(order: seq<nat>, want: seq<nat>, init: seq<nat>)
    requires want != [] && Distinct(want) && ToSet(want) <= ToSet(order)
    requires Draws(init, |order|) && Sample(order, init) == want[..|want| - 1]
    ensures var x, rest := want[|want| - 1], Remaining(order, init);
            && x in rest
            && Draws(init + [IndexOf(rest, x)], |order|)
            && Sample(order, init + [IndexOf(rest, x)]) == want
  {
    var m := |want| - 1;
    var rest := Remaining(order, init);
    hide *;
    assert want[m] in rest by {
      LastIsNew(order, want);
      SampleConserves(order, init);
      LeftOver(order, want[..m], rest, want[m]);
    }
    SampleStep(order, init, IndexOf(rest, want[m]));
    assert want == want[..m] + [want[m]];
  }

  lemma LastIsNew(order: seq<nat>, want: seq<nat>)
    requires want != [] && Distinct(want) && ToSet(want) <= ToSet(order)
    ensures var m := |want| - 1; want[m] in order && want[m] !in want[..m]
  {
    assert want[|want| - 1] in ToSet(want);
  }

  lemma LeftOver(order: seq<nat>, chosen: seq<nat>, rest: seq<nat>, x: nat)
    requires multiset(chosen) + multiset(rest) == multiset(order) && x in order && x !in chosen
    ensures x in rest
  {
    assert x in multiset(order) && x !in multiset(chosen);
    assert x in multiset(rest);
  }

  /** Sampling is unbiased: with `DrawsFor`, a list of k different entries is chosen by exactly
      one of the sequences of k draws. */
  lemma {:induction false} SampleInjective(order: seq<nat>, a: seq<nat>, b: seq<nat>)
    requires Distinct(order) && Draws(a, |order|) && Draws(b, |order|)
    requires Sample(order, a) == Sample(order, b)
    ensures a == b
    decreases |a|
  {
    if a != [] {
      var m := |a| - 1;
      LastDraw(order, a);
      LastDraw(order, b);
      hide Sample, Remaining, Draws, Distinct;
      SampleInjective(order, a[..m], b[..m]);
      RemainingDistinct(order, a[..m]);
      DistinctIndex(Remaining(order, a[..m]), a[m], b[m]);
      assert a == a[..m] + [a[m]] && b == b[..m] + [b[m]];
    }
  }

  /** The last entry of a sample is what its last draw takes from the rest. */
  lemma LastDraw(order: seq<nat>, draws: seq<nat>)
    requires draws != [] && Draws(draws, |order|)
    ensures var m := |draws| - 1;
            && Draws(draws[..m], |order|)
            && Sample(order, draws)[..m] == Sample(order, draws[..m])
            && Sample(order, draws)[m] == Remaining(order, draws[..m])[draws[m]]
  {
    hide Remaining;
    var s := Sample(order, draws[..|draws| - 1]);
    assert Sample(order, draws) == s + [Remaining(order, draws[..|draws| - 1])[draws[|draws| - 1]]];
  }

  lemma DistinctIndex(s: seq<nat>, i: nat, j: nat)
    requires Distinct(s) && i < |s| && j < |s| && s[i] == s[j]
    ensures i == j
  {
  }

  lemma RemainingDistinct(order: seq<nat>, draws: seq<nat>)
    requires Distinct(order) && Draws(draws, |order|)
    ensures Distinct(Remaining(order, draws))
  {
    var s, r := Sample(order, draws), Remaining(order, draws);
    SampleDistinct(order, draws);
    assert forall i | 0 <= i < |r| :: r[i] == (s + r)[|s| + i];
  }
}
