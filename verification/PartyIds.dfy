/** How the nodes of a session agree on party indices. */
module PartyIds {
  import opened Basics
  import opened Digits
  import opened Sequences

  /** A party is identified by the big-endian bytes of its number. */
  datatype PartyID = PartyID(key: seq<byte>, index: int)

  function Key(n: nat): seq<byte> { Minimal(256, n) }

  function Number(key: seq<byte>): nat {
    ValueBound(256, key);
    Value(256, key)
  }

  /** A key denotes its number in base 256 and has no leading zero. */
  lemma KeyRoundTrip(n: nat)
    ensures Number(Key(n)) == n && InBase(256, Key(n)) && Value(256, Key(n)) == n
    ensures Key(n) == [] || Key(n)[0] != 0
  {
    MinimalValue(256, n);
  }

  // ----- sorting

  predicate Sorted(s: seq<nat>) { forall i, j | 0 <= i < j < |s| :: s[i] <= s[j] }

  predicate SortedKeys(keys: seq<seq<byte>>) {
    forall i, j | 0 <= i < j < |keys| :: Number(keys[i]) <= Number(keys[j])
  }

  function InsertKey(keys: seq<seq<byte>>, key: seq<byte>): (r: seq<seq<byte>>)
    requires SortedKeys(keys)
    ensures SortedKeys(r) && multiset(r) == multiset(keys) + multiset{key}
  {
    if keys == [] || Number(key) <= Number(keys[0]) then [key] + keys else
      var r := [keys[0]] + InsertKey(keys[1..], key);
      InsertBehind(keys, key, InsertKey(keys[1..], key));
      r
  }

  lemma InsertBehind(keys: seq<seq<byte>>, key: seq<byte>, rest: seq<seq<byte>>)
    requires SortedKeys(keys) && keys != [] && Number(keys[0]) <= Number(key)
    requires SortedKeys(rest) && multiset(rest) == multiset(keys[1..]) + multiset{key}
    ensures SortedKeys([keys[0]] + rest)
    ensures multiset([keys[0]] + rest) == multiset(keys) + multiset{key}
  {
    assert keys == [keys[0]] + keys[1..];
    forall i | 0 <= i < |rest| ensures Number(keys[0]) <= Number(rest[i]) {
      assert rest[i] in multiset(rest);
      assert rest[i] == key || rest[i] in keys[1..];
    }
  }

  /** `tss.SortPartyIDs` on the keys: ascending by number. */
  function SortKeys(keys: seq<seq<byte>>): (r: seq<seq<byte>>)
    ensures SortedKeys(r) && multiset(r) == multiset(keys)
  {
    if keys == [] then [] else
      var m := |keys| - 1;
      assert keys == keys[..m] + [keys[m]];
      InsertKey(SortKeys(keys[..m]), keys[m])
  }

  function Keys(parties: seq<nat>): (keys: seq<seq<byte>>)
    ensures |keys| == |parties|
  {
    seq(|parties|, i requires 0 <= i < |parties| => Key(parties[i]))
  }

  function Numbers(keys: seq<seq<byte>>): (r: seq<nat>)
    ensures |r| == |keys|
  {
    seq(|keys|, i requires 0 <= i < |keys| => Number(keys[i]))
  }

  /** The sorted identities that every node derives from the party list. */
  function PartyIDs(parties: seq<nat>): (ids: seq<PartyID>)
    ensures |ids| == |parties|
  {
    var keys := SortKeys(Keys(parties));
    assert |multiset(keys)| == |multiset(Keys(parties))|;
    seq(|parties|, i requires 0 <= i < |parties| => PartyID(keys[i], i))
  }

  method PartyIDsFromNumbers(parties: seq<uint16>) returns (ids: seq<PartyID>)
    ensures ids == PartyIDs(parties)
  {
    var keys: seq<seq<byte>> := [];
    for i := 0 to |parties|
      invariant |keys| == i && forall j | 0 <= j < i :: keys[j] == Key(parties[j])
    {
      keys := keys + [Key(parties[i])];
    }
    assert keys == Keys(parties);
    ids := SortPartyIDs(keys);
  }

  /** Sorts the keys and numbers the positions. */
  method SortPartyIDs(keys: seq<seq<byte>>) returns (ids: seq<PartyID>)
    ensures |ids| == |keys| == |SortKeys(keys)|
    ensures forall i | 0 <= i < |keys| :: ids[i] == PartyID(SortKeys(keys)[i], i)
  {
    var sorted := SortKeys(keys);
    assert |multiset(sorted)| == |multiset(keys)|;
    ids := [];
    for i := 0 to |sorted|
      invariant |ids| == i && forall j | 0 <= j < i :: ids[j] == PartyID(sorted[j], j)
    {
      ids := ids + [PartyID(sorted[i], i)];
    }
  }

  // ----- locating

  /** The first position with the given key, or -1. */
  function Locate(ids: seq<PartyID>, key: seq<byte>): (index: int)
    ensures -1 <= index < |ids|
    ensures index >= 0 ==> ids[index].key == key && forall j | 0 <= j < index :: ids[j].key != key
    ensures index == -1 ==> forall j | 0 <= j < |ids| :: ids[j].key != key
  {
    if ids == [] then -1
    else if ids[0].key == key then 0
    else
      var rest := Locate(ids[1..], key);
      if rest == -1 then -1 else rest + 1
  }

  method LocatePartyIndex(ids: seq<PartyID>, id: PartyID) returns (index: int)
    ensures index == Locate(ids, id.key)
  {
    for i := 0 to |ids|
      invariant forall j | 0 <= j < i :: ids[j].key != id.key
    {
      if ids[i].key == id.key {
        return i;
      }
    }
    return -1;
  }

  /** How many entries lie below n. */
  function CountBelow(s: seq<nat>, n: nat): nat {
    if s == [] then 0 else
      CountBelow(s[..|s| - 1], n) + if s[|s| - 1] < n then 1 else 0
  }

  lemma {:induction false} CountBelowIsCardinality(s: seq<nat>, n: nat)
    ensures CountBelow(s, n) == |set i: nat | i < |s| && s[i] < n|
    decreases |s|
  {
    var all := set i: nat | i < |s| && s[i] < n;
    if s == [] {
      assert all == {};
    } else {
      var m := |s| - 1;
      CountBelowIsCardinality(s[..m], n);
      var before := set i: nat | i < m && s[..m][i] < n;
      assert all == before + if s[m] < n then {m} else {};
    }
  }

  lemma {:induction false} CountBelowWithout(s: seq<nat>, n: nat, i: nat)
    requires i < |s|
    ensures CountBelow(s, n) == CountBelow(RemoveAt(s, i), n) + if s[i] < n then 1 else 0
    decreases |s|
  {
    var m := |s| - 1;
    if i == m {
      assert RemoveAt(s, i) == s[..m];
    } else {
      CountBelowWithout(s[..m], n, i);
      assert RemoveAt(s, i)[..m - 1] == RemoveAt(s[..m], i);
    }
  }

  lemma {:induction false} CountBelowPermuted(s: seq<nat>, t: seq<nat>, n: nat)
    requires multiset(s) == multiset(t)
    ensures CountBelow(s, n) == CountBelow(t, n)
    decreases |s|
  {
    if s == [] {
      assert |multiset(t)| == 0;
    } else {
      var m := |s| - 1;
      var i := MatchLast(s, t);
      CountBelowPermuted(s[..m], RemoveAt(t, i), n);
      CountBelowWithout(t, n, i);
    }
  }

  lemma {:induction false} CountBelowSorted(s: seq<nat>, n: nat, i: nat)
    requires i <= |s|
    requires forall j | 0 <= j < i :: s[j] < n
    requires forall j | i <= j < |s| :: s[j] >= n
    ensures CountBelow(s, n) == i
    decreases |s|
  {
    if s != [] {
      var m := |s| - 1;
      CountBelowSorted(s[..m], n, if i <= m then i else m);
    }
  }

  lemma {:induction false} NumbersPermuted(a: seq<seq<byte>>, b: seq<seq<byte>>)
    requires multiset(a) == multiset(b)
    ensures multiset(Numbers(a)) == multiset(Numbers(b))
    decreases |a|
  {
    if a == [] {
      assert |multiset(b)| == 0;
    } else {
      var m := |a| - 1;
      var i := MatchLast(a, b);
      NumbersPermuted(a[..m], RemoveAt(b, i));
      NumbersWithout(b, i);
      RemoveAtMultiset(Numbers(b), i);
      assert Numbers(a) == Numbers(a[..m]) + [Number(a[m])];
    }
  }

  lemma NumbersWithout(keys: seq<seq<byte>>, i: nat)
    requires i < |keys|
    ensures Numbers(RemoveAt(keys, i)) == RemoveAt(Numbers(keys), i)
  {
  }

  /** The numbers of the sorted identities: the party list in ascending order. */
  function SortedNumbers(parties: seq<nat>): (r: seq<nat>)
    ensures |r| == |parties|
  {
    seq(|parties|, i requires 0 <= i < |parties| => Number(PartyIDs(parties)[i].key))
  }

  lemma SortedNumbersSpec(parties: seq<nat>)
    ensures Sorted(SortedNumbers(parties)) && multiset(SortedNumbers(parties)) == multiset(parties)
  {
    var keys := SortKeys(Keys(parties));
    assert |multiset(keys)| == |multiset(Keys(parties))|;
    assert SortedNumbers(parties) == Numbers(keys);
    NumbersPermuted(keys, Keys(parties));
    forall i | 0 <= i < |parties| ensures Numbers(Keys(parties))[i] == parties[i] {
      KeyRoundTrip(parties[i]);
    }
    assert Numbers(Keys(parties)) == parties;
  }

  /** Every identity carries its own position and the minimal bytes of its number. */
  lemma PartyIDAt(parties: seq<nat>, i: nat)
    requires i < |parties|
    ensures PartyIDs(parties)[i] == PartyID(Key(SortedNumbers(parties)[i]), i)
  {
    var keys := SortKeys(Keys(parties));
    assert |multiset(keys)| == |multiset(Keys(parties))|;
    assert keys[i] in multiset(keys) && keys[i] in multiset(Keys(parties));
    var j := IndexOf(Keys(parties), keys[i]);
    KeyRoundTrip(parties[j]);
  }

  /** The located index is the rank of the number in the list, in whatever order the list was
      given, and -1 exactly for a number outside it. */
  lemma IndexIsRank(parties: seq<nat>, n: nat)
    ensures Locate(PartyIDs(parties), Key(n)) == if n in parties then CountBelow(parties, n) else -1
  {
    var ids, sorted := PartyIDs(parties), SortedNumbers(parties);
    var i := Locate(ids, Key(n));
    SortedNumbersSpec(parties);
    SameMembers(sorted, parties, n);
    KeysMatchNumbers(parties, n);
    hide PartyIDs, SortedNumbers, Key, Locate, CountBelow, Sorted;
    if i >= 0 {
      assert forall j | 0 <= j < i :: ids[j].key != Key(n) && sorted[j] != n;
      FirstOccurrence(sorted, n, i);
      CountBelowPermuted(sorted, parties, n);
    } else {
      assert forall j | 0 <= j < |sorted| :: ids[j].key != Key(n) && sorted[j] != n;
    }
  }

  lemma FirstOccurrence(sorted: seq<nat>, n: nat, i: nat)
    requires Sorted(sorted) && i < |sorted| && sorted[i] == n && forall j | 0 <= j < i :: sorted[j] != n
    ensures n in sorted && CountBelow(sorted, n) == i
  {
    assert forall j | 0 <= j < i :: sorted[j] <= sorted[i];
    CountBelowSorted(sorted, n, i);
  }

  lemma SameMembers(s: seq<nat>, t: seq<nat>, n: nat)
    requires multiset(s) == multiset(t)
    ensures n in s <==> n in t
  {
    assert n in s <==> n in multiset(s);
    assert n in t <==> n in multiset(t);
  }

  /** An identity has the key of n exactly where the sorted list has n. */
  lemma KeysMatchNumbers(parties: seq<nat>, n: nat)
    ensures forall j | 0 <= j < |parties| :: PartyIDs(parties)[j].key == Key(n) <==> SortedNumbers(parties)[j] == n
  {
    KeyRoundTrip(n);
    forall j | 0 <= j < |parties|
      ensures PartyIDs(parties)[j].key == Key(n) <==> SortedNumbers(parties)[j] == n
    {
      PartyIDAt(parties, j);
    }
  }

  /** Nodes that were given the same parties in different orders locate every party alike. */
  lemma IndexAgreement(parties: seq<nat>, other: seq<nat>, n: nat)
    requires multiset(parties) == multiset(other)
    ensures Locate(PartyIDs(parties), Key(n)) == Locate(PartyIDs(other), Key(n))
  {
    IndexIsRank(parties, n);
    IndexIsRank(other, n);
    CountBelowPermuted(parties, other, n);
    SameMembers(parties, other, n);
    hide PartyIDs, Key, Locate, CountBelow;
  }

  /** For different party numbers the index is a bijection onto 0..n-1. */
  lemma IndexBijection(parties: seq<nat>)
    requires Distinct(parties)
    ensures forall i | 0 <= i < |parties| ::
              SortedNumbers(parties)[i] in parties && Locate(PartyIDs(parties), Key(SortedNumbers(parties)[i])) == i
    ensures forall n, m | n in parties && m in parties && n != m ::
              Locate(PartyIDs(parties), Key(n)) != Locate(PartyIDs(parties), Key(m))
  {
    var ids, sorted := PartyIDs(parties), SortedNumbers(parties);
    SortedNumbersSpec(parties);
    SameMultisetSameSet(parties, sorted);
    forall i | 0 <= i < |parties|
      ensures sorted[i] in parties && Locate(ids, Key(sorted[i])) == i
    {
      assert sorted[i] in ToSet(sorted);
      PartyIDAt(parties, i);
      var j := Locate(ids, Key(sorted[i]));
      PartyIDAt(parties, j);
      KeyRoundTrip(sorted[i]);
      KeyRoundTrip(sorted[j]);
    }
    forall n, m | n in parties && m in parties && n != m
      ensures Locate(ids, Key(n)) != Locate(ids, Key(m))
    {
      IndexIsRank(parties, n);
      KeyRoundTrip(n);
      KeyRoundTrip(m);
    }
  }

  // ----- numbers back from keys

  /** Decodes the keys to 16-bit numbers. */
  method NumericIDs(ids: seq<PartyID>) returns (res: seq<uint16>)
    ensures |res| == |ids|
    ensures forall i | 0 <= i < |ids| :: res[i] == Number(ids[i].key) % 65536
  {
    res := [];
    for i := 0 to |ids|
      invariant |res| == i
      invariant forall j | 0 <= j < i :: res[j] == Number(ids[j].key) % UINT16
    {
      res := res + [Number(ids[i].key) % UINT16];
    }
  }

  /** Decoding the identities of 16-bit parties gives the parties in ascending order. */
  lemma NumericIDsAreSorted(parties: seq<uint16>, res: seq<uint16>)
    requires |res| == |parties|
    requires forall i | 0 <= i < |parties| :: res[i] == Number(PartyIDs(parties)[i].key) % UINT16
    ensures Sorted(res) && multiset(res) == multiset(parties)
  {
    var sorted: seq<int> := SortedNumbers(parties);
    SortedNumbersSpec(parties);
    forall i | 0 <= i < |parties| ensures res[i] == sorted[i] {
      assert sorted[i] in multiset(sorted);
      assert sorted[i] in parties;
      var n: uint16 := parties[IndexOf(parties, sorted[i])];
      DivModUnique(UINT16, 0, n);
    }
    assert res == sorted;
  }

  /** The low 16 bits of every id. */
  method ConvertToUint16(ids: seq<uint32>) returns (r: seq<uint16>)
    ensures |r| == |ids| && forall i | 0 <= i < |ids| :: r[i] == ids[i] % 65536
  {
    var result := new uint16[|ids|];
    for i := 0 to |ids|
      invariant forall j | 0 <= j < i :: result[j] == ids[j] % UINT16
    {
      result[i] := ids[i] % UINT16;
    }
    r := result[..];
  }

  method ConvertToUint32(ids: seq<uint16>) returns (r: seq<uint32>)
    ensures r == ids
  {
    var result := new uint32[|ids|];
    for i := 0 to |ids|
      invariant forall j | 0 <= j < i :: result[j] == ids[j]
    {
      result[i] := ids[i];
    }
    r := result[..];
  }
}
