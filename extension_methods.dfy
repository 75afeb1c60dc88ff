/**
 * ExtensionMethods.cs: `Split`, which deals a list round-robin into groups,
 * and `DistinctBy`, which keeps the first element of each key.
 */
module ExtensionMethods {
  import opened Wrappers
  import opened Drawing
  import opened Sequences

  // ---------------------------------------------------------------------------
  // Split

  /** One group of a `group … by … into` query: its key and its items in source order. */
  datatype Group<T> = Group(key: int, items: seq<T>)

  /** Adds `x` under `key`: at the end of that key's group, or as a new last group. */
  function AddToGroup<T>(groups: seq<Group<T>>, key: int, x: T): seq<Group<T>>
    decreases |groups|
  {
    if groups == [] then [Group(key, [x])]
    else if groups[0].key == key then [Group(key, groups[0].items + [x])] + groups[1..]
    else [groups[0]] + AddToGroup(groups[1..], key, x)
  }

  /** `group item by key`: the groups in the order their keys first appear. */
  function GroupBy<T>(items: seq<T>, keys: seq<int>): seq<Group<T>>
    requires |items| == |keys|
    decreases |items|
  {
    if items == [] then []
    else AddToGroup(GroupBy(items[..|items| - 1], keys[..|keys| - 1]), keys[|keys| - 1], items[|items| - 1])
  }

  /** The keys `i++ % parts` hands out, C#'s `%` being truncating. */
  function Keys(n: nat, parts: int): seq<int>
    requires parts != 0
  {
    seq(n, i requires 0 <= i < n => TruncRem(i, parts))
  }

  function Items<T>(groups: seq<Group<T>>): seq<seq<T>> {
    seq(|groups|, k requires 0 <= k < |groups| => groups[k].items)
  }

  /**
   * `Split`, enumerated once. With `parts` zero the first item's key is a
   * division by zero, so only an empty list splits.
   */
  function Split<T>(list: seq<T>, parts: int): (r: Option<seq<seq<T>>>)
    ensures r.None? <==> parts == 0 && |list| > 0
  {
    if parts == 0 then (if list == [] then Some([]) else Option.None)
    else Some(Items(GroupBy(list, Keys(|list|, parts))))
  }

  /** The items at the positions `i` of `list` with `i % m == k`, in order. */
  function Pick<T>(list: seq<T>, k: int, m: nat): seq<T>
    requires m > 0
    decreases |list|
  {
    if list == [] then []
    else Pick(list[..|list| - 1], k, m) + (if (|list| - 1) % m == k then [list[|list| - 1]] else [])
  }

  function Min(a: int, b: int): int { if a < b then a else b }

  /** Adding under a key no group has yet opens a new last group. */
  lemma {:induction false} AddToGroupNew<T>(groups: seq<Group<T>>, key: int, x: T)
    requires forall j :: 0 <= j < |groups| ==> groups[j].key != key
    ensures AddToGroup(groups, key, x) == groups + [Group(key, [x])]
    decreases |groups|
  {
    if groups != [] {
      AddToGroupNew(groups[1..], key, x);
    }
  }

  /** Adding under the key of group `j` extends that group only. */
  lemma {:induction false} AddToGroupAt<T>(groups: seq<Group<T>>, j: nat, x: T)
    requires j < |groups|
    requires forall i :: 0 <= i < j ==> groups[i].key != groups[j].key
    ensures AddToGroup(groups, groups[j].key, x) == groups[j := Group(groups[j].key, groups[j].items + [x])]
    decreases j
  {
    if j > 0 {
      AddToGroupAt(groups[1..], j - 1, x);
    }
  }

  lemma ModOfSmall(a: int, m: int)
    requires 0 <= a < m
    ensures a % m == a
  {
    assert a / m == 0;
  }

  /** A remainder is never larger than the number divided. */
  lemma ModAtMost(a: int, m: int)
    requires 0 <= a && 0 < m
    ensures a % m <= a
  {
    assert a == m * (a / m) + a % m;
    assert a / m >= 0;
    assert m * (a / m) >= 0;
  }

  /** Positions at or beyond `k` never have remainder `k`. */
  lemma {:induction false} PickBeyond<T>(list: seq<T>, k: int, m: nat)
    requires m > 0 && k >= |list|
    ensures Pick(list, k, m) == []
    decreases |list|
  {
    if list != [] {
      var n := |list| - 1;
      PickBeyond(list[..n], k, m);
      ModAtMost(n, m);
      assert n % m != k;
      assert Pick(list, k, m) == Pick(list[..n], k, m) + [];
    }
  }

  /** The groups of a round-robin deal: group `k`, for each k below both n and m, holds the items at positions `k` mod m. */
  function Dealt<T>(list: seq<T>, m: nat): seq<Group<T>>
    requires m > 0
  {
    seq(Min(|list|, m), k requires 0 <= k < Min(|list|, m) => Group(k, Pick(list, k, m)))
  }

  /** One more item extends the deal: a new group while fewer items than groups were dealt, else the group of its remainder. */
  lemma DealtSnoc<T>(list: seq<T>, m: nat)
    requires m > 0 && list != []
    ensures var n, init, x := |list|, list[..|list| - 1], list[|list| - 1];
      && (n - 1 < m ==> Dealt(list, m) == Dealt(init, m) + [Group(n - 1, [x])])
      && (n - 1 >= m ==>
            var key := (n - 1) % m;
            && key < |Dealt(init, m)|
            && Dealt(list, m) == Dealt(init, m)[key := Group(key, Dealt(init, m)[key].items + [x])])
  {
    var n, init, x := |list|, list[..|list| - 1], list[|list| - 1];
    var prev, next := Dealt(init, m), Dealt(list, m);
    assert forall k :: 0 <= k < |next| ==> next[k].items == Pick(init, k, m) + (if (n - 1) % m == k then [x] else []);
    if n - 1 < m {
      ModOfSmall(n - 1, m);
      PickBeyond(init, n - 1, m);
      assert |next| == n && |prev| == n - 1;
      forall k | 0 <= k < n ensures next[k] == (prev + [Group(n - 1, [x])])[k] {
        if k < n - 1 {
          assert next[k].items == Pick(init, k, m);
        }
      }
      assert next == prev + [Group(n - 1, [x])];
    } else {
      var key := (n - 1) % m;
      assert |next| == m == |prev|;
      forall k | 0 <= k < m ensures next[k] == prev[key := Group(key, prev[key].items + [x])][k] {
        if k != key {
          assert next[k].items == Pick(init, k, m);
        }
      }
      assert next == prev[key := Group(key, prev[key].items + [x])];
    }
  }

  lemma {:induction false} GroupByDeals<T>(list: seq<T>, parts: int)
    requires parts != 0
    ensures GroupBy(list, Keys(|list|, parts)) == Dealt(list, Abs(parts))
    decreases |list|
  {
    var m := Abs(parts);
    if list != [] {
      var n := |list|;
      var init, x := list[..n - 1], list[n - 1];
      assert Keys(n, parts)[..n - 1] == Keys(n - 1, parts);
      GroupByDeals(init, parts);
      var prev := Dealt(init, m);
      TruncRemOfNatural(n - 1, parts);
      var key := (n - 1) % m;
      assert Keys(n, parts)[n - 1] == key;
      assert GroupBy(list, Keys(n, parts)) == AddToGroup(prev, key, x);
      DealtSnoc(list, m);
      assert forall j :: 0 <= j < |prev| ==> prev[j].key == j;
      if n - 1 < m {
        ModOfSmall(n - 1, m);
        AddToGroupNew(prev, key, x);
        assert AddToGroup(prev, key, x) == Dealt(list, m);
      } else {
        assert prev[key].key == key;
        AddToGroupAt(prev, key, x);
        assert AddToGroup(prev, key, x) == Dealt(list, m);
      }
    }
  }

  /**
   * For `parts` other than zero, `Split` deals `list` round-robin into
   * min(|list|, |parts|) groups: group k holds, in order, the items at the
   * positions congruent to k modulo |parts| (a negative count behaves as
   * its magnitude, since the positions are never negative).
   */
  lemma SplitDeals<T>(list: seq<T>, parts: int)
    requires parts != 0
    ensures var m := Abs(parts);
      Split(list, parts) == Some(seq(Min(|list|, m), k requires 0 <= k < Min(|list|, m) => Pick(list, k, m)))
  {
    var m := Abs(parts);
    GroupByDeals(list, parts);
    assert Items(Dealt(list, m)) == seq(Min(|list|, m), k requires 0 <= k < Min(|list|, m) => Pick(list, k, m));
  }

  /** Every item lands in the group of its position's remainder, so group `k` holds exactly those items. */
  lemma {:induction false} PickMembers<T>(list: seq<T>, k: int, m: nat)
    requires m > 0
    ensures forall x :: x in Pick(list, k, m) <==> exists i :: 0 <= i < |list| && i % m == k && list[i] == x
    ensures Subsequence(Pick(list, k, m), list)
    decreases |list|
  {
    if list != [] {
      var n := |list|;
      var init := list[..n - 1];
      PickMembers(init, k, m);
      assert init + [list[n - 1]] == list;
      SubsequenceStep(Pick(init, k, m), init, list[n - 1], (n - 1) % m == k);
      forall x ensures x in Pick(list, k, m) <==> exists i :: 0 <= i < n && i % m == k && list[i] == x {
        if x in Pick(list, k, m) && x !in Pick(init, k, m) {
          assert list[n - 1] == x && (n - 1) % m == k;
        }
        if exists i :: 0 <= i < n && i % m == k && list[i] == x {
          var i :| 0 <= i < n && i % m == k && list[i] == x;
          if i < n - 1 {
            assert init[i] == x;
          }
        }
      }
    }
  }

  function Flatten<T>(parts: seq<seq<T>>): seq<T>
    decreases |parts|
  {
    if parts == [] then [] else parts[0] + Flatten(parts[1..])
  }

  /** The items of a group followed by more groups are that group's items, then theirs. */
  lemma FlattenItemsCons<T>(g: Group<T>, rest: seq<Group<T>>)
    ensures Flatten(Items([g] + rest)) == g.items + Flatten(Items(rest))
  {
    var gs := [g] + rest;
    assert Items(gs)[0] == g.items;
    assert Items(gs)[1..] == Items(rest);
  }

  lemma {:induction false} AddToGroupAdds<T>(groups: seq<Group<T>>, key: int, x: T)
    ensures multiset(Flatten(Items(AddToGroup(groups, key, x)))) == multiset(Flatten(Items(groups))) + multiset{x}
    decreases |groups|
  {
    if groups == [] {
      FlattenItemsCons(Group(key, [x]), []);
    } else {
      var g, rest := groups[0], groups[1..];
      assert groups == [g] + rest;
      FlattenItemsCons(g, rest);
      if g.key == key {
        FlattenItemsCons(Group(key, g.items + [x]), rest);
        assert AddToGroup(groups, key, x) == [Group(key, g.items + [x])] + rest;
      } else {
        AddToGroupAdds(rest, key, x);
        FlattenItemsCons(g, AddToGroup(rest, key, x));
        assert AddToGroup(groups, key, x) == [g] + AddToGroup(rest, key, x);
      }
    }
  }

  lemma {:induction false} GroupByPermutes<T>(items: seq<T>, keys: seq<int>)
    requires |items| == |keys|
    ensures multiset(Flatten(Items(GroupBy(items, keys)))) == multiset(items)
    decreases |items|
  {
    if items != [] {
      var n := |items|;
      GroupByPermutes(items[..n - 1], keys[..n - 1]);
      AddToGroupAdds(GroupBy(items[..n - 1], keys[..n - 1]), keys[n - 1], items[n - 1]);
      assert items[..n - 1] + [items[n - 1]] == items;
    }
  }

  /** Whatever `parts` is, the groups `Split` returns hold exactly the list's items, each once. */
  lemma SplitPermutes<T>(list: seq<T>, parts: int)
    ensures Split(list, parts).Some? ==> multiset(Flatten(Split(list, parts).value)) == multiset(list)
  {
    if parts != 0 {
      GroupByPermutes(list, Keys(|list|, parts));
    }
  }

  // ---------------------------------------------------------------------------
  // DistinctBy

  function KeysOf<T, K>(s: seq<T>, keySelector: T -> K): set<K> {
    set i | 0 <= i < |s| :: keySelector(s[i])
  }

  /** The first element of each key, in source order. */
  function FirstOfEachKey<T, K(==)>(s: seq<T>, keySelector: T -> K): seq<T>
    decreases |s|
  {
    if s == [] then []
    else
      var init := s[..|s| - 1];
      FirstOfEachKey(init, keySelector) +
      (if keySelector(s[|s| - 1]) in KeysOf(init, keySelector) then [] else [s[|s| - 1]])
  }

  lemma KeysOfSnoc<T, K>(s: seq<T>, x: T, keySelector: T -> K)
    ensures KeysOf(s + [x], keySelector) == KeysOf(s, keySelector) + {keySelector(x)}
  {
    var t := s + [x];
    assert forall i :: 0 <= i < |s| ==> t[i] == s[i];
    assert t[|s|] == x;
  }

  /**
   * `DistinctBy`: walk the source once, yielding each element whose key the
   * set of seen keys did not yet hold (`HashSet.Add` returns true).
   */
  method DistinctBy<T, K(==)>(source: seq<T>, keySelector: T -> K) returns (result: seq<T>)
    ensures result == FirstOfEachKey(source, keySelector)
  {
    var seenKeys: set<K> := {};
    result := [];
    for i := 0 to |source|
      invariant result == FirstOfEachKey(source[..i], keySelector)
      invariant seenKeys == KeysOf(source[..i], keySelector)
    {
      assert source[..i + 1][..i] == source[..i];
      KeysOfSnoc(source[..i], source[i], keySelector);
      assert source[..i] + [source[i]] == source[..i + 1];
      var key := keySelector(source[i]);
      if key !in seenKeys {
        seenKeys := seenKeys + {key};
        result := result + [source[i]];
      }
    }
    assert source[..|source|] == source;
  }

  /**
   * The result keeps source order, has no two elements with the same key,
   * and covers every key of the source.
   */
  lemma {:induction false} FirstOfEachKeyFacts<T, K>(s: seq<T>, keySelector: T -> K)
    ensures var r := FirstOfEachKey(s, keySelector);
      && Subsequence(r, s)
      && (forall i, j :: 0 <= i < j < |r| ==> keySelector(r[i]) != keySelector(r[j]))
      && KeysOf(r, keySelector) == KeysOf(s, keySelector)
    decreases |s|
  {
    if s != [] {
      var init, x := s[..|s| - 1], s[|s| - 1];
      assert init + [x] == s;
      FirstOfEachKeyFacts(init, keySelector);
      var prev := FirstOfEachKey(init, keySelector);
      var keep := keySelector(x) !in KeysOf(init, keySelector);
      SubsequenceStep(prev, init, x, keep);
      KeysOfSnoc(init, x, keySelector);
      if keep {
        KeysOfSnoc(prev, x, keySelector);
        var r := prev + [x];
        forall i, j | 0 <= i < j < |r| ensures keySelector(r[i]) != keySelector(r[j]) {
          if j == |prev| {
            assert keySelector(r[i]) in KeysOf(prev, keySelector);
          }
        }
      } else {
        assert prev + [] == prev;
      }
    }
  }

  /** Each element kept is the first of its key: no earlier element of the source shares it. */
  lemma {:induction false} FirstOfEachKeyKeepsFirst<T, K>(s: seq<T>, keySelector: T -> K)
    ensures forall x :: x in FirstOfEachKey(s, keySelector) ==>
      exists i :: 0 <= i < |s| && s[i] == x && forall j :: 0 <= j < i ==> keySelector(s[j]) != keySelector(x)
    decreases |s|
  {
    if s != [] {
      var init, x := s[..|s| - 1], s[|s| - 1];
      FirstOfEachKeyKeepsFirst(init, keySelector);
      forall y | y in FirstOfEachKey(s, keySelector)
        ensures exists i :: 0 <= i < |s| && s[i] == y && forall j :: 0 <= j < i ==> keySelector(s[j]) != keySelector(y)
      {
        if y in FirstOfEachKey(init, keySelector) {
          var i :| 0 <= i < |init| && init[i] == y && forall j :: 0 <= j < i ==> keySelector(init[j]) != keySelector(y);
          assert s[i] == y;
        } else {
          assert y == x && keySelector(x) !in KeysOf(init, keySelector);
          forall j | 0 <= j < |s| - 1 ensures keySelector(s[j]) != keySelector(y) {
            assert keySelector(init[j]) in KeysOf(init, keySelector);
          }
        }
      }
    }
  }

  /** A sequence whose keys are already distinct is its own result. */
  lemma {:induction false} DistinctKeysFixed<T, K>(s: seq<T>, keySelector: T -> K)
    requires forall i, j :: 0 <= i < j < |s| ==> keySelector(s[i]) != keySelector(s[j])
    ensures FirstOfEachKey(s, keySelector) == s
    decreases |s|
  {
    if s != [] {
      var init, x := s[..|s| - 1], s[|s| - 1];
      DistinctKeysFixed(init, keySelector);
      forall i | 0 <= i < |init| ensures keySelector(init[i]) != keySelector(x) {
        assert init[i] == s[i];
      }
      assert keySelector(x) !in KeysOf(init, keySelector);
      assert init + [x] == s;
    }
  }

  /** Applying `DistinctBy` twice is applying it once. */
  lemma FirstOfEachKeyIdempotent<T, K>(s: seq<T>, keySelector: T -> K)
    ensures FirstOfEachKey(FirstOfEachKey(s, keySelector), keySelector) == FirstOfEachKey(s, keySelector)
  {
    FirstOfEachKeyFacts(s, keySelector);
    DistinctKeysFixed(FirstOfEachKey(s, keySelector), keySelector);
  }
}
