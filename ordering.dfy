/** The `update-order` handler's sort. The window sends the names in the
    order the user dragged them into; the records are sorted with the
    comparator `newOrder.indexOf(a.name) - newOrder.indexOf(b.name)`, that
    is, by the key `indexOf` of their name, where a name the list lacks has
    key -1. `Array.prototype.sort` is stable, so the result is the one
    stable sort of the records by that key, written here as an insertion
    sort. */
module Ordering {
  import opened ImageRecords

  /** `order.indexOf(name)`: the first position of `name`, or -1. */
  function IndexOf(order: seq<string>, name: string): (r: int)
    ensures -1 <= r < |order|
    ensures r == -1 <==> name !in order
    ensures r != -1 ==> order[r] == name && name !in order[..r]
  {
    if order == [] then -1
    else if order[0] == name then 0
    else
      var k := IndexOf(order[1..], name);
      if k == -1 then -1
      else
        assert order[..k + 1] == [order[0]] + order[1..][..k];
        k + 1
  }

  /** The sort key of a record. */
  function Key(order: seq<string>, x: Record): (k: int) {
    IndexOf(order, x.name)
  }

  /** No name occurs twice in `order`. */
  predicate NoDuplicates(order: seq<string>) {
    forall i, j :: 0 <= i < j < |order| ==> order[i] != order[j]
  }

  /** The keys of `s` never decrease. */
  predicate SortedBy(order: seq<string>, s: seq<Record>) {
    forall i, j :: 0 <= i < j < |s| ==> Key(order, s[i]) <= Key(order, s[j])
  }

  /** The records of `s` whose key is `k`, in their order in `s`. */
  function WithKey(order: seq<string>, s: seq<Record>, k: int): (r: seq<Record>) {
    if s == [] then []
    else (if Key(order, s[0]) == k then [s[0]] else []) + WithKey(order, s[1..], k)
  }

  /** Puts `x` in front of the first record of `t` whose key is not smaller. */
  function Insert(order: seq<string>, x: Record, t: seq<Record>): (r: seq<Record>)
    ensures |r| == |t| + 1
    ensures multiset(r) == multiset(t) + multiset{x}
  {
    if t == [] then [x]
    else if Key(order, x) <= Key(order, t[0]) then [x] + t
    else
      var rest := Insert(order, x, t[1..]);
      assert t == [t[0]] + t[1..];
      [t[0]] + rest
  }

  /** `images.sort((a, b) => order.indexOf(a.name) - order.indexOf(b.name))`. */
  function SortByKey(order: seq<string>, s: seq<Record>): (r: seq<Record>)
    ensures |r| == |s|
    ensures multiset(r) == multiset(s)
  {
    if s == [] then []
    else
      assert s == [s[0]] + s[1..];
      Insert(order, s[0], SortByKey(order, s[1..]))
  }

  /** Every record of `Insert(order, x, t)` is `x` or a record of `t`. */
  lemma InsertMember(order: seq<string>, x: Record, t: seq<Record>, y: Record)
    requires y in Insert(order, x, t)
    ensures y == x || y in t
  {
    assert y in multiset(Insert(order, x, t));
  }

  lemma SortedTail(order: seq<string>, t: seq<Record>)
    requires t != [] && SortedBy(order, t)
    ensures SortedBy(order, t[1..])
    ensures forall y :: y in t[1..] ==> Key(order, t[0]) <= Key(order, y)
  {
    forall y | y in t[1..] ensures Key(order, t[0]) <= Key(order, y) {
      var m :| 0 <= m < |t[1..]| && t[1..][m] == y;
      assert t[m + 1] == y;
    }
  }

  lemma SortedCons(order: seq<string>, a: Record, u: seq<Record>)
    requires SortedBy(order, u)
    requires forall y :: y in u ==> Key(order, a) <= Key(order, y)
    ensures SortedBy(order, [a] + u)
  {
    var r := [a] + u;
    forall i, j | 0 <= i < j < |r| ensures Key(order, r[i]) <= Key(order, r[j]) {
      assert r[j] == u[j - 1];
      if i > 0 {
        assert r[i] == u[i - 1];
      } else {
        assert u[j - 1] in u;
      }
    }
  }

  lemma {:induction false} InsertSorted(order: seq<string>, x: Record, t: seq<Record>)
    requires SortedBy(order, t)
    ensures SortedBy(order, Insert(order, x, t))
    decreases |t|
  {
    if t == [] {
    } else if Key(order, x) <= Key(order, t[0]) {
      forall y | y in t ensures Key(order, x) <= Key(order, y) {
        if y != t[0] {
          SortedTail(order, t);
          assert y in t[1..] by {
            assert t == [t[0]] + t[1..];
          }
        }
      }
      SortedCons(order, x, t);
    } else {
      SortedTail(order, t);
      InsertSorted(order, x, t[1..]);
      var rest := Insert(order, x, t[1..]);
      forall y | y in rest ensures Key(order, t[0]) <= Key(order, y) {
        InsertMember(order, x, t[1..], y);
      }
      SortedCons(order, t[0], rest);
    }
  }

  /** The sorted records are in key order. */
  lemma {:induction false} SortByKeySorted(order: seq<string>, s: seq<Record>)
    ensures SortedBy(order, SortByKey(order, s))
    decreases |s|
  {
    if s != [] {
      SortByKeySorted(order, s[1..]);
      InsertSorted(order, s[0], SortByKey(order, s[1..]));
    }
  }

  lemma WithKeyCons(order: seq<string>, a: Record, u: seq<Record>, k: int)
    ensures WithKey(order, [a] + u, k) == (if Key(order, a) == k then [a] else []) + WithKey(order, u, k)
  {
    assert ([a] + u)[0] == a && ([a] + u)[1..] == u;
  }

  lemma {:induction false} WithKeyOfInsert(order: seq<string>, x: Record, t: seq<Record>, k: int)
    ensures WithKey(order, Insert(order, x, t), k)
         == (if Key(order, x) == k then [x] else []) + WithKey(order, t, k)
    decreases |t|
  {
    if t == [] {
      WithKeyCons(order, x, [], k);
    } else if Key(order, x) <= Key(order, t[0]) {
      WithKeyCons(order, x, t, k);
    } else {
      var rest := Insert(order, x, t[1..]);
      WithKeyOfInsert(order, x, t[1..], k);
      WithKeyCons(order, t[0], rest, k);
      WithKeyCons(order, t[0], t[1..], k);
      assert [t[0]] + t[1..] == t;
      var ex := if Key(order, x) == k then [x] else [];
      var et := if Key(order, t[0]) == k then [t[0]] else [];
      assert et == [] || ex == [];
      calc {
        WithKey(order, Insert(order, x, t), k);
        et + (ex + WithKey(order, t[1..], k));
        ex + (et + WithKey(order, t[1..], k));
      }
    }
  }

  /** Stability: for every key, the records with that key keep their
      relative order. */
  lemma {:induction false} SortByKeyStable(order: seq<string>, s: seq<Record>, k: int)
    ensures WithKey(order, SortByKey(order, s), k) == WithKey(order, s, k)
    decreases |s|
  {
    if s != [] {
      SortByKeyStable(order, s[1..], k);
      WithKeyOfInsert(order, s[0], SortByKey(order, s[1..]), k);
    }
  }

  /** A record whose name the list lacks (key -1) comes before every listed
      one, and those records keep their original relative order. */
  lemma SortPutsUnlistedFirst(order: seq<string>, s: seq<Record>)
    ensures var r := SortByKey(order, s);
      forall i, j :: 0 <= i < j < |r| && Key(order, r[j]) == -1 ==> Key(order, r[i]) == -1
    ensures WithKey(order, SortByKey(order, s), -1) == WithKey(order, s, -1)
  {
    SortByKeySorted(order, s);
    SortByKeyStable(order, s, -1);
  }

  lemma {:induction false} InsertKeepsDistinct(order: seq<string>, x: Record, t: seq<Record>)
    requires NamesDistinct(t) && Absent(t, x.name)
    ensures NamesDistinct(Insert(order, x, t))
    decreases |t|
  {
    if t != [] && Key(order, x) > Key(order, t[0]) {
      var rest := Insert(order, x, t[1..]);
      InsertKeepsDistinct(order, x, t[1..]);
      forall j | 0 <= j < |rest| ensures t[0].name != rest[j].name {
        assert rest[j] in multiset(rest);
        if rest[j] != x {
          assert rest[j] in multiset(t[1..]);
          var m :| 0 <= m < |t[1..]| && t[1..][m] == rest[j];
          assert t[m + 1] == rest[j];
        }
      }
      var r := [t[0]] + rest;
      forall i, j | 0 <= i < j < |r| ensures r[i].name != r[j].name {
        assert r[j] == rest[j - 1];
      }
    }
  }

  /** Sorting never creates a duplicate name. */
  lemma {:induction false} SortByKeyKeepsDistinct(order: seq<string>, s: seq<Record>)
    requires NamesDistinct(s)
    ensures NamesDistinct(SortByKey(order, s))
    decreases |s|
  {
    if s != [] {
      var t := SortByKey(order, s[1..]);
      SortByKeyKeepsDistinct(order, s[1..]);
      forall i | 0 <= i < |t| ensures t[i].name != s[0].name {
        assert t[i] in multiset(s[1..]);
        var m :| 0 <= m < |s[1..]| && s[1..][m] == t[i];
        assert s[m + 1] == t[i];
      }
      InsertKeepsDistinct(order, s[0], t);
    }
  }

  lemma {:induction false} StrictAtLeastIndex(k: seq<int>, i: int)
    requires forall a, b :: 0 <= a < b < |k| ==> k[a] < k[b]
    requires forall a :: 0 <= a < |k| ==> 0 <= k[a]
    requires 0 <= i < |k|
    ensures i <= k[i]
    decreases i
  {
    if i > 0 {
      StrictAtLeastIndex(k, i - 1);
    }
  }

  lemma {:induction false} StrictAtMostIndex(k: seq<int>, i: int)
    requires forall a, b :: 0 <= a < b < |k| ==> k[a] < k[b]
    requires forall a :: 0 <= a < |k| ==> k[a] < |k|
    requires 0 <= i < |k|
    ensures k[i] <= i
    decreases |k| - i
  {
    if i < |k| - 1 {
      StrictAtMostIndex(k, i + 1);
    }
  }

  /** When the list names every stored record exactly once, the sorted
      records follow the list. */
  lemma SortFollowsCompleteOrder(order: seq<string>, s: seq<Record>)
    requires NamesDistinct(s) && NoDuplicates(order) && |order| == |s|
    requires forall x :: x in s ==> x.name in order
    ensures var r := SortByKey(order, s);
      |r| == |order| && forall i :: 0 <= i < |r| ==> r[i].name == order[i]
  {
    var r := SortByKey(order, s);
    SortByKeySorted(order, s);
    SortByKeyKeepsDistinct(order, s);
    var k := seq(|r|, i requires 0 <= i < |r| => Key(order, r[i]));
    forall a | 0 <= a < |r| ensures 0 <= k[a] < |k| && order[k[a]] == r[a].name {
      assert r[a] in multiset(s);
    }
    forall a, b | 0 <= a < b < |k| ensures k[a] < k[b] {
      assert k[a] != k[b] by {
        assert order[k[a]] == r[a].name && order[k[b]] == r[b].name;
      }
    }
    forall i | 0 <= i < |r| ensures r[i].name == order[i] {
      StrictAtLeastIndex(k, i);
      StrictAtMostIndex(k, i);
    }
  }
}
