/** The image records of a project's sidecar file and the operations of the
    main process that read or rewrite them record by record: the lookup by
    file name, the merge of an update into a record, the insert-or-update
    of `updateXML`, and the two filters (dropping records whose file is gone,
    dropping the record of a deleted file). */
module ImageRecords {
  import opened Optional

  /** One object of the sidecar's JSON array. `start` and `end` are JSON
      `null` (None) or the string a date-time input produced. */
  datatype Record = Record(name: string, alwaysShow: bool, start: Option<string>, end: Option<string>)

  /** An update sent by the window for one record, without its `file` key:
      a checkbox change carries only `alwaysShow`, a date-time change only
      `start` or only `end`. */
  datatype Patch = Patch(alwaysShow: Option<bool>, start: Option<string>, end: Option<string>)

  /** The record appended for a file the sidecar does not list yet. */
  function DefaultRecord(name: string): (r: Record) {
    Record(name, true, None, None)
  }

  /** No record of `s` is keyed by `name`. */
  predicate Absent(s: seq<Record>, name: string) {
    forall i :: 0 <= i < |s| ==> s[i].name != name
  }

  /** No two records of `s` share a file name. */
  predicate NamesDistinct(s: seq<Record>) {
    forall i, j :: 0 <= i < j < |s| ==> s[i].name != s[j].name
  }

  /** Every record of `s` names a file of `files`. */
  predicate AllIn(s: seq<Record>, files: set<string>) {
    forall x :: x in s ==> x.name in files
  }

  /** `i` is the position of the first record keyed by `name`. */
  predicate IsFirst(s: seq<Record>, i: int, name: string)
    requires 0 <= i < |s|
  {
    s[i].name == name && Absent(s[..i], name)
  }

  /** `a` is `b` with some elements left out, the rest in their order. */
  predicate IsSubsequence<T(==)>(a: seq<T>, b: seq<T>)
    decreases |b|
  {
    if a == [] then true
    else if b == [] then false
    else if a[0] == b[0] then IsSubsequence(a[1..], b[1..])
    else IsSubsequence(a, b[1..])
  }

  /** `images.findIndex(img => img.name === name)`: the first position of a
      record keyed by `name`, or -1 when there is none. */
  function FindIndex(s: seq<Record>, name: string): (r: int)
    ensures -1 <= r < |s|
    ensures r == -1 <==> Absent(s, name)
    ensures r != -1 ==> IsFirst(s, r, name)
  {
    if s == [] then -1
    else if s[0].name == name then 0
    else
      var k := FindIndex(s[1..], name);
      if k == -1 then -1
      else
        assert s[..k + 1] == [s[0]] + s[1..][..k];
        k + 1
  }

  /** `{ ...record, ...rest }`: every field the patch carries replaces the
      record's; the record's key is never among them. */
  function Merge(rec: Record, p: Patch): (r: Record)
    ensures r.name == rec.name
    ensures p == Patch(None, None, None) ==> r == rec
    ensures p.alwaysShow.Some? ==> r.alwaysShow == p.alwaysShow.value
    ensures p.start.Some? ==> r.start == p.start
    ensures p.end.Some? ==> r.end == p.end
    ensures p.alwaysShow.None? ==> r.alwaysShow == rec.alwaysShow
    ensures p.start.None? ==> r.start == rec.start
    ensures p.end.None? ==> r.end == rec.end
  {
    Record(rec.name,
           if p.alwaysShow.Some? then p.alwaysShow.value else rec.alwaysShow,
           if p.start.Some? then p.start else rec.start,
           if p.end.Some? then p.end else rec.end)
  }

  /** The record sequence `updateXML(name, update)` writes back, given the
      one it read (`[]` when the sidecar was absent). */
  function Upsert(s: seq<Record>, name: string, update: Option<Patch>): (r: seq<Record>)
    // a new name is appended with the defaults; a patch for it is not applied
    ensures Absent(s, name) ==> r == s + [DefaultRecord(name)]
    // a known name without a patch: nothing changes, so nothing is duplicated
    ensures !Absent(s, name) && update.None? ==> r == s
    // a known name with a patch: only its first record is merged
    ensures !Absent(s, name) && update.Some? ==>
      |r| == |s| &&
      forall i :: 0 <= i < |s| ==>
        r[i] == if IsFirst(s, i, name) then Merge(s[i], update.value) else s[i]
    ensures !Absent(r, name)
    ensures forall x :: x in r ==> x.name == name || x in s
    ensures NamesDistinct(s) ==> NamesDistinct(r)
  {
    var index := FindIndex(s, name);
    if index != -1 && update.Some? then
      s[index := Merge(s[index], update.value)]
    else if index == -1 then
      var r := s + [DefaultRecord(name)];
      assert r[|s|].name == name;
      r
    else
      s
  }

  /** The `load-images` filter: the records whose file is still in the
      project folder. */
  function Reconcile(s: seq<Record>, files: set<string>): (r: seq<Record>)
    ensures |r| <= |s|
    ensures |r| == |s| <==> AllIn(s, files)
    ensures forall x :: x in r <==> x in s && x.name in files
  {
    if s == [] then []
    else (if s[0].name in files then [s[0]] else []) + Reconcile(s[1..], files)
  }

  /** The `delete-image` filter: every record except those keyed by `name`. */
  function WithoutName(s: seq<Record>, name: string): (r: seq<Record>)
    ensures |r| <= |s|
    ensures |r| == |s| <==> Absent(s, name)
    ensures Absent(s, name) ==> r == s
    ensures Absent(r, name)
    ensures forall x :: x in r <==> x in s && x.name != name
  {
    if s == [] then []
    else (if s[0].name != name then [s[0]] else []) + WithoutName(s[1..], name)
  }

  lemma {:induction false} SubsequenceMembers<T>(a: seq<T>, b: seq<T>)
    requires IsSubsequence(a, b)
    ensures forall x :: x in a ==> x in b
    decreases |b|
  {
    if a != [] && b != [] {
      if a[0] == b[0] {
        SubsequenceMembers(a[1..], b[1..]);
        assert a == [a[0]] + a[1..];
      } else {
        SubsequenceMembers(a, b[1..]);
      }
    }
  }

  /** Leaving records out never creates a duplicate name. */
  lemma {:induction false} SubsequenceKeepsDistinct(a: seq<Record>, b: seq<Record>)
    requires IsSubsequence(a, b) && NamesDistinct(b)
    ensures NamesDistinct(a)
    decreases |b|
  {
    if a != [] && b != [] {
      if a[0] == b[0] {
        SubsequenceKeepsDistinct(a[1..], b[1..]);
        SubsequenceMembers(a[1..], b[1..]);
        forall j | 1 <= j < |a| ensures a[0].name != a[j].name {
          assert a[j] == a[1..][j - 1];
          assert a[j] in b[1..];
          var k :| 0 <= k < |b[1..]| && b[1..][k] == a[j];
          assert b[k + 1] == a[j];
        }
      } else {
        SubsequenceKeepsDistinct(a, b[1..]);
      }
    }
  }

  /** Reconciling keeps the surviving records in their original order. */
  lemma {:induction false} ReconcileIsSubsequence(s: seq<Record>, files: set<string>)
    ensures IsSubsequence(Reconcile(s, files), s)
    decreases |s|
  {
    if s != [] {
      var rest := Reconcile(s[1..], files);
      ReconcileIsSubsequence(s[1..], files);
      if s[0].name in files {
        assert Reconcile(s, files) == [s[0]] + rest;
        assert ([s[0]] + rest)[1..] == rest;
      } else {
        assert Reconcile(s, files) == rest;
        if rest != [] {
          assert rest[0] in rest;
          assert rest[0] != s[0];
        }
      }
    }
  }

  /** Every record whose file exists survives as often as it was stored;
      the others not at all. With `ReconcileIsSubsequence` this fixes the
      filter's result exactly, duplicates included. */
  lemma {:induction false} ReconcileCounts(s: seq<Record>, files: set<string>)
    ensures forall x :: multiset(Reconcile(s, files))[x] == if x.name in files then multiset(s)[x] else 0
    decreases |s|
  {
    if s != [] {
      ReconcileCounts(s[1..], files);
      assert s == [s[0]] + s[1..];
      assert multiset(s) == multiset{s[0]} + multiset(s[1..]);
    }
  }

  /** Reconciling a reconciled sequence changes nothing. */
  lemma ReconcileIdempotent(s: seq<Record>, files: set<string>)
    ensures Reconcile(Reconcile(s, files), files) == Reconcile(s, files)
  {
    ReconcileKeepsAll(Reconcile(s, files), files);
  }

  /** When every file is present, reconciling returns the records as they are. */
  lemma {:induction false} ReconcileKeepsAll(s: seq<Record>, files: set<string>)
    requires AllIn(s, files)
    ensures Reconcile(s, files) == s
    decreases |s|
  {
    if s != [] {
      assert s[0] in s;
      assert AllIn(s[1..], files) by {
        forall x | x in s[1..] ensures x.name in files {
          assert x in s;
        }
      }
      ReconcileKeepsAll(s[1..], files);
      assert [s[0]] + s[1..] == s;
    }
  }

  lemma ReconcileKeepsDistinct(s: seq<Record>, files: set<string>)
    requires NamesDistinct(s)
    ensures NamesDistinct(Reconcile(s, files))
  {
    ReconcileIsSubsequence(s, files);
    SubsequenceKeepsDistinct(Reconcile(s, files), s);
  }

  /** Deleting keeps the other records in their original order. */
  lemma {:induction false} WithoutNameIsSubsequence(s: seq<Record>, name: string)
    ensures IsSubsequence(WithoutName(s, name), s)
    decreases |s|
  {
    if s != [] {
      var rest := WithoutName(s[1..], name);
      WithoutNameIsSubsequence(s[1..], name);
      if s[0].name != name {
        assert WithoutName(s, name) == [s[0]] + rest;
        assert ([s[0]] + rest)[1..] == rest;
      } else {
        assert WithoutName(s, name) == rest;
        if rest != [] {
          assert rest[0] in rest;
          assert rest[0] != s[0];
        }
      }
    }
  }

  /** Every record of another name stays as often as it was stored; those
      of the deleted name not at all. */
  lemma {:induction false} WithoutNameCounts(s: seq<Record>, name: string)
    ensures forall x :: multiset(WithoutName(s, name))[x] == if x.name != name then multiset(s)[x] else 0
    decreases |s|
  {
    if s != [] {
      WithoutNameCounts(s[1..], name);
      assert s == [s[0]] + s[1..];
      assert multiset(s) == multiset{s[0]} + multiset(s[1..]);
    }
  }

  /** Deleting the same name twice leaves what deleting it once left. */
  lemma WithoutNameIdempotent(s: seq<Record>, name: string)
    ensures WithoutName(WithoutName(s, name), name) == WithoutName(s, name)
  {
  }

  lemma WithoutNameKeepsDistinct(s: seq<Record>, name: string)
    requires NamesDistinct(s)
    ensures NamesDistinct(WithoutName(s, name))
  {
    WithoutNameIsSubsequence(s, name);
    SubsequenceKeepsDistinct(WithoutName(s, name), s);
  }

  /** Dropping a file and then patching its `alwaysShow` leaves exactly one
      record for it: the defaults with `alwaysShow` switched off. */
  lemma UpsertThenPatch(s: seq<Record>, name: string)
    requires Absent(s, name)
    ensures var r := Upsert(Upsert(s, name, None), name, Some(Patch(Some(false), None, None)));
      |r| == |s| + 1 && r[..|s|] == s && r[|s|] == Record(name, false, None, None)
  {
    var t := Upsert(s, name, None);
    assert t == s + [DefaultRecord(name)];
    assert t[|s|].name == name;
    assert IsFirst(t, |s|, name) by {
      assert t[..|s|] == s;
    }
  }
}
