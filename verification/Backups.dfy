/** Snapshot directories of src/db/backup.ts: listing by modification time and pruning. */
module Backups {
  import opened Wrappers

  /** The files of a directory. */
  type Contents = map<string, string>

  /** `<prefix><sha>-<timestamp>`. */
  datatype SnapName = SnapName(tag: string, stamp: int)

  datatype Snapshot = Snapshot(name: SnapName, mtime: int, contents: Contents)

  predicate DistinctNames(list: seq<Snapshot>) {
    forall i, j :: 0 <= i < j < |list| ==> list[i].name != list[j].name
  }

  // ---- listByMtimeDesc ----

  predicate NewestFirst(list: seq<Snapshot>) {
    forall i, j :: 0 <= i < j < |list| ==> list[i].mtime >= list[j].mtime
  }

  /** After every entry at least as new. */
  function Insert(sorted: seq<Snapshot>, s: Snapshot): seq<Snapshot> {
    if sorted == [] || s.mtime <= sorted[|sorted| - 1].mtime then sorted + [s]
    else Insert(sorted[..|sorted| - 1], s) + [sorted[|sorted| - 1]]
  }

  lemma {:induction false} InsertKeepsOrder(sorted: seq<Snapshot>, s: Snapshot)
    requires NewestFirst(sorted)
    ensures NewestFirst(Insert(sorted, s)) && multiset(Insert(sorted, s)) == multiset(sorted) + multiset{s}
  {
    if sorted != [] && sorted[|sorted| - 1].mtime < s.mtime {
      var init, last := sorted[..|sorted| - 1], sorted[|sorted| - 1];
      InsertKeepsOrder(init, s);
      assert sorted == init + [last];
      forall x | x in init ensures last.mtime <= x.mtime {}
      AppendOldest(Insert(init, s), init, s, last);
    }
  }

  lemma AppendOldest(r: seq<Snapshot>, init: seq<Snapshot>, s: Snapshot, last: Snapshot)
    requires NewestFirst(r) && multiset(r) == multiset(init) + multiset{s}
    requires last.mtime < s.mtime && forall x :: x in init ==> last.mtime <= x.mtime
    ensures NewestFirst(r + [last])
  {
    forall x | x in r ensures last.mtime <= x.mtime { assert x in multiset(r); }
    hide *;
  }

  function ListByMtimeDesc(dir: seq<Snapshot>): (r: seq<Snapshot>)
    ensures NewestFirst(r) && multiset(r) == multiset(dir)
  {
    if dir == [] then []
    else
      assert dir == dir[..|dir| - 1] + [dir[|dir| - 1]];
      InsertKeepsOrder(ListByMtimeDesc(dir[..|dir| - 1]), dir[|dir| - 1]);
      Insert(ListByMtimeDesc(dir[..|dir| - 1]), dir[|dir| - 1])
  }

  function Newest(dir: seq<Snapshot>): Option<Snapshot> {
    var sorted := ListByMtimeDesc(dir);
    if sorted == [] then None else Some(sorted[0])
  }

  lemma SameMembers(a: seq<Snapshot>, b: seq<Snapshot>)
    requires multiset(a) == multiset(b)
    ensures |a| == |b| && forall x :: x in a <==> x in b
  {
    assert |a| == |multiset(a)| == |multiset(b)| == |b|;
    forall x ensures x in a <==> x in b {
      assert x in a <==> x in multiset(a);
    }
  }

  /** An entry newer than all others is the newest. */
  lemma StrictlyNewest(dir: seq<Snapshot>, s: Snapshot)
    requires s in dir && forall x :: x in dir && x != s ==> x.mtime < s.mtime
    ensures Newest(dir) == Some(s)
  {
    var sorted := ListByMtimeDesc(dir);
    SameMembers(sorted, dir);
    var i :| 0 <= i < |sorted| && sorted[i] == s;
    var head := sorted[0];
    assert head in dir;
  }

  // ---- directories ----

  /** Copying into a directory of that name: a new entry, or files added to the existing one. */
  function Put(dir: seq<Snapshot>, s: Snapshot): seq<Snapshot> {
    if dir == [] then [s]
    else if dir[0].name == s.name then [s.(contents := dir[0].contents + s.contents)] + dir[1..]
    else [dir[0]] + Put(dir[1..], s)
  }

  lemma {:induction false} PutFresh(dir: seq<Snapshot>, s: Snapshot)
    requires forall x :: x in dir ==> x.name != s.name
    ensures Put(dir, s) == dir + [s]
  {
    if dir != [] {
      assert dir[0] in dir;
      PutFresh(dir[1..], s);
    }
  }

  function Remove(dir: seq<Snapshot>, name: SnapName): seq<Snapshot> {
    if dir == [] then []
    else if dir[0].name == name then Remove(dir[1..], name)
    else [dir[0]] + Remove(dir[1..], name)
  }

  function RemoveAll(dir: seq<Snapshot>, stale: seq<Snapshot>): seq<Snapshot> {
    if stale == [] then dir else Remove(RemoveAll(dir, stale[..|stale| - 1]), stale[|stale| - 1].name)
  }

  /** The directory without all but the `keep` newest entries. */
  function Pruned(dir: seq<Snapshot>, keep: nat): seq<Snapshot> {
    var sorted := ListByMtimeDesc(dir);
    if |sorted| <= keep then dir else RemoveAll(dir, sorted[keep..])
  }

  lemma {:induction false} RemoveIs(dir: seq<Snapshot>, name: SnapName)
    requires DistinctNames(dir)
    ensures DistinctNames(Remove(dir, name))
    ensures forall x :: x in Remove(dir, name) <==> x in dir && x.name != name
    ensures |Remove(dir, name)| == |dir| - if exists x :: x in dir && x.name == name then 1 else 0
  {
    if dir != [] {
      RemoveIs(dir[1..], name);
      assert forall x :: x in dir <==> x == dir[0] || x in dir[1..];
      if dir[0].name == name {
        assert forall x :: x in dir[1..] ==> x.name != name;
        assert dir[0] in dir;
      } else {
        forall x | x in Remove(dir[1..], name) ensures x.name != dir[0].name {
          assert x in dir[1..];
        }
      }
    }
  }

  lemma {:induction false} RemoveAllIs(dir: seq<Snapshot>, stale: seq<Snapshot>)
    requires DistinctNames(dir) && DistinctNames(stale) && forall x :: x in stale ==> x in dir
    ensures DistinctNames(RemoveAll(dir, stale)) && |RemoveAll(dir, stale)| == |dir| - |stale|
    ensures forall x :: x in RemoveAll(dir, stale) <==> x in dir && forall y :: y in stale ==> y.name != x.name
  {
    if stale != [] {
      var init, last := stale[..|stale| - 1], stale[|stale| - 1];
      RemoveAllIs(dir, init);
      RemoveIs(RemoveAll(dir, init), last.name);
      assert forall x :: x in stale <==> x in init || x == last;
      assert last in stale;
      assert forall y :: y in init ==> y.name != last.name;
      assert last in RemoveAll(dir, init);
    }
  }

  lemma NamesOfSorted(dir: seq<Snapshot>)
    requires DistinctNames(dir)
    ensures DistinctNames(ListByMtimeDesc(dir))
  {
    SameNamesDistinct(dir, ListByMtimeDesc(dir));
  }

  lemma {:induction false} NameCount(list: seq<Snapshot>, s: Snapshot)
    requires DistinctNames(list) && s in list
    ensures multiset(list)[s] == 1
  {
    var last := list[|list| - 1];
    var init := list[..|list| - 1];
    assert list == init + [last];
    if s == last {
      assert s !in init;
    } else {
      NameCount(init, s);
    }
  }

  lemma TwiceInBag(list: seq<Snapshot>, i: nat, j: nat)
    requires i < j < |list| && list[i] == list[j]
    ensures multiset(list)[list[i]] >= 2
  {
    assert list == list[..j] + [list[j]] + list[j + 1..];
    assert list[..j][i] == list[i];
  }

  lemma {:induction false} SameNamesDistinct(a: seq<Snapshot>, b: seq<Snapshot>)
    requires DistinctNames(a) && multiset(a) == multiset(b)
    ensures DistinctNames(b)
  {
    SameMembers(a, b);
    forall i, j | 0 <= i < j < |b| ensures b[i].name != b[j].name {
      var x, y := b[i], b[j];
      assert x in a && y in a;
      if x.name == y.name {
        var k :| 0 <= k < |a| && a[k] == x;
        var l :| 0 <= l < |a| && a[l] == y;
        assert x == y;
        TwiceInBag(b, i, j);
        NameCount(a, x);
      }
    }
  }

  lemma KeptIsNewer(dir: seq<Snapshot>, keep: nat, x: Snapshot, y: Snapshot)
    requires DistinctNames(dir) && keep < |dir|
    requires x in Pruned(dir, keep) && y in dir && y !in Pruned(dir, keep)
    ensures y.mtime <= x.mtime
  {
    hide ListByMtimeDesc, RemoveAll;
    var sorted := ListByMtimeDesc(dir);
    SameMembers(sorted, dir);
    NamesOfSorted(dir);
    var stale := sorted[keep..];
    RemoveAllIs(dir, stale);
    assert x !in stale;
    var z :| z in stale && z.name == y.name;
    assert z in dir by { assert z in sorted; }
    SameNameSame(dir, y, z);
    hide *;
    assert x in sorted;
    KeptBeforeStale(sorted, keep, x, z);
  }

  lemma KeptBeforeStale(sorted: seq<Snapshot>, keep: nat, x: Snapshot, z: Snapshot)
    requires NewestFirst(sorted) && keep <= |sorted| && x in sorted && x !in sorted[keep..] && z in sorted[keep..]
    ensures z.mtime <= x.mtime
  {
    var i :| 0 <= i < |sorted| && sorted[i] == x;
    var j :| 0 <= j < |sorted[keep..]| && sorted[keep..][j] == z;
    assert i < keep by { assert forall k :: keep <= k < |sorted| ==> sorted[keep..][k - keep] == sorted[k]; }
    assert sorted[keep + j] == z;
  }

  lemma SameNameSame(dir: seq<Snapshot>, x: Snapshot, y: Snapshot)
    requires DistinctNames(dir) && x in dir && y in dir && x.name == y.name
    ensures x == y
  {
  }

  /** Pruning leaves exactly `keep` entries, or all if there are no more; none it removes is newer than one it keeps,
      and the newest stays. */
  lemma PrunedIs(dir: seq<Snapshot>, keep: nat)
    requires DistinctNames(dir)
    ensures DistinctNames(Pruned(dir, keep)) && |Pruned(dir, keep)| == if keep < |dir| then keep else |dir|
    ensures forall x :: x in Pruned(dir, keep) ==> x in dir
    ensures forall x, y :: x in Pruned(dir, keep) && y in dir && y !in Pruned(dir, keep) ==> y.mtime <= x.mtime
    ensures 0 < keep && Newest(dir).Some? ==> Newest(dir).value in Pruned(dir, keep)
  {
    hide ListByMtimeDesc, Newest;
    var sorted := ListByMtimeDesc(dir);
    SameMembers(sorted, dir);
    if keep < |dir| {
      StaleRemoved(dir, keep);
      forall x, y | x in Pruned(dir, keep) && y in dir && y !in Pruned(dir, keep) ensures y.mtime <= x.mtime {
        KeptIsNewer(dir, keep, x, y);
      }
    }
    NewestStays(dir, keep);
  }

  lemma StaleRemoved(dir: seq<Snapshot>, keep: nat)
    requires DistinctNames(dir) && keep < |dir|
    ensures DistinctNames(Pruned(dir, keep)) && |Pruned(dir, keep)| == keep
    ensures forall x :: x in Pruned(dir, keep) ==> x in dir
  {
    hide ListByMtimeDesc, RemoveAll;
    var sorted := ListByMtimeDesc(dir);
    SameMembers(sorted, dir);
    NamesOfSorted(dir);
    var stale := sorted[keep..];
    assert forall x :: x in stale ==> x in sorted;
    RemoveAllIs(dir, stale);
  }

  lemma NewestStays(dir: seq<Snapshot>, keep: nat)
    requires DistinctNames(dir)
    ensures 0 < keep && Newest(dir).Some? ==> Newest(dir).value in Pruned(dir, keep)
  {
    hide ListByMtimeDesc, RemoveAll;
    var sorted := ListByMtimeDesc(dir);
    SameMembers(sorted, dir);
    if 0 < keep && sorted != [] {
      var head := sorted[0];
      assert head in dir;
      if keep < |sorted| {
        NamesOfSorted(dir);
        var stale := sorted[keep..];
        assert forall x :: x in stale ==> x in sorted;
        RemoveAllIs(dir, stale);
      }
    }
  }
}
