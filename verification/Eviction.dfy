/** Disk quota: evicting the oldest completed session directories. */
module Eviction {
  import opened Prelude

  /** A session directory; `endedAt` is absent while the session is active. */
  datatype Dir = Dir(path: string, endedAt: Option<int>, size: nat)

  predicate Completed(d: Dir) { d.endedAt.Some? }

  /** Directory entries have distinct paths. */
  predicate Distinct(dirs: seq<Dir>) {
    forall i, j :: 0 <= i < j < |dirs| ==> dirs[i].path != dirs[j].path
  }

  function Paths(dirs: seq<Dir>): set<string> {
    set d | d in dirs :: d.path
  }

  /** Bytes in the directories that are not `gone`. */
  function SizeWithout(dirs: seq<Dir>, gone: set<string>): nat {
    if dirs == [] then 0
    else (if dirs[0].path in gone then 0 else dirs[0].size) + SizeWithout(dirs[1..], gone)
  }

  predicate OldestFirst(dirs: seq<Dir>) {
    forall i, j :: 0 <= i < j < |dirs| && Completed(dirs[i]) && Completed(dirs[j]) ==>
      dirs[i].endedAt.value <= dirs[j].endedAt.value
  }

  /** `order` lists the completed directories of `dirs`, each once. */
  predicate ListsCompleted(order: seq<Dir>, dirs: seq<Dir>) {
    && Distinct(order)
    && (forall i :: 0 <= i < |order| ==> order[i] in dirs && Completed(order[i]))
    && (forall d :: d in dirs && Completed(d) ==> d in order)
  }

  lemma {:induction false} OneMoreGone(dirs: seq<Dir>, gone: set<string>, d: Dir)
    requires Distinct(dirs) && d in dirs && d.path !in gone
    ensures SizeWithout(dirs, gone + {d.path}) == SizeWithout(dirs, gone) - d.size
  {
    assert Distinct(dirs[1..]);
    if dirs[0] == d {
      SameSize(dirs[1..], gone, d.path);
    } else {
      assert d in dirs[1..];
      assert dirs[0].path != d.path;
      OneMoreGone(dirs[1..], gone, d);
    }
  }

  lemma {:induction false} SameSize(dirs: seq<Dir>, gone: set<string>, path: string)
    requires forall i :: 0 <= i < |dirs| ==> dirs[i].path != path
    ensures SizeWithout(dirs, gone + {path}) == SizeWithout(dirs, gone)
  {
    if dirs != [] {
      SameSize(dirs[1..], gone, path);
    }
  }

  lemma {:induction false} SizeSnoc(dirs: seq<Dir>, d: Dir)
    ensures SizeWithout(dirs + [d], {}) == SizeWithout(dirs, {}) + d.size
  {
    if dirs == [] {
      assert dirs + [d] == [d] && [d][1..] == [];
    } else {
      assert (dirs + [d])[0] == dirs[0] && (dirs + [d])[1..] == dirs[1..] + [d];
      SizeSnoc(dirs[1..], d);
    }
  }

  lemma PathsSnoc(dirs: seq<Dir>, d: Dir)
    ensures Paths(dirs + [d]) == Paths(dirs) + {d.path}
  {
    assert forall x :: x in dirs + [d] <==> x in dirs || x == d;
  }

  /** Inserts one directory into a list sorted by end time. */
  method Insert(sorted: seq<Dir>, d: Dir) returns (r: seq<Dir>)
    requires OldestFirst(sorted) && Completed(d) && forall i :: 0 <= i < |sorted| ==> Completed(sorted[i])
    ensures OldestFirst(r)
    ensures exists k :: 0 <= k <= |sorted| && r == sorted[..k] + [d] + sorted[k..]
  {
    var k := |sorted|;
    while k > 0 && d.endedAt.value < sorted[k - 1].endedAt.value
      invariant 0 <= k <= |sorted|
      invariant k < |sorted| ==> d.endedAt.value < sorted[k].endedAt.value
    {
      k := k - 1;
    }
    r := sorted[..k] + [d] + sorted[k..];
  }

  lemma InsertLists(sorted: seq<Dir>, d: Dir, k: nat, dirs: seq<Dir>)
    requires k <= |sorted| && ListsCompleted(sorted, dirs) && Completed(d) && d.path !in Paths(dirs)
    ensures ListsCompleted(sorted[..k] + [d] + sorted[k..], dirs + [d])
  {
    var r := sorted[..k] + [d] + sorted[k..];
    InsertDistinct(sorted, d, k, dirs);
    hide Distinct;
    assert sorted == sorted[..k] + sorted[k..];
    assert forall x :: x in r <==> x == d || x in sorted;
    assert forall x :: x in dirs + [d] <==> x in dirs || x == d;
    forall i | 0 <= i < |r|
      ensures r[i] in dirs + [d] && Completed(r[i])
    {
      assert r[i] in r;
    }
  }

  lemma InsertDistinct(sorted: seq<Dir>, d: Dir, k: nat, dirs: seq<Dir>)
    requires k <= |sorted| && Distinct(sorted) && d.path !in Paths(dirs)
    requires forall i :: 0 <= i < |sorted| ==> sorted[i] in dirs
    ensures Distinct(sorted[..k] + [d] + sorted[k..])
  {
    var r := sorted[..k] + [d] + sorted[k..];
    assert forall i :: 0 <= i < |sorted| ==> sorted[i].path != d.path;
    hide Paths;
    forall i, j | 0 <= i < j < |r|
      ensures r[i].path != r[j].path
    {
      assert i != k ==> r[i] == sorted[if i < k then i else i - 1];
      assert j != k ==> r[j] == sorted[if j < k then j else j - 1];
    }
  }

  /** Collects the completed directories and sorts them by end time. Nothing below depends on how
      equal end times are ordered. */
  method SortCompleted(dirs: seq<Dir>) returns (order: seq<Dir>)
    requires Distinct(dirs)
    ensures ListsCompleted(order, dirs) && OldestFirst(order)
  {
    order := [];
    for i := 0 to |dirs|
      invariant ListsCompleted(order, dirs[..i]) && OldestFirst(order)
    {
      var d := dirs[i];
      assert dirs[..i + 1] == dirs[..i] + [d];
      if Completed(d) {
        var was := order;
        order := Insert(was, d);
        ghost var k :| 0 <= k <= |was| && order == was[..k] + [d] + was[k..];
        InsertLists(was, d, k, dirs[..i]);
      } else {
        ActiveSkipped(order, dirs[..i], d);
      }
    }
    assert dirs[..|dirs|] == dirs;
  }

  lemma ActiveSkipped(order: seq<Dir>, dirs: seq<Dir>, d: Dir)
    requires ListsCompleted(order, dirs) && !Completed(d)
    ensures ListsCompleted(order, dirs + [d])
  {
    assert forall x :: x in dirs + [d] <==> x in dirs || x == d;
  }

  /** The directory is completed and still there. */
  predicate Survives(d: Dir, dirs: seq<Dir>, evicted: seq<Dir>) {
    d in dirs && Completed(d) && d.path !in Paths(evicted)
  }

  /** What any eviction must satisfy, whether it ran to its end or stopped at a failed removal. */
  ghost predicate FairEviction(dirs: seq<Dir>, maxTotal: int, evicted: seq<Dir>) {
    // only completed sessions go, each once
    && Distinct(evicted)
    && (forall i :: 0 <= i < |evicted| ==> evicted[i] in dirs && Completed(evicted[i]))
    // no completed session survives one that ended later
    && (forall i, d :: 0 <= i < |evicted| && Survives(d, dirs, evicted) && Completed(evicted[i]) ==>
          evicted[i].endedAt.value <= d.endedAt.value)
    // every single eviction happened while the total was still over the limit
    && (forall j :: 0 <= j < |evicted| ==> SizeWithout(dirs, Paths(evicted[..j])) > maxTotal)
  }

  /** Any prefix of an oldest-first list, cut no later than where the total meets the limit, is fair. */
  lemma PrefixIsFair(dirs: seq<Dir>, order: seq<Dir>, k: nat, maxTotal: int)
    requires Distinct(dirs) && ListsCompleted(order, dirs) && OldestFirst(order) && k <= |order|
    requires forall j :: 0 <= j < k ==> SizeWithout(dirs, Paths(order[..j])) > maxTotal
    ensures FairEviction(dirs, maxTotal, order[..k])
  {
    hide SizeWithout;
    var evicted := order[..k];
    forall i, d | 0 <= i < |evicted| && Survives(d, dirs, evicted) && Completed(evicted[i])
      ensures evicted[i].endedAt.value <= d.endedAt.value
    {
      var j :| 0 <= j < |order| && order[j] == d;
    }
    forall j | 0 <= j < |evicted|
      ensures SizeWithout(dirs, Paths(evicted[..j])) > maxTotal
    {
      assert evicted[..j] == order[..j];
    }
  }

  /** Removes oldest completed directories until the total is within the limit. `locked` are the
      paths whose removal fails; the first such failure ends the eviction. */
  method EvictLRU(dirs: seq<Dir>, maxTotal: int, locked: set<string>) returns (evicted: seq<Dir>, failed: Option<Dir>)
    requires Distinct(dirs)
    ensures FairEviction(dirs, maxTotal, evicted)
    ensures failed == None ==>
      SizeWithout(dirs, Paths(evicted)) <= maxTotal || forall d :: d in dirs ==> !Survives(d, dirs, evicted)
    ensures failed.Some? ==>
      && failed.value.path in locked && Survives(failed.value, dirs, evicted)
      && SizeWithout(dirs, Paths(evicted)) > maxTotal
      && forall d :: Survives(d, dirs, evicted) && Completed(failed.value) ==>
                       failed.value.endedAt.value <= d.endedAt.value
    ensures Paths(evicted) !! locked
  {
    var currentTotal := 0;
    for i := 0 to |dirs|
      invariant currentTotal == SizeWithout(dirs[..i], {})
    {
      assert dirs[..i + 1] == dirs[..i] + [dirs[i]];
      SizeSnoc(dirs[..i], dirs[i]);
      currentTotal := currentTotal + dirs[i].size;
    }
    assert dirs[..|dirs|] == dirs;
    evicted, failed := [], None;
    assert Paths([]) == {};
    if currentTotal <= maxTotal {
      return;
    }
    var order := SortCompleted(dirs);
    hide SizeWithout, Distinct, OldestFirst, ListsCompleted;
    var k := 0;
    while k < |order| && currentTotal > maxTotal
      invariant 0 <= k <= |order| && evicted == order[..k] && failed == None
      invariant currentTotal == SizeWithout(dirs, Paths(evicted))
      invariant forall j :: 0 <= j < k ==> SizeWithout(dirs, Paths(order[..j])) > maxTotal
      invariant Paths(evicted) !! locked
    {
      var d := order[k];
      NextInOrder(dirs, order, k);
      if d.path in locked {
        failed := Some(d);
        PrefixIsFair(dirs, order, k, maxTotal);
        NextIsOldest(dirs, order, k);
        return;
      }
      OneMoreGone(dirs, Paths(evicted), d);
      PathsSnoc(evicted, d);
      assert order[..k + 1] == order[..k] + [d];
      evicted := evicted + [d];
      currentTotal := currentTotal - d.size;
      k := k + 1;
    }
    PrefixIsFair(dirs, order, k, maxTotal);
    if k == |order| {
      assert order[..k] == order;
      AllGone(dirs, order);
    }
  }

  lemma NextInOrder(dirs: seq<Dir>, order: seq<Dir>, k: nat)
    requires ListsCompleted(order, dirs) && k < |order|
    ensures order[k] in dirs && Completed(order[k]) && order[k].path !in Paths(order[..k])
  {
  }

  lemma NextIsOldest(dirs: seq<Dir>, order: seq<Dir>, k: nat)
    requires ListsCompleted(order, dirs) && OldestFirst(order) && k < |order|
    ensures forall d :: Survives(d, dirs, order[..k]) && Completed(order[k]) ==>
              order[k].endedAt.value <= d.endedAt.value
  {
    forall d | Survives(d, dirs, order[..k]) && Completed(order[k])
      ensures order[k].endedAt.value <= d.endedAt.value
    {
      var j :| 0 <= j < |order| && order[j] == d;
    }
  }

  lemma AllGone(dirs: seq<Dir>, order: seq<Dir>)
    requires ListsCompleted(order, dirs)
    ensures forall d :: d in dirs ==> !Survives(d, dirs, order)
  {
  }
}
