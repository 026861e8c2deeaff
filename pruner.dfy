/** `cleanBundles`: the retention pruner. Given the inventory a directory had
    before this run's bundle was added, it deletes nothing while the count
    after the addition stays within the limit, and otherwise sorts the
    inventory by date and deletes the first, oldest, file. */
module Pruner {
  import opened JsText
  import opened Bundles
  import opened Disk

  /** One element of `bundlesAscending`: a file name and its parsed date. */
  datatype Bundle = Bundle(name: string, date: int)

  /** What one call did. NothingToPrune is the call that needed to prune
      but found no bundle: reading `bundlesAscending[0].name` throws, and the
      archiver's catch reports it. */
  datatype PruneResult = Kept | Pruned(name: string) | NothingToPrune

  /** Every inventory entry carries a number (no NaN date). */
  predicate AllDated(existing: Inventory)
  {
    forall name :: name in existing ==> existing[name].Some?
  }

  /** `b` is the inventory entry for `b.name`. */
  predicate Listed(existing: Inventory, b: Bundle)
  {
    b.name in existing && existing[b.name] == Some(b.date)
  }

  /** `name` has the smallest date of the inventory. */
  ghost predicate IsOldest(existing: Inventory, name: string)
  {
    && name in existing && existing[name].Some?
    && forall other :: other in existing && existing[other].Some? ==> existing[name].value <= existing[other].value
  }

  /** The effect `cleanBundles(bundlePath, existing)` must have on the
      directory entries `entries`, with limit `limit`: nothing while
      `|existing| + 1 <= limit`; otherwise exactly one file, one with the
      smallest date of `existing`, is gone and every other entry stays. */
  ghost predicate PruneSpec(entries: set<string>, existing: Inventory, limit: nat, result: PruneResult, after: set<string>)
  {
    if |existing| + 1 <= limit then result == Kept && after == entries
    else if |existing| == 0 then result == NothingToPrune && after == entries
    else result.Pruned? && IsOldest(existing, result.name) && after == entries - {result.name}
  }

  predicate SortedByDate(s: seq<Bundle>)
  {
    forall i, j :: 0 <= i < j < |s| ==> s[i].date <= s[j].date
  }

  /** The first `n` elements are in date order, except possibly at
      position `j`. */
  predicate SortedExcept(s: seq<Bundle>, n: int, j: int)
    requires 0 <= n <= |s|
  {
    forall p, q :: 0 <= p < q < n && q != j ==> s[p].date <= s[q].date
  }

  /** `s` with the elements at `j - 1` and `j` exchanged. */
  function SwapDown(s: seq<Bundle>, j: int): (r: seq<Bundle>)
    requires 0 < j < |s|
    ensures |r| == |s| && r[j - 1] == s[j] && r[j] == s[j - 1]
    ensures forall k :: 0 <= k < |s| && k != j - 1 && k != j ==> r[k] == s[k]
    ensures multiset(r) == multiset(s)
  {
    s[j - 1 := s[j]][j := s[j - 1]]
  }

  /** Moving an out-of-place element one step down moves the one gap in the
      order down with it. */
  lemma SwapDownKeepsOrder(s: seq<Bundle>, n: int, j: int)
    requires 0 < j < n <= |s|
    requires SortedExcept(s, n, j)
    requires s[j - 1].date > s[j].date
    ensures SortedExcept(SwapDown(s, j), n, j - 1)
  {
    var r := SwapDown(s, j);
    forall p, q | 0 <= p < q < n && q != j - 1
      ensures r[p].date <= r[q].date
    {
      if q == j {
        if p < j - 1 {
          assert r[p] == s[p] && r[q] == s[j - 1];
        }
      } else if p == j - 1 {
        assert r[p] == s[j] && r[q] == s[q];
      } else if p == j {
        assert r[p] == s[j - 1] && r[q] == s[q];
      }
    }
  }

  /** Once the element at `j` is no smaller than its left neighbour, the
      whole prefix is in order. */
  lemma SettledInOrder(s: seq<Bundle>, n: int, j: int)
    requires 0 <= j < n <= |s|
    requires SortedExcept(s, n, j)
    requires j == 0 || s[j - 1].date <= s[j].date
    ensures SortedExcept(s, n, n)
  {
    forall p, q | 0 <= p < q < n
      ensures s[p].date <= s[q].date
    {
      if q == j && p < j - 1 {
        assert s[p].date <= s[j - 1].date;
      }
    }
  }

  /** A prefix in order, with one more element taken in, is in order but
      for that element. */
  lemma TakeNext(s: seq<Bundle>, n: int)
    requires 0 <= n < |s|
    requires SortedExcept(s, n, n)
    ensures SortedExcept(s, n + 1, n)
  {
  }

  lemma WhollySorted(s: seq<Bundle>)
    requires SortedExcept(s, |s|, |s|)
    ensures SortedByDate(s)
  {
  }

  /** `a[j - 1], a[j] := a[j], a[j - 1]` */
  method SwapDownInPlace(a: array<Bundle>, j: int)
    requires 0 < j < a.Length
    modifies a
    ensures a[..] == SwapDown(old(a[..]), j)
  {
    a[j - 1], a[j] := a[j], a[j - 1];
  }

  /** `bundlesAscending.sort((a, b) => a.bundle.date - b.bundle.date)`: an
      in-place sort by date (insertion sort, which is stable as the
      comparator demands). */
  method SortByDate(a: array<Bundle>)
    modifies a
    ensures SortedByDate(a[..])
    ensures multiset(a[..]) == multiset(old(a[..]))
  {
    var i := 0;
    while i < a.Length
      invariant 0 <= i <= a.Length
      invariant SortedExcept(a[..], i, i)
      invariant multiset(a[..]) == multiset(old(a[..]))
    {
      TakeNext(a[..], i);
      var j := i;
      while j > 0 && a[j - 1].date > a[j].date
        invariant 0 <= j <= i
        invariant SortedExcept(a[..], i + 1, j)
        invariant multiset(a[..]) == multiset(old(a[..]))
      {
        SwapDownKeepsOrder(a[..], i + 1, j);
        SwapDownInPlace(a, j);
        j := j - 1;
      }
      SettledInOrder(a[..], i + 1, j);
      i := i + 1;
    }
    WhollySorted(a[..]);
  }

  /** `s` lists exactly the entries of the inventory: every element is an
      entry with its date, and every entry appears. */
  ghost predicate ListsInventory(s: seq<Bundle>, existing: Inventory)
  {
    && (forall k :: 0 <= k < |s| ==> Listed(existing, s[k]))
    && (forall name :: name in existing && existing[name].Some? ==> Bundle(name, existing[name].value) in s)
  }

  /** `Object.keys(existingBundles).map(key => ...)`: one element per
      inventory entry, in whatever order the keys come. */
  method ListBundles(existing: Inventory) returns (listed: array<Bundle>)
    requires AllDated(existing)
    ensures fresh(listed)
    ensures listed.Length == |existing|
    ensures ListsInventory(listed[..], existing)
  {
    listed := new Bundle[|existing|];
    var remaining := existing.Keys;
    var filled := 0;
    while remaining != {}
      invariant remaining <= existing.Keys
      invariant filled + |remaining| == |existing.Keys| == listed.Length
      invariant forall k :: 0 <= k < filled ==> Listed(existing, listed[k])
      invariant forall name :: name in existing && name !in remaining ==>
                  Bundle(name, existing[name].value) in listed[..filled]
      decreases remaining
    {
      var name :| name in remaining;
      ghost var before := listed[..filled];
      listed[filled] := Bundle(name, existing[name].value);
      assert listed[..filled + 1] == before + [Bundle(name, existing[name].value)];
      remaining := remaining - {name};
      filled := filled + 1;
    }
    assert listed[..] == listed[..filled];
  }

  /** Reordering a listing keeps it a listing. */
  lemma ReorderedListing(s: seq<Bundle>, t: seq<Bundle>, existing: Inventory)
    requires multiset(s) == multiset(t)
    requires ListsInventory(s, existing)
    ensures ListsInventory(t, existing)
  {
    forall k | 0 <= k < |t|
      ensures Listed(existing, t[k])
    {
      assert t[k] in multiset(s);
    }
    forall name | name in existing && existing[name].Some?
      ensures Bundle(name, existing[name].value) in t
    {
      assert Bundle(name, existing[name].value) in multiset(s);
    }
  }

  /** The first element of a listing sorted by date names an oldest entry. */
  lemma FirstOfSortedIsOldest(s: seq<Bundle>, existing: Inventory)
    requires |s| > 0
    requires SortedByDate(s)
    requires ListsInventory(s, existing)
    ensures IsOldest(existing, s[0].name)
  {
    assert Listed(existing, s[0]);
    forall other | other in existing && existing[other].Some?
      ensures existing[s[0].name].value <= existing[other].value
    {
      var k :| 0 <= k < |s| && s[k] == Bundle(other, existing[other].value);
      assert k == 0 || s[0].date <= s[k].date;
    }
  }

  /** `cleanBundles(bundlePath, existingBundles)` with MAX_BACKUPS read as
      `limit`: list the inventory into an array, sort it by date, and unlink
      the first file. */
  method CleanBundles(tree: BackupTree, bundlePath: string, existing: Inventory, limit: nat)
    returns (result: PruneResult)
    requires bundlePath in tree.dirs
    requires existing.Keys <= tree.dirs[bundlePath]
    requires AllDated(existing)
    modifies tree
    ensures bundlePath in tree.dirs
    ensures tree.dirs == old(tree.dirs)[bundlePath := tree.dirs[bundlePath]]
    ensures PruneSpec(old(tree.dirs[bundlePath]), existing, limit, result, tree.dirs[bundlePath])
  {
    if |existing| + 1 <= limit {
      return Kept;
    }
    var ascending := ListBundles(existing);
    ghost var listed := ascending[..];
    SortByDate(ascending);
    if ascending.Length == 0 {
      return NothingToPrune;
    }
    ReorderedListing(listed, ascending[..], existing);
    FirstOfSortedIsOldest(ascending[..], existing);
    var victim := ascending[0];
    tree.dirs := tree.dirs[bundlePath := tree.dirs[bundlePath] - {victim.name}];
    result := Pruned(victim.name);
  }

  /** With a limit of at least one, a call that must prune always finds a
      bundle: the read of `bundlesAscending[0]` never fails. */
  lemma LimitLeavesSomethingToPrune(entries: set<string>, existing: Inventory, limit: nat,
                                    result: PruneResult, after: set<string>)
    requires limit >= 1
    requires PruneSpec(entries, existing, limit, result, after)
    ensures !result.NothingToPrune?
  {
  }

  /** An inventory of three bundles dated 300, 100 and 200 with a limit of
      2: the run that adds a fourth removes exactly the one dated 100 and
      leaves every other entry. */
  lemma OldestOfThreePruned(existing: Inventory, a: string, b: string, c: string,
                            entries: set<string>, result: PruneResult, after: set<string>)
    requires a != b && b != c && a != c
    requires existing == map[a := Some(300), b := Some(100), c := Some(200)]
    requires PruneSpec(entries, existing, 2, result, after)
    ensures result == Pruned(b)
    ensures after == entries - {b}
  {
    assert existing.Keys == {a, b, c};
    assert |existing| == 3;
    assert existing[result.name].value <= existing[b].value;
  }
}
