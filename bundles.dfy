/** Bundle files and what the script reads back from them: the name a new
    bundle gets, the date recovered from a name, the inventory of a bundle
    directory and the (deliberately loose) freshness test. */
module Bundles {
  import opened JsText

  const BundleSuffix := ".bundle"

  /** `full_name.split("/")[1]`: the repository name after the owner. An
      index past the end reads `undefined`, which the template literal
      prints as the text "undefined". */
  function ShortName(fullName: string): (short: string)
    ensures '/' !in short
  {
    var parts := Split(fullName, "/");
    SplitPiecesAreFree(fullName, "/");
    if |parts| >= 2 then CharNotContained(parts[1], '/'); parts[1] else "undefined"
  }

  /** `${short}-${latestDate}.bundle`: a plain file name, without '/', so
      the bundle is made and moved within the directories the script
      names. */
  function BundleName(fullName: string, pushedAt: nat): (name: string)
    ensures '/' !in name
  {
    var d := Decimal(pushedAt);
    assert '/' !in d by {
      assert forall k :: 0 <= k < |d| ==> IsDigit(d[k]);
    }
    ShortName(fullName) + "-" + d + BundleSuffix
  }

  /** The date read from an inventory entry's name:
      `parseInt(name.split("-").at(-1).replace(".bundle", ""), 10)`,
      None standing for NaN. */
  function ParseDate(name: string): Option<int>
  {
    ParseInt(ReplaceFirst(Last(Split(name, "-")), BundleSuffix, ""))
  }

  /** Bundle file name to its parsed date (the unused `statSync` record is
      not kept). */
  type Inventory = map<string, Option<int>>

  /** The directory entries the inventory keeps: those whose name ends in
      `.bundle`. */
  function BundleFiles(entries: set<string>): (files: set<string>)
    ensures forall name :: name in files <==> name in entries && EndsWith(name, BundleSuffix)
  {
    set name | name in entries && EndsWith(name, BundleSuffix)
  }

  /** The inventory of a directory with entries `entries`, as a map
      comprehension: every bundle file, keyed by its name and carrying the
      date parsed from that name. `InventoryOfListing` proves the script's
      filter-and-reduce computes it. */
  function ExistingBundles(entries: set<string>): (existing: Inventory)
    ensures existing.Keys == BundleFiles(entries)
    ensures forall name :: name in existing ==> existing[name] == ParseDate(name)
  {
    map name | name in BundleFiles(entries) :: ParseDate(name)
  }

  /** `files.filter((x) => x.endsWith(".bundle"))`, in listing order. */
  function FilterBundles(files: seq<string>): (kept: seq<string>)
    ensures |kept| <= |files|
    ensures forall name :: name in kept <==> name in files && EndsWith(name, BundleSuffix)
  {
    if files == [] then []
    else if EndsWith(files[0], BundleSuffix) then [files[0]] + FilterBundles(files[1..])
    else FilterBundles(files[1..])
  }

  /** `.reduce((total, current) => ({...total, [current]: …}), total)`:
      each name in turn added to the object with the date parsed from it. */
  function Accumulate(total: Inventory, names: seq<string>): (existing: Inventory)
    ensures existing.Keys == total.Keys + (set name | name in names)
    decreases |names|
  {
    if names == [] then total
    else
      assert (set name | name in names) == {names[0]} + (set name | name in names[1..]) by {
        assert forall name :: name in names <==> name == names[0] || name in names[1..];
      }
      Accumulate(total[names[0] := ParseDate(names[0])], names[1..])
  }

  /** `getExistingBundles` on the names `readdirSync` listed: the bundle
      files among them, each keyed by its name, nothing else. */
  function InventoryOf(files: seq<string>): (existing: Inventory)
    ensures existing.Keys == set name | name in files && EndsWith(name, BundleSuffix)
  {
    Accumulate(map[], FilterBundles(files))
  }

  /** Every name the reduction adds carries the date parsed from it. */
  lemma {:induction false} AccumulatedDates(total: Inventory, names: seq<string>)
    requires forall name :: name in total ==> total[name] == ParseDate(name)
    ensures forall name :: name in Accumulate(total, names) ==> Accumulate(total, names)[name] == ParseDate(name)
    decreases |names|
  {
    if names != [] {
      AccumulatedDates(total[names[0] := ParseDate(names[0])], names[1..]);
    }
  }

  /** Whatever order the directory is listed in, the inventory built from
      the listing is `ExistingBundles` of the directory's entries: the
      bundle files, each with the date parsed from its name. */
  lemma InventoryOfListing(files: seq<string>, entries: set<string>)
    requires forall name :: name in files <==> name in entries
    ensures InventoryOf(files) == ExistingBundles(entries)
  {
    AccumulatedDates(map[], FilterBundles(files));
    assert InventoryOf(files).Keys == ExistingBundles(entries).Keys;
  }

  /** Number of bundle files among a directory's entries. */
  function BundleCount(entries: set<string>): nat
  {
    |BundleFiles(entries)|
  }

  /** The count is the size of the inventory. */
  lemma CountIsInventorySize(entries: set<string>)
    ensures BundleCount(entries) == |ExistingBundles(entries)|
  {
    assert |ExistingBundles(entries)| == |ExistingBundles(entries).Keys|;
  }

  /** `isBackupUpToDate`: some inventory name contains the decimal text of
      the timestamp anywhere in it. An empty inventory is never up to date. */
  function IsBackupUpToDate(existing: Inventory, latestDate: nat): (upToDate: bool)
    ensures existing == map[] ==> !upToDate
  {
    exists name | name in existing :: Contains(name, Decimal(latestDate))
  }

  /** An owner/name pair without further slashes yields the name. */
  lemma ShortNameOfOwnerAndName(owner: string, name: string)
    requires '/' !in owner && '/' !in name
    ensures ShortName(owner + "/" + name) == name
  {
    var full := owner + "/" + name;
    assert OccursAt(full, "/", |owner|);
    forall j | 0 <= j < |owner|
      ensures !OccursAt(full, "/", j)
    {
      assert full[j] == owner[j];
    }
    var i := FindFirst(full, "/").value;
    assert full[..i] == owner && full[i + 1..] == name;
    forall j | 0 <= j <= |name|
      ensures !OccursAt(name, "/", j)
    {
      if j < |name| {
        assert name[j..j + 1] == [name[j]];
      }
    }
    SplitAtOnlyOccurrence(full, "/", i);
  }

  /** A full name without a slash has no second piece: the bundle name
      starts with the text "undefined". */
  lemma ShortNameWithoutSlash(fullName: string)
    requires '/' !in fullName
    ensures ShortName(fullName) == "undefined"
  {
    SplitWithoutSeparator(fullName, '/');
  }

  /** Round trip: the date parsed back from a generated bundle name is the
      pushed-at time it was built from, whatever dashes the short name
      holds. */
  lemma RoundTrip(fullName: string, pushedAt: nat)
    ensures ParseDate(BundleName(fullName, pushedAt)) == Some(pushedAt)
  {
    var short, d := ShortName(fullName), Decimal(pushedAt);
    var tail := d + BundleSuffix;
    assert BundleName(fullName, pushedAt) == short + ['-'] + tail;
    assert '-' !in tail by {
      assert forall k :: 0 <= k < |d| ==> tail[k] == d[k] && IsDigit(d[k]);
      assert forall k :: |d| <= k < |tail| ==> tail[k] == BundleSuffix[k - |d|];
    }
    LastSegmentAfterFinalSeparator(short, '-', tail);
    assert '.' !in d by {
      assert forall k :: 0 <= k < |d| ==> IsDigit(d[k]);
    }
    ReplaceTrailingPattern(d, BundleSuffix);
    ParseIntDecimal(pushedAt, []);
    assert d + [] == d;
  }

  /** A bundle file whose name has no dash and does not start with a digit
      (after any white space or sign) is inventoried with a NaN date. */
  lemma UndatedName(stem: string)
    requires |stem| > 0 && '-' !in stem && '.' !in stem
    requires !IsDigit(stem[0]) && !IsJsWhitespace(stem[0]) && stem[0] != '+'
    ensures ParseDate(stem + BundleSuffix) == None
  {
    var name := stem + BundleSuffix;
    assert '-' !in name by {
      assert forall k :: |stem| <= k < |name| ==> name[k] == BundleSuffix[k - |stem|];
    }
    SplitWithoutSeparator(name, '-');
    ReplaceTrailingPattern(stem, BundleSuffix);
    assert TrimStart(stem) == stem;
  }

  /** Distinct pushed-at times give distinct bundle names. */
  lemma BundleNamesDistinct(fullName: string, t1: nat, t2: nat)
    requires t1 != t2
    ensures BundleName(fullName, t1) != BundleName(fullName, t2)
  {
    RoundTrip(fullName, t1);
    RoundTrip(fullName, t2);
  }

  /** A generated name ends in the bundle suffix. */
  lemma GeneratedNameIsBundle(fullName: string, pushedAt: nat)
    ensures EndsWith(BundleName(fullName, pushedAt), BundleSuffix)
  {
    var name := BundleName(fullName, pushedAt);
    assert name[|name| - |BundleSuffix|..] == BundleSuffix;
  }

  /** A generated name enters the inventory with the date it was built from. */
  lemma GeneratedNameInventoried(entries: set<string>, fullName: string, pushedAt: nat)
    requires BundleName(fullName, pushedAt) in entries
    ensures BundleName(fullName, pushedAt) in ExistingBundles(entries)
    ensures ExistingBundles(entries)[BundleName(fullName, pushedAt)] == Some(pushedAt)
  {
    GeneratedNameIsBundle(fullName, pushedAt);
    RoundTrip(fullName, pushedAt);
  }

  /** Freshness after creation: once the bundle generated for `pushedAt` is
      in the inventory, the repository counts as up to date for `pushedAt`. */
  lemma FreshAfterCreation(existing: Inventory, fullName: string, pushedAt: nat)
    requires BundleName(fullName, pushedAt) in existing
    ensures IsBackupUpToDate(existing, pushedAt)
  {
    var d := Decimal(pushedAt);
    assert d[..|d|] == d;
    ContainsStartOfMiddle(ShortName(fullName) + "-", d, BundleSuffix, d);
  }

  /** The freshness test is loose: for t > 0 a bundle built for time 10·t,
      which is not the bundle for t, makes the repository count as up to
      date at time t, although the date parsed from that bundle is 10·t. */
  lemma LooseFreshness(existing: Inventory, fullName: string, t: nat)
    requires t > 0
    requires BundleName(fullName, 10 * t) in existing
    ensures BundleName(fullName, 10 * t) != BundleName(fullName, t)
    ensures IsBackupUpToDate(existing, t)
    ensures ParseDate(BundleName(fullName, 10 * t)) == Some(10 * t)
  {
    RoundTrip(fullName, 10 * t);
    BundleNamesDistinct(fullName, 10 * t, t);
    LaterNameContainsDecimal(fullName, t);
  }

  lemma LaterNameContainsDecimal(fullName: string, t: nat)
    ensures Contains(BundleName(fullName, 10 * t), Decimal(t))
  {
    DecimalTimesTen(t);
    ContainsStartOfMiddle(ShortName(fullName) + "-", Decimal(10 * t), BundleSuffix, Decimal(t));
  }

  /** The decimal text of 10·t starts with that of t. */
  lemma DecimalTimesTen(t: nat)
    ensures |Decimal(t)| <= |Decimal(10 * t)|
    ensures Decimal(10 * t)[..|Decimal(t)|] == Decimal(t)
  {
    var n := 10 * t;
    if t > 0 {
      assert n / 10 == t && n % 10 == 0 && n >= 10;
      assert Decimal(n) == Decimal(t) + [DigitChar(0)];
    }
  }
}
