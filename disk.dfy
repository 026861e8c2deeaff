/** The part of the filesystem the script changes. */
module Disk {

  /** The backup root: every repository's bundle directory, keyed by the
      repository's full name (its path below the root), with the names of
      the entries the directory holds, bundle files and the scratch
      directory alike. The filesystem calls become updates of `dirs`. */
  class BackupTree {
    var dirs: map<string, set<string>>
  }

  /** The entries of a directory; a directory that does not exist yet has
      none. */
  function EntriesOf(dirs: map<string, set<string>>, path: string): set<string>
  {
    if path in dirs then dirs[path] else {}
  }

  /** `fs.readdirSync(path)`: the names of the directory's entries, each
      once, in an order the filesystem chooses. */
  method ReadDir(tree: BackupTree, path: string) returns (files: seq<string>)
    requires path in tree.dirs
    ensures forall name :: name in files <==> name in tree.dirs[path]
    ensures |files| == |tree.dirs[path]|
  {
    var entries := tree.dirs[path];
    var remaining := entries;
    files := [];
    while remaining != {}
      invariant remaining <= entries
      invariant forall name :: name in files <==> name in entries && name !in remaining
      invariant |files| + |remaining| == |entries|
      decreases remaining
    {
      var name :| name in remaining;
      files := files + [name];
      remaining := remaining - {name};
    }
  }

  /** Writing a directory twice leaves only the second write. */
  lemma OverwrittenEntries(dirs: map<string, set<string>>, path: string, first: set<string>, second: set<string>)
    ensures dirs[path := first][path := second] == dirs[path := second]
  {
  }
}
