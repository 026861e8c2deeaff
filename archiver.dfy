/** `bundleRepository` and `processRepositories`: one repository's archiving
    step as a transition of its bundle directory, and the batch loop over
    the listed repositories. */
module Archiver {
  import opened JsText
  import opened Bundles
  import opened Transport
  import opened Disk
  import opened Pruner

  /** The scratch directory the mirror clone is made in, `<bundlePath>/cloned`. */
  const Scratch := "cloned"

  /** The fields of a listed repository the script reads; `pushedAt` is
      `Date.parse(pushed_at)` in milliseconds. */
  datatype Repository = Repository(fullName: string, cloneUrl: string, sshUrl: string, pushedAt: nat)

  /** The configuration: the transport entries and MAX_BACKUPS. */
  datatype Config = Config(transport: Settings, maxBackups: nat)

  /** What the two git invocations do, which the model does not run:
      `git clone --mirror` fails, `git bundle create` fails, or a bundle
      named as asked appears in the scratch directory. */
  datatype GitOutcome = CloneFails | BundleCreateFails | BundleProduced

  datatype Stage = Clone | BundleCreate

  /** How one archiving step ended: skipped as up to date, failed in a git
      invocation (after choosing `url`), or archived as `bundle` and pruned. */
  datatype Report =
    | UpToDate
    | Failed(url: string, stage: Stage)
    | Archived(url: string, bundle: string, prune: PruneResult)

  /** Every bundle file of the directory has a numeric date. */
  predicate WellFormed(entries: set<string>)
  {
    forall name | name in BundleFiles(entries) :: ParseDate(name).Some?
  }

  /** One archiving step on the directory entries `cleared` (the entries
      once the stale scratch directory is gone), with the generated bundle
      name, the chosen clone URL and the freshness verdict given: an
      up-to-date repository stops there; otherwise the scratch directory is
      made, and a failed git invocation leaves it behind, while a produced
      bundle is moved in, the scratch directory removed, and the pre-run
      inventory pruned. */
  ghost predicate Step(cleared: set<string>, name: string, url: string, upToDate: bool, git: GitOutcome,
                       limit: nat, report: Report, after: set<string>)
  {
    if upToDate then
      report == UpToDate && after == cleared
    else
      match git
      case CloneFails => report == Failed(url, Clone) && after == cleared + {Scratch}
      case BundleCreateFails => report == Failed(url, BundleCreate) && after == cleared + {Scratch}
      case BundleProduced =>
        && report.Archived? && report.url == url && report.bundle == name
        && PruneSpec(cleared + {name}, ExistingBundles(cleared), limit, report.prune, after)
  }

  /** The step `bundleRepository(repo)` takes on the directory entries
      `before`, as a relation to the entries `after`: the stale scratch
      directory goes, the inventory is read, and the step continues with
      the name generated for the pushed-at time, the URL chosen by the
      transport settings and the verdict of the freshness test. */
  ghost predicate ArchiveStep(before: set<string>, repo: Repository, config: Config, git: GitOutcome,
                              report: Report, after: set<string>)
  {
    var cleared := before - {Scratch};
    Step(cleared, BundleName(repo.fullName, repo.pushedAt), CloneUrl(config.transport, repo.cloneUrl, repo.sshUrl),
         IsBackupUpToDate(ExistingBundles(cleared), repo.pushedAt), git, config.maxBackups, report, after)
  }

  /** `bundleRepository(repository)`, the filesystem calls acting on the
      repository's directory in `tree` and the git invocations replaced by
      their outcome `git`. */
  method BundleRepository(tree: BackupTree, repo: Repository, config: Config, git: GitOutcome)
    returns (report: Report)
    requires repo.fullName in tree.dirs ==> WellFormed(tree.dirs[repo.fullName])
    modifies tree
    ensures repo.fullName in tree.dirs
    ensures tree.dirs == old(tree.dirs)[repo.fullName := tree.dirs[repo.fullName]]
    ensures ArchiveStep(EntriesOf(old(tree.dirs), repo.fullName), repo, config, git, report,
                        tree.dirs[repo.fullName])
  {
    var bundlePath := repo.fullName;
    var bundleName := BundleName(repo.fullName, repo.pushedAt);
    ghost var before := EntriesOf(tree.dirs, bundlePath);
    // mkdirSync(bundlePath, { recursive: true }): the directory exists, its
    // entries kept
    tree.dirs := tree.dirs[bundlePath := EntriesOf(tree.dirs, bundlePath)];
    // rmSync(cloneRepoPath, { recursive: true, force: true })
    tree.dirs := tree.dirs[bundlePath := tree.dirs[bundlePath] - {Scratch}];
    OverwrittenEntries(old(tree.dirs), bundlePath, before, before - {Scratch});
    // getExistingBundles(bundlePath)
    var files := ReadDir(tree, bundlePath);
    var existing := InventoryOf(files);
    InventoryOfListing(files, tree.dirs[bundlePath]);
    if IsBackupUpToDate(existing, repo.pushedAt) {
      SkippedStep(before, repo, config, git);
      return UpToDate;
    }
    // mkdirSync(cloneRepoPath, { recursive: true })
    tree.dirs := tree.dirs[bundlePath := tree.dirs[bundlePath] + {Scratch}];
    OverwrittenEntries(old(tree.dirs), bundlePath, before - {Scratch}, before - {Scratch} + {Scratch});
    var url := CloneUrl(config.transport, repo.cloneUrl, repo.sshUrl);
    match git {
      case CloneFails =>
        FailedStep(before, repo, config, git, Clone);
        return Failed(url, Clone);
      case BundleCreateFails =>
        FailedStep(before, repo, config, git, BundleCreate);
        return Failed(url, BundleCreate);
      case BundleProduced =>
    }
    // renameSync(<cloneRepoPath>/<bundleName>, <bundlePath>/<bundleName>)
    tree.dirs := tree.dirs[bundlePath := tree.dirs[bundlePath] + {bundleName}];
    OverwrittenEntries(old(tree.dirs), bundlePath, before - {Scratch} + {Scratch}, before - {Scratch} + {Scratch} + {bundleName});
    // rmSync(cloneRepoPath, { recursive: true, force: true, maxRetries: 10 })
    tree.dirs := tree.dirs[bundlePath := tree.dirs[bundlePath] - {Scratch}];
    GeneratedNameFacts(before - {Scratch}, repo);
    ScratchRemovedAfterMove(before, bundleName);
    OverwrittenEntries(old(tree.dirs), bundlePath, before - {Scratch} + {Scratch} + {bundleName}, tree.dirs[bundlePath]);
    ClearedWellFormed(old(tree.dirs), bundlePath);
    ghost var moved := tree.dirs[bundlePath];
    var pruned := CleanBundles(tree, bundlePath, existing, config.maxBackups);
    OverwrittenEntries(old(tree.dirs), bundlePath, moved, tree.dirs[bundlePath]);
    ArchivedStep(before, repo, config, pruned, tree.dirs[bundlePath]);
    report := Archived(url, bundleName, pruned);
  }

  /** The scratch directory made and removed around the move leaves the
      cleared entries plus the moved bundle. */
  lemma ScratchRemovedAfterMove(before: set<string>, name: string)
    requires EndsWith(name, BundleSuffix)
    ensures before - {Scratch} + {Scratch} + {name} - {Scratch} == before - {Scratch} + {name}
  {
    ScratchIsNoBundle();
    assert name != Scratch;
  }

  /** The inventory of a directory the archiver may act on, once cleared,
      has every date. */
  lemma ClearedWellFormed(dirs: map<string, set<string>>, path: string)
    requires path in dirs ==> WellFormed(dirs[path])
    ensures AllDated(ExistingBundles(EntriesOf(dirs, path) - {Scratch}))
  {
    ScratchInvisible(EntriesOf(dirs, path));
  }

  /** The three ways a step can end, each as the `ArchiveStep` it is: found
      up to date, the directory cleared and nothing more. */
  lemma SkippedStep(before: set<string>, repo: Repository, config: Config, git: GitOutcome)
    requires IsBackupUpToDate(ExistingBundles(before - {Scratch}), repo.pushedAt)
    ensures ArchiveStep(before, repo, config, git, UpToDate, before - {Scratch})
  {
  }

  /** A git invocation failed: the scratch directory stays behind. */
  lemma FailedStep(before: set<string>, repo: Repository, config: Config, git: GitOutcome, stage: Stage)
    requires !IsBackupUpToDate(ExistingBundles(before - {Scratch}), repo.pushedAt)
    requires (git == CloneFails && stage == Clone) || (git == BundleCreateFails && stage == BundleCreate)
    ensures ArchiveStep(before, repo, config, git, Failed(CloneUrl(config.transport, repo.cloneUrl, repo.sshUrl), stage),
                        before - {Scratch} + {Scratch})
  {
  }

  /** A bundle was produced, moved in, and the pre-run inventory pruned. */
  lemma ArchivedStep(before: set<string>, repo: Repository, config: Config, prune: PruneResult, after: set<string>)
    requires !IsBackupUpToDate(ExistingBundles(before - {Scratch}), repo.pushedAt)
    requires PruneSpec(before - {Scratch} + {BundleName(repo.fullName, repo.pushedAt)},
                       ExistingBundles(before - {Scratch}), config.maxBackups, prune, after)
    ensures ArchiveStep(before, repo, config, BundleProduced,
                        Archived(CloneUrl(config.transport, repo.cloneUrl, repo.sshUrl),
                                 BundleName(repo.fullName, repo.pushedAt), prune), after)
  {
  }

  /** No two listed repositories share a full name, as in GitHub's listing. */
  predicate DistinctNames(repos: seq<Repository>)
  {
    forall i, j :: 0 <= i < j < |repos| ==> repos[i].fullName != repos[j].fullName
  }

  /** The directory of every listed repository, where it exists, has dated
      bundle names only. */
  ghost predicate ListedWellFormed(dirs: map<string, set<string>>, repos: seq<Repository>)
  {
    forall k :: 0 <= k < |repos| && repos[k].fullName in dirs ==> WellFormed(dirs[repos[k].fullName])
  }

  /** Every directory that held at most `limit` bundle files at the start
      (a directory that did not exist held none) holds at most `limit` now. */
  ghost predicate BoundKept(initial: map<string, set<string>>, dirs: map<string, set<string>>, limit: nat)
  {
    forall path :: path in dirs && BundleCount(EntriesOf(initial, path)) <= limit ==> BundleCount(dirs[path]) <= limit
  }

  /** The directories after the first `n` repositories: the ones there were
      and one per repository processed. */
  ghost predicate KeysGrown(initial: map<string, set<string>>, dirs: map<string, set<string>>,
                            repos: seq<Repository>, n: nat)
    requires n <= |repos|
  {
    dirs.Keys == initial.Keys + set k | 0 <= k < n :: repos[k].fullName
  }

  /** The directory of no repository among the first `n` has changed. */
  ghost predicate Untouched(initial: map<string, set<string>>, dirs: map<string, set<string>>,
                            repos: seq<Repository>, n: nat)
    requires n <= |repos|
  {
    forall path :: path in initial && (forall k :: 0 <= k < n ==> repos[k].fullName != path)
      ==> path in dirs && dirs[path] == initial[path]
  }

  /** Each of the first `n` repositories' directories has taken its
      archiving step from its initial entries, reported in `reports`. */
  ghost predicate StepsTaken(initial: map<string, set<string>>, dirs: map<string, set<string>>,
                             repos: seq<Repository>, config: Config, gits: seq<GitOutcome>,
                             reports: seq<Report>, n: nat)
    requires n <= |repos| && n <= |gits| && n <= |reports|
  {
    forall k :: 0 <= k < n ==>
      && repos[k].fullName in dirs
      && ArchiveStep(EntriesOf(initial, repos[k].fullName), repos[k], config, gits[k],
                     reports[k], dirs[repos[k].fullName])
  }

  /** `processRepositories(repositories)`: archive each listed repository in
      turn, `gits[k]` standing for what git does for the k-th. Directories
      of unlisted repositories are untouched, the listed repositories'
      directories keep dated bundle names only, with a limit of at least one
      every directory that had at most `maxBackups` bundles still has at
      most that many, and, for a listing without repeated names, each
      repository's directory has taken exactly its archiving step. */
  method ProcessRepositories(tree: BackupTree, repos: seq<Repository>, config: Config, gits: seq<GitOutcome>)
    returns (reports: seq<Report>)
    requires |gits| == |repos|
    requires ListedWellFormed(tree.dirs, repos)
    modifies tree
    ensures |reports| == |repos|
    ensures KeysGrown(old(tree.dirs), tree.dirs, repos, |repos|)
    ensures Untouched(old(tree.dirs), tree.dirs, repos, |repos|)
    ensures ListedWellFormed(tree.dirs, repos)
    ensures config.maxBackups >= 1 ==> BoundKept(old(tree.dirs), tree.dirs, config.maxBackups)
    ensures DistinctNames(repos) ==> StepsTaken(old(tree.dirs), tree.dirs, repos, config, gits, reports, |repos|)
  {
    reports := [];
    var i := 0;
    while i < |repos|
      invariant 0 <= i <= |repos| && |reports| == i
      invariant BatchInvariant(old(tree.dirs), tree.dirs, repos, config, gits, reports, i)
    {
      ghost var dirsBefore := tree.dirs;
      var report := BundleRepository(tree, repos[i], config, gits[i]);
      BatchStep(old(tree.dirs), dirsBefore, repos, config, gits, reports, i, report, tree.dirs[repos[i].fullName]);
      reports := reports + [report];
      i := i + 1;
    }
  }

  /** What holds after the first `n` repositories: the `ProcessRepositories`
      postconditions for that prefix. */
  ghost predicate BatchInvariant(initial: map<string, set<string>>, dirs: map<string, set<string>>,
                                 repos: seq<Repository>, config: Config, gits: seq<GitOutcome>,
                                 reports: seq<Report>, n: nat)
    requires n <= |repos| && |gits| == |repos| && |reports| == n
  {
    && KeysGrown(initial, dirs, repos, n)
    && Untouched(initial, dirs, repos, n)
    && ListedWellFormed(dirs, repos)
    && (config.maxBackups >= 1 ==> BoundKept(initial, dirs, config.maxBackups))
    && (DistinctNames(repos) ==> StepsTaken(initial, dirs, repos, config, gits, reports, n))
  }

  /** One turn of the batch loop keeps `BatchInvariant`. */
  lemma BatchStep(initial: map<string, set<string>>, dirs: map<string, set<string>>,
                  repos: seq<Repository>, config: Config, gits: seq<GitOutcome>,
                  reports: seq<Report>, i: nat, report: Report, entries: set<string>)
    requires i < |repos| && |gits| == |repos| && |reports| == i
    requires BatchInvariant(initial, dirs, repos, config, gits, reports, i)
    requires ArchiveStep(EntriesOf(dirs, repos[i].fullName), repos[i], config, gits[i], report, entries)
    ensures BatchInvariant(initial, dirs[repos[i].fullName := entries], repos, config, gits, reports + [report], i + 1)
  {
    var repo := repos[i];
    var before := EntriesOf(dirs, repo.fullName);
    BatchKeysStep(initial, dirs, repos, i, entries);
    BatchUntouchedStep(initial, dirs, repos, i, entries);
    BatchWellFormedStep(dirs, repos, i, config, gits[i], report, entries);
    if config.maxBackups >= 1 {
      if BundleCount(EntriesOf(initial, repo.fullName)) <= config.maxBackups {
        TurnBounded(initial, dirs, repo, config, gits[i], report, entries);
      }
      BatchBoundedStep(initial, dirs, repo.fullName, config.maxBackups, entries);
    }
    if DistinctNames(repos) {
      BatchStepsTakenStep(initial, dirs, repos, config, gits, reports, i, report, entries);
    }
  }

  /** A turn adds the repository's directory to the known ones. */
  lemma BatchKeysStep(initial: map<string, set<string>>, dirs: map<string, set<string>>,
                      repos: seq<Repository>, i: nat, entries: set<string>)
    requires i < |repos|
    requires KeysGrown(initial, dirs, repos, i)
    ensures KeysGrown(initial, dirs[repos[i].fullName := entries], repos, i + 1)
  {
    assert (set k | 0 <= k < i + 1 :: repos[k].fullName)
        == (set k | 0 <= k < i :: repos[k].fullName) + {repos[i].fullName};
  }

  /** A turn writes the repository's directory only. */
  lemma BatchUntouchedStep(initial: map<string, set<string>>, dirs: map<string, set<string>>,
                           repos: seq<Repository>, i: nat, entries: set<string>)
    requires i < |repos|
    requires Untouched(initial, dirs, repos, i)
    ensures Untouched(initial, dirs[repos[i].fullName := entries], repos, i + 1)
  {
  }

  /** A turn keeps the listed repositories' directories well formed. */
  lemma BatchWellFormedStep(dirs: map<string, set<string>>, repos: seq<Repository>, i: nat, config: Config,
                            git: GitOutcome, report: Report, entries: set<string>)
    requires i < |repos|
    requires ListedWellFormed(dirs, repos)
    requires ArchiveStep(EntriesOf(dirs, repos[i].fullName), repos[i], config, git, report, entries)
    ensures ListedWellFormed(dirs[repos[i].fullName := entries], repos)
  {
    var before := EntriesOf(dirs, repos[i].fullName);
    if repos[i].fullName !in dirs {
      assert BundleFiles(before) == {};
    }
    WellFormedPreserved(before, repos[i], config, git, report, entries);
  }

  /** A turn keeps every directory that started within a limit of at least
      one within it, given that the repository's own directory stays within
      it when it started so. */
  lemma BatchBoundedStep(initial: map<string, set<string>>, dirs: map<string, set<string>>, path: string,
                         limit: nat, entries: set<string>)
    requires BoundKept(initial, dirs, limit)
    requires BundleCount(EntriesOf(initial, path)) <= limit ==> BundleCount(entries) <= limit
    ensures BoundKept(initial, dirs[path := entries], limit)
  {
  }

  /** The repository's directory stays within a limit of at least one
      through a turn when it started within it. */
  lemma TurnBounded(initial: map<string, set<string>>, dirs: map<string, set<string>>, repo: Repository,
                    config: Config, git: GitOutcome, report: Report, entries: set<string>)
    requires config.maxBackups >= 1
    requires BoundKept(initial, dirs, config.maxBackups)
    requires BundleCount(EntriesOf(initial, repo.fullName)) <= config.maxBackups
    requires ArchiveStep(EntriesOf(dirs, repo.fullName), repo, config, git, report, entries)
    ensures BundleCount(entries) <= config.maxBackups
  {
    var before := EntriesOf(dirs, repo.fullName);
    if repo.fullName !in dirs {
      assert BundleFiles(before) == {};
    }
    BundleCountBounded(before, repo, config, git, report, entries);
  }

  /** For distinct names, a turn records the i-th repository's step on its
      initial entries, the earlier steps staying as they were. */
  lemma BatchStepsTakenStep(initial: map<string, set<string>>, dirs: map<string, set<string>>,
                            repos: seq<Repository>, config: Config, gits: seq<GitOutcome>,
                            reports: seq<Report>, i: nat, report: Report, entries: set<string>)
    requires i < |repos| && |gits| == |repos| && |reports| == i
    requires DistinctNames(repos)
    requires KeysGrown(initial, dirs, repos, i)
    requires Untouched(initial, dirs, repos, i)
    requires StepsTaken(initial, dirs, repos, config, gits, reports, i)
    requires ArchiveStep(EntriesOf(dirs, repos[i].fullName), repos[i], config, gits[i], report, entries)
    ensures StepsTaken(initial, dirs[repos[i].fullName := entries], repos, config, gits, reports + [report], i + 1)
  {
    var name := repos[i].fullName;
    assert name !in (set k | 0 <= k < i :: repos[k].fullName);
    assert EntriesOf(dirs, name) == EntriesOf(initial, name);
    EarlierStepsKept(initial, dirs, repos, config, gits, reports, i, report, entries);
    StepsTakenExtended(initial, dirs[name := entries], repos, config, gits, reports + [report], i);
  }

  /** Writing the i-th repository's directory leaves the steps of the
      earlier, differently named, repositories in place. */
  lemma EarlierStepsKept(initial: map<string, set<string>>, dirs: map<string, set<string>>,
                         repos: seq<Repository>, config: Config, gits: seq<GitOutcome>,
                         reports: seq<Report>, i: nat, report: Report, entries: set<string>)
    requires i < |repos| && |gits| == |repos| && |reports| == i
    requires DistinctNames(repos)
    requires StepsTaken(initial, dirs, repos, config, gits, reports, i)
    ensures StepsTaken(initial, dirs[repos[i].fullName := entries], repos, config, gits, reports + [report], i)
  {
    var grown, reported := dirs[repos[i].fullName := entries], reports + [report];
    forall k | 0 <= k < i
      ensures repos[k].fullName in grown
      ensures ArchiveStep(EntriesOf(initial, repos[k].fullName), repos[k], config, gits[k],
                          reported[k], grown[repos[k].fullName])
    {
      assert grown[repos[k].fullName] == dirs[repos[k].fullName];
      assert reported[k] == reports[k];
    }
  }

  /** The i-th step joins the first i. */
  lemma StepsTakenExtended(initial: map<string, set<string>>, dirs: map<string, set<string>>,
                           repos: seq<Repository>, config: Config, gits: seq<GitOutcome>,
                           reports: seq<Report>, i: nat)
    requires i < |repos| && |gits| == |repos| && |reports| == i + 1
    requires StepsTaken(initial, dirs, repos, config, gits, reports, i)
    requires repos[i].fullName in dirs
    requires ArchiveStep(EntriesOf(initial, repos[i].fullName), repos[i], config, gits[i],
                         reports[i], dirs[repos[i].fullName])
    ensures StepsTaken(initial, dirs, repos, config, gits, reports, i + 1)
  {
  }

  // ---- properties of one step -------------------------------------------

  /** The scratch directory is not a bundle file. */
  lemma ScratchIsNoBundle()
    ensures !EndsWith(Scratch, BundleSuffix)
  {
  }

  /** Removing or adding the scratch directory leaves the inventory as it is. */
  lemma ScratchInvisible(entries: set<string>)
    ensures BundleFiles(entries - {Scratch}) == BundleFiles(entries)
    ensures BundleFiles(entries + {Scratch}) == BundleFiles(entries)
    ensures ExistingBundles(entries - {Scratch}) == ExistingBundles(entries)
    ensures ExistingBundles(entries + {Scratch}) == ExistingBundles(entries)
  {
    ScratchIsNoBundle();
    var files := BundleFiles(entries);
    assert BundleFiles(entries - {Scratch}) == files;
    assert BundleFiles(entries + {Scratch}) == files;
  }

  /** What the step needs to know of the generated name: it is a bundle
      file name, it parses back to the pushed-at time, and a repository
      found stale has no bundle of that name yet. */
  lemma GeneratedNameFacts(cleared: set<string>, repo: Repository)
    ensures EndsWith(BundleName(repo.fullName, repo.pushedAt), BundleSuffix)
    ensures ParseDate(BundleName(repo.fullName, repo.pushedAt)) == Some(repo.pushedAt)
    ensures !IsBackupUpToDate(ExistingBundles(cleared), repo.pushedAt)
            ==> BundleName(repo.fullName, repo.pushedAt) !in ExistingBundles(cleared)
  {
    GeneratedNameIsBundle(repo.fullName, repo.pushedAt);
    RoundTrip(repo.fullName, repo.pushedAt);
    if BundleName(repo.fullName, repo.pushedAt) in ExistingBundles(cleared) {
      FreshAfterCreation(ExistingBundles(cleared), repo.fullName, repo.pushedAt);
    }
  }

  /** Adding a bundle file not yet present raises the count by one. */
  lemma AddBundle(entries: set<string>, name: string)
    requires EndsWith(name, BundleSuffix) && name !in entries
    ensures BundleCount(entries + {name}) == BundleCount(entries) + 1
  {
    assert BundleFiles(entries + {name}) == BundleFiles(entries) + {name};
  }

  /** Unlinking a bundle file lowers the count by one. */
  lemma RemoveBundle(entries: set<string>, name: string)
    requires name in BundleFiles(entries)
    ensures BundleCount(entries - {name}) == BundleCount(entries) - 1
  {
    assert BundleFiles(entries - {name}) == BundleFiles(entries) - {name};
  }

  /** The newly created bundle is never the one pruned: a run that archives
      leaves its own bundle, named for the pushed-at time, in the directory. */
  lemma NewBundleKept(before: set<string>, repo: Repository, config: Config, git: GitOutcome,
                      report: Report, after: set<string>)
    requires ArchiveStep(before, repo, config, git, report, after)
    requires report.Archived?
    ensures report.bundle == BundleName(repo.fullName, repo.pushedAt)
    ensures report.bundle !in ExistingBundles(before - {Scratch})
    ensures report.bundle in after
  {
    GeneratedNameFacts(before - {Scratch}, repo);
  }

  /** The count change of one step, given what `GeneratedNameFacts` says of
      the name. */
  lemma StepBundleCount(cleared: set<string>, name: string, url: string, upToDate: bool, git: GitOutcome,
                        limit: nat, report: Report, after: set<string>)
    requires Step(cleared, name, url, upToDate, git, limit, report, after)
    requires EndsWith(name, BundleSuffix)
    requires !upToDate ==> name !in ExistingBundles(cleared)
    ensures BundleCount(after) == BundleCount(cleared) + (if report.Archived? && !report.prune.Pruned? then 1 else 0)
  {
    ScratchInvisible(cleared);
    if report.Archived? {
      var grown := cleared + {name};
      AddBundle(cleared, name);
      if report.prune.Pruned? {
        var victim := report.prune.name;
        assert victim in BundleFiles(cleared);
        RemoveBundle(grown, victim);
      }
    }
  }

  /** The net change of the bundle count in one run: +1 when a bundle is
      archived and nothing pruned, 0 in every other case. */
  lemma StepCount(before: set<string>, repo: Repository, config: Config, git: GitOutcome,
                  report: Report, after: set<string>)
    requires ArchiveStep(before, repo, config, git, report, after)
    ensures BundleCount(after) == BundleCount(before) + (if report.Archived? && !report.prune.Pruned? then 1 else 0)
  {
    var cleared := before - {Scratch};
    GeneratedNameFacts(cleared, repo);
    ScratchInvisible(before);
    StepBundleCount(cleared, BundleName(repo.fullName, repo.pushedAt), CloneUrl(config.transport, repo.cloneUrl, repo.sshUrl),
                    IsBackupUpToDate(ExistingBundles(cleared), repo.pushedAt), git, config.maxBackups, report, after);
  }

  /** With a limit of at least one, a directory that held at most `limit`
      bundles before a run holds at most `limit` after it. */
  lemma BundleCountBounded(before: set<string>, repo: Repository, config: Config, git: GitOutcome,
                           report: Report, after: set<string>)
    requires ArchiveStep(before, repo, config, git, report, after)
    requires config.maxBackups >= 1
    requires BundleCount(before) <= config.maxBackups
    ensures BundleCount(after) <= config.maxBackups
  {
    StepCount(before, repo, config, git, report, after);
    ScratchInvisible(before);
    CountIsInventorySize(before - {Scratch});
  }

  /** A step adds no entry but the scratch directory and the bundle. */
  lemma StepEntries(cleared: set<string>, name: string, url: string, upToDate: bool, git: GitOutcome,
                    limit: nat, report: Report, after: set<string>)
    requires Step(cleared, name, url, upToDate, git, limit, report, after)
    ensures after <= cleared + {Scratch, name}
  {
  }

  /** Entries gaining at most the scratch directory and one parseable name
      stay well formed. */
  lemma GrownWellFormed(cleared: set<string>, name: string, after: set<string>)
    requires after <= cleared + {Scratch, name}
    requires WellFormed(cleared)
    requires ParseDate(name).Some?
    ensures WellFormed(after)
  {
    forall f | f in BundleFiles(after)
      ensures ParseDate(f).Some?
    {
      if f != name {
        GrownBundleFile(cleared, name, after, f);
      }
    }
  }

  /** A bundle file of the grown entries other than the added name was
      already there. */
  lemma GrownBundleFile(cleared: set<string>, name: string, after: set<string>, f: string)
    requires after <= cleared + {Scratch, name}
    requires f in BundleFiles(after) && f != name
    ensures f in BundleFiles(cleared)
  {
    ScratchIsNoBundle();
  }

  /** Archiving keeps every bundle file's name parseable: the only name it
      adds is a generated one, which parses by the round trip. */
  lemma WellFormedPreserved(before: set<string>, repo: Repository, config: Config, git: GitOutcome,
                            report: Report, after: set<string>)
    requires ArchiveStep(before, repo, config, git, report, after)
    requires WellFormed(before)
    ensures WellFormed(after)
  {
    var cleared := before - {Scratch};
    GeneratedNameFacts(cleared, repo);
    ScratchInvisible(before);
    StepEntries(cleared, BundleName(repo.fullName, repo.pushedAt), CloneUrl(config.transport, repo.cloneUrl, repo.sshUrl),
                IsBackupUpToDate(ExistingBundles(cleared), repo.pushedAt), git, config.maxBackups, report, after);
    GrownWellFormed(cleared, BundleName(repo.fullName, repo.pushedAt), after);
  }

  /** Idempotence: after a run that archived or found the backup current,
      a second run with the same pushed-at time adds no bundle and prunes
      nothing. */
  lemma SecondRunIdle(before: set<string>, repo: Repository, config: Config, git: GitOutcome,
                      report: Report, middle: set<string>,
                      config2: Config, git2: GitOutcome, report2: Report, after: set<string>)
    requires ArchiveStep(before, repo, config, git, report, middle)
    requires report.UpToDate? || report.Archived?
    requires ArchiveStep(middle, repo, config2, git2, report2, after)
    ensures report2 == UpToDate
    ensures after == middle
  {
    SuccessLeavesFresh(before, repo, config, git, report, middle);
    RemoveAbsent(middle, Scratch);
    FreshStepIdle(middle - {Scratch}, BundleName(repo.fullName, repo.pushedAt),
                  CloneUrl(config2.transport, repo.cloneUrl, repo.sshUrl), git2, config2.maxBackups, report2, after);
  }

  /** Removing an absent element changes nothing. */
  lemma RemoveAbsent(s: set<string>, x: string)
    requires x !in s
    ensures s - {x} == s
  {
  }

  /** A step that finds the backup current changes nothing. */
  lemma FreshStepIdle(cleared: set<string>, name: string, url: string, git: GitOutcome,
                      limit: nat, report: Report, after: set<string>)
    requires Step(cleared, name, url, true, git, limit, report, after)
    ensures report == UpToDate && after == cleared
  {
  }

  /** After a run that archived or found the backup current, the directory
      has no scratch directory and the repository counts as up to date. */
  lemma SuccessLeavesFresh(before: set<string>, repo: Repository, config: Config, git: GitOutcome,
                           report: Report, after: set<string>)
    requires ArchiveStep(before, repo, config, git, report, after)
    requires report.UpToDate? || report.Archived?
    ensures Scratch !in after
    ensures IsBackupUpToDate(ExistingBundles(after), repo.pushedAt)
  {
    var cleared := before - {Scratch};
    GeneratedNameFacts(cleared, repo);
    ScratchIsNoBundle();
    StepLeavesNoScratch(cleared, BundleName(repo.fullName, repo.pushedAt),
                        CloneUrl(config.transport, repo.cloneUrl, repo.sshUrl),
                        IsBackupUpToDate(ExistingBundles(cleared), repo.pushedAt), git, config.maxBackups, report, after);
    if report.Archived? {
      NewBundleKept(before, repo, config, git, report, after);
      GeneratedNameInventoried(after, repo.fullName, repo.pushedAt);
      FreshAfterCreation(ExistingBundles(after), repo.fullName, repo.pushedAt);
    }
  }

  /** A step that ends up to date or archived leaves no scratch directory. */
  lemma StepLeavesNoScratch(cleared: set<string>, name: string, url: string, upToDate: bool, git: GitOutcome,
                            limit: nat, report: Report, after: set<string>)
    requires Step(cleared, name, url, upToDate, git, limit, report, after)
    requires Scratch !in cleared && name != Scratch
    requires report.UpToDate? || report.Archived?
    ensures Scratch !in after
  {
  }

  /** The first backup of a repository whose directory is empty, or holds
      only a stale scratch directory: with a limit of at least one, the
      directory ends up holding exactly the new bundle, and nothing is
      pruned. */
  lemma FirstBackup(before: set<string>, repo: Repository, config: Config, report: Report, after: set<string>)
    requires before <= {Scratch}
    requires config.maxBackups >= 1
    requires ArchiveStep(before, repo, config, BundleProduced, report, after)
    ensures after == {BundleName(repo.fullName, repo.pushedAt)}
    ensures report == Archived(CloneUrl(config.transport, repo.cloneUrl, repo.sshUrl),
                               BundleName(repo.fullName, repo.pushedAt), Kept)
  {
    assert before - {Scratch} == {};
    assert ExistingBundles({}) == map[];
  }

  /** A run that fails in git leaves the scratch directory behind with the
      bundles untouched; the next run removes it first and then behaves as
      if it had never been there. */
  lemma FailedRunRecovered(before: set<string>, repo: Repository, config: Config, git: GitOutcome,
                           report: Report, middle: set<string>,
                           config2: Config, git2: GitOutcome, report2: Report, after: set<string>)
    requires ArchiveStep(before, repo, config, git, report, middle)
    requires report.Failed?
    ensures Scratch in middle
    ensures ExistingBundles(middle) == ExistingBundles(before)
    ensures ArchiveStep(middle, repo, config2, git2, report2, after)
        <==> ArchiveStep(before - {Scratch}, repo, config2, git2, report2, after)
  {
    ScratchInvisible(before);
    ScratchInvisible(before - {Scratch});
    assert middle == before - {Scratch} + {Scratch};
    assert middle - {Scratch} == before - {Scratch} - {Scratch};
  }
}
