# Bundle backups of GitHub repositories, modelled in Dafny

The script walks the repositories its owner has on GitHub. For each one it
keeps a directory of git bundle files named `<repository>-<pushed-at
milliseconds>.bundle`:

- It reads the directory's inventory: every `.bundle` file, with the date
  parsed back from its name.
- It skips the repository when some inventory name contains the decimal
  text of the latest push time.
- Otherwise it mirror-clones the repository into a scratch directory
  `cloned`, creates a bundle there and moves the bundle into the directory.
- Then it prunes: when the pre-run inventory plus the new bundle exceeds
  `MAX_BACKUPS`, it sorts the pre-run inventory by date and unlinks the
  oldest file.

The model has six modules:

- `JsText` holds the JavaScript string operations the script relies on:
  `includes`, `endsWith`, `split`, `.at(-1)`, `replace` with a string
  pattern, `${n}` and `parseInt(…, 10)`. `FindFirst` is the
  first-occurrence search behind `split` and `replace`.
- `Bundles` covers bundle naming, date parsing, the inventory
  (`getExistingBundles`, the filter and reduction over the directory
  listing, proved equal to a map comprehension over the directory's
  entries) and the freshness test (`isBackupUpToDate`).
- `Transport` is the choice and rewrite of the clone URL.
- `Disk` is the filesystem. A class `BackupTree` maps each repository
  directory to its set of entries; `ReadDir` lists a directory.
- `Pruner` is `cleanBundles`. It lists the inventory into an array, sorts
  the array in place by date (insertion sort) and unlinks the first file.
- `Archiver` holds two things:
  - `bundleRepository`: a method performing the filesystem steps on the
    tree. It is proved against a relational step specification, `ArchiveStep`.
  - `processRepositories`: the batch loop, proved with a loop invariant.

The git invocations are not run. Each repository's step takes a `GitOutcome`
parameter instead: the clone fails, the bundle creation fails, or the bundle
is produced.

A bundle file whose trailing date does not parse is inventoried with `NaN`
(`None` from `ParseDate`), shown by `Bundles.UndatedName`. The freshness
test is modelled as written, with its substring looseness
(`Bundles.LooseFreshness`).

## Model

| member | source | states |
|---|---|---|
| JsText.Contains | index.mjs:24 | `includes`: the pattern occurs at some position; FindFirst is None exactly when it does not, and ContainsStartOfMiddle shows a text contains whatever one of its parts starts with |
| JsText.EndsWith | index.mjs:31 | `endsWith`: the text's last characters are the suffix; GeneratedNameIsBundle shows every generated name passes it and ScratchIsNoBundle that `cloned` does not |
| JsText.FindFirst | index.mjs:94 | the index returned is an occurrence of the pattern with none before it; None exactly when the text does not contain the pattern |
| JsText.Split | index.mjs:94 | a split has at least one piece, and joining the pieces with the separator gives back the text |
| JsText.SplitPiecesAreFree | index.mjs:94 | no piece of a split contains the separator |
| JsText.ReplaceFirst | index.mjs:36 | a text without the pattern is left as it is by `replace` |
| JsText.ReplaceTrailingPattern | index.mjs:36 | replacing the first ".bundle" by nothing strips the trailing suffix from a text not containing '.' |
| JsText.LastSegmentAfterFinalSeparator | index.mjs:36 | `split("-").at(-1)` is the text after the final dash, whatever dashes come before |
| JsText.SplitWithoutSeparator | index.mjs:36 | a text without the separator splits into itself alone |
| JsText.Decimal | index.mjs:73 | `${n}` is non-empty, all decimal digits, denotes n, and has no leading zero unless n is 0 |
| JsText.TrimStart | index.mjs:36 | `parseInt` skips exactly the leading white space: what it removes is white space and what remains starts otherwise |
| JsText.LeadingDigits | index.mjs:36 | `parseInt` reads the longest run of digits at the start |
| JsText.ParseInt | index.mjs:36 | `parseInt(s, 10)`: white space skipped, optional sign, longest digit run, NaN (None) when that run is empty; ParseIntDecimal and UndatedName state its results |
| JsText.ParseIntDecimal | index.mjs:36 | `parseInt` reads back the decimal text of n followed by any non-digit text as n |
| Disk.ReadDir | index.mjs:29 | `readdirSync` lists each entry of the directory exactly once, in some order |
| Bundles.FilterBundles | index.mjs:31 | the filter keeps exactly the listed names that end in ".bundle", and no more names than were listed |
| Bundles.Accumulate | index.mjs:32-41 | the reduction's keys are the starting object's keys plus every name reduced |
| Bundles.AccumulatedDates | index.mjs:35-36 | every key the reduction adds carries the date parsed from its own name |
| Bundles.InventoryOf | index.mjs:28-43 | the inventory's keys are exactly the listed names ending in ".bundle" |
| Bundles.InventoryOfListing | index.mjs:28-43 | for any listing of a directory, in any order, the inventory equals the reference map comprehension: every bundle file of the directory and nothing else, each with the date parsed from its own name |
| Bundles.CountIsInventorySize | index.mjs:47 | the number of bundle files in a directory is the size of its inventory |
| Bundles.IsBackupUpToDate | index.mjs:22-26 | an empty inventory is never up to date |
| Bundles.ShortName | index.mjs:73 | `full_name.split("/")[1]`, "undefined" past the end; never contains '/' |
| Bundles.BundleName | index.mjs:73 | the bundle name never contains '/', so the bundle stays a plain file of its directories; RoundTrip and BundleNamesDistinct state what it encodes |
| Bundles.ParseDate | index.mjs:36 | the date of an inventory entry, `parseInt` of the text after the last '-' with ".bundle" removed; RoundTrip shows it inverts BundleName and UndatedName where it gives NaN |
| Bundles.ShortNameOfOwnerAndName | index.mjs:73 | `full_name.split("/")[1]` of "owner/name" is the name |
| Bundles.ShortNameWithoutSlash | index.mjs:73 | a full name without '/' gives the short name "undefined" |
| Bundles.RoundTrip | index.mjs:36 | the date parsed back from the bundle name generated at line 73 is the pushed-at time it was built from |
| Bundles.UndatedName | index.mjs:36 | a bundle file whose stem has no '-' and no '.' and does not start with a digit, '+' or white space gets a NaN date |
| Bundles.BundleNamesDistinct | index.mjs:73 | different pushed-at times give different bundle names |
| Bundles.GeneratedNameIsBundle | index.mjs:73 | a generated name ends in ".bundle", so the inventory filter keeps it |
| Bundles.GeneratedNameInventoried | index.mjs:28-43 | a generated bundle in the directory is inventoried with the date it was built from |
| Bundles.FreshAfterCreation | index.mjs:22-26 | once the bundle for a pushed-at time is inventoried, the repository is up to date for that time |
| Bundles.LooseFreshness | index.mjs:22-26 | for t > 0, a bundle dated 10·t, a different file from the bundle for t, makes the repository count as up to date at time t, though its parsed date is 10·t |
| Transport.CloneUrl | index.mjs:92-96 | the SSH URL when USE_SSH_URL is "true"; the unchanged HTTPS URL when no user name is set |
| Transport.CredentialsInsertedAfterScheme | index.mjs:93-96 | with a user name and a single "://", `user:token@` is inserted right after the scheme and every other character is kept |
| Transport.CredentialsWithoutScheme | index.mjs:93-96 | a URL without "://" becomes the URL, "://", the credentials and the text "undefined" |
| Transport.CredentialsDropTextAfterSecondScheme | index.mjs:93-96 | with a second "://", all text from the second separator on is lost |
| Pruner.SwapDown | index.mjs:55-57 | one step of the sort keeps the same elements (multiset) and exchanges positions j-1 and j |
| Pruner.SortByDate | index.mjs:55-57 | the array ends sorted by ascending date and is a permutation of its old contents |
| Pruner.ListBundles | index.mjs:51-54 | a new array with one element per inventory entry, each carrying that entry's name and date, every entry present |
| Pruner.FirstOfSortedIsOldest | index.mjs:55-59 | the first element of a date-sorted listing of the inventory names an entry with the smallest date |
| Pruner.CleanBundles | index.mjs:45-62 | only the bundle directory changes. Nothing is removed while inventory size + 1 <= limit; otherwise exactly one file with the smallest date is unlinked and every other entry stays. An empty inventory over the limit prunes nothing, the call failing |
| Pruner.LimitLeavesSomethingToPrune | index.mjs:46-59 | with a limit of at least one, pruning is needed only when the inventory is not empty, so `bundlesAscending[0]` exists whenever it is read |
| Pruner.OldestOfThreePruned | index.mjs:45-62 | three bundles dated 300, 100 and 200 with a limit of 2: exactly the one dated 100 is removed |
| Archiver.BundleRepository | index.mjs:64-118 | only the repository's directory changes, and it goes from its old entries to new ones by one archiving step (ArchiveStep): skip when up to date; a failed git call leaves the scratch directory; otherwise the bundle is moved in, the scratch directory removed and the pre-run inventory pruned |
| Archiver.ProcessRepositories | index.mjs:120-124 | one report per repository; the directories are the old ones plus one per listed repository; unlisted directories are untouched; the listed repositories' bundle names stay parseable; with a limit of at least one, every directory that held at most maxBackups bundles still does; with distinct names each directory took exactly its own archiving step |
| Archiver.TurnBounded | index.mjs:122 | with a limit of at least one, a turn of the loop leaves the repository's directory within the limit when it started within it |
| Archiver.BatchStep | index.mjs:121-123 | the loop invariant of the batch is preserved by archiving the next repository |
| Archiver.ScratchInvisible | index.mjs:70-76 | adding or removing the scratch directory `cloned` changes neither the bundle files nor the inventory |
| Archiver.NewBundleKept | index.mjs:73-114 | a run that archives reports the generated name, which was not in the pre-run inventory and is in the directory afterwards (pruning never removes it) |
| Archiver.StepCount | index.mjs:75-117 | a run raises the bundle count by one when it archives and prunes nothing, and leaves it unchanged otherwise |
| Archiver.BundleCountBounded | index.mjs:45-50 | with a limit of at least one, a directory holding at most `limit` bundles before a run holds at most `limit` after it |
| Archiver.WellFormedPreserved | index.mjs:73-114 | a run keeps every bundle name's date parseable |
| Archiver.SuccessLeavesFresh | index.mjs:78-114 | after a run that archives or skips, no scratch directory remains and the repository is up to date |
| Archiver.SecondRunIdle | index.mjs:78-86 | a second run after one that archived or skipped skips and changes nothing, whatever its git outcome and settings |
| Archiver.FirstBackup | index.mjs:75-114 | with a limit of at least one, the first successful run on a directory that is empty or holds only a stale scratch directory leaves exactly the new bundle and prunes nothing |
| Archiver.FailedRunRecovered | index.mjs:75-117 | a failed git call leaves the scratch directory and the inventory as they were; the next run behaves as if that scratch directory had never existed |

## Left out

- The repository listing (the Octokit call with pagination, lines 13-20) is not modelled: the repositories are a parameter of `ProcessRepositories`.
- The two `git` invocations are not run. Their effect is the `GitOutcome` parameter, and their output is not modelled.
- `Date.parse(pushed_at)` is not modelled. The pushed-at time is a non-negative number of milliseconds, so a missing or unparseable date (NaN, which would make a `…-NaN.bundle` name) and dates before 1970 are not covered.
- The `statSync` record in each inventory entry is never read, so the inventory keeps only the date.
- Logging, colours and the printing of caught errors are left out.
- Reading `.env` and the environment is left out. USE_SSH_URL and GITHUB_USERNAME are strings, "" meaning unset; GITHUB_TOKEN is optional in `Transport.Settings`, printed "undefined" when unset. The script never reaches the URL rewrite without a token, because the repository listing at line 16 fails first, so the unset case is only a property of the rewrite itself.
- MAX_BACKUPS is a natural number, read as `parseInt` reads it. A value that does not parse, or is zero or negative, behaves as 0, because `count + 1 <= NaN` is false just as `count + 1 <= 0` is.
- BACKUP_PATH, the script's own directory and `path.join` normalisation are left out. Directories are keyed by the repository's full name.
- Failures of `mkdirSync`, `readdirSync`, `statSync`, `renameSync`, `unlinkSync` and `rmSync` are not modelled. For example, `statSync` throws on a dangling symbolic link named `x.bundle`; it runs outside the `try` (line 37, called from line 78), so the whole batch stops. The retries of the final `rmSync` are not modelled either. An error raised before the `try` would stop the whole batch.
- Text is a sequence of characters. UTF-16 code units and surrogate pairs are not distinguished.
- `${n}` is modelled for whole numbers only. Exponent notation beyond 1e21 and loss of precision above 2^53 are not modelled.
- `parseInt` is modelled as returning the exact integer its digits denote. In JavaScript it returns a double: digit runs above 2^53 are rounded, and runs beyond about 1.8e308 give Infinity.
- The listing order of `readdirSync` is left open. `Object.keys` returns the inventory's names in insertion order, which is that listing order, but the model's inventory is a map and does not keep it: `ListBundles` may list the entries in any order, which covers every order the listing could have. Among bundles with equal dates, `CleanBundles` is specified to remove *an* oldest one.
- Pruner.CleanBundles: requires every inventory date to be a number. With a NaN date the sort comparator returns NaN, and which file ends up first depends on the engine.
- Pruner.CleanBundles: compares dates as exact integers. With double dates, `a-9007199254740993.bundle` and `b-9007199254740992.bundle` both parse to 9007199254740992, the comparator at line 56 returns 0, and the file unlinked is whichever comes first in the directory listing, whereas `PruneSpec` demands `b`. Two Infinity dates compare as NaN, as above.
- Archiver.BundleRepository: requires the repository's directory to hold only bundle names with a parseable date, for the same reason; `WellFormedPreserved` shows every run keeps this.
- Archiver.ProcessRepositories: requires, like BundleRepository, that each listed repository's directory holds only bundle names with a parseable date; directories of unlisted repositories are unconstrained. It states each repository's own step only for a listing without repeated full names. With repeats, later steps start from the entries an earlier one left.
