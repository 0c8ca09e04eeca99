# Verified model of the terminal status panel

Dafny proofs about the logic of a status panel that is shown at login: how it packs blocks into
columns, resolves paths below a container's bind mounts, lists and searches Traefik's configuration
files, counts journal events incrementally, runs its checks under one time budget, judges a
PostgreSQL cluster, and keeps its managed block and its state file.

`dafny verify dfyconfig.toml` checks everything.

## What is modelled

**Columns** (`LptBound`, `Packing`, `ColumnOrder`). Blocks are heights and widths. The distribution
is longest-processing-time scheduling; `WithinFourThirds` is its worst-case bound against every
other arrangement. Optimality is never assumed: the bound is against an arbitrary arrangement, so
also against the best one. Where the last block of the tallest column is small the average of the
columns decides; where it is large, blocks that are alone in their column weigh two and all others
one, and counting these weights by column in both arrangements leaves no room for an overshoot.

**Paths below a mount** (`PathResolver`, `SafeOpen`). The file system is a function of time and
path, so anything may change between two system calls. The worklist loop is proved against a
recursive walk, that walk against POSIX.1-2017 Base Definitions, section 4.13 (Pathname Resolution),
and the result against the kernel's unrestricted walk in the host's and in the container's
namespace. Opening keeps an explicit table of descriptors.

**Mounts, provider files, static file** (`Mounts`, `ProviderWalk`, `ProviderWalkFacts`,
`DynamicNames`, `ProviderListing`, `ProviderExactness`, `ProviderNotes`, `ProviderKernelView`,
`StaticSearch`, `StaticSearchFacts`, `WrittenPath`, `SearchInContainer`). Container paths are lists
of names with their texts. There are two references: the files on the mount that the lookup gives
for their path, and those on the mount that the kernel has in effect there, the one with the deepest
target. The walk keeps its explicit stack and shared counters. The search is judged by the kernel's
walk of each candidate as it is written, in a container in which other mounts may lie inside a bind
mount.

**Journal** (`Journal`, `JournalPatterns`, `JournalScan`, `JournalWeights`, `JournalExactness`,
`JournalRepeats`). The journal is a growing sequence of entries with unique cursors; a run has its
own time, enabled kinds and fates for every read and write it tries. The reference is a scan of the
whole journal with no state at all. `JournalWeights` says how often each entry counts when kinds may
repeat; `JournalExactness` is the case in which they do not, as the configuration reader keeps a
repeated name once (`ReadNames`).

**Budget and health** (`Budget`, `Stragglers`, `Health`). Worker threads and the joining thread are
a state machine in which any step may be delayed for any time and a worker may never finish. The
list of abandoned threads is a class whose methods take time at every step. In both, a thread found
alive at an instant ends later than that instant. The report is then turned into one entry per
cluster kind.

**Asking once** (`AskOnce`). A lock and a cache entry per key, any number of callers, every
interleaving of their steps. A `BaseException` that is no `Exception`, raised by a fetch, is passed
on and not remembered. The lock may be given back before or after the answer is read, which covers
both the container index and the list of peer names.

**PostgreSQL** (`Lsn`, `Cells`, `PgState`, `PgTable`). The table is read from its lines. Positions
are parsed as Python's `int(text, 16)` does, and combined with `<<` and `|` on unbounded integers.

**Managed block** (`ManagedBlock`, `Install`). The substitution is leftmost, shortest and global.
Texts and panel commands are the real ones.

**State file** (`HostState`, `HostStateErrors`). JSON values with truth values, integers, finite and
other floats kept apart, and four block shapes checked by one function, as in the source.
Dictionaries are maps; the order in which the events are listed is a parameter, since it decides
which malformed one is met first.

`Sorting`, `TextOrder`, `Text`, `Bits` and `Options` are shared helpers.

## Where the code and its documentation differ

The model follows the code.

- A failed write of the journal state is documented as losing the cursor, so that the next run reads
  the window again. The write replaces the file in one step, so the old file stays and the next run
  goes on from the old cursor wherever it can (`FailedWriteKeepsCursor`, `FailedWriteReadsOn`). The
  counts are right either way, which is what `EveryRunIsExact` shows.
- The mount lookup is described as the kernel's. Below a config, which is a file, the kernel finds
  nothing; the lookup goes on to the mount around it (`LocateIsKernelLookupIff`,
  `BelowConfigDiffers`). A provider listing is wrong exactly where the mount around a config shows
  files below it (`ListingIsKernelViewIff`, `ListsThroughConfig`). With a config at the provider
  directory itself it lists nothing from around that config, as the kernel.
- The resolver is described as resolving as the kernel does. It accepts `file/..` and `file/.`
  (`FileDotDotDiffers`, `ResolvedIsPosixIff`).
- Whether a path below a bind mount is there is documented to be measured on the host. That is right
  for certain exactly where its way stays clear of other mounts inside the bind mount
  (`MeasuredForCertainIff`, `LinkIntoOtherMountDiffers`).
- A located path is documented to be the one the kernel resolves. It is normalized as a text first,
  so a `..` behind a link is undone in the text (`DotDotAfterLinkDiffers`); where each `..` undoes a
  plain step nothing changes (`WrittenIsThere`).
- Cluster entries of kinds that produced an answer are documented to come in configured order, and
  they do (`ListedInTwoParts`). The unchecked kinds are appended behind them, so the whole list need
  not be in that order (`ConfiguredOrderIff`, `UncheckedListedLast`, with the kinds of
  `PostgresBehindGluster`).
- Reading a state file is documented to raise `ValueError` for malformed content. A missing
  `written_at` or VRRP `source` raises `KeyError`, another missing required field `TypeError`
  (`UndocumentedExceptionIff` says exactly when; `MissingTimeIsKeyError`, `MissingSourceIsKeyError`
  and `MissingFieldIsTypeError` are one case each). The schema test also accepts `true` and `1.0`
  (`SchemaTrueIsRead`).
- Removing the managed block is documented as idempotent. It is exactly when no cut joins the text
  around it to a new block (`StrippingTwiceIff`), so always where begin marks start lines
  (`StrippingTwice`), but not in general (`StrippingExposesBlock`). A begin mark without an end mark
  makes the next run remove the user's text behind it (`ReinstallIff`, `UninstallIff`,
  `LoneMarkIsLost`).
- With two primary rows the leader is the first and the reference position is the last, so the row
  order can matter (`OrderFreeIff` for leader and reference, `VerdictFreeIff` for the verdict,
  `TwoPrimariesDiffer`).

## Model

| member | source | states |
|---|---|---|
| `Packing.Distribute` | src/terminal_status_panel/render/packing.py:45-52 | The loop over blocks and columns leaves exactly the arrangement that placing them largest first, each on the first of the shortest columns, defines |
| `Packing.WithinFourThirds` | src/terminal_status_panel/render/packing.py:36-39 | For all heights, every count m >= 1 and every arrangement of the blocks into at most m columns: 3m times the tallest distributed column is at most (4m - 1) times the tallest column of that arrangement |
| `LptBound.GreedyBound` | src/terminal_status_panel/render/packing.py:36-39 | The bound behind it, for jobs: a greedy assignment in decreasing order against any other assignment to the same m columns |
| `LptBound.LargeLastJob` | src/terminal_status_panel/render/packing.py:36-50 | When the job on top of a column is above a third of the optimum, that greedy column is no taller than the optimum: the columns with one job are counted against those of the other assignment |
| `LptBound.SmallLastJob` | src/terminal_status_panel/render/packing.py:36-50 | When it is at most a third, the average of the columns gives the bound |
| `Packing.TargetsAreGreedy` | src/terminal_status_panel/render/packing.py:48-51 | Every block goes to a column that is no taller than any other at that moment |
| `Packing.FilledIsHeight` | src/terminal_status_panel/render/packing.py:46-51 | The running sums are the heights of the columns they stand for |
| `Packing.DistributedIsArrangement` | src/terminal_status_panel/render/packing.py:45-52 | Every block is in exactly one column, once; no column is empty and each reads in declaration order |
| `Packing.EveryColumnUsed` | src/terminal_status_panel/render/packing.py:47-52 | With no empty block exactly `count` columns come back, so the count searched for is the number of columns |
| `Packing.PackBlocks` | src/terminal_status_panel/render/packing.py:72-81 | Each block in exactly one column, in order; of several columns, whichever block is taken of each, their widths and the gaps fit the width; the result is the distribution at the largest count of 2..n for which that is so, and one column of everything only if for every count some choice is too wide |
| `Packing.UsedDecides` | src/terminal_status_panel/render/packing.py:79-80 | Adding up the widest block of every column decides for every choice of one block per column |
| `ColumnOrder.OrderIsAhead` | src/terminal_status_panel/render/packing.py:45 | Blocks are placed tallest first, equally tall ones in the order of their declaration |
| `ColumnOrder.ColumnsByTallest` | src/terminal_status_panel/render/packing.py:40-52 | Of any two columns, the left one holds a block that is taller than every block of the right one, or as tall and declared before it: the same input gives the same layout |
| `PathResolver.ResolveComponents` | src/terminal_status_panel/collectors/traefik_mounts.py:318-345 | The worklist loop ends and returns what its recursive reading returns, under any change of the file system between two calls |
| `PathResolver.ResolvedIsSafe` | src/terminal_status_panel/collectors/traefik_mounts.py:324-345 | Whatever changes meanwhile: a returned path has no `.`, `..` or empty name, every component above the last was seen to be no link, and the last too unless it was missing |
| `PathResolver.SplicingIsRecursion` | src/terminal_status_panel/collectors/traefik_mounts.py:258-275 | Putting a link's components in front of the worklist does what resolving the target first and then the rest does |
| `PathResolver.LoopIsRecursiveWalk` | src/terminal_status_panel/collectors/traefik_mounts.py:318-345 | On an unchanging tree the loop returns exactly what the recursive pathname walk returns, refusals (climb above root, absolute link, 41st link, missing component) included |
| `PathResolver.PosixWalkIsFollowed` | src/terminal_status_panel/collectors/traefik_mounts.py:283-297 | What POSIX.1-2017 pathname resolution reaches below the root over at most 40 relative links, the loop reaches too, at the same physical path |
| `PathResolver.LinksToSpare` | src/terminal_status_panel/collectors/traefik_mounts.py:226-228 | A walk that arrives uses as many links however many more it may use |
| `PathResolver.StrictIsLenient` | src/terminal_status_panel/collectors/traefik_mounts.py:328-334 | A walk that insists on directories before `.` and `..` and arrives is also a walk of the loop's kind |
| `PathResolver.LenientIsPosixIff` | src/terminal_status_panel/collectors/traefik_mounts.py:326-334 | The two walks agree exactly when every `.`, empty name and `..` met on the way follows a directory |
| `PathResolver.LenientStops` | src/terminal_status_panel/collectors/traefik_mounts.py:318-345 | Where the loop refuses, POSIX refuses for the same reason or at a non-directory before it |
| `PathResolver.LenientReaches` | src/terminal_status_panel/collectors/traefik_mounts.py:326-334 | Where the loop arrives, POSIX arrives too or stops at a non-directory |
| `PathResolver.ResolvedIsPosixIff` | src/terminal_status_panel/collectors/traefik_mounts.py:283-297 | A path the loop returns is the POSIX result if and only if every `.` and `..` follows a directory |
| `PathResolver.FileDotDotDiffers` | src/terminal_status_panel/collectors/traefik_mounts.py:328-334 | The cases that differ, concretely: `file/..` and `file/.` resolve here and are "not a directory" in POSIX |
| `PathResolver.ResolvedBelowDirectories` | src/terminal_status_panel/collectors/traefik_mounts.py:348-359 | On an unchanging tree everything above a returned path is a directory and the path itself no link |
| `PathResolver.SameFileInBothNamespaces` | src/terminal_status_panel/collectors/traefik_mounts.py:286-297 | In any two namespaces that show the mounted tree where the walk looks at it, wherever they show it and whatever else is mounted inside it, the kernel's unrestricted walk of the same relative path ends at the returned path below the respective mount point |
| `PathResolver.WalkBelowMountPoint` | src/terminal_status_panel/collectors/traefik_mounts.py:286-297 | A walk that looks only at places the namespace shows below a mount point is, in the whole namespace, the walk below that point |
| `PathResolver.LeavingIsLost` | src/terminal_status_panel/collectors/traefik_mounts.py:286-297 | A walk that looks anywhere else gets nowhere in the namespace that shows only those places |
| `SafeOpen.DescendIsChain` | src/terminal_status_panel/collectors/traefik_mounts.py:351-358 | Each component was, at the instant it was opened, a non-link entry of the very directory opened before it |
| `SafeOpen.OpenReachesResolvedNode` | src/terminal_status_panel/collectors/traefik_mounts.py:348-372 | On an unchanging file system the descriptors lead to the node at the resolver's path; only a missing final component fails |
| `SafeOpen.Process.OpenRoot` | src/terminal_status_panel/collectors/traefik_mounts.py:360-362 | One descriptor of the root, or a failure and no descriptor |
| `SafeOpen.Process.OpenComponent` | src/terminal_status_panel/collectors/traefik_mounts.py:375-393 | One descriptor of the entry as it is at that instant, never of a link |
| `SafeOpen.Process.Close` | src/terminal_status_panel/collectors/traefik_mounts.py:367-372 | Exactly that descriptor is gone; a descriptor that is not open cannot be closed |
| `SafeOpen.Process.OpenBelowRoot` | src/terminal_status_panel/collectors/traefik_mounts.py:348-372 | Returns the end of such a chain or fails; on every path everything opened on the way is closed, once, except the descriptor returned |
| `SafeOpen.Process.ReadHostFile` | src/terminal_status_panel/collectors/traefik_mounts.py:408-433 | Ends with the descriptors it began with; what comes back is the content of the opened node at one instant if it is a regular file of at most 1,048,576 bytes that can be read at this instant and the one before, and else nothing. Where nothing changes: text comes back if and only if the resolver's path names such a file, and it is its content |
| `SafeOpen.Process.ReadDescriptor` | src/terminal_status_panel/collectors/traefik_mounts.py:420-433 | Text if and only if the node is a regular file of at most 1,048,576 bytes both when it is checked and when it is read, and then what it holds at the reading |
| `Mounts.CoversIsTextual` | src/terminal_status_panel/collectors/traefik_mounts.py:163-164 | The test on two path texts, trailing slashes stripped, is the prefix test on their names |
| `Mounts.RenderInjective` | src/terminal_status_panel/collectors/traefik_mounts.py:167-173 | Two normalized paths with the same text are the same path |
| `Mounts.LocateInOrder` | src/terminal_status_panel/collectors/traefik_mounts.py:174-187 | The loop over the mounts, comparing lengths of texts, gives the lookup's path, mount and part below the source |
| `Mounts.OwnerIsDeepest` | src/terminal_status_panel/collectors/traefik_mounts.py:168-180 | The mount found matches the path, a config only at its very target, and no matching mount is deeper |
| `Mounts.LocatedBelow` | src/terminal_status_panel/collectors/traefik_mounts.py:181-187 | For a bind mount, and for no other, the lookup tells where below the source the path lies: target and that part make the path |
| `Mounts.OwnerIffDeepest` | src/terminal_status_panel/collectors/traefik_mounts.py:168-180 | With distinct targets it is the one such mount |
| `Mounts.LocateIsKernelLookupIff` | src/terminal_status_panel/collectors/traefik_mounts.py:168-172 | The lookup is the kernel's mount lookup if and only if the mount in effect is not a config above the path |
| `Mounts.BelowConfigDiffers` | src/terminal_status_panel/collectors/traefik_mounts.py:168-180 | A config at `/a` in a bind at `/`: for `/a/b` the lookup finds the bind, the kernel the config |
| `ProviderWalk.TakeEntries` | src/terminal_status_panel/collectors/traefik_mounts.py:699-706 | The file loop of one directory: notes, files and counters as the recursive reading gives them |
| `ProviderWalk.TakeDirectory` | src/terminal_status_panel/collectors/traefik_mounts.py:581-616 | Listing one directory against the shared entry budget, then taking its files |
| `ProviderWalk.Walk` | src/terminal_status_panel/collectors/traefik_mounts.py:604-726 | The explicit-stack walk yields, within the shared budgets, exactly what the recursive top-down sorted traversal yields, with the same notes and counters |
| `ProviderWalk.PushedInOrder` | src/terminal_status_panel/collectors/traefik_mounts.py:612-618 | Pushing the subdirectories in reverse leaves them to be visited in name order, before what was on the stack |
| `DynamicNames.EntriesByName` | src/terminal_status_panel/collectors/traefik_mounts.py:604-618 | The files of a directory, and its subdirectories, are gone through by name |
| `DynamicNames.DynamicNameIff` | src/terminal_status_panel/collectors/traefik_mounts.py:529-540 | Exactly the names that end in `.toml`, `.yaml` or `.yml`, in whatever case, are dynamic files |
| `TextOrder.LessIff` | src/terminal_status_panel/collectors/traefik_mounts.py:878 | One path text comes before another if and only if it does at the first difference |
| `ProviderWalkFacts.TakeDirsTakes` | src/terminal_status_panel/collectors/traefik_mounts.py:694-726 | However it ends, a walk took a prefix of the files of the whole traversal |
| `ProviderWalkFacts.DirsWithoutNote` | src/terminal_status_panel/collectors/traefik_mounts.py:694-726 | Where a walk finished and added no note, the regular files it took are all the dynamic-extension leaves of the traversal that the lookup gives to its mount |
| `ProviderWalkFacts.WalkedWithinBudget` | src/terminal_status_panel/collectors/traefik_mounts.py:564-570 | The entry counter never passes 10,001 over all mounts of a listing, and then no further walk starts |
| `ProviderWalkFacts.VisitsList` | src/terminal_status_panel/collectors/traefik_mounts.py:604-618 | The traversal lists exactly the leaves below directories that are no links |
| `ProviderWalkFacts.VisitsDistinct` | src/terminal_status_panel/collectors/traefik_mounts.py:604-618 | It lists no path twice |
| `ProviderWalkFacts.WalkedIsSound` | src/terminal_status_panel/collectors/traefik_mounts.py:685-726 | Whatever stopped it, a walk returns distinct files that the lookup gives to this mount |
| `ProviderWalkFacts.WalkedIsComplete` | src/terminal_status_panel/collectors/traefik_mounts.py:685-726 | A walk without a note found every file of its tree that the lookup gives to this mount, or more files are known than are read |
| `ProviderListing.FilesFromMount` | src/terminal_status_panel/collectors/traefik_mounts.py:818-843 | What one mount contributes, branch by branch, with notes and counters |
| `ProviderListing.NestedBindFiles` | src/terminal_status_panel/collectors/traefik_mounts.py:729-755 | A bind mount inside the directory: walked, noted or nothing |
| `ProviderListing.CoveringBindFiles` | src/terminal_status_panel/collectors/traefik_mounts.py:758-778 | A bind mount around the directory: walked only if the directory is its own |
| `ProviderListing.ProviderFiles` | src/terminal_status_panel/collectors/traefik_mounts.py:856-886 | The loop over the mounts, the first-found rule for paths, the cap and the leading note give the listing |
| `ProviderListing.CollectFiles` | src/terminal_status_panel/collectors/traefik_mounts.py:870-886 | The same for a directory provider, the file counter starting from what is known at each mount |
| `ProviderExactness.MountIsSound` | src/terminal_status_panel/collectors/traefik_mounts.py:818-843 | Each mount adds only files that the lookup gives to it |
| `ProviderExactness.MountIsComplete` | src/terminal_status_panel/collectors/traefik_mounts.py:818-843 | Without a new note it adds exactly its part of the view, or more than is read |
| `ProviderExactness.GatheredSoFar` | src/terminal_status_panel/collectors/traefik_mounts.py:871-878 | After any number of mounts the files known belong to those mounts and, with no note so far, are exactly their parts of the view, unless more are known than are read |
| `ProviderExactness.ListingIsSound` | src/terminal_status_panel/collectors/traefik_mounts.py:846-886 | In every case at most 64 files, strictly ordered by path text, each the lookup's answer for its own path, and the entry budget kept |
| `ProviderExactness.ListingIsExact` | src/terminal_status_panel/collectors/traefik_mounts.py:818-886 | A listing without a note holds a path if and only if it is a dynamic-extension file below the directory on the mount that the lookup gives for it, whatever the unreadable mounts hold, except behind a config that is the directory itself |
| `ProviderNotes.NoNoteIff` | src/terminal_status_panel/collectors/traefik_mounts.py:818-886 | A listing has no note if and only if: the directory lies on a bind mount or config, or on nothing but with a mount in it; no other mount lies inside it; where a bind mount is gone through, the task is here, a nested source can be looked at, every directory can be listed and everything named like a dynamic file is a readable one; there are at most 10,000 entries in all and at most 64 files |
| `ProviderNotes.ClearListingIsExact` | src/terminal_status_panel/collectors/traefik_mounts.py:818-886 | So on such mounts and such a host the listing is exactly the view |
| `ProviderNotes.ClearMountIsListed` | src/terminal_status_panel/collectors/traefik_mounts.py:818-843 | Whatever keeps other mounts from being listed: within those limits every file of a mount that nothing keeps is in the listing |
| `ProviderExactness.NothingBehindConfig` | src/terminal_status_panel/collectors/traefik_mounts.py:771-778 | That exception is empty unless the provider directory is a config's target |
| `ProviderKernelView.ListedIsThereIff` | src/terminal_status_panel/collectors/traefik_mounts.py:818-886 | For every path, a listing without a note agrees with what the container has, by the kernel's own mount lookup, if and only if it does not show a file through a config that is in effect above it |
| `ProviderKernelView.ListingIsKernelViewIff` | src/terminal_status_panel/collectors/traefik_mounts.py:846-886 | The whole listing is what the container has if and only if no mount shows a file through such a config |
| `ProviderKernelView.ListsThroughConfig` | src/terminal_status_panel/collectors/traefik_mounts.py:168-180 | A bind at `/dyn` that shows `/dyn/sub/x.yml`, and a config at `/dyn/sub`: no note, the file is listed, and the kernel does not find it |
| `StaticSearch.FirstFlagCounts` | src/terminal_status_panel/collectors/traefik_static.py:68-74 | The first argument that names a file by one of the two flags, with a value, decides; without one no argument does |
| `StaticSearch.CandidatesInOrder` | src/terminal_status_panel/collectors/traefik_static.py:91-115 | The explicit file, joined to a declared working directory if relative, takes the first place and no other; then every base that needs no working directory or has one gives exactly three candidates, base after base, in the order toml, yaml, yml; there are no others |
| `StaticSearch.DefaultsInOrder` | src/terminal_status_panel/collectors/traefik_static.py:108-115 | The same for any list of base paths: a base starting with `./` contributes if and only if a working directory is declared, and each contribution has its place |
| `StaticSearch.FixedBases` | src/terminal_status_panel/collectors/traefik_static.py:31-36 | For the real bases: `/etc/traefik/traefik` comes first among the defaults and the working directory last |
| `StaticSearchFacts.EnvironmentBases` | src/terminal_status_panel/collectors/traefik_static.py:31-36 | The two bases from the environment take the places between |
| `StaticSearchFacts.NamedByIff` | src/terminal_status_panel/collectors/traefik_static.py:68-74 | An argument names a path if and only if it is `--configFile=` or `--configfile=` with that path behind it |
| `StaticSearchFacts.JoinRenders` | src/terminal_status_panel/collectors/traefik_static.py:91-115 | Joining a relative text to a directory's text names what lies there |
| `StaticSearchFacts.RenderNormalizes` | src/terminal_status_panel/collectors/traefik_mounts.py:174 | The text of a path names that path; with two slashes in front it names nothing mounted |
| `StaticSearch.FindStaticFile` | src/terminal_status_panel/collectors/traefik.py:383-407 | The search loop with its early returns gives the search's answer |
| `StaticSearchFacts.SearchDecides` | src/terminal_status_panel/collectors/traefik.py:383-407 | The search ends at the first candidate that is neither unmounted and not named explicitly nor measured absent below a bind mount here; it is located if it is a config, a bind mount's very target or measured present, and undecided otherwise; no file if and only if none is left |
| `StaticSearch.SearchIsSound` | src/terminal_status_panel/collectors/traefik.py:376-381 | In every container the measurements allow: a located file is the first candidate that exists, none found means none exists, and an undecidable one comes only after candidates that do not exist |
| `StaticSearch.UndecidableIsUndecided` | src/terminal_status_panel/collectors/traefik.py:394-406 | Where the search gives up, allowed containers really differ at that candidate |
| `StaticSearch.MeasuredIff` | src/terminal_status_panel/collectors/traefik_mounts.py:508-526 | Where its way stays in the mount, a bind path measured present is there for the kernel inside the container, and one measured absent is not there, if and only if every `.` and `..` on the way follows a directory |
| `StaticSearch.MeasuredForCertainIff` | src/terminal_status_panel/collectors/traefik_mounts.py:487-526 | A measurement is right in every container that shows the bind mount where nothing else is mounted over it, if and only if those dots follow directories and the way stays at such places |
| `StaticSearchFacts.PresenceIff` | src/terminal_status_panel/collectors/traefik_mounts.py:508-526 | Measured present if and only if the pathname walk arrives at something that is there, absent if and only if it stops at a missing component or arrives at one |
| `StaticSearch.LinkIntoOtherMountDiffers` | src/terminal_status_panel/collectors/traefik_mounts.py:508-526 | A link of the bind mount into a directory that another mount covers: measured present, and not there in the container |
| `WrittenPath.WrittenIsNormalized` | src/terminal_status_panel/collectors/traefik_mounts.py:174 | Walking a path as it is written, component by component, is walking the normalized path the lookup uses, links and their number included, where each `.` is met in a directory and each `..` undoes a step into a plain directory |
| `WrittenPath.WrittenIsThere` | src/terminal_status_panel/collectors/traefik_mounts.py:174 | So the kernel finds the candidate as written if and only if it finds the place the search looks at |
| `WrittenPath.DotDotAfterLinkDiffers` | src/terminal_status_panel/collectors/traefik_mounts.py:174 | With a link `/l` to `o/p` the search looks for `/l/../t` at `/t`, which is there; the kernel looks at `/o/t`, which is not |
| `PathResolver.LenientStopIsPosixIff` | src/terminal_status_panel/collectors/traefik_mounts.py:318-345 | Where the loop refuses for another reason than an uninspectable component, POSIX refuses for the same reason if and only if every `.` and `..` met follows a directory |
| `SearchInContainer.MeasuredIsFound` | src/terminal_status_panel/collectors/traefik_mounts.py:505-523 | What is measured below a bind mount is what the kernel finds, walking from the top of the container, whatever else is mounted inside the mount and off the way |
| `SearchInContainer.SearchFindsWhatTheKernelFinds` | src/terminal_status_panel/collectors/traefik.py:373-407 | In a container that is as its mounts say at the candidates: a located file is the first candidate the kernel finds, opening each as it is written; none located means it finds none; and the search gives up only behind candidates it does not find |
| `Journal.Scan` | src/terminal_status_panel/collector/journal.py:133-155 | The loop leaves the stamps and the last cursor of the entries, each entry stamped for every enabled kind it matches |
| `Journal.ScannedAdds` | src/terminal_status_panel/collector/journal.py:133-155 | Every kind gains the times of its matching entries, as often as it is enabled, behind what it had |
| `Journal.LatestIsMaximum` | src/terminal_status_panel/collector/journal.py:203-210 | The time reported is one of the counted times and none is later |
| `Journal.Collector.CollectEvents` | src/terminal_status_panel/collector/journal.py:158-200 | One run: cursor use, fallback to the window, failures, saving and counting, on the state file it reads and replaces |
| `JournalPatterns.FilterLosesNothing` | src/terminal_status_panel/collector/journal.py:34-71 | No entry that a pattern counts is dropped by the server-side filter |
| `JournalPatterns.MatchedPasses` | src/terminal_status_panel/collector/journal.py:34-71 | Each pattern implies one of the sources passed to the filter |
| `JournalPatterns.MatchesIff` | src/terminal_status_panel/collector/journal.py:34-48 | A kind counts an entry if and only if it comes from one of its sources and one of its wordings stands in the message, a reload's at the beginning |
| `JournalScan.PrintedKeepsTimes` | src/terminal_status_panel/collector/journal.py:51-71 | The filter and `--since` drop nothing that counts inside the window |
| `JournalScan.TruthIsCount` | src/terminal_status_panel/collector/journal.py:203-210 | The stateless scan counts as many events as there are matching entries of the last 43,200 seconds, and its time is the latest of theirs |
| `JournalWeights.FullReadStamps` | src/terminal_status_panel/collector/journal.py:129-130 | A full read gives the stamps of the stateless scan, whatever was saved, each entry as often as the run enables its kind |
| `JournalWeights.IncrementalReadStamps` | src/terminal_status_panel/collector/journal.py:125-128 | An incremental read from a consistent state gives the stamps of the whole window: new entries as often as the run enables the kind, the others as before |
| `JournalWeights.SavedIsConsistentWith` | src/terminal_status_panel/collector/journal.py:194-197 | What is saved is again consistent: the stamps of the journal up to the saved cursor |
| `JournalExactness.RunIsExact` | src/terminal_status_panel/collector/journal.py:158-200 | One run from a consistent file counts what the stateless scan counts, or reports an error and leaves the file; either way the file stays consistent |
| `JournalExactness.KnownNeverOvercounts` | src/terminal_status_panel/collector/journal.py:186-191 | Counts returned with an error are never more than, and never later than, those of the stateless scan |
| `JournalExactness.EveryRunIsExact` | src/terminal_status_panel/collector/journal.py:158-200 | After any history of lost cursors, lost files, changed kinds, failed or timed-out reads and failed writes: what the reads needed come to decides whether the next run reports an error, and which; without one it counts exactly what a scan of the whole journal counts, and with one it keeps the file and does not overcount |
| `JournalExactness.ErrorIff` | src/terminal_status_panel/collector/journal.py:118-191 | A run reports an error if and only if reading from a saved cursor found no `journalctl` or timed out, or no saved cursor is of use (none of these kinds, not in the journal, or read with an error) and then reading the window fails; which of the three errors it is in each case |
| `JournalExactness.CursorMovesOn` | src/terminal_status_panel/collector/journal.py:194-197 | A successful run saves its kinds and a cursor that is not before any entry of the window that passes the filter |
| `JournalWeights.EveryRunCountsWeights` | src/terminal_status_panel/collector/journal.py:152-154 | With kinds enabled any number of times: after any history, a successful run counts every entry of the window as often as the run that read it enabled the kind |
| `JournalExactness.FailedWriteKeepsCursor` | src/terminal_status_panel/collector/journal.py:196-199 | A run whose state could not be written leaves the file as found; a later read is then a full one if and only if the file's cursor is missing or of other kinds, unknown to the journal, or reading from it fails |
| `JournalExactness.FailedWriteReadsOn` | src/terminal_status_panel/collector/journal.py:168-199 | Two entries, the first one's cursor saved, a failed write: the next run reads the second entry only, and not the window |
| `JournalRepeats.ExactIffReadOnce` | src/terminal_status_panel/collector/journal.py:158-200 | After any history: it counts no fewer events than there are, and exactly as many if and only if every event of the window was read by a run that enabled its kind once |
| `JournalRepeats.ReadNames` | src/terminal_status_panel/config.py:565-576 | The configuration hands on each name once, so the kinds of a run never repeat |
| `Budget.JoinOrderIsOrdered` | src/terminal_status_panel/budget.py:110-115 | Sorting by deadline joins every check once, none before one with an earlier deadline |
| `Budget.RunSound` | src/terminal_status_panel/budget.py:67-149 | What every state of every interleaving satisfies: the dictionaries hold what was stored, an expired check had not ended in time, every joined check ended or expired |
| `Budget.DeadlineIsFair` | src/terminal_status_panel/budget.py:113-118 | For all finish times and delays, a check that ends by its own deadline is never expired and its outcome is reported |
| `Budget.ReportedExactlyOnce` | src/terminal_status_panel/budget.py:139-149 | Every check is in exactly one of results, failed and truncated; a late answer is discarded and a killed worker is truncated |
| `Budget.PromptExpiry` | src/terminal_status_panel/budget.py:113-118 | Without delays a check is expired if and only if it does not end by its deadline, and joining is over by the end of the budget |
| `Budget.JoinerNeverStuck` | src/terminal_status_panel/budget.py:115-118 | The joining thread always has a next step once some time has passed |
| `Stragglers.Registry.StillAlive` | src/terminal_status_panel/budget.py:120-136 | Asking the threads one after the other keeps, in order, those alive when asked |
| `Stragglers.Registry.Record` | src/terminal_status_panel/budget.py:120-137 | After a run the list is what the sweep kept, then what the run abandoned |
| `Stragglers.Registry.JoinAtExit` | src/terminal_status_panel/budget.py:40-47 | The list is cleared; all joins together wait at most 0.25 s; a listed thread still alive afterwards means that the whole grace has passed; without delays nothing else takes time |
| `Stragglers.ListIsTight` | src/terminal_status_panel/budget.py:121-137 | After any number of runs the list has no repetition, holds every thread of any run that is still alive, and none that had ended when the last run began to look |
| `Stragglers.ListedIffAliveWhenAsked` | src/terminal_status_panel/budget.py:120-137 | After a run the list holds exactly the threads of that run, and those listed before, that were alive at the moment the run asked them |
| `Stragglers.AliveSurvives` | src/terminal_status_panel/budget.py:136 | A thread alive when the sweep is over is kept |
| `Health.Deduplicate` | src/terminal_status_panel/collectors/health.py:73 | The enabled kinds without repetition, in the order of first mention |
| `Sorting.DistinctlyInOrder` | src/terminal_status_panel/collectors/health.py:73 | Of two kinds kept, the one in front was mentioned before the other |
| `Health.BuildTasks` | src/terminal_status_panel/collectors/health.py:73-142 | The task names in order, the kinds that run and those that cannot be checked |
| `Health.KindsSorted` | src/terminal_status_panel/collectors/health.py:73-142 | A kind has a task if and only if it is enabled, no host kind, and there is a client or it is `glusterfs`; it is listed as not checked if and only if it is enabled, no host kind, has no task and Docker is present; the other three tasks |
| `Health.TaskNamesAreDistinct` | src/terminal_status_panel/collectors/health.py:34-35 | However kinds repeat or are named, no two tasks share a name |
| `Health.ClustersFrom` | src/terminal_status_panel/collectors/health.py:144-164 | The loop over the kinds gives the replies in order, then the unchecked ones |
| `Health.EveryKindOnce` | src/terminal_status_panel/collectors/health.py:144-164 | Over all interleavings, each distinct cluster kind that can run has one entry or one truncated task, never both; each unchecked kind has one entry; nothing else and nothing twice |
| `Health.EntryIsItsOwnReply` | src/terminal_status_panel/collectors/health.py:155-160 | An entry is the answer of its own kind's task if there is one, and else the text of its failure |
| `Health.TruncatedOrCameOut` | src/terminal_status_panel/collectors/health.py:144-164 | A task is truncated if and only if it neither answered nor failed |
| `Health.ListedInTwoParts` | src/terminal_status_panel/collectors/health.py:147-164 | The kinds that produced an answer come in configured order, and behind them the unchecked ones in theirs |
| `Health.SelectInOrder` | src/terminal_status_panel/collectors/health.py:73-78 | What is selected of the kinds keeps their order |
| `Health.ConfiguredOrderIff` | src/terminal_status_panel/collectors/health.py:147-164 | The whole list is in configured order if and only if no unchecked kind is mentioned before one that came out; always so with a Docker client |
| `Health.UncheckedListedLast` | src/terminal_status_panel/collectors/health.py:147-164 | A kind that cannot be checked, enabled before one that came out, is listed behind it |
| `AskOnce.FetchedAtMostOnce` | src/terminal_status_panel/collectors/clusters.py:129-139 | For any number of concurrent callers and any interleaving, at most one fetch of a key is begun beyond those an escape cut short, never two are under way, and none is begun once there is an answer |
| `AskOnce.SameAnswer` | src/terminal_status_panel/collectors/clusters.py:129-139 | All callers of a key get the same value or the same exception, at whatever times they are served |
| `AskOnce.SomeoneMoves` | src/terminal_status_panel/collectors/clusters.py:124-130 | No deadlock, and keys do not wait for one another: a caller that cannot move waits for a caller of its own key, which can |
| `AskOnce.StepKeeps` | src/terminal_status_panel/collectors/clusters.py:129-139 | No step breaks the agreement of locks, cache, fetch counts and callers |
| `AskOnce.RunRemembers` | src/terminal_status_panel/collectors/clusters.py:132-136 | What was remembered never changes |
| `AskOnce.FallbackServed` | src/terminal_status_panel/collectors/health.py:92-110 | With a fallback, as for the peer names, no caller is served an exception |
| `Bits.OrIsSum` | src/terminal_status_panel/collectors/clusters.py:344 | Below the shifted word nothing overlaps, so the bitwise or is a sum |
| `Lsn.PositionReadsBack` | src/terminal_status_panel/collectors/clusters.py:335-346 | A position written in hexadecimal with a low word below 2^32 reads back as hi * 2^32 + lo |
| `Lsn.PositionsCompareByWords` | src/terminal_status_panel/collectors/clusters.py:335-360 | Such offsets compare as their words do, the high one first, and the lag is their exact difference |
| `Lsn.LagDistance` | src/terminal_status_panel/collectors/clusters.py:349-360 | A distance is given exactly when both positions parse and the member is behind, and it is positive |
| `Lsn.LongLowWordOverlaps` | src/terminal_status_panel/collectors/clusters.py:344 | With a low word of 2^32 the offset is no sum |
| `PgState.ReadTable` | src/terminal_status_panel/collectors/clusters.py:408-426 | The first pass over the lines: the rows, and the last primary row as the reference |
| `PgState.MarkLag` | src/terminal_status_panel/collectors/clusters.py:463-468 | The last pass marks exactly the lagging members |
| `PgState.ParsePgState` | src/terminal_status_panel/collectors/clusters.py:404-477 | The passes over the lines give the verdict that the following are about |
| `Cells.LineReadsBack` | src/terminal_status_panel/collectors/clusters.py:417 | A line of cells with bars between them, however padded, reads back as those cells |
| `PgTable.TableReadsBack` | src/terminal_status_panel/collectors/clusters.py:413-424 | A printed table, a heading, a line without bars and a line for each node, reads back as exactly its nodes in order: name, timeline and position apart where a timeline is printed, reported and assigned state |
| `PgTable.PrintedMembers` | src/terminal_status_panel/collectors/clusters.py:426-468 | Each printed node is a member, in order, with its name and role; it is healthy if and only if it is primary or secondary and not on a timeline known to differ from the last primary's; its position is withheld on such a timeline; and its warning is the one that applies |
| `PgTable.PrintedQuorum` | src/terminal_status_panel/collectors/clusters.py:470-475 | Quorum if and only if a strict majority of the printed nodes is in service |
| `PgTable.PrintedLag` | src/terminal_status_panel/collectors/clusters.py:462-468 | The lag of a printed secondary is the distance of its written position from the primary's |
| `PgTable.PrintedLeader` | src/terminal_status_panel/collectors/clusters.py:461 | The leader is the first printed primary |
| `PgTable.PrefixIsTaken` | src/terminal_status_panel/collectors/clusters.py:329-332 | `pg`, digits and a dash in front of a member's name are left out of its node's |
| `PgTable.OtherNamesStay` | src/terminal_status_panel/collectors/clusters.py:329-332 | Any other name is its node's |
| `PgState.QuorumIsMajority` | src/terminal_status_panel/collectors/clusters.py:470-475 | Quorum holds if and only if a strict majority of the rows is primary or secondary and not on a timeline known to differ from the primary's |
| `PgState.LagOfWrittenPositions` | src/terminal_status_panel/collectors/clusters.py:462-468 | In the verdict, the lag of a secondary on the primary's timeline is the exact distance of the two written positions, given when the member's words are behind |
| `PgState.OrderFreeIff` | src/terminal_status_panel/collectors/clusters.py:420-421 | Leader and reference are independent of the row order if and only if all primary rows agree |
| `PgState.TwoPrimariesDiffer` | src/terminal_status_panel/collectors/clusters.py:420-421 | Two primary rows with different names: their order decides the leader, so neither is independent of it |
| `PgState.VerdictFreeIff` | src/terminal_status_panel/collectors/clusters.py:408-477 | The verdict (leader, quorum, and the members in whatever order) is independent of the row order if and only if all primary rows carry one name and every row is judged alike against each of them |
| `PgState.VerdictIgnoresRowOrder` | src/terminal_status_panel/collectors/clusters.py:408-477 | In particular where the primary rows agree, with one primary always |
| `PgState.NoSecondaryNoOrder` | src/terminal_status_panel/collectors/clusters.py:463-468 | And where primary rows differ in position only and no row is a secondary |
| `ManagedBlock.FirstBlockIsLeftmostShortest` | src/terminal_status_panel/install.py:56-59 | What is removed first is the leftmost match of begin mark to end mark and, from there, the shortest, with the line end |
| `ManagedBlock.StripTakesBlock` | src/terminal_status_panel/install.py:56-59 | Stripping takes an appended block off again; if a begin mark stands before it, more than the block goes |
| `ManagedBlock.ReinstallIff` | src/terminal_status_panel/install.py:117-125 | Installing one block and then another equals installing the other alone if and only if the stripped text holds no begin mark |
| `ManagedBlock.UninstallIff` | src/terminal_status_panel/install.py:103-106 | Stripping after an install gives the stripped text back, up to trailing newlines, if and only if it holds no begin mark |
| `ManagedBlock.LastInstallWins` | src/terminal_status_panel/install.py:117-125 | After any number of installs the file is as if only the last had been made |
| `ManagedBlock.FreshTextQualifies` | src/terminal_status_panel/install.py:118-119 | A file that never held a begin mark meets the condition |
| `ManagedBlock.LoneMarkTakesText` | src/terminal_status_panel/install.py:56-59 | A begin mark without an end mark: an uninstall after an install leaves nothing of the text behind it |
| `ManagedBlock.StrippingTwiceIff` | src/terminal_status_panel/install.py:57 | A second stripping changes nothing if and only if at no cut of the first one the text before it ends in a part of a begin mark that the text behind it completes, with an end mark to follow |
| `ManagedBlock.BlockAcrossSeamIff` | src/terminal_status_panel/install.py:57-59 | Two texts put together, the first without a begin mark, hold a block if and only if the second does or the seam joins to one |
| `ManagedBlock.StrippingTwice` | src/terminal_status_panel/install.py:57 | In particular where every begin mark starts a line, as the installer writes them |
| `ManagedBlock.StrippingExposesBlock` | src/terminal_status_panel/install.py:57 | In general it does: a block inside a mark, once removed, leaves that mark whole |
| `Install.Profile.Apply` | src/terminal_status_panel/install.py:87-126 | One run in place: what the file holds afterwards for either kind, install or uninstall; a dry run changes nothing |
| `Install.Profile.ApplyAll` | src/terminal_status_panel/install.py:117-125 | Any number of installs in a row leave what the last one alone would |
| `Install.OwnFileHolds` | src/terminal_status_panel/install.py:43-48 | A file of the installer's own holds every panel's command on a line of its own, and is gone after an uninstall |
| `Install.ReinstallReplaces` | src/terminal_status_panel/install.py:117-125 | The same equivalence for the real marks and panel commands, and for a missing file |
| `Install.UninstallRestores` | src/terminal_status_panel/install.py:102-106 | Uninstalling gives the user's own text back exactly under that condition |
| `Install.LoneMarkIsLost` | src/terminal_status_panel/install.py:102-125 | A profile with a lone begin mark that an install and an uninstall leave empty |
| `Install.UninstallTwiceIff` | src/terminal_status_panel/install.py:102-106 | A second uninstall changes nothing if and only if no cut of the first one joins to a block |
| `Install.UninstallTwice` | src/terminal_status_panel/install.py:102-106 | In particular where begin marks start lines |
| `Install.UninstallTwiceDiffers` | src/terminal_status_panel/install.py:102-106 | A file on which a second uninstall does change something |
| `HostState.RoundTrip` | src/terminal_status_panel/model/host.py:165-209 | For every well-typed state, reading what was written gives the state back |
| `HostState.AcceptedIsWellTyped` | src/terminal_status_panel/model/host.py:70-85 | An accepted dictionary gives a state whose fields all have their declared types |
| `HostState.NoScalarNoField` | src/terminal_status_panel/model/host.py:34-65 | A truth value, a list, an object, a number that is not finite or a value of another kind than declared is refused in every known field of every block |
| `HostState.RewritingIsStable` | src/terminal_status_panel/model/host.py:165-209 | Writing an accepted state and reading that gives the same state |
| `HostState.UnknownKeysIgnored` | src/terminal_status_panel/model/host.py:73-76 | Unknown keys, at the top or in any block of a fixed shape, change nothing about what is read, refusals included |
| `HostState.AcceptedKeepsEvents` | src/terminal_status_panel/model/host.py:205 | Every listed event of an accepted dictionary is in the state |
| `HostStateErrors.UnknownSchemaIff` | src/terminal_status_panel/model/host.py:178-181 | A dictionary is refused for its schema if and only if that does not equal 1, whatever else it holds |
| `HostStateErrors.UndocumentedExceptionIff` | src/terminal_status_panel/model/host.py:172-223 | A KeyError is raised if and only if the schema is known and the time is missing, or all before the blocks is well typed and a listed VRRP block has no source; a TypeError if and only if all before the blocks is well typed and the first block that is not good, in the order vrrp, apache, updates, events as listed, lacks a required field with nothing wrong-typed |
| `HostStateErrors.DocumentedIff` | src/terminal_status_panel/model/host.py:175-176 | A refusal is one of the two documented exceptions if and only if neither case is met |
| `HostStateErrors.CompleteRefusals` | src/terminal_status_panel/model/host.py:175-176 | In particular if no required key is missing anywhere |
| `HostStateErrors.EntriesOutcome` | src/terminal_status_panel/model/host.py:220-223 | A list of blocks is accepted if and only if all are good, and raises a TypeError if and only if the first that is not good lacks a required field |
| `HostStateErrors.MissingFieldIsTypeError` | src/terminal_status_panel/model/host.py:70-85 | A written state whose Apache block loses a required field is refused with a TypeError |
| `HostStateErrors.EventOrderDecides` | src/terminal_status_panel/model/host.py:205 | Of two malformed events the one listed first decides between the two exceptions |
| `HostStateErrors.SchemaTrueIsRead` | src/terminal_status_panel/model/host.py:180-181 | A schema of `true` or `1.0` is read like `1` |

## Left out

- Budget.DeadlineIsFair: the finish of a check is the end of its thread, which comes a moment after its answer is stored.
- Stragglers.Registry.Record: runs of one process follow one another, as in the panel's passes; two runs at the same time, for which the source has a lock, are not interleaved.
- ProviderWalk.Walk: the tree does not change during one walk, and a subdirectory test that fails counts as a file without being modelled separately.
- PathResolver.ResolveComponents: starts from the names below the root; how `relpath` computes them from two path texts is not modelled.
- SafeOpen.Process.ReadDescriptor: one read of a regular file is taken to return all the bytes asked for that the file holds; a read cut short would return the beginning of the file as its text.
- SafeOpen.Process.ReadHostFile: errno values, descriptor flags, UTF-8 decoding and failures of closing itself are not modelled; a refusal carries no reason.
- StaticSearch.FindStaticFile: the wording of the sentence is left out; a candidate whose text starts with exactly two slashes, or is relative, is taken to lie on no mount, so a bind mount at `/` with such a candidate is not covered.
- StaticSearch.CandidatesInOrder: stripping removes space, tab, newline and carriage return only, not Unicode whitespace.
- Lsn.PositionReadsBack: digits are ASCII; `int` also accepts the digits of other scripts.
- Journal.Scan: starts from parsed entries; lines that are no JSON objects contribute nothing and are not represented.
- JournalExactness.EveryRunIsExact: `now` is at least one window past the epoch, as `int` truncates differently for negative times.
- HostState.RoundTrip: floats are real numbers, so an integer time of more than 53 bits is not rounded, and a negative zero is a zero.
- PgState.ParsePgState: starts from the lines of the output; stripping removes space, tab, newline and carriage return only; the wording of warnings is kept as constructors, and the digits of a name's prefix are ASCII.
- Health.BuildTasks: the timeout of each task and the check functions are not modelled, as the budget is proved for all of them; the HOST block, peers and DNS rows are read off the report one by one and would add only easy members.
- SearchInContainer.SearchFindsWhatTheKernelFinds: nothing is said of a candidate whose way leaves its bind mount, or whose `..` undoes a link; there the search can be wrong, as the two instances show.
- WrittenPath.WrittenIsThere: one direction; a `..` behind a link may lead to the same file by chance, depending on where the link points.
- AskOnce.FetchedAtMostOnce: each request is its own caller; that one thread makes its requests one after the other is not used.
- Rich rendering, layout, icons and all of the panel drawing, including the choice between two renderings of the same blocks: user interface.
- Docker, subprocesses, HTTP, DNS and sockets: each is an arbitrary answer, error or timeout.
- JSON, TOML, YAML and XML parsing: library code; the models start from parsed values.
- Configuration loading (but for lists of names), resource, update and system collectors, the Apache and apt arithmetic and the overall verdict table: sums and small tables that would add only easy members.
- The MongoDB, Kafka, RustFS and GlusterFS probes, and how a container is found for a probe: text parsing without state.
- Installing the collector and its systemd units: calls to `systemctl` whose effect is outside the program.
- Finding where a Swarm service runs, and the memo fields around that: one caller at a time, no interleaving to reason about.
