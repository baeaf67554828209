# Trunk-only Subversion checkout, modelled in Dafny

`SvnCheckoutNoTagsOrBranches` mirrors a Subversion repository onto a local
directory. It never checks out a `branches` or `tags` directory. It walks the
remote tree depth-first from the repository root.

- A directory whose listing holds `trunk`, `branches` or `tags`, in any letter
  case, is a *project boundary*. At a boundary the walker checks out every
  entry that is neither branches nor tags, files included. When the local
  destination already exists, it updates that entry instead. It descends no
  further.
- Any other directory is descended into. The walker enters each
  sub-directory that is neither branches nor tags, and it ignores files.

The model has seven modules:

- `Ascii` gives `String.equalsIgnoreCase` restricted to ASCII letters.
- `SvnTree` gives the remote repository as a finite tree of `DirEntry`
  values. Each entry has a name, a kind (file or directory) and its children
  in listing order.
- `Classifier` holds the three predicates `isBranchesOrTagsFolder`,
  `dirHasTrunkFolder` and `dirContainsTrunkBranchesOrTagsSubfolder`.
- `Paths` holds the three strings the walker builds: the child repository
  path, the checkout URL and the local destination. It also reads a path as
  `/`-separated segments.
- `Walker` holds the walker `recursive`, as the method `Walker.Recursive`. It
  uses `for` loops and recursion on the subtree. Its two collaborators become
  values:
  - the repository listing becomes the subtree found at `repoPath`;
  - `File.exists` becomes membership in a set `existing` of destination paths.
  
  What the walker does is returned as a log of requests, in order:
  - `ListDir(repoPath)` for each `getDir` call;
  - `Checkout(url, dst, repoPath)` for each `doCheckout` call;
  - `Update(dst, repoPath)` for each `doUpdate` call.
  
  The method is proved to return `Walked(...)`, a function of the tree and
  the existing set.
- `WalkerProperties` proves what that log satisfies, for every tree.
- `Examples` works out concrete listings and walks exactly.

The tool's written description differs from the code in two places. The model
follows the code in both:

- The description calls the listing {branches, projectA} a non-boundary
  directory. In the code, a branches entry alone makes a boundary, so projectA
  is checked out or updated and nothing is descended into
  (`Examples.BranchesAloneMakeABoundary`).
- The description calls the walk breadth-first. The code recurses inside its
  loop over the listing, so the walk is depth-first (`Examples.TwoTeamsScenario`).

## Model

| member | source | states |
|---|---|---|
| Ascii.EqualsIgnoreCaseIffSameLower | src/main/java/main/java/SvnCheckoutNoTagsOrBranches.java:111-115 | `equalsIgnoreCase` holds exactly when both strings have the same length and fold to the same lower-case string |
| Classifier.ExcludedIffFoldsToBranchesOrTags | src/main/java/main/java/SvnCheckoutNoTagsOrBranches.java:114-116 | a name is excluded exactly when it folds to "branches" or to "tags" |
| Classifier.TrunkIffFoldsToTrunk | src/main/java/main/java/SvnCheckoutNoTagsOrBranches.java:111 | an entry counts as trunk exactly when its name folds to "trunk" |
| Classifier.AnyBranchesOrTagsIffSomeExcluded | src/main/java/main/java/SvnCheckoutNoTagsOrBranches.java:107 | the `anyMatch` over `isBranchesOrTagsFolder` succeeds exactly when some listed entry is branches or tags |
| Classifier.DirHasTrunkFolderIffSomeTrunk | src/main/java/main/java/SvnCheckoutNoTagsOrBranches.java:110-112 | `dirHasTrunkFolder` holds exactly when some listed entry is named trunk, ignoring case |
| Classifier.BoundaryIffTrunkBranchesOrTags | src/main/java/main/java/SvnCheckoutNoTagsOrBranches.java:106-108 | a listing is a boundary exactly when some entry is branches, tags or trunk, in any case |
| Classifier.BoundaryIgnoresListingOrder | src/main/java/main/java/SvnCheckoutNoTagsOrBranches.java:106-112 | two listings with the same entries in any order are both boundaries or both not |
| Paths.ChildPathExtends | src/main/java/main/java/SvnCheckoutNoTagsOrBranches.java:100 | the child path extends the parent path and is strictly longer for a non-empty name; it starts with "/" only if the parent or the name does |
| Paths.ChildPathSegments | src/main/java/main/java/SvnCheckoutNoTagsOrBranches.java:100 | the segments of the child path are the parent's segments followed by the name |
| Paths.DestPathBelowRoot | src/main/java/main/java/SvnCheckoutNoTagsOrBranches.java:72 | the destination is `destRoot + "/"` followed by the child's repository path; the separator left out at the root is the one the child path leaves out |
| Paths.DestPathEndsWithName | src/main/java/main/java/SvnCheckoutNoTagsOrBranches.java:72 | the destination's last segment is the entry name |
| Paths.CheckoutUrlShape | src/main/java/main/java/SvnCheckoutNoTagsOrBranches.java:71 | below the root the URL is `root + "/"` followed by the child path; at the root it is `root + "//" + name` |
| Paths.CheckoutUrlEndsWithName | src/main/java/main/java/SvnCheckoutNoTagsOrBranches.java:71 | the URL's last segment is the entry name |
| Walker.Recursive | src/main/java/main/java/SvnCheckoutNoTagsOrBranches.java:66-104 | the walker's filter, its checkout-or-update loop and its descending loop issue exactly the request log `Walked` of the subtree and the existing set |
| Walker.DescendedMembers | src/main/java/main/java/SvnCheckoutNoTagsOrBranches.java:93-103 | after a non-boundary listing, a request is logged exactly when it belongs to the call made for some qualifying entry |
| WalkerProperties.NonExcludedKeepsIncluded | src/main/java/main/java/SvnCheckoutNoTagsOrBranches.java:69 | the filter keeps exactly the entries that are neither branches nor tags, and keeps a listing without them unchanged |
| WalkerProperties.NonExcludedAppend | src/main/java/main/java/SvnCheckoutNoTagsOrBranches.java:69 | the filter keeps listing order: filtering a concatenation gives the concatenation of the filtered parts |
| WalkerProperties.NonExcludedKeepsNamesDistinct | src/main/java/main/java/SvnCheckoutNoTagsOrBranches.java:69 | filtering a listing with distinct names leaves distinct names |
| WalkerProperties.BoundaryActsOnEachIncludedEntry | src/main/java/main/java/SvnCheckoutNoTagsOrBranches.java:68-91 | at a boundary the log is the listing followed by one checkout or update per kept entry, in listing order, each logged with the boundary's path and written to that entry's destination; nothing below is listed |
| WalkerProperties.WalkChoosesCheckoutOrUpdate | src/main/java/main/java/SvnCheckoutNoTagsOrBranches.java:73-90 | every checkout is for a destination that does not exist and every update for one that does, at every depth |
| WalkerProperties.DescendsExactlyIntoQualifyingDirs | src/main/java/main/java/SvnCheckoutNoTagsOrBranches.java:93-101 | at a non-boundary directory, the child path of an entry is listed exactly when the entry is a directory that is neither branches nor tags |
| WalkerProperties.NonBoundaryActsOnlyBelow | src/main/java/main/java/SvnCheckoutNoTagsOrBranches.java:92-103 | at a non-boundary directory, every later request is strictly deeper, and none of the directory's own entries, files included, is acted on |
| WalkerProperties.WalkStaysOnIncludedPaths | src/main/java/main/java/SvnCheckoutNoTagsOrBranches.java:93-103 | every request is for a path at or below the starting path, and no segment added on the way is branches or tags |
| WalkerProperties.WalkActionShape | src/main/java/main/java/SvnCheckoutNoTagsOrBranches.java:69-90 | every checkout or update writes to the destination of a valid entry name that is neither branches nor tags, below the path it is logged with; a checkout fetches the URL built from the same path and name |
| WalkerProperties.WholeWalkAvoidsBranchesAndTags | src/main/java/main/java/SvnCheckoutNoTagsOrBranches.java:66-104 | in a whole run from the repository root, no listed path has a branches or tags segment and no checkout or update writes to one |
| WalkerProperties.ExistenceOnlyChoosesTheAction | src/main/java/main/java/SvnCheckoutNoTagsOrBranches.java:73-90 | the existing set changes only the choice between checkout and update; the same paths are listed and the same destinations touched, in the same order |
| WalkerProperties.SecondRunOnlyUpdates | src/main/java/main/java/SvnCheckoutNoTagsOrBranches.java:73-90 | a second run, with every destination of the first present, repeats the first run's log with every checkout turned into an update of the same destination |
| WalkerProperties.WalkActsOnDistinctPaths | src/main/java/main/java/SvnCheckoutNoTagsOrBranches.java:66-104 | in a tree whose listings have distinct names, no two checkouts or updates are for the same repository path |
| WalkerProperties.WalkWritesEachDestinationOnce | src/main/java/main/java/SvnCheckoutNoTagsOrBranches.java:72-90 | no destination is checked out or updated twice in one run |
| Examples.ExcludedNamesIgnoreCase | src/main/java/main/java/SvnCheckoutNoTagsOrBranches.java:111-116 | "Tags" and "BRANCHES" are excluded and "branch" and "tag" are not; "Trunk" is a trunk and "trunks" is not |
| Examples.BoundaryExamples | src/main/java/main/java/SvnCheckoutNoTagsOrBranches.java:106-112 | {lib, docs} is no boundary; {trunk} is one |
| Examples.TrunkBranchesTagsReadmeListing | src/main/java/main/java/SvnCheckoutNoTagsOrBranches.java:68-69 | {trunk, branches, tags, README} is a boundary whose filter keeps trunk and README |
| Examples.RootBoundaryChecksOutTrunkAndReadme | src/main/java/main/java/SvnCheckoutNoTagsOrBranches.java:68-81 | at that root boundary, with nothing on disk, exactly trunk and README are checked out, each from a URL with "//" after the root |
| Examples.BranchesProjectAListing | src/main/java/main/java/SvnCheckoutNoTagsOrBranches.java:107 | {branches, projectA} is a boundary whose filter keeps projectA |
| Examples.BranchesAloneMakeABoundary | src/main/java/main/java/SvnCheckoutNoTagsOrBranches.java:68-90 | with projectA's destination present, that listing yields one update of projectA and no descent |
| Examples.TrunkOnlyListings | src/main/java/main/java/SvnCheckoutNoTagsOrBranches.java:69 | {trunk, branches, tags} and {trunk, tags} are boundaries that keep only trunk |
| Examples.TeamsAreNoBoundary | src/main/java/main/java/SvnCheckoutNoTagsOrBranches.java:106-112 | {team1, team2} is no boundary, and both entries qualify for descent |
| Examples.Team2Walk | src/main/java/main/java/SvnCheckoutNoTagsOrBranches.java:93-101 | team2 is no boundary: its log is its listing followed by the walk of team2/sub |
| Examples.TopWalk | src/main/java/main/java/SvnCheckoutNoTagsOrBranches.java:93-103 | the root's log is its listing, then the whole walk of team1, then that of team2 |
| Examples.TwoTeamsScenario | src/main/java/main/java/SvnCheckoutNoTagsOrBranches.java:66-104 | the whole two-team run lists "", team1, team2 and team2/sub depth-first and checks out only the two trunks, each logged with its boundary's path |

## Left out

- Argument parsing, the usage text and `System.exit` in `main` (lines 18-39 and 52-58). This is command-line glue with no walk logic.
- The SVNKit set-up: the DAV factory, the authentication manager, the client manager and `setIgnoreExternals` (lines 41-48). These are library calls with no behaviour visible to the walk.
- The network. `getDir` is modelled as reading the children of the subtree found at `repoPath`. Listing, checkout and update failures (`SVNException`) are not modelled, and neither is `checkPath` on the root (line 50).
- Revision numbers and everything printed (lines 60-63, 81 and 89). The log keeps the `repoPath` each checkout and update line would print, but not the text or the revision.
- The local file system. `File.exists` (line 73) becomes membership in a set fixed for the whole run. The model does not make checkouts add to that set, so a race between the existence test and the checkout is not captured. Within one run no destination is written twice (`WalkerProperties.WalkWritesEachDestinationOnce`).
- Unicode case folding in `equalsIgnoreCase`. Only the ASCII letters fold; every other character matches only itself.
- What `SVNDepth.INFINITY` fetches below a checked-out entry. A checkout is one request for one destination.
