/**
  The tree walker, `recursive(updateClient, repository, checkoutRootPath,
  destRootPath, repoPath)`. Its two collaborators are replaced by values: the
  repository by the directory `dir` found at `repoPath`, and the local disk by the
  set `existing` of destination paths that exist. What the walker does to them is
  recorded, in order, as a log of requests: one `ListDir` per call (the `getDir`
  that starts it) and one `Checkout` or `Update` per entry it acts on.

  `Walked` and `Descended` give the log as a function of the inputs; the method
  `Recursive` is the walker itself, with its loops, proved to produce that log.
 */
module Walker {
  import opened SvnTree
  import opened Classifier
  import opened Paths

  /** A call the walker makes on the repository or the update client. Each carries
      the `repoPath` of the call that made it, which is also the path the source
      prints on its checkout and update lines. */
  datatype Request =
    | ListDir(repoPath: string)
    | Checkout(url: string, dst: string, repoPath: string)
    | Update(dst: string, repoPath: string)

  /** The filter of a boundary listing: the entries that are neither branches nor tags,
      in listing order. Files and unrelated siblings stay. */
  function NonExcluded(entries: seq<DirEntry>): seq<DirEntry>
  {
    if entries == [] then []
    else (if IsBranchesOrTagsFolder(entries[0]) then [] else [entries[0]]) + NonExcluded(entries[1..])
  }

  /** An entry the walker descends into at a non-boundary level: a directory that is
      neither branches nor tags. */
  predicate Qualifies(e: DirEntry)
  {
    !IsBranchesOrTagsFolder(e) && e.kind == Dir
  }

  /** The one request issued for entry `e` of a boundary listing at `repoPath`: a
      checkout when its destination does not exist yet, an update when it does. */
  function ActOn(root: string, destRoot: string, repoPath: string, e: DirEntry, existing: set<string>): Request
  {
    var dst := DestPath(destRoot, repoPath, e.name);
    if dst !in existing then Checkout(CheckoutUrl(root, repoPath, e.name), dst, repoPath)
    else Update(dst, repoPath)
  }

  /** The requests for the filtered entries `todo` of a boundary, one per entry, in order. */
  function Acted(root: string, destRoot: string, repoPath: string, todo: seq<DirEntry>, existing: set<string>): (r: seq<Request>)
    ensures |r| == |todo|
  {
    seq(|todo|, k requires 0 <= k < |todo| => ActOn(root, destRoot, repoPath, todo[k], existing))
  }

  /** The log of one call on directory `dir` found at `repoPath`: list it; at a boundary
      act on every entry that is not excluded, elsewhere descend into every qualifying
      subdirectory. */
  function Walked(root: string, destRoot: string, repoPath: string, dir: DirEntry, existing: set<string>): seq<Request>
    decreases dir, 1
  {
    [ListDir(repoPath)]
    + if DirContainsTrunkBranchesOrTagsSubfolder(dir.children)
      then Acted(root, destRoot, repoPath, NonExcluded(dir.children), existing)
      else Descended(root, destRoot, repoPath, dir, |dir.children|, existing)
  }

  /** The logs of the calls made for the first `n` entries of a non-boundary listing. */
  function Descended(root: string, destRoot: string, repoPath: string, dir: DirEntry, n: nat, existing: set<string>): seq<Request>
    requires n <= |dir.children|
    decreases dir, 0, n
  {
    if n == 0 then []
    else
      var c := dir.children[n - 1];
      Descended(root, destRoot, repoPath, dir, n - 1, existing)
      + if Qualifies(c) then Walked(root, destRoot, ChildPath(repoPath, c.name), c, existing) else []
  }

  /** The walker. `dir.children` is what `getDir(repoPath)` returns; the returned log
      is every request the call and its recursive calls make, in order. */
  method Recursive(root: string, destRoot: string, repoPath: string, dir: DirEntry, existing: set<string>)
    returns (log: seq<Request>)
    ensures log == Walked(root, destRoot, repoPath, dir, existing)
    decreases dir
  {
    var entries := dir.children;
    log := [ListDir(repoPath)];
    if DirContainsTrunkBranchesOrTagsSubfolder(entries) {
      var todo := NonExcluded(entries);
      for i := 0 to |todo|
        invariant log == [ListDir(repoPath)] + Acted(root, destRoot, repoPath, todo[..i], existing)
      {
        var name := todo[i].name;
        var url := CheckoutUrl(root, repoPath, name);
        var dst := DestPath(destRoot, repoPath, name);
        if dst !in existing {
          log := log + [Checkout(url, dst, repoPath)];
        } else {
          log := log + [Update(dst, repoPath)];
        }
        ActedExtend(root, destRoot, repoPath, todo, i, existing);
        AppendAssociates([ListDir(repoPath)], Acted(root, destRoot, repoPath, todo[..i], existing), [ActOn(root, destRoot, repoPath, todo[i], existing)]);
      }
      assert todo[..|todo|] == todo;
    } else {
      for i := 0 to |entries|
        invariant log == [ListDir(repoPath)] + Descended(root, destRoot, repoPath, dir, i, existing)
      {
        var entry := entries[i];
        var sub := [];
        if !IsBranchesOrTagsFolder(entry) && entry.kind == Dir {
          sub := Recursive(root, destRoot, ChildPath(repoPath, entry.name), entry, existing);
        }
        DescendedExtend(root, destRoot, repoPath, dir, i, existing, sub);
        AppendAssociates([ListDir(repoPath)], Descended(root, destRoot, repoPath, dir, i, existing), sub);
        log := log + sub;
      }
    }
  }

  /** Appending to a log and then appending more is appending both at once. */
  lemma AppendAssociates(a: seq<Request>, b: seq<Request>, c: seq<Request>)
    ensures a + b + c == a + (b + c)
  {
  }

  /** The requests for one more filtered entry are the earlier ones and then its own. */
  lemma ActedExtend(root: string, destRoot: string, repoPath: string, todo: seq<DirEntry>, i: nat, existing: set<string>)
    requires i < |todo|
    ensures Acted(root, destRoot, repoPath, todo[..i + 1], existing)
         == Acted(root, destRoot, repoPath, todo[..i], existing) + [ActOn(root, destRoot, repoPath, todo[i], existing)]
  {
  }

  /** The logs for one more entry of a non-boundary listing are the earlier ones and
      then, when the entry qualifies, the log of the call made for it. */
  lemma DescendedExtend(root: string, destRoot: string, repoPath: string, dir: DirEntry, i: nat, existing: set<string>, sub: seq<Request>)
    requires i < |dir.children|
    requires sub == if Qualifies(dir.children[i])
                    then Walked(root, destRoot, ChildPath(repoPath, dir.children[i].name), dir.children[i], existing)
                    else []
    ensures Descended(root, destRoot, repoPath, dir, i + 1, existing) == Descended(root, destRoot, repoPath, dir, i, existing) + sub
  {
  }

  /** `r` is issued by the call the walker makes for entry `j` of a non-boundary listing,
      which it makes only when that entry qualifies. */
  predicate InCallFor(root: string, destRoot: string, repoPath: string, dir: DirEntry, j: nat, existing: set<string>, r: Request)
    requires j < |dir.children|
  {
    var c := dir.children[j];
    Qualifies(c) && r in Walked(root, destRoot, ChildPath(repoPath, c.name), c, existing)
  }

  /** A request is in the log of the first `n` entries exactly when it is in the log
      of the first `n - 1` or in that of the call made for entry `n - 1`. */
  lemma DescendedStepMembers(root: string, destRoot: string, repoPath: string, dir: DirEntry, n: nat, existing: set<string>, r: Request)
    requires 0 < n <= |dir.children|
    ensures r in Descended(root, destRoot, repoPath, dir, n, existing)
        <==> r in Descended(root, destRoot, repoPath, dir, n - 1, existing) || InCallFor(root, destRoot, repoPath, dir, n - 1, existing, r)
  {
    var c := dir.children[n - 1];
    var back := if Qualifies(c) then Walked(root, destRoot, ChildPath(repoPath, c.name), c, existing) else [];
    DescendedExtend(root, destRoot, repoPath, dir, n - 1, existing, back);
    InAppend(Descended(root, destRoot, repoPath, dir, n - 1, existing), back, r);
    assert InCallFor(root, destRoot, repoPath, dir, n - 1, existing, r) <==> r in back;
  }

  /** A request is in two logs one after the other exactly when it is in either. */
  lemma InAppend(a: seq<Request>, b: seq<Request>, r: Request)
    ensures r in a + b <==> r in a || r in b
  {
  }

  /** A request is in the log of the first `n` entries exactly when it is in the log
      of the call made for one of them, which must qualify. */
  lemma {:induction false} DescendedMembers(root: string, destRoot: string, repoPath: string, dir: DirEntry, n: nat, existing: set<string>, r: Request)
    requires n <= |dir.children|
    ensures r in Descended(root, destRoot, repoPath, dir, n, existing)
        <==> exists j | 0 <= j < n :: InCallFor(root, destRoot, repoPath, dir, j, existing, r)
  {
    if n > 0 {
      DescendedStepMembers(root, destRoot, repoPath, dir, n, existing, r);
      DescendedMembers(root, destRoot, repoPath, dir, n - 1, existing, r);
      if r in Descended(root, destRoot, repoPath, dir, n - 1, existing) {
        var j :| 0 <= j < n - 1 && InCallFor(root, destRoot, repoPath, dir, j, existing, r);
        assert 0 <= j < n;
      } else if !InCallFor(root, destRoot, repoPath, dir, n - 1, existing, r) {
        forall j | 0 <= j < n ensures !InCallFor(root, destRoot, repoPath, dir, j, existing, r) {
        }
      }
    }
  }
}
