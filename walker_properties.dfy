/**
  What the walk guarantees, stated over the request log `Walked` (which the method
  `Walker.Recursive` is proved to produce): the checkout-or-update choice, the shape
  of every path it builds, that branches and tags are never entered nor acted on at
  any depth, where it acts and where it descends, and that a second run over the
  destinations created by the first only updates.
 */
module WalkerProperties {
  import opened SvnTree
  import opened Classifier
  import opened Paths
  import opened Walker

  /** `q` lies at or below `p`, and no segment after `p`'s is branches or tags. */
  predicate BelowAvoidingExcluded(p: string, q: string)
  {
    && Segments(p) <= Segments(q)
    && forall k | |Segments(p)| <= k < |Segments(q)| :: !IsBranchesOrTagsName(Segments(q)[k])
  }

  /** No segment of `p` is branches or tags. */
  predicate NoExcludedSegment(p: string)
  {
    forall k | 0 <= k < |Segments(p)| :: !IsBranchesOrTagsName(Segments(p)[k])
  }

  /** The filter of a boundary listing keeps exactly the entries that are neither
      branches nor tags, and keeps a listing without them whole. */
  lemma {:induction false} NonExcludedKeepsIncluded(entries: seq<DirEntry>)
    ensures forall e :: e in NonExcluded(entries) <==> e in entries && !IsBranchesOrTagsFolder(e)
    ensures (forall i | 0 <= i < |entries| :: !IsBranchesOrTagsFolder(entries[i])) ==> NonExcluded(entries) == entries
  {
    if entries != [] {
      NonExcludedKeepsIncluded(entries[1..]);
      assert entries == [entries[0]] + entries[1..];
    }
  }

  /** The filter keeps listing order: filtering a concatenation concatenates the filtered parts. */
  lemma {:induction false} NonExcludedAppend(a: seq<DirEntry>, b: seq<DirEntry>)
    ensures NonExcluded(a + b) == NonExcluded(a) + NonExcluded(b)
  {
    if a != [] {
      var head := if IsBranchesOrTagsFolder(a[0]) then [] else [a[0]];
      assert (a + b)[0] == a[0];
      assert (a + b)[1..] == a[1..] + b;
      NonExcludedAppend(a[1..], b);
      calc {
        NonExcluded(a + b);
        head + NonExcluded(a[1..] + b);
        head + (NonExcluded(a[1..]) + NonExcluded(b));
        (head + NonExcluded(a[1..])) + NonExcluded(b);
        NonExcluded(a) + NonExcluded(b);
      }
    } else {
      assert a + b == b;
    }
  }

  /** Every request is a checkout exactly when its destination does not exist, and an
      update exactly when it does. */
  lemma {:induction false} WalkChoosesCheckoutOrUpdate(root: string, destRoot: string, repoPath: string, dir: DirEntry, existing: set<string>)
    ensures forall r | r in Walked(root, destRoot, repoPath, dir, existing) ::
              (r.Checkout? ==> r.dst !in existing) && (r.Update? ==> r.dst in existing)
    decreases dir
  {
    var log := Walked(root, destRoot, repoPath, dir, existing);
    if !DirContainsTrunkBranchesOrTagsSubfolder(dir.children) {
      forall j | 0 <= j < |dir.children| && Qualifies(dir.children[j]) {
        WalkChoosesCheckoutOrUpdate(root, destRoot, ChildPath(repoPath, dir.children[j].name), dir.children[j], existing);
      }
      forall r | r in log && r != ListDir(repoPath)
        ensures (r.Checkout? ==> r.dst !in existing) && (r.Update? ==> r.dst in existing)
      {
        DescendedMembers(root, destRoot, repoPath, dir, |dir.children|, existing, r);
      }
    }
  }

  /** A checkout or update targets `destRoot`, the repoPath it is logged with and a valid
      final name that is neither branches nor tags; a checkout fetches the URL built
      from the same repoPath and name. */
  predicate WellShapedAction(root: string, destRoot: string, r: Request)
  {
    !r.ListDir? ==>
      && ValidName(LastSegment(r.dst))
      && !IsBranchesOrTagsName(LastSegment(r.dst))
      && r.dst == DestPath(destRoot, r.repoPath, LastSegment(r.dst))
      && (r.Checkout? ==> r.url == CheckoutUrl(root, r.repoPath, LastSegment(r.dst)))
  }

  /** The request for an entry with a valid name that is neither branches nor tags is
      well shaped. */
  lemma ActOnWellShaped(root: string, destRoot: string, repoPath: string, e: DirEntry, existing: set<string>)
    requires ValidName(e.name) && !IsBranchesOrTagsFolder(e)
    ensures WellShapedAction(root, destRoot, ActOn(root, destRoot, repoPath, e, existing))
  {
    DestPathEndsWithName(destRoot, repoPath, e.name);
  }

  /** Every checkout or update of the walk is well shaped: it writes below `destRoot` at
      the path of the listing it came from, never to a branches or tags entry. */
  lemma {:induction false} WalkActionShape(root: string, destRoot: string, repoPath: string, dir: DirEntry, existing: set<string>)
    requires WellFormedTree(dir)
    ensures forall r | r in Walked(root, destRoot, repoPath, dir, existing) :: WellShapedAction(root, destRoot, r)
    decreases dir
  {
    var log := Walked(root, destRoot, repoPath, dir, existing);
    if DirContainsTrunkBranchesOrTagsSubfolder(dir.children) {
      var todo := NonExcluded(dir.children);
      var acts := Acted(root, destRoot, repoPath, todo, existing);
      NonExcludedKeepsIncluded(dir.children);
      forall k | 0 <= k < |acts| ensures WellShapedAction(root, destRoot, acts[k]) {
        assert todo[k] in dir.children;
        ActOnWellShaped(root, destRoot, repoPath, todo[k], existing);
      }
      assert log == [ListDir(repoPath)] + acts;
    } else {
      forall j | 0 <= j < |dir.children| && Qualifies(dir.children[j]) {
        WalkActionShape(root, destRoot, ChildPath(repoPath, dir.children[j].name), dir.children[j], existing);
      }
      forall r | r in log && r != ListDir(repoPath) ensures WellShapedAction(root, destRoot, r) {
        DescendedMembers(root, destRoot, repoPath, dir, |dir.children|, existing, r);
      }
    }
  }

  /** Every request of the walk, listing or action, is made for a path at or below
      `repoPath` that enters no branches or tags directory on the way. */
  lemma {:induction false} WalkStaysOnIncludedPaths(root: string, destRoot: string, repoPath: string, dir: DirEntry, existing: set<string>)
    requires WellFormedTree(dir)
    ensures forall r | r in Walked(root, destRoot, repoPath, dir, existing) :: BelowAvoidingExcluded(repoPath, r.repoPath)
    decreases dir
  {
    var log := Walked(root, destRoot, repoPath, dir, existing);
    if !DirContainsTrunkBranchesOrTagsSubfolder(dir.children) {
      forall r | r in log && r != ListDir(repoPath) ensures BelowAvoidingExcluded(repoPath, r.repoPath) {
        DescendedMembers(root, destRoot, repoPath, dir, |dir.children|, existing, r);
        var j :| 0 <= j < |dir.children| && InCallFor(root, destRoot, repoPath, dir, j, existing, r);
        var c := dir.children[j];
        var q := ChildPath(repoPath, c.name);
        WalkStaysOnIncludedPaths(root, destRoot, q, c, existing);
        BelowChildIsBelowParent(repoPath, c.name, r.repoPath);
      }
    }
  }

  /** A path below child `name` avoiding excluded segments is below the parent too,
      when `name` itself is not excluded. */
  lemma BelowChildIsBelowParent(repoPath: string, name: string, q: string)
    requires ValidName(name) && !IsBranchesOrTagsName(name)
    requires BelowAvoidingExcluded(ChildPath(repoPath, name), q)
    ensures BelowAvoidingExcluded(repoPath, q)
    ensures |Segments(q)| > |Segments(repoPath)| && Segments(q)[|Segments(repoPath)|] == name
  {
    ChildPathSegments(repoPath, name);
    var sc := Segments(ChildPath(repoPath, name));
    assert sc[|Segments(repoPath)|] == name;
    assert Segments(repoPath) <= sc;
  }

  /** At a directory that is not a boundary, everything after its own listing happens
      strictly below it: none of its own entries, files included, is acted on. */
  lemma NonBoundaryActsOnlyBelow(root: string, destRoot: string, repoPath: string, dir: DirEntry, existing: set<string>)
    requires WellFormedTree(dir)
    requires !DirContainsTrunkBranchesOrTagsSubfolder(dir.children)
    ensures forall r | r in Walked(root, destRoot, repoPath, dir, existing)[1..] ::
              |Segments(r.repoPath)| > |Segments(repoPath)|
    ensures forall r | r in Walked(root, destRoot, repoPath, dir, existing) && !r.ListDir? :: r.repoPath != repoPath
  {
    var log := Walked(root, destRoot, repoPath, dir, existing);
    forall r | r in log[1..] ensures |Segments(r.repoPath)| > |Segments(repoPath)| {
      DescendedMembers(root, destRoot, repoPath, dir, |dir.children|, existing, r);
      var j :| 0 <= j < |dir.children| && InCallFor(root, destRoot, repoPath, dir, j, existing, r);
      var q := ChildPath(repoPath, dir.children[j].name);
      WalkStaysOnIncludedPaths(root, destRoot, q, dir.children[j], existing);
      BelowChildIsBelowParent(repoPath, dir.children[j].name, r.repoPath);
    }
    forall r | r in log && !r.ListDir? ensures r.repoPath != repoPath {
      assert r in log[1..];
    }
  }

  /** At a directory that is not a boundary, the walker lists the child path of an
      entry exactly when that entry is a directory that is neither branches nor tags. */
  lemma DescendsExactlyIntoQualifyingDirs(root: string, destRoot: string, repoPath: string, dir: DirEntry, existing: set<string>, i: nat)
    requires WellFormedTree(dir)
    requires !DirContainsTrunkBranchesOrTagsSubfolder(dir.children)
    requires i < |dir.children|
    ensures ListDir(ChildPath(repoPath, dir.children[i].name)) in Walked(root, destRoot, repoPath, dir, existing)
        <==> Qualifies(dir.children[i])
  {
    var c := dir.children[i];
    var q := ChildPath(repoPath, c.name);
    var r := ListDir(q);
    DescendedMembers(root, destRoot, repoPath, dir, |dir.children|, existing, r);
    ChildPathSegments(repoPath, c.name);
    if r in Walked(root, destRoot, repoPath, dir, existing) {
      assert r != ListDir(repoPath);
      var j :| 0 <= j < |dir.children| && InCallFor(root, destRoot, repoPath, dir, j, existing, r);
      var cj := dir.children[j];
      WalkStaysOnIncludedPaths(root, destRoot, ChildPath(repoPath, cj.name), cj, existing);
      BelowChildIsBelowParent(repoPath, cj.name, q);
      assert Segments(q)[|Segments(repoPath)|] == c.name;
      assert j == i;
    }
    if Qualifies(c) {
      assert Walked(root, destRoot, q, c, existing)[0] == r;
      assert InCallFor(root, destRoot, repoPath, dir, i, existing, r);
    }
  }

  /** At a boundary the walker lists nothing more and issues one request per entry that
      is neither branches nor tags, in listing order, each for that entry's destination. */
  lemma BoundaryActsOnEachIncludedEntry(root: string, destRoot: string, repoPath: string, dir: DirEntry, existing: set<string>)
    requires DirContainsTrunkBranchesOrTagsSubfolder(dir.children)
    ensures var log := Walked(root, destRoot, repoPath, dir, existing);
            var todo := NonExcluded(dir.children);
            && |log| == 1 + |todo|
            && log[0] == ListDir(repoPath)
            && forall k | 0 <= k < |todo| ::
                 && !log[k + 1].ListDir?
                 && log[k + 1].repoPath == repoPath
                 && log[k + 1].dst == DestPath(destRoot, repoPath, todo[k].name)
  {
    var log := Walked(root, destRoot, repoPath, dir, existing);
    var todo := NonExcluded(dir.children);
    var acts := Acted(root, destRoot, repoPath, todo, existing);
    assert log == [ListDir(repoPath)] + acts;
    forall k | 0 <= k < |todo|
      ensures !log[k + 1].ListDir? && log[k + 1].repoPath == repoPath
      ensures log[k + 1].dst == DestPath(destRoot, repoPath, todo[k].name)
    {
      assert log[k + 1] == acts[k] == ActOn(root, destRoot, repoPath, todo[k], existing);
    }
  }

  /** The destinations the log's checkouts and updates write to. */
  function Destinations(log: seq<Request>): set<string>
  {
    set r | r in log && !r.ListDir? :: r.dst
  }

  /** A request with a checkout replaced by the update of the same destination. */
  function AsUpdate(r: Request): Request
  {
    if r.Checkout? then Update(r.dst, r.repoPath) else r
  }

  /** The log with every checkout replaced by an update of the same destination. */
  function AsUpdates(log: seq<Request>): (r: seq<Request>)
    ensures |r| == |log|
  {
    seq(|log|, k requires 0 <= k < |log| => AsUpdate(log[k]))
  }

  /** Which destinations exist changes only the checkout-or-update choice: the walk
      lists the same paths and touches the same destinations in the same order. */
  lemma {:induction false} ExistenceOnlyChoosesTheAction(root: string, destRoot: string, repoPath: string, dir: DirEntry, e1: set<string>, e2: set<string>)
    ensures AsUpdates(Walked(root, destRoot, repoPath, dir, e1)) == AsUpdates(Walked(root, destRoot, repoPath, dir, e2))
    decreases dir, 1
  {
    if DirContainsTrunkBranchesOrTagsSubfolder(dir.children) {
      var todo := NonExcluded(dir.children);
      var a1 := Walked(root, destRoot, repoPath, dir, e1);
      var a2 := Walked(root, destRoot, repoPath, dir, e2);
      assert forall k | 0 <= k < |a1| :: AsUpdate(a1[k]) == AsUpdate(a2[k]);
    } else {
      DescendedOnlyChoosesTheAction(root, destRoot, repoPath, dir, |dir.children|, e1, e2);
      AsUpdatesAppend([ListDir(repoPath)], Descended(root, destRoot, repoPath, dir, |dir.children|, e1));
      AsUpdatesAppend([ListDir(repoPath)], Descended(root, destRoot, repoPath, dir, |dir.children|, e2));
    }
  }

  /** `ExistenceOnlyChoosesTheAction` for the calls made for the first `n` entries. */
  lemma {:induction false} DescendedOnlyChoosesTheAction(root: string, destRoot: string, repoPath: string, dir: DirEntry, n: nat, e1: set<string>, e2: set<string>)
    requires n <= |dir.children|
    ensures AsUpdates(Descended(root, destRoot, repoPath, dir, n, e1)) == AsUpdates(Descended(root, destRoot, repoPath, dir, n, e2))
    decreases dir, 0, n
  {
    if n > 0 {
      var c := dir.children[n - 1];
      DescendedOnlyChoosesTheAction(root, destRoot, repoPath, dir, n - 1, e1, e2);
      var q := ChildPath(repoPath, c.name);
      var s1 := if Qualifies(c) then Walked(root, destRoot, q, c, e1) else [];
      var s2 := if Qualifies(c) then Walked(root, destRoot, q, c, e2) else [];
      if Qualifies(c) {
        ExistenceOnlyChoosesTheAction(root, destRoot, q, c, e1, e2);
      }
      AsUpdatesAppend(Descended(root, destRoot, repoPath, dir, n - 1, e1), s1);
      AsUpdatesAppend(Descended(root, destRoot, repoPath, dir, n - 1, e2), s2);
    }
  }

  /** Replacing checkouts by updates distributes over concatenation. */
  lemma AsUpdatesAppend(a: seq<Request>, b: seq<Request>)
    ensures AsUpdates(a + b) == AsUpdates(a) + AsUpdates(b)
  {
  }

  /** Running the walk a second time, against the same tree and with every destination
      of the first run present, issues exactly the first run's requests with every
      checkout turned into an update of the same destination. */
  lemma SecondRunOnlyUpdates(root: string, destRoot: string, repoPath: string, dir: DirEntry, existing: set<string>)
    ensures var first := Walked(root, destRoot, repoPath, dir, existing);
            Walked(root, destRoot, repoPath, dir, existing + Destinations(first)) == AsUpdates(first)
  {
    var first := Walked(root, destRoot, repoPath, dir, existing);
    var after := existing + Destinations(first);
    var second := Walked(root, destRoot, repoPath, dir, after);
    ExistenceOnlyChoosesTheAction(root, destRoot, repoPath, dir, existing, after);
    WalkChoosesCheckoutOrUpdate(root, destRoot, repoPath, dir, after);
    forall k | 0 <= k < |second| ensures second[k] == AsUpdate(first[k]) {
      assert AsUpdates(second)[k] == AsUpdates(first)[k];
    }
  }

  /** The repository path of the entry a checkout or update is for, as segments: the
      listing's path followed by the entry's name. */
  function ActedSegments(r: Request): seq<string>
    requires !r.ListDir?
  {
    Segments(r.repoPath) + [LastSegment(r.dst)]
  }

  /** No two checkouts or updates of `log` are for the same repository path. */
  predicate ActsOnDistinctPaths(log: seq<Request>)
  {
    forall i, j | 0 <= i < j < |log| && !log[i].ListDir? && !log[j].ListDir? ::
      ActedSegments(log[i]) != ActedSegments(log[j])
  }

  /** Names in a listing are pairwise distinct. */
  predicate DistinctNames(entries: seq<DirEntry>)
  {
    forall i, j | 0 <= i < j < |entries| :: entries[i].name != entries[j].name
  }

  /** Filtering a listing keeps its names pairwise distinct. */
  lemma {:induction false} NonExcludedKeepsNamesDistinct(entries: seq<DirEntry>)
    requires DistinctNames(entries)
    ensures DistinctNames(NonExcluded(entries))
  {
    if entries != [] {
      var tail := entries[1..];
      var rest := NonExcluded(tail);
      DistinctNamesTail(entries);
      NonExcludedKeepsNamesDistinct(tail);
      if !IsBranchesOrTagsFolder(entries[0]) {
        NonExcludedKeepsIncluded(tail);
        forall x | x in rest ensures x.name != entries[0].name {
          var k :| 0 <= k < |tail| && tail[k] == x;
          assert entries[k + 1] == x;
        }
        DistinctNamesCons(entries[0], rest);
      }
    }
  }

  /** Dropping the first entry keeps names distinct. */
  lemma DistinctNamesTail(entries: seq<DirEntry>)
    requires entries != [] && DistinctNames(entries)
    ensures DistinctNames(entries[1..])
  {
    var tail := entries[1..];
    forall i, j | 0 <= i < j < |tail| ensures tail[i].name != tail[j].name {
      assert tail[i] == entries[i + 1] && tail[j] == entries[j + 1];
    }
  }

  /** An entry whose name no later entry has, before a listing of distinct names,
      makes a listing of distinct names. */
  lemma DistinctNamesCons(e: DirEntry, rest: seq<DirEntry>)
    requires DistinctNames(rest)
    requires forall x | x in rest :: x.name != e.name
    ensures DistinctNames([e] + rest)
  {
    var r := [e] + rest;
    forall i, j | 0 <= i < j < |r| ensures r[i].name != r[j].name {
      assert r[j] == rest[j - 1];
      if i > 0 {
        assert r[i] == rest[i - 1];
      }
    }
  }

  /** Two parts that act on distinct paths, and on no path in common, make a whole that
      acts on distinct paths. */
  lemma DistinctPathsAppend(a: seq<Request>, b: seq<Request>)
    requires ActsOnDistinctPaths(a) && ActsOnDistinctPaths(b)
    requires forall x, y | x in a && y in b && !x.ListDir? && !y.ListDir? :: ActedSegments(x) != ActedSegments(y)
    ensures ActsOnDistinctPaths(a + b)
  {
    var ab := a + b;
    forall i, j | 0 <= i < j < |ab| && !ab[i].ListDir? && !ab[j].ListDir?
      ensures ActedSegments(ab[i]) != ActedSegments(ab[j])
    {
      if j < |a| {
        assert ab[i] == a[i] && ab[j] == a[j];
      } else if i >= |a| {
        assert ab[i] == b[i - |a|] && ab[j] == b[j - |a|];
      } else {
        assert ab[i] in a && ab[j] in b;
      }
    }
  }

  /** Every checkout or update below qualifying child `c` of a listing at `repoPath` is
      for a path whose segment after `repoPath`'s is `c`'s name. */
  lemma ActedBelowChild(root: string, destRoot: string, repoPath: string, c: DirEntry, existing: set<string>, r: Request)
    requires WellFormedTree(c) && ValidName(c.name) && Qualifies(c)
    requires r in Walked(root, destRoot, ChildPath(repoPath, c.name), c, existing) && !r.ListDir?
    ensures |ActedSegments(r)| > |Segments(repoPath)| && ActedSegments(r)[|Segments(repoPath)|] == c.name
  {
    WalkStaysOnIncludedPaths(root, destRoot, ChildPath(repoPath, c.name), c, existing);
    BelowChildIsBelowParent(repoPath, c.name, r.repoPath);
  }

  /** The calls made for the first `n` entries of a non-boundary listing act on distinct paths. */
  lemma {:induction false} DescendedActsOnDistinctPaths(root: string, destRoot: string, repoPath: string, dir: DirEntry, n: nat, existing: set<string>)
    requires WellFormedTree(dir)
    requires n <= |dir.children|
    ensures ActsOnDistinctPaths(Descended(root, destRoot, repoPath, dir, n, existing))
    decreases dir, 0, n
  {
    if n > 0 {
      var c := dir.children[n - 1];
      var front := Descended(root, destRoot, repoPath, dir, n - 1, existing);
      var back := if Qualifies(c) then Walked(root, destRoot, ChildPath(repoPath, c.name), c, existing) else [];
      DescendedActsOnDistinctPaths(root, destRoot, repoPath, dir, n - 1, existing);
      if Qualifies(c) {
        WalkActsOnDistinctPaths(root, destRoot, ChildPath(repoPath, c.name), c, existing);
      }
      forall x, y | x in front && y in back && !x.ListDir? && !y.ListDir?
        ensures ActedSegments(x) != ActedSegments(y)
      {
        DescendedMembers(root, destRoot, repoPath, dir, n - 1, existing, x);
        var a :| 0 <= a < n - 1 && InCallFor(root, destRoot, repoPath, dir, a, existing, x);
        ActedBelowChild(root, destRoot, repoPath, dir.children[a], existing, x);
        ActedBelowChild(root, destRoot, repoPath, c, existing, y);
      }
      DistinctPathsAppend(front, back);
    }
  }

  /** At a boundary, entries with distinct valid names are acted on at distinct paths. */
  lemma ActedOnDistinctPaths(root: string, destRoot: string, repoPath: string, todo: seq<DirEntry>, existing: set<string>)
    requires DistinctNames(todo)
    requires forall k | 0 <= k < |todo| :: ValidName(todo[k].name)
    ensures ActsOnDistinctPaths(Acted(root, destRoot, repoPath, todo, existing))
  {
    var acts := Acted(root, destRoot, repoPath, todo, existing);
    forall k | 0 <= k < |acts| ensures ActedSegments(acts[k]) == Segments(repoPath) + [todo[k].name] {
      DestPathEndsWithName(destRoot, repoPath, todo[k].name);
    }
    forall i, j | 0 <= i < j < |acts| ensures ActedSegments(acts[i]) != ActedSegments(acts[j]) {
      assert ActedSegments(acts[i])[|Segments(repoPath)|] == todo[i].name;
      assert ActedSegments(acts[j])[|Segments(repoPath)|] == todo[j].name;
    }
  }

  /** The checkouts and updates of a walk are for pairwise distinct repository paths. */
  lemma {:induction false} WalkActsOnDistinctPaths(root: string, destRoot: string, repoPath: string, dir: DirEntry, existing: set<string>)
    requires WellFormedTree(dir)
    ensures ActsOnDistinctPaths(Walked(root, destRoot, repoPath, dir, existing))
    decreases dir, 1
  {
    if DirContainsTrunkBranchesOrTagsSubfolder(dir.children) {
      var todo := NonExcluded(dir.children);
      NonExcludedKeepsNamesDistinct(dir.children);
      NonExcludedKeepsIncluded(dir.children);
      forall k | 0 <= k < |todo| ensures ValidName(todo[k].name) {
        assert todo[k] in dir.children;
      }
      ActedOnDistinctPaths(root, destRoot, repoPath, todo, existing);
      DistinctPathsAppend([ListDir(repoPath)], Acted(root, destRoot, repoPath, todo, existing));
    } else {
      DescendedActsOnDistinctPaths(root, destRoot, repoPath, dir, |dir.children|, existing);
      DistinctPathsAppend([ListDir(repoPath)], Descended(root, destRoot, repoPath, dir, |dir.children|, existing));
    }
  }

  /** Two well-shaped requests with the same destination are for the same repository path. */
  lemma SameDestinationSamePath(root: string, destRoot: string, x: Request, y: Request)
    requires !x.ListDir? && !y.ListDir?
    requires WellShapedAction(root, destRoot, x) && WellShapedAction(root, destRoot, y)
    requires x.dst == y.dst
    ensures ActedSegments(x) == ActedSegments(y)
  {
    var name := LastSegment(x.dst);
    var cx := ChildPath(x.repoPath, name);
    var cy := ChildPath(y.repoPath, name);
    DestPathBelowRoot(destRoot, x.repoPath, name);
    DestPathBelowRoot(destRoot, y.repoPath, name);
    assert cx == (destRoot + "/" + cx)[|destRoot| + 1..];
    assert cy == (destRoot + "/" + cy)[|destRoot| + 1..];
    ChildPathSegments(x.repoPath, name);
    ChildPathSegments(y.repoPath, name);
  }

  /** A destination is checked out or updated at most once in a run. */
  lemma WalkWritesEachDestinationOnce(root: string, destRoot: string, repoPath: string, dir: DirEntry, existing: set<string>)
    requires WellFormedTree(dir)
    ensures var log := Walked(root, destRoot, repoPath, dir, existing);
            forall i, j | 0 <= i < j < |log| && !log[i].ListDir? && !log[j].ListDir? :: log[i].dst != log[j].dst
  {
    var log := Walked(root, destRoot, repoPath, dir, existing);
    WalkActsOnDistinctPaths(root, destRoot, repoPath, dir, existing);
    WalkActionShape(root, destRoot, repoPath, dir, existing);
    forall i, j | 0 <= i < j < |log| && !log[i].ListDir? && !log[j].ListDir? ensures log[i].dst != log[j].dst {
      assert log[i] in log && log[j] in log;
      if log[i].dst == log[j].dst {
        SameDestinationSamePath(root, destRoot, log[i], log[j]);
      }
    }
  }

  /** The whole run, started at the repository root as `main` does: no request enters a
      branches or tags directory at any depth, and no checkout or update writes to one. */
  lemma WholeWalkAvoidsBranchesAndTags(root: string, destRoot: string, tree: DirEntry, existing: set<string>)
    requires WellFormedTree(tree)
    ensures forall r | r in Walked(root, destRoot, "", tree, existing) ::
              && NoExcludedSegment(r.repoPath)
              && (!r.ListDir? ==> !IsBranchesOrTagsName(LastSegment(r.dst)))
  {
    WalkStaysOnIncludedPaths(root, destRoot, "", tree, existing);
    WalkActionShape(root, destRoot, "", tree, existing);
    assert Segments("") == [];
  }
}
