/**
  The classifier: three predicates over one directory listing that decide whether
  the directory is a project boundary (it holds trunk, branches or tags) and which
  entries are never touched (branches and tags, in any letter case).
 */
module Classifier {
  import opened Ascii
  import opened SvnTree

  /** The name test of `isBranchesOrTagsFolder`: equal to "branches" or "tags", ignoring case. */
  predicate IsBranchesOrTagsName(name: string)
  {
    EqualsIgnoreCase(name, "branches") || EqualsIgnoreCase(name, "tags")
  }

  /** `isBranchesOrTagsFolder(entry)`: the entry is excluded, whatever its kind. */
  predicate IsBranchesOrTagsFolder(e: DirEntry)
  {
    IsBranchesOrTagsName(e.name)
  }

  /** The lambda of `dirHasTrunkFolder`: the name equals "trunk", ignoring case. */
  predicate IsTrunkFolder(e: DirEntry)
  {
    EqualsIgnoreCase(e.name, "trunk")
  }

  /** A name is excluded exactly when it folds to "branches" or to "tags": "Tags" and
      "BRANCHES" are, "branch" and "tag" are not. */
  lemma ExcludedIffFoldsToBranchesOrTags(name: string)
    ensures IsBranchesOrTagsName(name) <==> Lower(name) == "branches" || Lower(name) == "tags"
  {
    EqualsIgnoreCaseIffSameLower(name, "branches");
    EqualsIgnoreCaseIffSameLower(name, "tags");
    LowerOfLowerCase("branches");
    LowerOfLowerCase("tags");
  }

  /** An entry is a trunk exactly when its name folds to "trunk". */
  lemma TrunkIffFoldsToTrunk(e: DirEntry)
    ensures IsTrunkFolder(e) <==> Lower(e.name) == "trunk"
  {
    EqualsIgnoreCaseIffSameLower(e.name, "trunk");
    LowerOfLowerCase("trunk");
  }

  /** `entries.stream().anyMatch(isBranchesOrTagsFolder)`. */
  predicate AnyBranchesOrTags(entries: seq<DirEntry>)
  {
    entries != [] && (IsBranchesOrTagsFolder(entries[0]) || AnyBranchesOrTags(entries[1..]))
  }

  /** `dirHasTrunkFolder(entries)`: `entries.stream().anyMatch(isTrunk)`. */
  predicate DirHasTrunkFolder(entries: seq<DirEntry>)
  {
    entries != [] && (IsTrunkFolder(entries[0]) || DirHasTrunkFolder(entries[1..]))
  }

  /** `dirContainsTrunkBranchesOrTagsSubfolder(entries)`. */
  predicate DirContainsTrunkBranchesOrTagsSubfolder(entries: seq<DirEntry>)
  {
    AnyBranchesOrTags(entries) || DirHasTrunkFolder(entries)
  }

  /** The stream search for branches or tags succeeds exactly when some entry is one. */
  lemma {:induction false} AnyBranchesOrTagsIffSomeExcluded(entries: seq<DirEntry>)
    ensures AnyBranchesOrTags(entries) <==> exists i | 0 <= i < |entries| :: IsBranchesOrTagsFolder(entries[i])
  {
    if entries != [] {
      AnyBranchesOrTagsIffSomeExcluded(entries[1..]);
      assert forall i | 1 <= i < |entries| :: entries[i] == entries[1..][i - 1];
    }
  }

  /** The stream search for trunk succeeds exactly when some entry is one. */
  lemma {:induction false} DirHasTrunkFolderIffSomeTrunk(entries: seq<DirEntry>)
    ensures DirHasTrunkFolder(entries) <==> exists i | 0 <= i < |entries| :: IsTrunkFolder(entries[i])
  {
    if entries != [] {
      DirHasTrunkFolderIffSomeTrunk(entries[1..]);
      assert forall i | 1 <= i < |entries| :: entries[i] == entries[1..][i - 1];
    }
  }

  /** A listing is a project boundary exactly when it holds a branches, tags or trunk
      entry, in any letter case; a listing such as {lib, docs} is none. */
  lemma BoundaryIffTrunkBranchesOrTags(entries: seq<DirEntry>)
    ensures DirContainsTrunkBranchesOrTagsSubfolder(entries)
        <==> exists i | 0 <= i < |entries| :: IsBranchesOrTagsFolder(entries[i]) || IsTrunkFolder(entries[i])
  {
    AnyBranchesOrTagsIffSomeExcluded(entries);
    DirHasTrunkFolderIffSomeTrunk(entries);
  }

  /** Being a boundary depends on which entries are listed, not on their order
      (a `Collection` promises no order). */
  lemma BoundaryIgnoresListingOrder(a: seq<DirEntry>, b: seq<DirEntry>)
    requires multiset(a) == multiset(b)
    ensures DirContainsTrunkBranchesOrTagsSubfolder(a) == DirContainsTrunkBranchesOrTagsSubfolder(b)
  {
    BoundaryCarriesOver(a, b);
    BoundaryCarriesOver(b, a);
  }

  /** One direction of `BoundaryIgnoresListingOrder`: a boundary entry of `a` is listed in `b`. */
  lemma BoundaryCarriesOver(a: seq<DirEntry>, b: seq<DirEntry>)
    requires multiset(a) == multiset(b)
    ensures DirContainsTrunkBranchesOrTagsSubfolder(a) ==> DirContainsTrunkBranchesOrTagsSubfolder(b)
  {
    BoundaryIffTrunkBranchesOrTags(a);
    BoundaryIffTrunkBranchesOrTags(b);
    if DirContainsTrunkBranchesOrTagsSubfolder(a) {
      var i :| 0 <= i < |a| && (IsBranchesOrTagsFolder(a[i]) || IsTrunkFolder(a[i]));
      assert a[i] in multiset(b);
      var j :| 0 <= j < |b| && b[j] == a[i];
    }
  }
}
