/**
  Concrete listings and trees, with the classification and the exact request log
  the walker produces for them.
 */
module Examples {
  import opened Ascii
  import opened SvnTree
  import opened Classifier
  import opened Paths
  import opened Walker

  function D(name: string, children: seq<DirEntry>): DirEntry { DirEntry(name, Dir, children) }
  function F(name: string): DirEntry { DirEntry(name, File, []) }

  /** Any letter case of branches or tags is excluded; a mere prefix of either is not. */
  lemma ExcludedNamesIgnoreCase()
    ensures IsBranchesOrTagsFolder(D("Tags", [])) && IsBranchesOrTagsFolder(D("BRANCHES", []))
    ensures !IsBranchesOrTagsFolder(D("branch", [])) && !IsBranchesOrTagsFolder(D("tag", []))
    ensures IsTrunkFolder(D("Trunk", [])) && !IsTrunkFolder(D("trunks", []))
  {
    ExcludedIffFoldsToBranchesOrTags("Tags");
    ExcludedIffFoldsToBranchesOrTags("BRANCHES");
    ExcludedIffFoldsToBranchesOrTags("branch");
    ExcludedIffFoldsToBranchesOrTags("tag");
    TrunkIffFoldsToTrunk(D("Trunk", []));
    TrunkIffFoldsToTrunk(D("trunks", []));
    assert Lower("Tags") == "tags";
    assert Lower("BRANCHES") == "branches";
    assert Lower("Trunk") == "trunk";
  }

  /** A listing with neither trunk nor branches nor tags is no boundary; trunk alone is one. */
  lemma BoundaryExamples()
    ensures !DirContainsTrunkBranchesOrTagsSubfolder([D("lib", []), D("docs", [])])
    ensures DirContainsTrunkBranchesOrTagsSubfolder([D("trunk", [])])
  {
    var l := [D("lib", []), D("docs", [])];
    assert Lower("docs")[0] != Lower("tags")[0];
    assert forall i | 0 <= i < |l| :: l[i] == D("lib", []) || l[i] == D("docs", []);
    assert IsTrunkFolder([D("trunk", [])][0]);
  }

  /** Unfolding `Walked` once at a boundary. */
  lemma WalkedAtBoundary(root: string, dest: string, p: string, dir: DirEntry, existing: set<string>)
    requires DirContainsTrunkBranchesOrTagsSubfolder(dir.children)
    ensures Walked(root, dest, p, dir, existing) == [ListDir(p)] + Acted(root, dest, p, NonExcluded(dir.children), existing)
  {
  }

  /** The request for a missing entry of the root listing: its URL has "//" after the root. */
  lemma CheckoutAtRoot(root: string, dest: string, e: DirEntry)
    ensures ActOn(root, dest, "", e, {}) == Checkout(root + "//" + e.name, dest + "/" + e.name, "")
  {
  }

  /** The request for a missing entry below the root. */
  lemma CheckoutBelowRoot(root: string, dest: string, p: string, e: DirEntry)
    requires p != ""
    ensures ActOn(root, dest, p, e, {}) == Checkout(root + "/" + (p + "/" + e.name), dest + "/" + (p + "/" + e.name), p)
  {
  }

  /** {trunk, branches, tags, README} is a boundary that keeps trunk and README. */
  lemma TrunkBranchesTagsReadmeListing()
    ensures var l := [D("trunk", []), D("branches", []), D("tags", []), F("README")];
            DirContainsTrunkBranchesOrTagsSubfolder(l) && NonExcluded(l) == [D("trunk", []), F("README")]
  {
    var l := [D("trunk", []), D("branches", []), D("tags", []), F("README")];
    assert IsTrunkFolder(l[0]);
    assert IsBranchesOrTagsFolder(l[1]) && IsBranchesOrTagsFolder(l[2]);
    assert l[3..] == [F("README")] && l[2..] == [D("tags", []), F("README")];
    assert l[1..] == [D("branches", []), D("tags", []), F("README")];
  }

  /** At the root boundary {trunk, branches, tags, README} with nothing on disk, only trunk
      and README are checked out, each from a URL with "//" after the root. */
  lemma RootBoundaryChecksOutTrunkAndReadme(root: string, dest: string)
    ensures Walked(root, dest, "", D("", [D("trunk", []), D("branches", []), D("tags", []), F("README")]), {})
         == [ListDir(""),
             Checkout(root + "//" + "trunk", dest + "/" + "trunk", ""),
             Checkout(root + "//" + "README", dest + "/" + "README", "")]
  {
    var top := D("", [D("trunk", []), D("branches", []), D("tags", []), F("README")]);
    TrunkBranchesTagsReadmeListing();
    WalkedAtBoundary(root, dest, "", top, {});
    CheckoutAtRoot(root, dest, D("trunk", []));
    CheckoutAtRoot(root, dest, F("README"));
  }

  /** {branches, projectA} is a boundary that keeps projectA. */
  lemma BranchesProjectAListing()
    ensures var l := [D("branches", []), D("projectA", [D("trunk", [])])];
            DirContainsTrunkBranchesOrTagsSubfolder(l) && NonExcluded(l) == [l[1]]
  {
    var l := [D("branches", []), D("projectA", [D("trunk", [])])];
    assert IsBranchesOrTagsFolder(l[0]);
    assert Lower("projectA")[0] != Lower("branches")[0];
    assert l[1..] == [l[1]];
  }

  /** A listing holding branches is a boundary even without trunk: its other entries are
      acted on (here updated, as the destination exists) and nothing is descended into. */
  lemma BranchesAloneMakeABoundary(root: string, dest: string)
    ensures Walked(root, dest, "team", D("team", [D("branches", []), D("projectA", [D("trunk", [])])]), {dest + "/" + "team/projectA"})
         == [ListDir("team"), Update(dest + "/" + "team/projectA", "team")]
  {
    var team := D("team", [D("branches", []), D("projectA", [D("trunk", [])])]);
    var existing := {dest + "/" + "team/projectA"};
    BranchesProjectAListing();
    WalkedAtBoundary(root, dest, "team", team, existing);
    assert ChildPath("team", "projectA") == "team/projectA";
    DestPathBelowRoot(dest, "team", "projectA");
    assert DestPath(dest, "team", "projectA") in existing;
  }

  const Team1 := D("team1", [D("trunk", []), D("branches", []), D("tags", [])])
  const Sub := D("sub", [D("trunk", []), D("tags", [])])
  const Team2 := D("team2", [Sub])

  /** team1 and team2/sub are boundaries that keep only their trunk. */
  lemma TrunkOnlyListings()
    ensures DirContainsTrunkBranchesOrTagsSubfolder(Team1.children) && NonExcluded(Team1.children) == [D("trunk", [])]
    ensures DirContainsTrunkBranchesOrTagsSubfolder(Sub.children) && NonExcluded(Sub.children) == [D("trunk", [])]
  {
    var l := Team1.children;
    assert IsTrunkFolder(l[0]);
    assert IsBranchesOrTagsFolder(l[1]) && IsBranchesOrTagsFolder(l[2]);
    assert l[1..] == [D("branches", []), D("tags", [])] && l[1..][1..] == [D("tags", [])];
    var m := Sub.children;
    assert IsBranchesOrTagsFolder(m[1]);
    assert m[1..] == [D("tags", [])];
  }

  /** team1 is a boundary whose only included entry is its trunk. */
  lemma Team1Walk(root: string, dest: string)
    ensures Walked(root, dest, "team1", Team1, {})
         == [ListDir("team1"), Checkout(root + "/" + "team1/trunk", dest + "/" + "team1/trunk", "team1")]
  {
    assert "team1" + "/" + "trunk" == "team1/trunk";
    TrunkOnlyListings();
    WalkedAtBoundary(root, dest, "team1", Team1, {});
    CheckoutBelowRoot(root, dest, "team1", D("trunk", []));
  }

  /** team2/sub is a boundary whose only included entry is its trunk. */
  lemma SubWalk(root: string, dest: string)
    ensures Walked(root, dest, "team2/sub", Sub, {})
         == [ListDir("team2/sub"), Checkout(root + "/" + "team2/sub/trunk", dest + "/" + "team2/sub/trunk", "team2/sub")]
  {
    assert "team2/sub" + "/" + "trunk" == "team2/sub/trunk";
    TrunkOnlyListings();
    WalkedAtBoundary(root, dest, "team2/sub", Sub, {});
    CheckoutBelowRoot(root, dest, "team2/sub", D("trunk", []));
  }

  /** team2 is no boundary: the walker only descends into sub. */
  lemma Team2Walk(root: string, dest: string)
    ensures Walked(root, dest, "team2", Team2, {}) == [ListDir("team2")] + Walked(root, dest, "team2/sub", Sub, {})
  {
    BoundaryIffTrunkBranchesOrTags(Team2.children);
    assert !DirContainsTrunkBranchesOrTagsSubfolder(Team2.children);
    assert Qualifies(Sub);
    assert ChildPath("team2", "sub") == "team2/sub";
    assert Descended(root, dest, "team2", Team2, 1, {}) == Walked(root, dest, "team2/sub", Sub, {});
  }

  /** The root listing {team1, team2} is no boundary, and both are descended into. */
  lemma TeamsAreNoBoundary()
    ensures !DirContainsTrunkBranchesOrTagsSubfolder([Team1, Team2])
    ensures Qualifies(Team1) && Qualifies(Team2)
  {
    var l := [Team1, Team2];
    BoundaryIffTrunkBranchesOrTags(l);
    assert Lower("team1")[1] != Lower("trunk")[1] && Lower("team2")[1] != Lower("trunk")[1];
    assert forall i | 0 <= i < |l| :: l[i] == Team1 || l[i] == Team2;
  }

  /** The root listing is no boundary: the walker descends into team1, then into team2. */
  lemma TopWalk(root: string, dest: string)
    ensures Walked(root, dest, "", D("", [Team1, Team2]), {})
         == [ListDir("")] + Walked(root, dest, "team1", Team1, {}) + Walked(root, dest, "team2", Team2, {})
  {
    var top := D("", [Team1, Team2]);
    TeamsAreNoBoundary();
    TopDescendsIntoTeam1(root, dest);
    assert ChildPath("", "team2") == "team2";
    DescendedExtend(root, dest, "", top, 1, {}, Walked(root, dest, "team2", Team2, {}));
    AppendAssociates([ListDir("")], Walked(root, dest, "team1", Team1, {}), Walked(root, dest, "team2", Team2, {}));
  }

  /** Descending through the first entry of the root listing walks team1. */
  lemma TopDescendsIntoTeam1(root: string, dest: string)
    ensures Descended(root, dest, "", D("", [Team1, Team2]), 1, {}) == Walked(root, dest, "team1", Team1, {})
  {
    TeamsAreNoBoundary();
    assert ChildPath("", "team1") == "team1";
  }

  /** The scenario of two teams: team1 is a boundary, team2 is descended into and its
      sub-directory is the boundary. Only the two trunks are checked out, each logged
      with the path of its boundary directory; no branches or tags entry is touched. */
  lemma TwoTeamsScenario(root: string, dest: string)
    ensures Walked(root, dest, "", D("", [Team1, Team2]), {})
         == [ListDir(""),
             ListDir("team1"),
             Checkout(root + "/" + "team1/trunk", dest + "/" + "team1/trunk", "team1"),
             ListDir("team2"),
             ListDir("team2/sub"),
             Checkout(root + "/" + "team2/sub/trunk", dest + "/" + "team2/sub/trunk", "team2/sub")]
  {
    TopWalk(root, dest);
    Team1Walk(root, dest);
    Team2Walk(root, dest);
    SubWalk(root, dest);
  }
}
