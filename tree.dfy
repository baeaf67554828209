/**
  The remote repository as the walker sees it. `SVNRepository.getDir(path)` lists
  the children of the directory at `path`; here the tree is given, and listing a
  directory means reading its `children`, in listing order.
 */
module SvnTree {

  /** `SVNNodeKind` of an entry: only files and directories occur in a listing. */
  datatype NodeKind = File | Dir

  /** An `SVNDirEntry`, together with the listing its path would return. */
  datatype DirEntry = DirEntry(name: string, kind: NodeKind, children: seq<DirEntry>)

  /** An entry name as a repository listing hands it out: non-empty, no path separator. */
  predicate ValidName(name: string)
  {
    name != "" && '/' !in name
  }

  /** Every listing below `d` holds valid, pairwise distinct names. */
  predicate WellFormedTree(d: DirEntry)
    decreases d
  {
    && (forall i | 0 <= i < |d.children| :: ValidName(d.children[i].name) && WellFormedTree(d.children[i]))
    && (forall i, j | 0 <= i < j < |d.children| :: d.children[i].name != d.children[j].name)
  }
}
