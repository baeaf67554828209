/**
  The three strings the walker builds by concatenation: the repository path of a
  child directory, the checkout URL of an entry and its local destination. Also
  the reading of a path as '/'-separated segments, used to state where the walk goes.
 */
module Paths {
  import opened SvnTree

  /** The repository path the walker descends into for child `name` of `repoPath`:
      just the name at the repository root, `repoPath/name` below it. */
  function ChildPath(repoPath: string, name: string): string
  {
    if repoPath == "" then name else repoPath + "/" + name
  }

  /** The local destination of entry `name` in the listing of `repoPath`: the root
      path, a separator only when `repoPath` is non-empty, `repoPath`, a separator, `name`. */
  function DestPath(destRoot: string, repoPath: string, name: string): string
  {
    destRoot + (if repoPath != "" then "/" else "") + repoPath + "/" + name
  }

  /** The checkout URL of entry `name` in the listing of `repoPath`. It always places
      `repoPath` between two separators, so at the repository root it holds "//". */
  function CheckoutUrl(root: string, repoPath: string, name: string): string
  {
    root + "/" + repoPath + "/" + name
  }

  /** The child path extends the parent's and, for a non-empty name, is longer; it
      starts with a separator only when the parent or the name does. */
  lemma ChildPathExtends(repoPath: string, name: string)
    ensures repoPath <= ChildPath(repoPath, name)
    ensures name != "" ==> |ChildPath(repoPath, name)| > |repoPath|
    ensures name != "" && name[0] != '/' && (repoPath == "" || repoPath[0] != '/') ==> ChildPath(repoPath, name)[0] != '/'
  {
  }

  /** The destination is the child's repository path placed below the destination root:
      the separator omitted at the root is exactly the one `ChildPath` omits. */
  lemma DestPathBelowRoot(destRoot: string, repoPath: string, name: string)
    ensures DestPath(destRoot, repoPath, name) == destRoot + "/" + ChildPath(repoPath, name)
  {
  }

  /** The URL is the child's repository path below the root URL, except at the repository
      root, where the empty `repoPath` between two separators leaves "//". */
  lemma CheckoutUrlShape(root: string, repoPath: string, name: string)
    ensures repoPath != "" ==> CheckoutUrl(root, repoPath, name) == root + "/" + ChildPath(repoPath, name)
    ensures repoPath == "" ==> CheckoutUrl(root, repoPath, name) == root + "//" + name
  {
  }

  /** The index of the last separator of `s`. */
  function LastSlash(s: string): (i: nat)
    requires '/' in s
    ensures i < |s| && s[i] == '/'
    ensures forall k | i < k < |s| :: s[k] != '/'
  {
    if s[|s| - 1] == '/' then |s| - 1
    else
      assert '/' in s[..|s| - 1] by {
        var k :| 0 <= k < |s| && s[k] == '/';
        assert s[..|s| - 1][k] == '/';
      }
      LastSlash(s[..|s| - 1])
  }

  /** What follows the last separator of `s` (all of `s` when it has none). */
  function LastSegment(s: string): string
  {
    if '/' in s then s[LastSlash(s) + 1..] else s
  }

  /** `s` read as '/'-separated segments; the empty path has none. */
  function Segments(s: string): seq<string>
    decreases |s|
  {
    if '/' !in s then (if s == "" then [] else [s])
    else Segments(s[..LastSlash(s)]) + [LastSegment(s)]
  }

  /** A separator followed by a name without one: the last separator is that one. */
  lemma LastSlashBeforeName(prefix: string, name: string)
    requires '/' !in name
    ensures '/' in prefix + "/" + name
    ensures LastSlash(prefix + "/" + name) == |prefix|
  {
    var s := prefix + "/" + name;
    assert s[|prefix|] == '/';
  }

  /** The path built for a child ends with the child's name. */
  lemma LastSegmentAfterSlash(prefix: string, name: string)
    requires '/' !in name
    ensures LastSegment(prefix + "/" + name) == name
  {
    LastSlashBeforeName(prefix, name);
    assert (prefix + "/" + name)[|prefix| + 1..] == name;
  }

  /** Descending into `name` appends exactly one segment, `name`, to the parent path. */
  lemma ChildPathSegments(repoPath: string, name: string)
    requires ValidName(name)
    ensures Segments(ChildPath(repoPath, name)) == Segments(repoPath) + [name]
  {
    if repoPath != "" {
      var s := repoPath + "/" + name;
      LastSlashBeforeName(repoPath, name);
      assert s[..|repoPath|] == repoPath;
      LastSegmentAfterSlash(repoPath, name);
    }
  }

  /** A destination ends with the name of the entry it was built for. */
  lemma DestPathEndsWithName(destRoot: string, repoPath: string, name: string)
    requires ValidName(name)
    ensures LastSegment(DestPath(destRoot, repoPath, name)) == name
  {
    assert DestPath(destRoot, repoPath, name) == destRoot + (if repoPath != "" then "/" else "") + repoPath + "/" + name;
    LastSegmentAfterSlash(destRoot + (if repoPath != "" then "/" else "") + repoPath, name);
  }

  /** A checkout URL ends with the name of the entry it was built for. */
  lemma CheckoutUrlEndsWithName(root: string, repoPath: string, name: string)
    requires ValidName(name)
    ensures LastSegment(CheckoutUrl(root, repoPath, name)) == name
  {
    LastSegmentAfterSlash(root + "/" + repoPath, name);
  }
}
