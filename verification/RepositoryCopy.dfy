/**
 internal/git/copy.go: copying a repository's file tree, possibly to a place inside that very tree.

 The file system is one mutable map from absolute component paths to nodes. Permission checks, hard
 links and times are not modelled; a fault predicate says at which source entries reading fails.
 */
module RepositoryCopy {
  import opened Paths

  datatype Node = Dir(mode: nat) | File(mode: nat, content: string) | Link(target: string) | Special

  type Tree = map<Path, Node>

  datatype CopyResult = Copied | NestedGit | MetadataSymlink | UnsupportedType | IoError

  ghost predicate WellFormed(t: Tree) {
    forall p {:trigger Front(p)} :: p in t && p != [] ==> Front(p) in t && t[Front(p)].Dir?
  }

  // ---------------------------------------------------------------- which entries are copied

  /** Not below the top-level .homura or .git/worktrees. */
  predicate Included(rel: Path) {
    && !(|rel| >= 1 && rel[0] == ".homura")
    && !(|rel| >= 2 && rel[0] == ".git" && rel[1] == "worktrees")
  }

  /** Entries that make the copy fail. */
  predicate Rejected(node: Node, rel: Path, faulty: bool) {
    || (rel != [] && rel != [".git"] && Last(rel) == ".git")
    || node.Special?
    || (node.Link? && |rel| >= 2 && rel[0] == ".git")
    || faulty
  }

  type Faults = Path -> bool

  /** No entry to be copied from src + rel on is rejected. */
  ghost predicate Acceptable(t: Tree, src: Path, rel: Path, fault: Faults) {
    forall p :: p in t && src + rel <= p && Included(p[|src|..]) ==> !Rejected(t[p], p[|src|..], fault(p))
  }

  lemma IncludedMeans(src: Path, p: Path)
    requires src <= p
    ensures Included(p[|src|..]) <==> !(src + [".homura"] <= p) && !(src + [".git", "worktrees"] <= p)
    ensures Included(p[|src|..]) <==> !([".homura"] <= p[|src|..]) && !([".git", "worktrees"] <= p[|src|..])
  {
    var rel := p[|src|..];
    assert p == src + rel;
    assert |rel| >= 1 ==> p[|src|] == rel[0] && (src + [".homura"] <= p <==> rel[0] == ".homura");
    assert |rel| >= 2 ==> p[|src| + 1] == rel[1];
    assert |rel| >= 2 ==> (src + [".git", "worktrees"] <= p <==> rel[0] == ".git" && rel[1] == "worktrees");
  }

  lemma RejectedMeans(src: Path, p: Path, node: Node, faulty: bool)
    requires src <= p
    ensures Rejected(node, p[|src|..], faulty) <==>
            || (p != src && p != src + [".git"] && Last(p) == ".git")
            || node.Special? || faulty || (node.Link? && src + [".git"] < p)
  {
    var rel := p[|src|..];
    assert p == src + rel;
    assert rel == [".git"] <==> p == src + [".git"];
    assert rel != [] ==> Last(rel) == Last(p);
    assert |rel| >= 1 ==> p[|src|] == rel[0] && (src + [".git"] <= p <==> rel[0] == ".git");
  }

  /**
   What stops a copy of src, in plain terms: among the entries at or below it, other than those in its
   .homura and its .git/worktrees, a .git that is not the repository's own, a node that is no directory, file
   or link, an entry that cannot be read, or a link within .git. Nothing else does.
   */
  lemma {:induction false} AcceptableMeans(t: Tree, src: Path, fault: Faults)
    ensures Acceptable(t, src, [], fault) <==>
            forall p :: p in t && src <= p && !(src + [".homura"] <= p) && !(src + [".git", "worktrees"] <= p) ==>
              && !(p != src && p != src + [".git"] && Last(p) == ".git")
              && !t[p].Special? && !fault(p) && !(t[p].Link? && src + [".git"] < p)
  {
    assert src + [] == src;
    forall p | p in t && src <= p {
      IncludedMeans(src, p);
    }
    forall p | p in t && src <= p {
      RejectedMeans(src, p, t[p], fault(p));
    }
  }

  // ---------------------------------------------------------------- what the copy looks like

  /** At p below dst, the tree holds what the source holds at the same place, if that is included. */
  ghost predicate CopiedAt(t: Tree, t0: Tree, src: Path, dst: Path, p: Path)
    requires dst <= p
  {
    var q := src + p[|dst|..];
    && (p in t <==> q in t0 && Included(p[|dst|..]))
    && (p in t ==> t[p] == t0[q])
  }

  ghost predicate CopiedBelow(t: Tree, t0: Tree, src: Path, dst: Path, d: Path)
    requires dst <= d
  {
    forall p {:trigger CopiedAt(t, t0, src, dst, p)} :: d <= p ==> CopiedAt(t, t0, src, dst, p)
  }

  ghost predicate EmptyBelow(t: Tree, d: Path) {
    forall p :: p in t ==> !(d <= p)
  }

  ghost predicate SameAt(t: Tree, u: Tree, p: Path) {
    (p in t <==> p in u) && (p in t ==> t[p] == u[p])
  }

  ghost predicate SameOutside(t: Tree, u: Tree, d: Path) {
    forall p {:trigger SameAt(t, u, p)} :: !(d <= p) ==> SameAt(t, u, p)
  }

  /** The destination test: filepath.Rel at the level of components. */
  function CommonLength(a: Path, b: Path): (n: nat)
    ensures n <= |a| && n <= |b| && a[..n] == b[..n]
    ensures n < |a| && n < |b| ==> a[n] != b[n]
  {
    if a != [] && b != [] && a[0] == b[0] then
      var n := CommonLength(a[1..], b[1..]);
      assert a[..n + 1] == [a[0]] + a[1..][..n] && b[..n + 1] == [b[0]] + b[1..][..n];
      n + 1
    else
      0
  }

  function Rel(base: Path, target: Path): Path {
    var n := CommonLength(base, target);
    seq(|base| - n, _ => "..") + target[n..]
  }

  /** copy.go:111, the condition under which the destination is accepted. */
  predicate DestinationAccepted(source: Path, destination: Path) {
    var rel := Rel(source, destination);
    !(rel == [] || (rel[0] != ".." && !(rel[0] == ".homura" && |rel| > 1)))
  }

  ghost predicate OutsideOrHomura(source: Path, destination: Path) {
    !(source <= destination) || source + [".homura"] < destination
  }

  /** The test on the relative path admits exactly the places outside the source or below its .homura. */
  lemma DestinationTestExact(source: Path, destination: Path)
    requires CleanPath(destination)
    ensures DestinationAccepted(source, destination) <==>
            !(source <= destination) || source + [".homura"] < destination
  {
    var n := CommonLength(source, destination);
    var rel := Rel(source, destination);
    if n == |source| {
      assert source <= destination;
      assert rel == destination[n..];
      assert rel != [] ==> destination[n] == rel[0] && CleanName(destination[n]);
      assert source + [".homura"] <= destination <==> rel != [] && rel[0] == ".homura";
    } else {
      assert rel[0] == "..";
    }
  }

  // ---------------------------------------------------------------- the file system calls used

  class FileSystem {
    var tree: Tree

    predicate CanCreate(p: Path)
      reads this
    {
      p !in tree && p != [] && Front(p) in tree && tree[Front(p)].Dir?
    }

    /** os.Mkdir, os.Symlink and os.OpenFile with O_EXCL all refuse an existing name. */
    method Create(p: Path, node: Node) returns (ok: bool)
      modifies this
      ensures ok <==> old(CanCreate(p))
      ensures tree == if ok then old(tree)[p := node] else old(tree)
    {
      ok := CanCreate(p);
      if ok {
        tree := tree[p := node];
      }
    }

    method Chmod(p: Path, mode: nat)
      requires p in tree && (tree[p].Dir? || tree[p].File?)
      modifies this
      ensures tree == old(tree)[p := if old(tree[p]).Dir? then Dir(mode) else File(mode, old(tree[p]).content)]
    {
      tree := tree[p := if tree[p].Dir? then Dir(mode) else File(mode, tree[p].content)];
    }

    /** io.Copy: everything, or on a fault some prefix. */
    method Write(p: Path, content: string, fault: bool)
      requires p in tree && tree[p].File?
      modifies this
      ensures exists n | 0 <= n <= |content| :: tree == old(tree)[p := File(old(tree[p]).mode, content[..n])]
      ensures !fault ==> tree == old(tree)[p := File(old(tree[p]).mode, content)]
    {
      var n := |content|;
      if fault {
        n :| 0 <= n <= |content|;
      }
      assert content[..|content|] == content;
      tree := tree[p := File(tree[p].mode, content[..n])];
    }

    method ReadDir(p: Path) returns (names: set<string>)
      ensures forall c :: c in names <==> p + [c] in tree
    {
      names := set q | q in tree && |q| == |p| + 1 && p <= q :: Last(q);
      forall c | c in names
        ensures p + [c] in tree
      {
        var q :| q in tree && |q| == |p| + 1 && p <= q && Last(q) == c;
        assert q == p + [c];
      }
      forall c | p + [c] in tree
        ensures c in names
      {
        assert Last(p + [c]) == c && p <= p + [c];
      }
    }

    /** os.RemoveAll */
    method RemoveAll(d: Path)
      modifies this
      ensures tree == Without(old(tree), d)
    {
      tree := map p | p in tree && !(d <= p) :: tree[p];
    }

    // -------------------------------------------------------------- CopyRepository

    /**
     The whole operation, after the git commands that only inspect the source. All or nothing: on any
     failure the tree is what it was, and on success only the place below the destination differs: it
     holds what the checkout makes of exactly the filtered source.
     */
    method CopyRepository(source: Path, destination: Path, gitAccepts: bool, fault: Faults, checkout: Checkout)
      returns (ok: bool)
      requires WellFormed(tree) && CleanPath(destination)
      modifies this
      ensures ok <==>
              && gitAccepts && checkout(Filtered(old(tree), source)).0
              && source + [".git"] in old(tree) && old(tree)[source + [".git"]].Dir?
              && source + [".git", "objects", "info", "alternates"] !in old(tree)
              && (forall p :: p in old(tree) && source + [".git"] <= p ==>
                    !old(tree)[p].Link? && (old(tree)[p].Dir? ==> !fault(p)))
              && (!(source <= destination) || source + [".homura"] < destination)
              && destination !in old(tree) && destination != []
              && Front(destination) in old(tree) && old(tree)[Front(destination)].Dir?
              && forall p :: p in old(tree) && source <= p
                             && !(source + [".homura"] <= p) && !(source + [".git", "worktrees"] <= p) ==>
                   && !(p != source && p != source + [".git"] && Last(p) == ".git")
                   && !old(tree)[p].Special? && !fault(p) && !(old(tree)[p].Link? && source + [".git"] < p)
      ensures tree == if ok then Graft(old(tree), destination, checkout(Filtered(old(tree), source)).1) else old(tree)
    {
      AcceptableMeans(tree, source, fault);
      if !gitAccepts {
        return false;
      }
      ok := InspectMetadata(source, fault);
      if !ok {
        return;
      }
      DestinationTestExact(source, destination);
      if !DestinationAccepted(source, destination) {
        return false;
      }
      ghost var t0 := tree;
      ok := Transfer(source, destination, fault);
      if !ok {
        return;
      }
      var (checkedOut, after) := checkout(Subtree(tree, destination));
      RegraftRemoved(tree, destination, after);
      tree := Graft(tree, destination, after);
      if !checkedOut {
        RemoveAll(destination);
        return false;
      }
    }

    /** The checks on .git: a directory, all of it readable, no links in it, no alternates. */
    method InspectMetadata(source: Path, fault: Faults) returns (ok: bool)
      ensures ok <==> MetadataPlain(tree, source, fault)
    {
      var gitDir := source + [".git"];
      if !(gitDir in tree && tree[gitDir].Dir?) {
        return false;
      }
      if exists p :: p in tree && gitDir <= p && (tree[p].Link? || (tree[p].Dir? && fault(p))) {
        return false;
      }
      assert gitDir + ["objects", "info", "alternates"] == source + [".git", "objects", "info", "alternates"];
      return gitDir + ["objects", "info", "alternates"] !in tree;
    }

    /** Makes the destination and copies into it; if that fails, removes it again. */
    method Transfer(source: Path, destination: Path, fault: Faults) returns (ok: bool)
      requires WellFormed(tree) && OutsideOrHomura(source, destination) && MetadataPlain(tree, source, fault)
      modifies this
      ensures ok <==> old(CanCreate(destination)) && Acceptable(old(tree), source, [], fault)
      ensures ok ==> Subtree(tree, destination) == Filtered(old(tree), source)
      ensures ok ==> Without(tree, destination) == old(tree)
      ensures !ok ==> tree == old(tree)
    {
      ghost var t0 := tree;
      ok := Create(destination, Dir(0x1C0));
      if !ok {
        return;
      }
      ghost var height := MaxLength(t0);
      TopPre(t0, source, destination, height);
      var r := CopyEntry(source, destination, [], fault, source, destination, t0, height);
      OutsideRestored(tree, t0, destination, Dir(0x1C0));
      if r != Copied {
        RemoveAll(destination);
        return false;
      }
      CopyIsFiltered(tree, t0, source, destination);
    }

    // -------------------------------------------------------------- copyRepositoryEntry

    /**
     The recursive copy of one entry. src, dst and t0 are the two roots and the tree before the copy.
     */
    method CopyEntry(source: Path, destination: Path, relative: Path, fault: Faults,
                     ghost src: Path, ghost dst: Path, ghost t0: Tree, ghost height: nat)
      returns (r: CopyResult)
      requires CopyPre(tree, source, destination, relative, src, dst, t0, height)
      modifies this
      ensures SameOutside(tree, old(tree), destination)
      ensures r == Copied ==> CopiedBelow(tree, t0, src, dst, destination)
      ensures r == Copied <==> Acceptable(t0, src, relative, fault)
      decreases height - |source|, 3
    {
      SourceInTree(tree, t0, src, dst, relative);
      RejectedEntry(t0, src, relative, fault);
      if relative != [".git"] && relative != [] && Last(relative) == ".git" {
        return NestedGit;
      }
      match tree[source] {
        case Dir(mode) =>
          r := CopyDir(source, destination, relative, mode, fault, src, dst, t0, height);
        case File(mode, content) =>
          r := CopyFile(source, destination, relative, mode, content, fault, src, dst, t0, height);
        case Link(target) =>
          LeafOnly(t0, src, relative, fault);
          if |relative| > 1 && relative[0] == ".git" {
            return MetadataSymlink;
          }
          if fault(source) {
            return IoError;
          }
          var ok := Create(destination, Link(target));
          LeafCopied(old(tree), t0, src, dst, relative);
          r := Copied;
        case Special =>
          r := UnsupportedType;
      }
    }

    method CopyFile(source: Path, destination: Path, relative: Path, mode: nat, content: string, fault: Faults,
                    ghost src: Path, ghost dst: Path, ghost t0: Tree, ghost height: nat)
      returns (r: CopyResult)
      requires CopyPre(tree, source, destination, relative, src, dst, t0, height)
      requires t0[source] == File(mode, content) && (relative == [".git"] || relative == [] || Last(relative) != ".git")
      modifies this
      ensures SameOutside(tree, old(tree), destination)
      ensures r == Copied ==> CopiedBelow(tree, t0, src, dst, destination)
      ensures r == Copied <==> Acceptable(t0, src, relative, fault)
    {
      LeafOnly(t0, src, relative, fault);
      var ok := Create(destination, File(0x180, ""));
      Write(destination, content, fault(source));
      if fault(source) {
        return IoError;
      }
      Chmod(destination, mode);
      assert tree == old(tree)[destination := File(mode, content)];
      LeafCopied(old(tree), t0, src, dst, relative);
      r := Copied;
    }

    method CopyDir(source: Path, destination: Path, relative: Path, mode: nat, fault: Faults,
                   ghost src: Path, ghost dst: Path, ghost t0: Tree, ghost height: nat)
      returns (r: CopyResult)
      requires CopyPre(tree, source, destination, relative, src, dst, t0, height)
      requires t0[source] == Dir(mode) && (relative == [".git"] || relative == [] || Last(relative) != ".git")
      modifies this
      ensures SameOutside(tree, old(tree), destination)
      ensures r == Copied ==> CopiedBelow(tree, t0, src, dst, destination)
      ensures r == Copied <==> Acceptable(t0, src, relative, fault)
      decreases height - |source|, 2
    {
      RejectedEntry(t0, src, relative, fault);
      if relative != [] {
        var ok := Create(destination, Dir(0x1C0));
        OutsideUpdate(old(tree), t0, dst, destination, Dir(0x1C0));
      }
      if fault(source) {
        return IoError;
      }
      var names := ReadDir(source);
      ghost var all := names;
      NamesMatch(tree, t0, src, dst, relative, all);
      r := CopyChildren(source, destination, relative, names, fault, src, dst, t0, old(tree), height);
      if r != Copied {
        return;
      }
      AcceptDir(t0, src, relative, all, fault);
      DirDone(tree, t0, src, dst, relative, mode, all);
      ghost var before := tree;
      Chmod(destination, mode);
      OutsideTrans(tree, before, old(tree), destination);
    }

    /** The loop over a directory's entries. */
    method CopyChildren(source: Path, destination: Path, relative: Path, all: set<string>, fault: Faults,
                        ghost src: Path, ghost dst: Path, ghost t0: Tree, ghost start: Tree, ghost height: nat)
      returns (r: CopyResult)
      requires CopyPre(start, source, destination, relative, src, dst, t0, height)
      requires SameOutside(tree, start, destination) && NamesOk(all, t0, src, relative)
      requires DirProgress(tree, t0, src, dst, relative, {})
      modifies this
      ensures SameOutside(tree, start, destination)
      ensures r == Copied ==> DirProgress(tree, t0, src, dst, relative, all)
      ensures r == Copied ==> AllAccepted(t0, src, relative, all, fault)
      ensures r != Copied ==> !Acceptable(t0, src, relative, fault)
      decreases height - |source|, 1
    {
      var names := all;
      ghost var done: set<string> := {};
      while names != {}
        invariant names <= all && done == all - names
        invariant SameOutside(tree, start, destination)
        invariant DirProgress(tree, t0, src, dst, relative, done) && AllAccepted(t0, src, relative, done, fault)
        decreases names
      {
        var name :| name in names;
        names := names - {name};
        assert done + {name} - {name} == done;
        r := CopyChild(source, destination, relative, name, fault, src, dst, t0, start, height, all, done + {name});
        if r != Copied {
          return;
        }
        done := done + {name};
      }
      assert done == all;
      r := Copied;
    }

    /** One round of the loop. */
    method CopyChild(source: Path, destination: Path, relative: Path, name: string, fault: Faults,
                     ghost src: Path, ghost dst: Path, ghost t0: Tree, ghost start: Tree, ghost height: nat,
                     ghost all: set<string>, ghost done: set<string>)
      returns (r: CopyResult)
      requires CopyPre(start, source, destination, relative, src, dst, t0, height)
      requires SameOutside(tree, start, destination) && NamesOk(all, t0, src, relative) && name in all && name in done
      requires DirProgress(tree, t0, src, dst, relative, done - {name})
      requires AllAccepted(t0, src, relative, done - {name}, fault)
      modifies this
      ensures SameOutside(tree, start, destination)
      ensures r == Copied ==> DirProgress(tree, t0, src, dst, relative, done)
      ensures r == Copied ==> AllAccepted(t0, src, relative, done, fault)
      ensures r != Copied ==> !Acceptable(t0, src, relative, fault)
      decreases height - |source|, 0
    {
      var rel := relative + [name];
      if rel == [".homura"] || rel == [".git", "worktrees"] {
        SkippedChild(tree, t0, src, dst, relative, done, name);
        return Copied;
      }
      ChildIncluded(relative, name);
      ChildPre(tree, start, t0, source, destination, relative, src, dst, height, all, done, name);
      ghost var before := tree;
      r := CopyEntry(source + [name], destination + [name], rel, fault, src, dst, t0, height);
      OutsideChild(tree, before, start, destination, name);
      if r != Copied {
        AcceptChild(t0, src, relative, name, fault);
        return;
      }
      assert destination + [name] == dst + rel;
      ChildDone(tree, before, t0, src, dst, relative, done, name);
    }
  }

  // ---------------------------------------------------------------- the whole operation

  function KeysBelow(t: Tree, d: Path): (keys: set<Path>)
    ensures forall r :: r in keys <==> d + r in t
  {
    var keys := set p | p in t && d <= p :: p[|d|..];
    assert forall r :: r in keys <==> d + r in t by {
      forall r
        ensures r in keys <==> d + r in t
      {
        assert (d + r)[|d|..] == r;
        if r in keys {
          var p :| p in t && d <= p && p[|d|..] == r;
          assert p == d + r;
        }
      }
    }
    keys
  }

  /** What lies below d, by relative path. */
  function Subtree(t: Tree, d: Path): Tree {
    map r | r in KeysBelow(t, d) :: t[d + r]
  }

  /** The part of the tree below src that is copied. */
  ghost function Filtered(t: Tree, src: Path): Tree {
    map r | r in Subtree(t, src) && Included(r) :: t[src + r]
  }

  /** t with everything below d replaced by sub. */
  function Graft(t: Tree, d: Path, sub: Tree): Tree {
    Without(t, d) + map p | p in GraftKeys(d, sub) :: sub[p[|d|..]]
  }

  function GraftKeys(d: Path, sub: Tree): (keys: set<Path>)
    ensures forall p :: p in keys <==> d <= p && p[|d|..] in sub
  {
    var keys := set r | r in sub :: d + r;
    assert forall p :: p in keys <==> d <= p && p[|d|..] in sub by {
      forall p
        ensures p in keys <==> d <= p && p[|d|..] in sub
      {
        if p in keys {
          var r :| r in sub && p == d + r;
          assert p[|d|..] == r;
        }
        if d <= p && p[|d|..] in sub {
          assert p == d + p[|d|..];
        }
      }
    }
    keys
  }

  /** `git checkout` in the copy: whether it succeeds, and what it makes of the copied tree. */
  type Checkout = Tree -> (bool, Tree)

  /** The walk over all of .git, worktrees included, finds only readable directories and no links. */
  ghost predicate MetadataPlain(t: Tree, src: Path, fault: Faults) {
    && src + [".git"] in t && t[src + [".git"]].Dir?
    && (forall p :: p in t && src + [".git"] <= p ==> !t[p].Link? && (t[p].Dir? ==> !fault(p)))
    && src + [".git", "objects", "info", "alternates"] !in t
  }

  /** The filtered source, entry by entry. */
  lemma {:induction false} FilteredAt(t: Tree, src: Path, r: Path)
    ensures r in Filtered(t, src) <==> src + r in t && !([".homura"] <= r) && !([".git", "worktrees"] <= r)
    ensures r in Filtered(t, src) ==> Filtered(t, src)[r] == t[src + r]
  {
    assert (src + r)[|src|..] == r;
    IncludedMeans(src, src + r);
  }

  /** A grafted tree, place by place. */
  lemma {:induction false} GraftAt(t: Tree, d: Path, sub: Tree, p: Path)
    ensures !(d <= p) ==> (p in Graft(t, d, sub) <==> p in t) && (p in t ==> Graft(t, d, sub)[p] == t[p])
    ensures d <= p ==> (p in Graft(t, d, sub) <==> p[|d|..] in sub)
    ensures d <= p && p[|d|..] in sub ==> Graft(t, d, sub)[p] == sub[p[|d|..]]
  {
  }

  function Without(t: Tree, d: Path): Tree {
    map p | p in t && !(d <= p) :: t[p]
  }

  /** Everything the recursion relies on: the source part is as at the start, the target is empty. */
  ghost predicate CopyPre(t: Tree, source: Path, destination: Path, relative: Path,
                          src: Path, dst: Path, t0: Tree, height: nat)
  {
    && source == src + relative && destination == dst + relative
    && OutsideOrHomura(src, dst) && !(dst <= src) && Included(relative)
    && WellFormed(t0) && (forall p :: p in t0 ==> |p| <= height)
    && SameOutside(t, t0, dst)
    && source in t0
    && TargetReady(t, destination, relative, t0[source])
  }

  /** The target is a fresh empty directory at the top, and still missing further down. */
  ghost predicate TargetReady(t: Tree, destination: Path, relative: Path, node: Node) {
    if relative == [] then
      && node.Dir? && destination in t && t[destination].Dir?
      && forall p :: p in t && destination <= p ==> p == destination
    else
      destination != [] && Front(destination) in t && t[Front(destination)].Dir? && EmptyBelow(t, destination)
  }

  /** The included part of the source is disjoint from the destination. */
  lemma SourceOutside(src: Path, dst: Path, rel: Path)
    requires OutsideOrHomura(src, dst) && !(dst <= src) && Included(rel)
    ensures !(dst <= src + rel)
  {
    assert dst <= src + rel && |dst| <= |src| ==> dst <= src;
    assert dst <= src + rel && |dst| > |src| ==> src <= dst;
    assert |rel| > 0 ==> (src + rel)[|src|] == rel[0];
  }

  lemma SourceInTree(t: Tree, t0: Tree, src: Path, dst: Path, rel: Path)
    requires OutsideOrHomura(src, dst) && !(dst <= src) && Included(rel) && SameOutside(t, t0, dst)
    ensures SameAt(t, t0, src + rel)
  {
    SourceOutside(src, dst, rel);
  }

  // ---------------------------------------------------------------- before and after the recursion

  ghost function MaxLength(t: Tree): (n: nat)
    ensures forall p :: p in t ==> |p| <= n
    decreases |t|
  {
    if t == map[] then 0
    else
      var p :| p in t;
      var n := MaxLength(t - {p});
      assert forall q :: q in t ==> q == p || q in t - {p};
      if |p| > n then |p| else n
  }

  /** Nothing is below a path that does not exist. */
  lemma MissingIsEmpty(t: Tree, d: Path)
    requires WellFormed(t) && d !in t
    ensures EmptyBelow(t, d) && Without(t, d) == t
  {
    forall p | p in t
      ensures !(d <= p)
    {
      if d <= p && p != d {
        AncestorIsDir(t, p, d);
      }
    }
  }

  lemma TopPre(t0: Tree, src: Path, dst: Path, height: nat)
    requires WellFormed(t0) && src + [".git"] in t0 && OutsideOrHomura(src, dst) && dst !in t0
    requires forall p :: p in t0 ==> |p| <= height
    ensures CopyPre(t0[dst := Dir(0x1C0)], src, dst, [], src, dst, t0, height)
  {
    MissingIsEmpty(t0, dst);
    assert Front(src + [".git"]) == src;
    assert src + [] == src && dst + [] == dst;
    OutsideUpdate(t0, t0, dst, dst, Dir(0x1C0));
  }

  lemma OutsideRestored(t: Tree, t0: Tree, dst: Path, node: Node)
    requires WellFormed(t0) && dst !in t0 && SameOutside(t, t0[dst := node], dst)
    ensures Without(t, dst) == t0
  {
    MissingIsEmpty(t0, dst);
    var w := Without(t, dst);
    forall p
      ensures (p in w <==> p in t0) && (p in w ==> w[p] == t0[p])
    {
      assert dst <= p || SameAt(t, t0[dst := node], p);
    }
  }

  lemma CopyIsFiltered(t: Tree, t0: Tree, src: Path, dst: Path)
    requires CopiedBelow(t, t0, src, dst, dst)
    ensures Subtree(t, dst) == Filtered(t0, src)
  {
    forall r
      ensures r in Subtree(t, dst) <==> r in Filtered(t0, src)
      ensures r in Subtree(t, dst) ==> Subtree(t, dst)[r] == Filtered(t0, src)[r]
    {
      assert (dst + r)[|dst|..] == r;
      assert CopiedAt(t, t0, src, dst, dst + r);
    }
  }

  lemma RegraftRemoved(t: Tree, d: Path, sub: Tree)
    ensures Without(Graft(t, d, sub), d) == Without(t, d)
    ensures Graft(t, d, sub) == Graft(Without(t, d), d, sub)
  {
    assert Without(Without(t, d), d) == Without(t, d);
  }

  /**
   Read point by point: a completed copy holds at each place below dst just what the source held there if
   it is included, everything outside dst stays, and so does every included entry of the source itself,
   wherever below .homura dst may be.
   */
  lemma {:induction false} CopyPointwise(t: Tree, src: Path, dst: Path, p: Path)
    requires WellFormed(t) && src in t && dst !in t
    requires !(src <= dst) || src + [".homura"] < dst
    ensures var u := Graft(t, dst, Filtered(t, src));
      && (dst <= p ==>
            var q := src + p[|dst|..];
            && (p in u <==> q in t && !(src + [".homura"] <= q) && !(src + [".git", "worktrees"] <= q))
            && (p in u ==> u[p] == t[q]))
      && (!(dst <= p) || (src <= p && !(src + [".homura"] <= p) && !(src + [".git", "worktrees"] <= p)) ==>
            (p in u <==> p in t) && (p in t ==> u[p] == t[p]))
  {
    if dst <= p {
      assert (src + p[|dst|..])[|src|..] == p[|dst|..];
      IncludedMeans(src, src + p[|dst|..]);
    }
    if src <= p && !(src + [".homura"] <= p) && !(src + [".git", "worktrees"] <= p) {
      assert p == src + p[|src|..];
      IncludedMeans(src, p);
      if dst <= src {
        AncestorIsDir(t, src, dst);
      }
      SourceOutside(src, dst, p[|src|..]);
    }
  }

  // ---------------------------------------------------------------- acceptance

  lemma RejectedEntry(t0: Tree, src: Path, rel: Path, fault: Faults)
    requires src + rel in t0 && Included(rel)
    ensures Acceptable(t0, src, rel, fault) ==> !Rejected(t0[src + rel], rel, fault(src + rel))
  {
    assert (src + rel)[|src|..] == rel;
  }

  /** In a well-formed tree every ancestor of an entry is a directory. */
  lemma {:induction false} AncestorIsDir(t: Tree, p: Path, q: Path)
    requires WellFormed(t) && p in t && q <= p && q != p
    ensures q in t && t[q].Dir?
    decreases |p|
  {
    assert p[..|p|] == p && p[..|q|] == q;
    assert Front(p) in t && t[Front(p)].Dir?;
    if q != Front(p) {
      assert q <= Front(p);
      AncestorIsDir(t, Front(p), q);
    }
  }

  lemma LeafOnly(t0: Tree, src: Path, rel: Path, fault: Faults)
    requires WellFormed(t0) && src + rel in t0 && !t0[src + rel].Dir? && Included(rel)
    ensures forall p :: p in t0 && src + rel <= p ==> p == src + rel
    ensures Acceptable(t0, src, rel, fault) <==> !Rejected(t0[src + rel], rel, fault(src + rel))
  {
    assert (src + rel)[|src|..] == rel;
    forall p | p in t0 && src + rel <= p
      ensures p == src + rel
    {
      if p != src + rel {
        AncestorIsDir(t0, p, src + rel);
      }
    }
  }

  /** A rejected child rejects its directory. */
  lemma AcceptChild(t0: Tree, src: Path, rel: Path, name: string, fault: Faults)
    ensures Acceptable(t0, src, rel, fault) ==> Acceptable(t0, src, rel + [name], fault)
  {
    forall p | p in t0 && src + (rel + [name]) <= p
      ensures src + rel <= p
    {
    }
  }

  lemma ChildIncluded(rel: Path, name: string)
    requires Included(rel) && rel + [name] != [".homura"] && rel + [name] != [".git", "worktrees"]
    ensures Included(rel + [name])
  {
    var child := rel + [name];
    assert |child| == 2 ==> child == [child[0], child[1]];
    assert |child| == 1 ==> child == [child[0]];
  }

  /** The names read from a directory are those of its source entries, as far as they are included. */
  ghost predicate NamesOk(all: set<string>, t0: Tree, src: Path, rel: Path) {
    forall c {:trigger rel + [c]} :: Included(rel + [c]) ==> (c in all <==> src + (rel + [c]) in t0)
  }

  ghost predicate AllAccepted(t0: Tree, src: Path, rel: Path, names: set<string>, fault: Faults) {
    forall c {:trigger rel + [c]} :: c in names && Included(rel + [c]) ==> Acceptable(t0, src, rel + [c], fault)
  }

  lemma AcceptDir(t0: Tree, src: Path, rel: Path, all: set<string>, fault: Faults)
    requires WellFormed(t0) && src + rel in t0 && Included(rel) && NamesOk(all, t0, src, rel)
    requires !Rejected(t0[src + rel], rel, fault(src + rel))
    requires AllAccepted(t0, src, rel, all, fault)
    ensures Acceptable(t0, src, rel, fault)
  {
    forall p | p in t0 && src + rel <= p && Included(p[|src|..])
      ensures !Rejected(t0[p], p[|src|..], fault(p))
    {
      if p == src + rel {
        assert p[|src|..] == rel;
      } else {
        var c := ChildToward(t0, src, rel, p);
        assert Acceptable(t0, src, rel + [c], fault);
      }
    }
  }

  /** The child of rel on the way to p. */
  lemma ChildToward(t: Tree, src: Path, rel: Path, p: Path) returns (c: string)
    requires src + rel <= p && p != src + rel
    ensures src + (rel + [c]) <= p && rel + [c] <= p[|src|..]
    ensures Included(p[|src|..]) ==> Included(rel + [c])
    ensures WellFormed(t) && p in t ==> src + (rel + [c]) in t
  {
    assert p[..|src + rel|] == src + rel && p[..|p|] == p;
    c := p[|src + rel|];
    var child := src + (rel + [c]);
    assert child == p[..|child|];
    assert p[|src|..][..|rel + [c]|] == rel + [c];
    if WellFormed(t) && p in t && child != p {
      AncestorIsDir(t, p, child);
    }
  }

  // ---------------------------------------------------------------- one leaf

  lemma LeafCopied(t: Tree, t0: Tree, src: Path, dst: Path, rel: Path)
    requires EmptyBelow(t, dst + rel) && src + rel in t0 && Included(rel)
    requires forall p :: p in t0 && src + rel <= p ==> p == src + rel
    ensures var u := t[dst + rel := t0[src + rel]];
            CopiedBelow(u, t0, src, dst, dst + rel) && SameOutside(u, t, dst + rel)
  {
    var u := t[dst + rel := t0[src + rel]];
    forall p | dst + rel <= p
      ensures CopiedAt(u, t0, src, dst, p)
    {
      SourceOf(src, dst, rel, p);
    }
  }

  lemma SourceOf(src: Path, dst: Path, rel: Path, p: Path)
    requires dst + rel <= p
    ensures dst <= p && rel <= p[|dst|..] && src + rel <= src + p[|dst|..]
    ensures src + p[|dst|..] == src + rel <==> p == dst + rel
    ensures p == dst + rel ==> p[|dst|..] == rel
  {
    assert p[..|dst + rel|] == dst + rel;
    assert p[|dst|..][..|rel|] == rel;
    if src + p[|dst|..] == src + rel {
      assert p[|dst|..] == (src + p[|dst|..])[|src|..] == (src + rel)[|src|..] == rel;
      assert p == p[..|dst|] + p[|dst|..] == dst + rel;
    }
    if p == dst + rel {
      assert p[|dst|..] == rel;
    }
  }

  // ---------------------------------------------------------------- one directory

  ghost predicate ChildState(t: Tree, t0: Tree, src: Path, dst: Path, rel: Path, done: set<string>, c: string) {
    if c in done then CopiedBelow(t, t0, src, dst, dst + (rel + [c])) else EmptyBelow(t, dst + (rel + [c]))
  }

  ghost predicate DirProgress(t: Tree, t0: Tree, src: Path, dst: Path, rel: Path, done: set<string>) {
    && dst + rel in t && t[dst + rel].Dir?
    && forall c {:trigger ChildState(t, t0, src, dst, rel, done, c)} :: ChildState(t, t0, src, dst, rel, done, c)
  }

  lemma NamesMatch(t: Tree, t0: Tree, src: Path, dst: Path, rel: Path, all: set<string>)
    requires OutsideOrHomura(src, dst) && !(dst <= src) && SameOutside(t, t0, dst)
    requires dst + rel in t && t[dst + rel].Dir? && forall p :: p in t && dst + rel <= p ==> p == dst + rel
    requires forall c :: c in all <==> src + rel + [c] in t
    ensures NamesOk(all, t0, src, rel)
    ensures DirProgress(t, t0, src, dst, rel, {})
  {
    forall c | Included(rel + [c])
      ensures c in all <==> src + (rel + [c]) in t0
    {
      assert src + (rel + [c]) == src + rel + [c];
      SourceOutside(src, dst, rel + [c]);
      assert SameAt(t, t0, src + rel + [c]);
    }
    forall c
      ensures ChildState(t, t0, src, dst, rel, {}, c)
    {
      forall p | p in t
        ensures !(dst + (rel + [c]) <= p)
      {
        assert dst + (rel + [c]) <= p ==> dst + rel <= p && p != dst + rel;
      }
    }
  }

  lemma SkippedChild(t: Tree, t0: Tree, src: Path, dst: Path, rel: Path, done: set<string>, name: string)
    requires DirProgress(t, t0, src, dst, rel, done - {name}) && !Included(rel + [name])
    ensures DirProgress(t, t0, src, dst, rel, done)
  {
    assert ChildState(t, t0, src, dst, rel, done - {name}, name);
    var child := rel + [name];
    forall p | dst + child <= p
      ensures CopiedAt(t, t0, src, dst, p)
    {
      SourceOf(src, dst, child, p);
    }
    forall c
      ensures ChildState(t, t0, src, dst, rel, done, c)
    {
      assert ChildState(t, t0, src, dst, rel, done - {name}, c);
    }
  }

  lemma ChildDone(t: Tree, before: Tree, t0: Tree, src: Path, dst: Path, rel: Path, done: set<string>, name: string)
    requires DirProgress(before, t0, src, dst, rel, done - {name}) && name in done
    requires SameOutside(t, before, dst + (rel + [name])) && CopiedBelow(t, t0, src, dst, dst + (rel + [name]))
    ensures DirProgress(t, t0, src, dst, rel, done)
  {
    assert SameAt(t, before, dst + rel);
    forall c
      ensures ChildState(t, t0, src, dst, rel, done, c)
    {
      if c != name {
        assert ChildState(before, t0, src, dst, rel, done - {name}, c);
        SiblingSame(t, before, dst, rel, name, c);
        if c in done {
          forall p | dst + (rel + [c]) <= p
            ensures CopiedAt(t, t0, src, dst, p)
          {
            assert CopiedAt(before, t0, src, dst, p) && SameAt(t, before, p);
          }
        }
      }
    }
  }

  lemma SiblingSame(t: Tree, before: Tree, dst: Path, rel: Path, name: string, c: string)
    requires SameOutside(t, before, dst + (rel + [name])) && c != name
    ensures forall p {:trigger SameAt(t, before, p)} :: dst + (rel + [c]) <= p ==> SameAt(t, before, p)
    ensures EmptyBelow(before, dst + (rel + [c])) ==> EmptyBelow(t, dst + (rel + [c]))
  {
    forall p | dst + (rel + [c]) <= p
      ensures SameAt(t, before, p)
    {
      assert p[|dst + rel|] == c;
    }
    forall p | p in t && EmptyBelow(before, dst + (rel + [c]))
      ensures !(dst + (rel + [c]) <= p)
    {
      assert dst + (rel + [c]) <= p ==> SameAt(t, before, p);
    }
  }

  lemma OutsideUpdate(t: Tree, t0: Tree, dst: Path, p: Path, node: Node)
    requires SameOutside(t, t0, dst) && dst <= p
    ensures SameOutside(t[p := node], t0, dst)
  {
    var u := t[p := node];
    forall q | !(dst <= q)
      ensures SameAt(u, t0, q)
    {
      assert SameAt(t, t0, q);
    }
  }

  lemma OutsideTrans(t: Tree, before: Tree, start: Tree, d: Path)
    requires SameOutside(t, before, d) && SameOutside(before, start, d)
    ensures SameOutside(t, start, d)
  {
    forall p | !(d <= p)
      ensures SameAt(t, start, p)
    {
      assert SameAt(t, before, p) && SameAt(before, start, p);
    }
  }

  lemma OutsideChild(t: Tree, before: Tree, start: Tree, d: Path, name: string)
    requires SameOutside(t, before, d + [name]) && SameOutside(before, start, d)
    ensures SameOutside(t, start, d)
  {
    forall p | !(d <= p)
      ensures SameAt(t, start, p)
    {
      assert SameAt(t, before, p) && SameAt(before, start, p);
    }
  }

  lemma DirDone(t: Tree, t0: Tree, src: Path, dst: Path, rel: Path, mode: nat, all: set<string>)
    requires WellFormed(t0) && src + rel in t0 && t0[src + rel] == Dir(mode) && Included(rel)
    requires NamesOk(all, t0, src, rel) && DirProgress(t, t0, src, dst, rel, all)
    ensures var u := t[dst + rel := Dir(mode)];
            CopiedBelow(u, t0, src, dst, dst + rel) && SameOutside(u, t, dst + rel)
  {
    var u := t[dst + rel := Dir(mode)];
    forall p | dst + rel <= p
      ensures CopiedAt(u, t0, src, dst, p)
    {
      SourceOf(src, dst, rel, p);
      if p != dst + rel {
        var c := ChildToward(t, dst, rel, p);
        assert ChildState(t, t0, src, dst, rel, all, c);
        if c in all {
          assert CopiedAt(t, t0, src, dst, p);
        } else {
          NoSource(t0, src, dst, rel, all, c, p);
        }
      }
    }
  }

  /** A name that is not among the source's included names has nothing to copy below it. */
  lemma NoSource(t0: Tree, src: Path, dst: Path, rel: Path, all: set<string>, c: string, p: Path)
    requires WellFormed(t0) && NamesOk(all, t0, src, rel) && c !in all && dst + (rel + [c]) <= p
    ensures !(src + p[|dst|..] in t0 && Included(p[|dst|..]))
  {
    SourceOf(src, dst, rel + [c], p);
    var q := src + p[|dst|..];
    if q in t0 && Included(p[|dst|..]) {
      assert Included(rel + [c]);
      if q != src + (rel + [c]) {
        AncestorIsDir(t0, q, src + (rel + [c]));
      }
      assert false;
    }
  }

  lemma ChildPre(t: Tree, start: Tree, t0: Tree, source: Path, destination: Path, rel: Path, src: Path, dst: Path,
                 height: nat, all: set<string>, done: set<string>, name: string)
    requires CopyPre(start, source, destination, rel, src, dst, t0, height)
    requires SameOutside(t, start, destination) && NamesOk(all, t0, src, rel)
    requires DirProgress(t, t0, src, dst, rel, done - {name}) && name in all && Included(rel + [name])
    ensures CopyPre(t, source + [name], destination + [name], rel + [name], src, dst, t0, height)
    ensures |source + [name]| <= height
  {
    assert source + [name] == src + (rel + [name]);
    assert destination + [name] == dst + (rel + [name]);
    assert Front(destination + [name]) == destination;
    assert ChildState(t, t0, src, dst, rel, done - {name}, name);
    forall p | !(dst <= p)
      ensures SameAt(t, t0, p)
    {
      assert SameAt(t, start, p) && SameAt(start, t0, p);
    }
  }
}
