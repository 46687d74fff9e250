/**
 9passthrough/pathregistry.go: the mutable trie of heap nodes and the two string-keyed maps.
 The ghost map `nodes` names every trie node by its component path; `modes` is the plain
 meaning, exposed path -> read-only flag, that all of it must agree with.

 What the trie says is four values: which paths have nodes, which nodes are marked exposed, which have
 their descendants flag set, and `modes`. The invariants are predicates on these; each assignment in the
 code changes one of them.
 */
module PathRegistry {
  import opened Paths
  import opened Visibility

  datatype Outcome = Ok | NotAbsolute | DoesNotExist

  class PathNode {
    var children: map<string, PathNode>
    var isExposed: bool
    var hasExposedDescendants: bool
    ghost const key: Path

    constructor (ghost key: Path)
      ensures this.key == key && children == map[] && !isExposed && !hasExposedDescendants
    {
      this.key := key;
      children, isExposed, hasExposedDescendants := map[], false, false;
    }
  }

  /** The children of every node. */
  type Kids = map<Path, map<string, PathNode>>

  /** p is the printed form of an exposed path. */
  ghost predicate Prints(modes: Modes, p: string) {
    SplitPath(p) in modes && Abs(SplitPath(p)) == p
  }

  ghost predicate Keyed(exposed: map<string, bool>, readOnly: map<string, bool>, k: Path, ro: bool) {
    CleanPath(k) && Abs(k) in exposed && Abs(k) in readOnly && readOnly[Abs(k)] == ro
  }

  /** The string-keyed maps say the same as `modes`. */
  ghost predicate Agree(exposed: map<string, bool>, readOnly: map<string, bool>, modes: Modes) {
    && (forall p {:trigger Prints(modes, p)} {:trigger exposed[p]} :: p in exposed ==> exposed[p] && Prints(modes, p))
    && (forall k {:trigger Keyed(exposed, readOnly, k, modes[k])} {:trigger Abs(k)} ::
          k in modes ==> Keyed(exposed, readOnly, k, modes[k]))
    && readOnly.Keys == exposed.Keys
  }

  lemma AgreeAdd(exposed: map<string, bool>, readOnly: map<string, bool>, modes: Modes, k: Path, ro: bool)
    requires Agree(exposed, readOnly, modes) && CleanPath(k)
    ensures Agree(exposed[Abs(k) := true], readOnly[Abs(k) := ro], modes[k := ro])
  {
    var c := Abs(k);
    var exposed', readOnly', modes' := exposed[c := true], readOnly[c := ro], modes[k := ro];
    forall p | p in exposed'
      ensures exposed'[p] && Prints(modes', p)
    {
      SplitPathAbs(k);
      assert p == c || Prints(modes, p);
    }
    forall q | q in modes'
      ensures Keyed(exposed', readOnly', q, modes'[q])
    {
      if q != k {
        assert Keyed(exposed, readOnly, q, modes[q]);
        if Abs(q) == c {
          AbsInjective(q, k);
        }
      }
    }
  }

  lemma AgreeRemove(exposed: map<string, bool>, readOnly: map<string, bool>, modes: Modes, k: Path)
    requires Agree(exposed, readOnly, modes) && CleanPath(k)
    ensures Agree(exposed - {Abs(k)}, readOnly - {Abs(k)}, modes - {k})
  {
    var c := Abs(k);
    var exposed', readOnly', modes' := exposed - {c}, readOnly - {c}, modes - {k};
    forall p | p in exposed'
      ensures exposed'[p] && Prints(modes', p)
    {
      assert Prints(modes, p);
    }
    forall q | q in modes'
      ensures Keyed(exposed', readOnly', q, modes'[q])
    {
      assert Keyed(exposed, readOnly, q, modes[q]);
      if Abs(q) == c {
        AbsInjective(q, k);
      }
    }
  }

  /** The node at k hangs off the node of its parent path. */
  ghost predicate Linked(nodes: map<Path, PathNode>, kids: Kids, k: Path)
    requires k in nodes
  {
    k != [] ==> Front(k) in kids && Last(k) in kids[Front(k)] && kids[Front(k)][Last(k)] == nodes[k]
  }

  /** Nodes by path and children by path describe one trie. */
  ghost predicate TrieShape(nodes: map<Path, PathNode>, kids: Kids) {
    && nodes.Keys == kids.Keys
    && (forall k {:trigger Linked(nodes, kids, k)} :: k in nodes ==> Linked(nodes, kids, k))
    && (forall k, c {:trigger c in kids[k]} :: k in kids && c in kids[k] ==>
          k + [c] in nodes && kids[k][c] == nodes[k + [c]])
  }

  lemma TrieGrows(nodes: map<Path, PathNode>, kids: Kids, parent: Path, c: string, node: PathNode)
    requires TrieShape(nodes, kids) && parent in nodes && parent + [c] !in nodes
    ensures TrieShape(nodes[parent + [c] := node], kids[parent := kids[parent][c := node]][parent + [c] := map[]])
  {
    var key := parent + [c];
    assert Front(key) == parent && Last(key) == c;
    var nodes', kids' := nodes[key := node], kids[parent := kids[parent][c := node]][key := map[]];
    forall k | k in nodes'
      ensures Linked(nodes', kids', k)
    {
      if k != key {
        assert Linked(nodes, kids, k);
        assert k != [] ==> k == Front(k) + [Last(k)];
      }
    }
  }

  ghost function ShrunkKids(kids: Kids, up: Path, c: string): Kids
    requires up in kids
  {
    kids[up := kids[up] - {c}] - {up + [c]}
  }

  lemma TrieShrinks(nodes: map<Path, PathNode>, kids: Kids, up: Path, c: string)
    requires TrieShape(nodes, kids) && up in nodes && up + [c] in nodes
    requires forall k :: k in nodes && k != [] ==> Front(k) != up + [c]
    ensures TrieShape(nodes - {up + [c]}, ShrunkKids(kids, up, c))
  {
    var nodes', kids' := nodes - {up + [c]}, ShrunkKids(kids, up, c);
    forall k | k in nodes'
      ensures Linked(nodes', kids', k)
    {
      StillLinked(nodes, kids, up, c, k);
    }
    forall k, d | k in kids' && d in kids'[k]
      ensures k + [d] in nodes' && kids'[k][d] == nodes'[k + [d]]
    {
      assert d in kids[k];
      SamePath(k + [d], up + [c]);
    }
  }

  lemma StillLinked(nodes: map<Path, PathNode>, kids: Kids, up: Path, c: string, k: Path)
    requires TrieShape(nodes, kids) && up in nodes && k in nodes && k != up + [c]
    requires k != [] ==> Front(k) != up + [c]
    ensures Linked(nodes - {up + [c]}, ShrunkKids(kids, up, c), k)
  {
    assert Linked(nodes, kids, k);
    SamePath(k, up + [c]);
  }

  /** A path is its parent and its last name. */
  lemma SamePath(k: Path, other: Path)
    requires other != []
    ensures k != [] && Front(k) == Front(other) && Last(k) == Last(other) ==> k == other
    ensures forall p, c :: k == p + [c] ==> Front(k) == p && Last(k) == c
  {
    assert k != [] ==> k == Front(k) + [Last(k)];
    assert other == Front(other) + [Last(other)];
  }

  // ---------------------------------------------------------------- what the trie has to look like

  /** The nodes are "/", which the trie always has, and the prefixes of exposed paths. */
  ghost predicate Canonical(nodes: set<Path>, m: Modes) {
    && (forall k {:trigger AboveExposed(m, k)} :: k in nodes && k != [] ==> AboveExposed(m, k))
    && (forall e :: e in m ==> e in nodes)
  }

  /** Only nodes are flagged, never "/"; and whatever has one of the paths strictly below it is flagged. */
  ghost predicate FlagsOk(nodes: set<Path>, flagged: set<Path>, paths: set<Path>) {
    && (forall q :: q in flagged ==> q != [] && q in nodes)
    && (forall q {:trigger LeadsOn(paths, q)} :: q != [] && LeadsOn(paths, q) ==> q in flagged)
  }

  /** "/" carries no mark even when it is exposed. */
  ghost predicate MarksOk(marked: set<Path>, m: Modes) {
    forall q :: q in marked <==> q in m && q != []
  }

  ghost predicate IndexOk(nodes: set<Path>, marked: set<Path>, flagged: set<Path>, m: Modes) {
    Canonical(nodes, m) && MarksOk(marked, m) && FlagsOk(nodes, flagged, m.Keys)
  }

  // ---------------------------------------------------------------- half-done insertions

  /** An insertion of k that has got down to `at`: the nodes so far exist, and k is marked only at the end. */
  ghost predicate Inserting(nodes: set<Path>, marked: set<Path>, flagged: set<Path>, m: Modes, k: Path, at: Path,
                            before: set<Path>)
  {
    && at <= k && k in m && at in nodes
    && (forall q :: q in marked <==> q in m && q != [] && (q == k ==> at == k))
    && (forall q {:trigger AboveExposed(m, q)} :: q in nodes && q != [] ==> AboveExposed(m, q))
    && (forall e :: e in m && e != k ==> e in nodes)
    && flagged == before + WayTo(k, at) && FlagsOk(nodes, flagged, m.Keys - {k})
  }

  lemma InsertingStart(nodes: set<Path>, marked: set<Path>, flagged: set<Path>, m: Modes, k: Path, ro: bool)
    requires IndexOk(nodes, marked, flagged, m) && k !in m && [] in nodes
    ensures Inserting(nodes, marked, flagged, m[k := ro], k, [], flagged)
  {
    CoverGrows(m, m[k := ro]);
    assert m[k := ro].Keys - {k} == m.Keys;
  }

  lemma CoverGrows(m: Modes, n: Modes)
    requires m.Keys <= n.Keys
    ensures forall k {:trigger AboveExposed(n, k)} :: AboveExposed(m, k) ==> AboveExposed(n, k)
  {
    forall k | AboveExposed(m, k)
      ensures AboveExposed(n, k)
    {
      var e :| e in m && k <= e;
      assert e in n;
    }
  }

  /** A round adds the next node if it is missing, and then marks or flags it. */
  lemma InsertingNext(nodes: set<Path>, marked: set<Path>, flagged: set<Path>, m: Modes, k: Path, at: Path, next: Path,
                      before: set<Path>)
    requires Inserting(nodes, marked, flagged, m, k, at, before)
    requires next <= k && next != [] && Front(next) == at
    ensures Inserting(nodes + {next}, marked + (if next == k then {next} else {}),
                      flagged + (if next == k then {} else {next}), m, k, next, before)
  {
    assert AboveExposed(m, next);
    WayStep(k, next);
  }

  lemma InsertingDone(nodes: set<Path>, marked: set<Path>, flagged: set<Path>, m: Modes, k: Path, before: set<Path>)
    requires Inserting(nodes, marked, flagged, m, k, k, before)
    ensures IndexOk(nodes, marked, flagged, m) && flagged == before + OnTheWay(k)
  {
    forall q | q != [] && LeadsOn(m.Keys, q)
      ensures q in flagged
    {
      var e :| e in m.Keys && q < e;
      if e != k {
        assert e in m.Keys - {k} && LeadsOn(m.Keys - {k}, q);
      } else {
        assert q in WayTo(k, k);
      }
    }
  }

  /** Exposing a path again changes no flag: those on its way are set. */
  lemma WayIsFlagged(nodes: set<Path>, flagged: set<Path>, paths: set<Path>, k: Path)
    requires FlagsOk(nodes, flagged, paths) && k in paths
    ensures flagged + OnTheWay(k) == flagged
  {
    forall q | q in OnTheWay(k)
      ensures q in flagged
    {
      assert LeadsOn(paths, q);
    }
  }

  /** So the trie is right as it is. */
  lemma SameIndex(nodes: set<Path>, marked: set<Path>, flagged: set<Path>, m: Modes, k: Path, ro: bool)
    requires IndexOk(nodes, marked, flagged, m) && k in m
    ensures IndexOk(nodes, marked, flagged, m[k := ro]) && flagged + OnTheWay(k) == flagged
  {
    assert m[k := ro].Keys == m.Keys;
    WayIsFlagged(nodes, flagged, m.Keys, k);
    CoverGrows(m, m[k := ro]);
  }

  // ---------------------------------------------------------------- half-done withdrawals

  /** k is out of the maps and unmarked, and only `at` and its prefixes may have superfluous nodes. */
  ghost predicate Superfluous(nodes: set<Path>, marked: set<Path>, flagged: set<Path>, m: Modes, k: Path, at: Path) {
    && at <= k && k !in m && at in nodes && (k in nodes ==> at == k)
    && MarksOk(marked, m) && (forall e :: e in m ==> e in nodes)
    && (forall q {:trigger AboveExposed(m, q)} :: q in nodes && q != [] && !(q <= at) ==> AboveExposed(m, q))
    && FlagsOk(nodes, flagged, m.Keys)
    && (forall q :: q in nodes && q != [] && q < k ==> q in flagged)
  }

  ghost predicate AtOrBelow(marked: set<Path>, k: Path) {
    exists q :: q in marked && k <= q
  }

  lemma SuperfluousStart(nodes: set<Path>, marked: set<Path>, flagged: set<Path>, m: Modes, k: Path)
    requires IndexOk(nodes, marked, flagged, m) && k in m
    ensures Superfluous(nodes, marked - {k}, flagged, m - {k}, k, k)
  {
    var n := m - {k};
    forall q | AboveExposed(m, q) && !(q <= k)
      ensures AboveExposed(n, q)
    {
      var e :| e in m && q <= e;
      assert e in n;
    }
    forall q | q != [] && LeadsOn(n.Keys, q)
      ensures q in flagged
    {
      var e :| e in n.Keys && q < e;
      assert e in m.Keys && LeadsOn(m.Keys, q);
    }
    forall q | q in nodes && q != [] && q < k
      ensures q in flagged
    {
      assert LeadsOn(m.Keys, q);
    }
  }

  /** A node with nothing marked at or below it is a leaf, and can go. */
  lemma SuperfluousNext(nodes: set<Path>, marked: set<Path>, flagged: set<Path>, m: Modes, k: Path,
                        gone: Path, up: Path)
    requires Superfluous(nodes, marked, flagged, m, k, gone) && !AtOrBelow(marked, gone)
    requires gone != [] && Front(gone) == up && up in nodes
    ensures Superfluous(nodes - {gone}, marked - {gone}, flagged - {gone}, m, k, up)
    ensures forall q :: q in nodes && q != [] ==> Front(q) != gone
  {
    forall q | gone <= q
      ensures !AboveExposed(m, q)
    {
      assert forall e :: e in m && q <= e ==> e in marked;
    }
    forall q | q in nodes && q != []
      ensures Front(q) != gone
    {
      assert Front(q) == gone ==> gone <= q && !(q <= gone);
      assert AboveExposed(m, q) || q <= gone;
    }
    forall q | q in nodes && q != [] && q != gone && !(q <= up)
      ensures AboveExposed(m, q)
    {
      ProperPrefix(q, gone);
    }
    forall q | q != [] && LeadsOn(m.Keys, q)
      ensures q != gone
    {
      var e :| e in m.Keys && q < e;
      assert e in marked;
    }
  }

  /** Something marked at or below a node justifies it and all its ancestors; and it has its flag already. */
  lemma SuperfluousDone(nodes: set<Path>, marked: set<Path>, flagged: set<Path>, m: Modes, k: Path, at: Path)
    requires at != [] && Superfluous(nodes, marked, flagged, m, k, at) && AtOrBelow(marked, at)
    ensures IndexOk(nodes, marked, flagged, m) && at in flagged
  {
    var e :| e in marked && at <= e;
    forall q | q in nodes && q != []
      ensures AboveExposed(m, q)
    {
      if q <= at {
        assert q <= e;
      }
    }
    if at == k {
      PrefixesComparable(k, k, e);
      assert LeadsOn(m.Keys, k);
    } else {
      PrefixesComparable(at, at, k);
    }
  }

  /** If nothing was left to prune, all that is needed is there. */
  lemma SuperfluousRoot(nodes: set<Path>, marked: set<Path>, flagged: set<Path>, m: Modes, k: Path)
    requires Superfluous(nodes, marked, flagged, m, k, [])
    ensures IndexOk(nodes, marked, flagged, m)
  {
  }

  /** Of the nodes flagged before, those that are left lead to something exposed. */
  lemma LeftFlagged(nodes: set<Path>, flagged: set<Path>, m: Modes, before: set<Path>)
    requires Canonical(nodes, m) && PrefixClosed(nodes)
    requires (forall q :: q in before ==> q != []) && flagged == before * nodes
    ensures flagged == StillFlagged(before, m)
  {
    forall q | q in before && AboveExposed(m, q)
      ensures q in nodes
    {
      var e :| e in m && q <= e;
      assert e in nodes && q == e[..|q|];
    }
  }

  ghost predicate PrefixClosed(nodes: set<Path>) {
    forall k, n :: k in nodes && 0 <= n <= |k| ==> k[..n] in nodes
  }

  class PathRegistry {
    var root: PathNode
    var exposed: map<string, bool>
    var readOnly: map<string, bool>
    ghost var nodes: map<Path, PathNode>
    ghost var repr: set<PathNode>
    ghost var kids: Kids
    ghost var marked: set<Path>
    ghost var flagged: set<Path>
    ghost var modes: Modes

    ghost predicate MapsAgree()
      reads this`exposed, this`readOnly, this`modes
    {
      Agree(exposed, readOnly, modes)
    }

    /** The node at k is as the ghost state says. */
    ghost predicate Backed(k: Path)
      requires k in nodes && nodes[k] in repr
      reads this`nodes, this`repr, this`kids, this`marked, this`flagged, repr
    {
      && nodes[k].key == k && k in kids && nodes[k].children == kids[k]
      && (nodes[k].isExposed <==> k in marked) && (nodes[k].hasExposedDescendants <==> k in flagged)
    }

    ghost predicate AllBacked()
      reads this`nodes, this`repr, this`kids, this`marked, this`flagged, repr
    {
      forall k {:trigger Backed(k)} {:trigger nodes[k]} :: k in nodes ==> nodes[k] in repr && Backed(k)
    }

    /** `nodes` is exactly the trie hanging off `root`. */
    ghost predicate Shape()
      reads this`root, this`nodes, this`repr, this`kids, this`marked, this`flagged, repr
    {
      && [] in nodes && nodes[[]] == root && AllBacked()
      && TrieShape(nodes, kids) && marked <= nodes.Keys && flagged <= nodes.Keys
    }

    ghost predicate Valid()
      reads this, repr
    {
      MapsAgree() && Shape() && IndexOk(nodes.Keys, marked, flagged, modes)
    }

    constructor ()
      ensures Valid() && modes == map[] && flagged == {} && fresh(repr)
    {
      var r := new PathNode([]);
      root := r;
      exposed, readOnly := map[], map[];
      nodes, repr, kids, marked, flagged, modes := map[[] := r], {r}, map[[] := map[]], {}, {}, map[];
    }

    // ---------------------------------------------------------------- facts about the invariant

    /** The exposed map, asked for a cleaned string, answers for its components. */
    lemma ExposedAgrees(p: string)
      requires MapsAgree()
      ensures var c := Clean(p); c in exposed && exposed[c] <==> IsAbs(p) && Components(p) in modes
      ensures IsAbs(p) && Components(p) in modes ==> readOnly[Clean(p)] == modes[Components(p)]
    {
      CleanShape(p);
    }

    lemma {:induction false} PrefixInNodes(k: Path, n: nat)
      requires Shape() && k in nodes && n <= |k|
      ensures k[..n] in nodes
      decreases |k|
    {
      if n < |k| {
        assert Linked(nodes, kids, k);
        PrefixInNodes(Front(k), n);
        assert Front(k)[..n] == k[..n];
      } else {
        assert k[..n] == k;
      }
    }

    /** In a valid registry a non-root path has a node just when an exposed path extends it. */
    lemma NodesArePrefixes(k: Path)
      requires Shape() && Canonical(nodes.Keys, modes)
      ensures k != [] ==> (k in nodes <==> AboveExposed(modes, k))
    {
      if AboveExposed(modes, k) {
        var e :| e in modes && k <= e;
        PrefixInNodes(e, |k|);
        assert e[..|k|] == k;
      }
    }

    /** Exposed paths on the way to k. */
    ghost predicate ExposedBefore(k: Path, n: nat)
      requires n <= |k|
      reads this`modes
    {
      exists j :: 0 < j <= n && k[..j] in modes
    }

    lemma ExposedBeforeAll(k: Path)
      ensures ExposedBefore(k, |k|) <==> exists e :: e in modes && e != [] && e <= k
    {
      if e :| e in modes && e != [] && e <= k {
        assert k[..|e|] == e;
      }
    }

    /** Looking a name up in a node finds the node of the longer path, if any. */
    lemma ChildAt(at: Path, c: string)
      requires Shape() && at in nodes
      ensures c in nodes[at].children <==> at + [c] in nodes
      ensures c in nodes[at].children ==> nodes[at].children[c] == nodes[at + [c]]
    {
      assert Backed(at);
      if at + [c] in nodes {
        assert Linked(nodes, kids, at + [c]) && Front(at + [c]) == at && Last(at + [c]) == c;
      }
    }

    /** Looking component i of k up in the node above it finds the node of the longer prefix, if any. */
    lemma ChildLookup(k: Path, i: nat)
      requires Shape() && i < |k| && k[..i] in nodes
      ensures k[..i + 1] == k[..i] + [k[i]]
      ensures k[i] in nodes[k[..i]].children <==> k[..i + 1] in nodes
      ensures k[i] in nodes[k[..i]].children ==> nodes[k[..i]].children[k[i]] == nodes[k[..i + 1]]
    {
      var next := k[..i + 1];
      assert Front(next) == k[..i] && Last(next) == k[i];
      if next in nodes {
        assert Linked(nodes, kids, next);
      }
    }

    // ---------------------------------------------------------------- queries

    method CheckPath(p: string) returns (v: PathVisibility)
      requires Valid()
      ensures v == VisibilityOf(modes, Components(p))
      ensures v == Exposed <==> Components(p) in modes || exists e :: e in modes && e != [] && e <= Components(p)
      ensures v == NotVisible <==>
              v != Exposed && Components(p) != [] && !exists e :: e in modes && Components(p) <= e
    {
      var clean := Clean(p);
      ExposedAgrees(p);
      VisibilityMeans(modes, Components(p));
      if clean in exposed && exposed[clean] {
        return Exposed;
      }
      var components := SplitPath(clean);
      CleanShape(p);
      if |components| == 0 {
        if root.isExposed {
          return Exposed;
        }
        if root.hasExposedDescendants || |root.children| > 0 {
          return VirtualAncestor;
        }
        return VirtualAncestor;
      }
      v := Traverse(components);
    }

    /** The traversal part of CheckPath. */
    method Traverse(components: Path) returns (v: PathVisibility)
      requires Valid() && components != []
      ensures v == VisibilityOf(modes, components)
    {
      var current := root;
      var parentExposed := false;
      assert components[..0] == [];
      for i := 0 to |components|
        invariant i < |components|
        invariant components[..i] in nodes && current == nodes[components[..i]]
        invariant parentExposed <==> ExposedBefore(components, i)
      {
        var component := components[i];
        ChildLookup(components, i);
        if component !in current.children {
          MissingVisibility(components, i + 1);
          if parentExposed {
            return Exposed;
          }
          return NotVisible;
        }
        current := current.children[component];
        assert components[..i + 1] in marked <==> current.isExposed;
        if current.isExposed {
          parentExposed := true;
        }
        ExposedBeforeStep(components, i);
        if i == |components| - 1 {
          assert components[..i + 1] == components;
          FoundVisibility(components);
          assert components in flagged <==> current.hasExposedDescendants;
          if current.isExposed {
            return Exposed;
          }
          if parentExposed {
            return Exposed;
          }
          if current.hasExposedDescendants {
            return VirtualAncestor;
          }
          return NotVisible;
        }
      }
      assert false;
    }

    lemma ExposedBeforeStep(k: Path, i: nat)
      requires i < |k|
      ensures ExposedBefore(k, i + 1) <==> ExposedBefore(k, i) || k[..i + 1] in modes
    {
    }

    /** Where the trie ends, no exposed path continues. */
    lemma MissingVisibility(k: Path, n: nat)
      requires Shape() && Canonical(nodes.Keys, modes) && 0 < n <= |k| && k[..n] !in nodes
      ensures VisibilityOf(modes, k) == if ExposedBefore(k, n - 1) then Exposed else NotVisible
    {
      forall j | n <= j <= |k|
        ensures k[..j] !in nodes
      {
        assert k[..j][..n] == k[..n];
        if k[..j] in nodes {
          PrefixInNodes(k[..j], n);
        }
      }
      assert k[..|k|] == k;
      NodesArePrefixes(k);
      ExposedBeforeAll(k);
    }

    lemma FoundVisibility(k: Path)
      requires Valid() && k != [] && k in nodes
      ensures VisibilityOf(modes, k) == if ExposedBefore(k, |k|) then Exposed else VirtualAncestor
      ensures k !in modes ==> k in flagged
    {
      assert k[..|k|] == k;
      NodesArePrefixes(k);
      ExposedBeforeAll(k);
      if k !in modes {
        var e :| e in modes && k <= e;
        PrefixesComparable(k, k, e);
        assert LeadsOn(modes.Keys, k);
      }
    }

    /** The names that have a node below parentPath, in no particular order. */
    method GetExposedChildren(parentPath: string) returns (children: seq<string>)
      requires Valid()
      ensures forall i, j :: 0 <= i < j < |children| ==> children[i] != children[j]
      ensures forall c :: c in children <==> AboveExposed(modes, Components(parentPath) + [c])
      ensures forall c :: c in children <==> exists e :: e in modes && Components(parentPath) + [c] <= e
    {
      var components := SplitPath(Clean(parentPath));
      var current := root;
      assert components[..0] == [];
      for i := 0 to |components|
        invariant components[..i] in nodes && current == nodes[components[..i]]
      {
        ChildLookup(components, i);
        if components[i] !in current.children {
          forall c
            ensures !AboveExposed(modes, components + [c])
          {
            NoChildOfMissing(components, i + 1, c);
          }
          return [];
        }
        current := current.children[components[i]];
      }
      assert components[..|components|] == components;
      children := [];
      var names := current.children.Keys;
      while names != {}
        invariant names <= current.children.Keys
        invariant forall c :: c in children <==> c in current.children && c !in names
        invariant forall i, j :: 0 <= i < j < |children| ==> children[i] != children[j]
        decreases names
      {
        var name :| name in names;
        names := names - {name};
        children := children + [name];
      }
      forall c
        ensures c in current.children <==> AboveExposed(modes, components + [c])
      {
        ChildLookup(components + [c], |components|);
        NodesArePrefixes(components + [c]);
        assert (components + [c])[..|components|] == components;
        assert (components + [c])[..|components| + 1] == components + [c];
      }
    }

    lemma NoChildOfMissing(k: Path, n: nat, c: string)
      requires Shape() && Canonical(nodes.Keys, modes) && 0 < n <= |k| && k[..n] !in nodes
      ensures !AboveExposed(modes, k + [c])
    {
      assert (k + [c])[..n] == k[..n];
      if k + [c] in nodes {
        PrefixInNodes(k + [c], n);
      }
      NodesArePrefixes(k + [c]);
    }

    method IsReadOnly(p: string) returns (ro: bool)
      requires Valid()
      ensures ro == ModeOf(modes, Components(p))
      ensures forall e ::
                (e in modes && e <= Components(p) && forall f :: f in modes && f <= Components(p) ==> |f| <= |e|) ==>
                  ro == modes[e]
      ensures (forall e :: e in modes ==> !(e <= Components(p))) ==> !ro
    {
      ModeIsLongestPrefix(modes, Components(p));
      assert forall e :: LongestPrefix(modes, Components(p), e) ==> ModeOf(modes, Components(p)) == modes[e];
      var clean := Clean(p);
      ExposedAgrees(p);
      CleanShape(p);
      if clean in exposed && exposed[clean] {
        return readOnly[clean];
      }
      var components := SplitPath(clean);
      FirstNotEmpty(p);
      ro := NearestMode(components);
    }

    lemma FirstNotEmpty(p: string)
      ensures SlashFree(Components(p)) && (Components(p) == [] || Components(p)[0] != "")
    {
      CleanShape(p);
      JoinSplit(Clean(p));
    }

    /** IsReadOnly's walk from the longest prefix to the shortest. */
    method NearestMode(components: Path) returns (ro: bool)
      requires MapsAgree() && SlashFree(components) && (components == [] || components[0] != "")
      ensures ro == ModeOf(modes, components)
    {
      assert components[..|components|] == components;
      var i := |components|;
      while i > 0
        invariant 0 <= i <= |components|
        invariant ModeOf(modes, components) == ModeOf(modes, components[..i])
      {
        var ancestor := "/" + Join(components[..i]);
        PrefixExposed(components[..i]);
        if ancestor in exposed && exposed[ancestor] {
          return readOnly[ancestor];
        }
        assert Front(components[..i]) == components[..i - 1];
        i := i - 1;
      }
      PrefixExposed([]);
      assert Abs([]) == "/";
      if "/" in exposed && exposed["/"] {
        return readOnly["/"];
      }
      return false;
    }

    /** The exposed map, asked for components joined behind a slash. */
    lemma PrefixExposed(k: Path)
      requires MapsAgree() && SlashFree(k) && (k == [] || k[0] != "")
      ensures Abs(k) in exposed && exposed[Abs(k)] <==> k in modes
      ensures k in modes ==> readOnly[Abs(k)] == modes[k]
    {
      if Abs(k) in exposed && k != [] {
        assert Abs(k)[1..] == Join(k);
        SplitJoin(k);
      }
    }

    // ---------------------------------------------------------------- exposing a path

    /** Whether os.Stat finds the cleaned path is the caller's `onHost`. */
    method AddPath(p: string, ro: bool, onHost: bool) returns (r: Outcome)
      requires Valid()
      modifies this, repr
      ensures Valid() && old(repr) <= repr && fresh(repr - old(repr))
      ensures r == if !IsAbs(p) then NotAbsolute else if !onHost then DoesNotExist else Ok
      ensures modes == if r == Ok then old(modes)[Components(p) := ro] else old(modes)
      ensures flagged == if r == Ok then old(flagged) + OnTheWay(Components(p)) else old(flagged)
      ensures r == Ok ==> forall q :: q in flagged <==> q in old(flagged) || (q != [] && q < Components(p))
    {
      var clean := Clean(p);
      CleanShape(p);
      ExposedAgrees(p);
      if !IsAbs(clean) {
        return NotAbsolute;
      }
      if !onHost {
        return DoesNotExist;
      }
      Expose(clean, SplitPath(clean), ro);
      return Ok;
    }

    /** A path that is exposed already only changes its mode. */
    method Expose(clean: string, components: Path, ro: bool)
      requires Valid() && CleanPath(components) && clean == Abs(components)
      requires clean in exposed && exposed[clean] <==> components in modes
      modifies this, repr
      ensures Valid() && old(repr) <= repr && fresh(repr - old(repr))
      ensures modes == old(modes)[components := ro] && flagged == old(flagged) + OnTheWay(components)
    {
      if clean in exposed && exposed[clean] {
        Reflag(clean, components, ro);
      } else {
        InsertingStart(nodes.Keys, marked, flagged, modes, components, ro);
        SetMaps(clean, components, ro);
        Insert(components, flagged);
      }
    }

    method Reflag(clean: string, ghost k: Path, ro: bool)
      requires Valid() && CleanPath(k) && clean == Abs(k) && clean in exposed && exposed[clean] && k in modes
      modifies this`readOnly, this`modes
      ensures Valid() && modes == old(modes)[k := ro] && flagged + OnTheWay(k) == flagged
    {
      SetMode(clean, k, ro);
      SameIndex(nodes.Keys, marked, flagged, old(modes), k, ro);
    }

    method SetMode(clean: string, ghost k: Path, ro: bool)
      requires MapsAgree() && CleanPath(k) && clean == Abs(k) && clean in exposed && exposed[clean]
      modifies this`readOnly, this`modes
      ensures MapsAgree() && modes == old(modes)[k := ro]
    {
      AgreeAdd(exposed, readOnly, modes, k, ro);
      assert exposed[clean := true] == exposed;
      readOnly := readOnly[clean := ro];
      modes := modes[k := ro];
    }

    method SetMaps(clean: string, ghost k: Path, ro: bool)
      requires MapsAgree() && CleanPath(k) && clean == Abs(k)
      modifies this`exposed, this`readOnly, this`modes
      ensures MapsAgree() && modes == old(modes)[k := ro]
    {
      AgreeAdd(exposed, readOnly, modes, k, ro);
      exposed := exposed[clean := true];
      readOnly := readOnly[clean := ro];
      modes := modes[k := ro];
    }

    /** The loop that creates the nodes down to the path and marks them. */
    method Insert(components: Path, ghost before: set<Path>)
      requires Shape() && Inserting(nodes.Keys, marked, flagged, modes, components, [], before)
      modifies this`nodes, this`repr, this`kids, this`marked, this`flagged, repr
      ensures Shape() && IndexOk(nodes.Keys, marked, flagged, modes) && old(repr) <= repr && fresh(repr - old(repr))
      ensures flagged == before + OnTheWay(components)
    {
      var current := root;
      ghost var at := [];
      for i := 0 to |components|
        invariant Shape() && old(repr) <= repr && fresh(repr - old(repr))
        invariant at == components[..i] && at in nodes && current == nodes[at]
        invariant Inserting(nodes.Keys, marked, flagged, modes, components, at, before)
      {
        current, at := Round(current, components, i, at, before);
      }
      assert at == components;
      InsertingDone(nodes.Keys, marked, flagged, modes, components, before);
    }

    method Round(current: PathNode, components: Path, i: nat, ghost at: Path, ghost before: set<Path>)
      returns (node: PathNode, ghost next: Path)
      requires i < |components| && at == components[..i]
      requires Shape() && at in nodes && current == nodes[at]
      requires Inserting(nodes.Keys, marked, flagged, modes, components, at, before)
      modifies this`nodes, this`repr, this`kids, this`marked, this`flagged, repr
      ensures Shape() && old(repr) <= repr && fresh(repr - old(repr))
      ensures next == components[..i + 1] && next in nodes && node == nodes[next]
      ensures Inserting(nodes.Keys, marked, flagged, modes, components, next, before)
    {
      next := components[..i + 1];
      Slices(components, i);
      InsertingNext(nodes.Keys, marked, flagged, modes, components, at, next, before);
      node := Descend(current, components[i], i == |components| - 1, at, next);
    }

    /** One round of the loop: the last node becomes exposed, the others get their descendants flag. */
    method Descend(current: PathNode, component: string, last: bool, ghost at: Path, ghost key: Path)
      returns (next: PathNode)
      requires Shape() && at in nodes && current == nodes[at] && key == at + [component]
      modifies this`nodes, this`repr, this`kids, this`marked, this`flagged, repr
      ensures Shape() && old(repr) <= repr && fresh(repr - old(repr))
      ensures key in nodes && next == nodes[key] && nodes.Keys == old(nodes.Keys) + {key}
      ensures marked == old(marked) + if last then {key} else {}
      ensures flagged == old(flagged) + if last then {} else {key}
    {
      next := FindOrLink(current, component, at, key);
      Mark(next, last, key);
    }

    method Mark(node: PathNode, last: bool, ghost k: Path)
      requires Shape() && k in nodes && node == nodes[k]
      modifies node`isExposed, node`hasExposedDescendants, this`marked, this`flagged
      ensures Shape()
      ensures marked == old(marked) + if last then {k} else {}
      ensures flagged == old(flagged) + if last then {} else {k}
    {
      if last {
        SetExposed(node, true, k);
      } else {
        SetFlag(node, true, k);
      }
    }

    method FindOrLink(current: PathNode, component: string, ghost at: Path, ghost key: Path) returns (next: PathNode)
      requires Shape() && at in nodes && current == nodes[at] && key == at + [component]
      modifies this`nodes, this`repr, this`kids, current`children
      ensures Shape() && old(repr) <= repr && fresh(repr - old(repr))
      ensures key in nodes && next == nodes[key] && nodes.Keys == old(nodes.Keys) + {key}
    {
      ChildAt(at, component);
      if component !in current.children {
        LinkChild(current, component, at, key);
      }
      next := current.children[component];
    }

    method SetExposed(node: PathNode, value: bool, ghost k: Path)
      requires Shape() && k in nodes && node == nodes[k]
      modifies node`isExposed, this`marked
      ensures Shape() && marked == if value then old(marked) + {k} else old(marked) - {k}
    {
      node.isExposed := value;
      marked := if value then marked + {k} else marked - {k};
      forall q | q in nodes
        ensures Backed(q)
      {
        assert old(Backed(q));
      }
    }

    method SetFlag(node: PathNode, value: bool, ghost k: Path)
      requires Shape() && k in nodes && node == nodes[k]
      modifies node`hasExposedDescendants, this`flagged
      ensures Shape() && flagged == if value then old(flagged) + {k} else old(flagged) - {k}
    {
      node.hasExposedDescendants := value;
      flagged := if value then flagged + {k} else flagged - {k};
      forall q | q in nodes
        ensures Backed(q)
      {
        assert old(Backed(q));
      }
    }

    /** Hangs a new node under `current`, whose path is `parent`. */
    method LinkChild(current: PathNode, component: string, ghost parent: Path, ghost key: Path)
      requires Shape() && parent in nodes && current == nodes[parent] && key == parent + [component] && key !in nodes
      modifies this`nodes, this`repr, this`kids, current`children
      ensures Shape() && component in current.children && fresh(current.children[component])
      ensures repr == old(repr) + {current.children[component]}
      ensures nodes == old(nodes)[key := current.children[component]]
    {
      var node := new PathNode(key);
      TrieGrows(nodes, kids, parent, component, node);
      Attach(current, component, parent, key, node);
    }

    /** A new child, as far as it concerns the nodes one by one. */
    method Attach(current: PathNode, component: string, ghost parent: Path, ghost key: Path, node: PathNode)
      requires AllBacked() && parent in nodes && current == nodes[parent] && key !in nodes && node !in repr
      requires node.key == key && node.children == map[] && !node.isExposed && !node.hasExposedDescendants
      requires key !in marked && key !in flagged
      modifies this`nodes, this`repr, this`kids, current`children
      ensures AllBacked() && current.children == old(current.children)[component := node]
      ensures nodes == old(nodes)[key := node] && repr == old(repr) + {node}
      ensures kids == old(kids)[parent := old(kids[parent])[component := node]][key := map[]]
    {
      current.children := current.children[component := node];
      kids := kids[parent := kids[parent][component := node]][key := map[]];
      nodes, repr := nodes[key := node], repr + {node};
      forall q | q in nodes
        ensures Backed(q)
      {
        assert q != key ==> old(Backed(q));
      }
    }

    // ---------------------------------------------------------------- withdrawing a path

    ghost function Below(k: Path): set<Path>
      reads this`nodes
    {
      set q | q in nodes && k < q
    }

    /** The node itself counts. */
    method NodeHasExposedDescendants(node: PathNode, ghost k: Path) returns (found: bool)
      requires Shape() && k in nodes && node == nodes[k]
      ensures found <==> AtOrBelow(marked, k)
      decreases Below(k)
    {
      if node.isExposed {
        assert k in marked;
        return true;
      }
      var names := node.children.Keys;
      while names != {}
        invariant names <= node.children.Keys
        invariant forall c {:trigger k + [c]} :: c in node.children && c !in names ==> !AtOrBelow(marked, k + [c])
        decreases names
      {
        var name :| name in names;
        names := names - {name};
        var child := node.children[name];
        assert k + [name] in Below(k) && k + [name] !in Below(k + [name]);
        var deeper := false;
        if !child.isExposed {
          deeper := NodeHasExposedDescendants(child, k + [name]);
        }
        if child.isExposed || deeper {
          assert child.isExposed ==> k + [name] in marked;
          BelowChild(k, name);
          return true;
        }
      }
      NoneBelow(k);
      return false;
    }

    lemma BelowChild(k: Path, c: string)
      requires AtOrBelow(marked, k + [c])
      ensures AtOrBelow(marked, k)
    {
      var q :| q in marked && k + [c] <= q;
      assert k <= q;
    }

    lemma NoneBelow(k: Path)
      requires Shape() && k in nodes && !nodes[k].isExposed
      requires forall c {:trigger k + [c]} :: c in nodes[k].children ==> !AtOrBelow(marked, k + [c])
      ensures !AtOrBelow(marked, k)
    {
      forall q | q in nodes && k <= q
        ensures !nodes[q].isExposed
      {
        if q != k {
          var n := |k| + 1;
          PrefixInNodes(q, n);
          assert q[..|k|] == k;
          ChildLookup(q, |k|);
          assert k + [q[|k|]] == q[..n] <= q;
        }
      }
    }

    method RemovePath(p: string)
      requires Valid()
      modifies this, repr
      ensures Valid() && repr == old(repr)
      ensures modes == if IsAbs(p) then old(modes) - {Components(p)} else old(modes)
      ensures flagged == StillFlagged(old(flagged), modes)
      ensures forall q :: q in flagged <==> q in old(flagged) && exists e :: e in modes && q <= e
    {
      var clean := Clean(p);
      CleanShape(p);
      ExposedAgrees(p);
      if !(clean in exposed && exposed[clean]) {
        assert IsAbs(p) ==> modes - {Components(p)} == modes;
        PrefixesHaveNodes();
        LeftFlagged(nodes.Keys, flagged, modes, flagged);
        return;
      }
      Withdraw(clean, SplitPath(clean));
    }

    lemma PrefixesHaveNodes()
      requires Shape()
      ensures PrefixClosed(nodes.Keys)
    {
      forall k, n | k in nodes && 0 <= n <= |k|
        ensures k[..n] in nodes
      {
        PrefixInNodes(k, n);
      }
    }

    method Withdraw(clean: string, components: Path)
      requires Valid() && CleanPath(components) && clean == Abs(components) && components in modes
      modifies this, repr
      ensures Valid() && repr == old(repr)
      ensures modes == old(modes) - {components}
      ensures flagged == StillFlagged(old(flagged), modes)
    {
      ghost var before := modes;
      DropMaps(clean, components);
      Unlink(components, before);
    }

    /** The path has left the maps, and now leaves the trie. */
    method Unlink(components: Path, ghost before: Modes)
      requires Shape() && IndexOk(nodes.Keys, marked, flagged, before)
      requires components in before && modes == before - {components}
      modifies this`nodes, this`kids, this`marked, this`flagged, repr
      ensures Shape() && IndexOk(nodes.Keys, marked, flagged, modes)
      ensures flagged == StillFlagged(old(flagged), modes)
    {
      SuperfluousStart(nodes.Keys, marked, flagged, before, components);
      assert components[..|components|] == components;
      var current := Navigate(components, |components|);
      SetExposed(current, false, components);
      Prune(components);
      PrefixesHaveNodes();
      LeftFlagged(nodes.Keys, flagged, modes, old(flagged));
    }

    method DropMaps(clean: string, ghost k: Path)
      requires MapsAgree() && CleanPath(k) && clean == Abs(k)
      modifies this`exposed, this`readOnly, this`modes
      ensures MapsAgree() && modes == old(modes) - {k}
    {
      AgreeRemove(exposed, readOnly, modes, k);
      exposed := exposed - {clean};
      readOnly := readOnly - {clean};
      modes := modes - {k};
    }

    /** Follows the first n components down from the root. */
    method Navigate(components: Path, n: nat) returns (current: PathNode)
      requires Shape() && n <= |components| && components[..n] in nodes
      ensures current == nodes[components[..n]]
    {
      current := root;
      assert components[..0] == [];
      for i := 0 to n
        invariant components[..i] in nodes && current == nodes[components[..i]]
      {
        PrefixInNodes(components[..n], i + 1);
        assert components[..n][..i + 1] == components[..i + 1];
        ChildLookup(components, i);
        current := current.children[components[i]];
      }
    }

    /** RemovePath's walk back up: deletes nodes while nothing below them is exposed. */
    method Prune(components: Path)
      requires Shape() && Superfluous(nodes.Keys, marked, flagged, modes, components, components)
      modifies this`nodes, this`kids, this`marked, this`flagged, repr
      ensures Shape() && IndexOk(nodes.Keys, marked, flagged, modes)
      ensures flagged == old(flagged) * nodes.Keys
    {
      var i := |components| - 1;
      var done := false;
      ghost var at := components;
      while i >= 0 && !done
        invariant -1 <= i < |components| && Shape()
        invariant nodes.Keys <= old(nodes.Keys) && flagged == old(flagged) * nodes.Keys
        invariant done ==> IndexOk(nodes.Keys, marked, flagged, modes)
        invariant !done ==>
          at == components[..i + 1] && Superfluous(nodes.Keys, marked, flagged, modes, components, at)
        decreases i
      {
        done, at := PruneRound(components, i, at);
        i := i - 1;
      }
      if !done {
        SuperfluousRoot(nodes.Keys, marked, flagged, modes, components);
      }
    }

    method PruneRound(components: Path, i: nat, ghost at: Path) returns (done: bool, ghost up: Path)
      requires i < |components| && at == components[..i + 1]
      requires Shape() && Superfluous(nodes.Keys, marked, flagged, modes, components, at)
      modifies this`nodes, this`kids, this`marked, this`flagged, repr
      ensures Shape() && up == components[..i]
      ensures nodes.Keys <= old(nodes.Keys) && flagged == old(flagged) * nodes.Keys
      ensures done ==> IndexOk(nodes.Keys, marked, flagged, modes)
      ensures !done ==> Superfluous(nodes.Keys, marked, flagged, modes, components, up)
    {
      up := components[..i];
      Slices(components, i);
      var parent := FindParent(components, i);
      done := PruneOne(parent, components[i], components, at, up);
    }

    /** From the root again, the node above component i. */
    method FindParent(components: Path, i: nat) returns (parent: PathNode)
      requires i < |components| && Shape() && components[..i + 1] in nodes
      ensures components[..i] in nodes && parent == nodes[components[..i]]
    {
      PrefixInNodes(components[..i + 1], i);
      assert components[..i + 1][..i] == components[..i];
      parent := Navigate(components, i);
    }

    /** One round: delete the node or refresh its flag. */
    method PruneOne(parent: PathNode, component: string, ghost k: Path, ghost at: Path, ghost up: Path)
      returns (done: bool)
      requires Shape() && Superfluous(nodes.Keys, marked, flagged, modes, k, at)
      requires up in nodes && parent == nodes[up] && at == up + [component]
      modifies this`nodes, this`kids, this`marked, this`flagged, repr
      ensures Shape()
      ensures nodes.Keys <= old(nodes.Keys) && flagged == old(flagged) * nodes.Keys
      ensures done ==> IndexOk(nodes.Keys, marked, flagged, modes)
      ensures !done ==> Superfluous(nodes.Keys, marked, flagged, modes, k, up)
    {
      ChildAt(up, component);
      var node := parent.children[component];
      var hasDescendants := node.isExposed;
      if !hasDescendants {
        hasDescendants := NodeHasExposedDescendants(node, at);
      } else {
        assert at in marked;
      }
      if !hasDescendants {
        Drop(parent, component, k, at, up);
        return false;
      }
      SuperfluousDone(nodes.Keys, marked, flagged, modes, k, at);
      Refresh(node, at);
      done := true;
    }

    method Drop(parent: PathNode, component: string, ghost k: Path, ghost at: Path, ghost up: Path)
      requires Shape() && Superfluous(nodes.Keys, marked, flagged, modes, k, at) && !AtOrBelow(marked, at)
      requires up in nodes && parent == nodes[up] && at == up + [component]
      modifies this`nodes, this`kids, this`marked, this`flagged, parent`children
      ensures Shape() && Superfluous(nodes.Keys, marked, flagged, modes, k, up)
      ensures nodes.Keys <= old(nodes.Keys) && flagged == old(flagged) * nodes.Keys
    {
      SuperfluousNext(nodes.Keys, marked, flagged, modes, k, at, up);
      DropNode(parent, component, up, at);
    }

    /** The flag of a node at which pruning stops is computed anew; it was set before. */
    method Refresh(node: PathNode, ghost k: Path)
      requires Shape() && k in flagged && node == nodes[k] && AtOrBelow(marked, k)
      modifies node`hasExposedDescendants, this`flagged
      ensures Shape() && flagged == old(flagged)
    {
      var flag := NodeHasExposedDescendants(node, k);
      SetFlag(node, flag, k);
    }

    method DropNode(parent: PathNode, component: string, ghost up: Path, ghost gone: Path)
      requires Shape() && up in nodes && gone == up + [component] && gone in nodes && parent == nodes[up]
      requires forall q :: q in nodes && q != [] ==> Front(q) != gone
      modifies this`nodes, this`kids, this`marked, this`flagged, parent`children
      ensures Shape() && nodes == old(nodes) - {gone} && nodes.Keys == old(nodes.Keys) - {gone}
      ensures marked == old(marked) - {gone} && flagged == old(flagged) - {gone}
    {
      TrieShrinks(nodes, kids, up, component);
      Detach(parent, component, up, gone);
    }

    /** A child gone, as far as it concerns the nodes one by one. */
    method Detach(parent: PathNode, component: string, ghost up: Path, ghost gone: Path)
      requires AllBacked() && up in nodes && parent == nodes[up] && gone == up + [component]
      modifies this`nodes, this`kids, this`marked, this`flagged, parent`children
      ensures AllBacked() && nodes == old(nodes) - {gone} && kids == ShrunkKids(old(kids), up, component)
      ensures marked == old(marked) - {gone} && flagged == old(flagged) - {gone}
    {
      parent.children := parent.children - {component};
      kids := ShrunkKids(kids, up, component);
      nodes := nodes - {gone};
      marked, flagged := marked - {gone}, flagged - {gone};
      forall q | q in nodes
        ensures Backed(q)
      {
        assert old(Backed(q));
      }
    }
  }
}
