/**
 The set-level meaning of the path registry: which paths a set of exposed paths makes visible,
 and which exposed path decides whether a path is read-only. No trie appears here.
 */
module Visibility {
  import opened Paths

  datatype PathVisibility = NotVisible | VirtualAncestor | Exposed

  /** Exposed path -> read-only flag. */
  type Modes = map<Path, bool>

  ghost predicate UnderExposed(m: Modes, k: Path) {
    k in m || exists e :: e in m && e != [] && e <= k
  }

  ghost predicate AboveExposed(m: Modes, k: Path) {
    exists e :: e in m && k <= e
  }

  /** Some of the paths lie strictly below k. */
  ghost predicate LeadsOn(paths: set<Path>, k: Path) {
    exists e :: e in paths && k < e
  }

  /** The paths on the way from "/" to k, both excluded. */
  ghost function OnTheWay(k: Path): set<Path> {
    WayTo(k, k)
  }

  /** Those down to `at`. */
  ghost function WayTo(k: Path, at: Path): (prefixes: set<Path>)
    ensures forall q :: q in prefixes <==> q != [] && q < k && q <= at
  {
    var prefixes := set j | 0 < j < |k| && k[..j] <= at :: k[..j];
    assert forall q :: q < k ==> q == k[..|q|];
    prefixes
  }

  lemma WayStep(k: Path, next: Path)
    requires next <= k && next != []
    ensures WayTo(k, next) == WayTo(k, Front(next)) + if next == k then {} else {next}
  {
    forall q: Path
      ensures q in WayTo(k, next) <==> q in WayTo(k, Front(next)) || (q == next && next != k)
    {
      if q != next {
        ProperPrefix(q, next);
      } else {
        PrefixesComparable(next, next, k);
      }
    }
  }

  /** Of the flagged paths, those that still lead to something exposed. */
  ghost function StillFlagged(flagged: set<Path>, m: Modes): set<Path> {
    set q | q in flagged && AboveExposed(m, q)
  }

  ghost function VisibilityOf(m: Modes, k: Path): PathVisibility {
    if UnderExposed(m, k) then Exposed
    else if k == [] || AboveExposed(m, k) then VirtualAncestor
    else NotVisible
  }

  /** What the three answers mean: exposed or below an exposed path, else on the way to one, else hidden. */
  lemma VisibilityMeans(m: Modes, k: Path)
    ensures VisibilityOf(m, k) == Exposed <==> k in m || exists e :: e in m && e != [] && e <= k
    ensures VisibilityOf(m, k) == NotVisible <==>
            VisibilityOf(m, k) != Exposed && k != [] && !exists e :: e in m && k <= e
  {
  }

  /** The registry's lookup order: the path itself, then ever shorter prefixes, "/" last. */
  function ModeOf(m: Modes, k: Path): bool
    decreases |k|
  {
    if k in m then m[k] else if k == [] then false else ModeOf(m, Front(k))
  }

  /** e is the longest exposed prefix of k. */
  ghost predicate LongestPrefix(m: Modes, k: Path, e: Path) {
    e in m && e <= k && forall f :: f in m && f <= k ==> |f| <= |e|
  }

  lemma {:induction false} ModeIsLongestPrefix(m: Modes, k: Path)
    ensures forall e :: LongestPrefix(m, k, e) ==> ModeOf(m, k) == m[e]
    ensures (exists e :: e in m && e <= k) ==> exists e :: LongestPrefix(m, k, e)
    ensures !(exists e :: e in m && e <= k) ==> !ModeOf(m, k)
    decreases |k|
  {
    if k in m {
      assert LongestPrefix(m, k, k);
      forall e | LongestPrefix(m, k, e)
        ensures e == k
      {
        assert |k| <= |e| && e <= k;
      }
    } else if k != [] {
      ModeIsLongestPrefix(m, Front(k));
      forall e | e in m
        ensures e <= k <==> e <= Front(k)
      {
        ProperPrefix(e, k);
      }
      assert forall e :: LongestPrefix(m, k, e) <==> LongestPrefix(m, Front(k), e);
    }
  }

  /** Exposing e changes the mode only of paths below e that have no longer exposed prefix. */
  lemma {:induction false} ModeFrame(m: Modes, e: Path, ro: bool, k: Path)
    ensures e <= k && (forall f :: f in m && f <= k ==> |f| <= |e|) ==> ModeOf(m[e := ro], k) == ro
    ensures !(e <= k && forall f :: f in m && f <= k ==> |f| <= |e|) ==> ModeOf(m[e := ro], k) == ModeOf(m, k)
    ensures !(e <= k && forall f :: f in m && f <= k ==> |f| <= |e|) ==> ModeOf(m - {e}, k) == ModeOf(m, k)
    decreases |k|
  {
    if k == e {
      assert forall f :: f <= k ==> |f| <= |e|;
    } else if k in m {
      assert k <= k;
      assert e <= k ==> |e| < |k|;
    } else if k != [] {
      ModeFrame(m, e, ro, Front(k));
      ProperPrefix(e, k);
      forall f | f in m
        ensures f <= k <==> f <= Front(k)
      {
        ProperPrefix(f, k);
      }
    }
  }

  /** Whatever is visible has only visible ancestors, so a walk from the root can reach it. */
  lemma {:induction false} VisiblePrefixClosed(m: Modes, k: Path, n: nat)
    requires n <= |k| && VisibilityOf(m, k) != NotVisible
    ensures VisibilityOf(m, k[..n]) != NotVisible
  {
    if n == 0 {
      assert k[..0] == [];
    } else if UnderExposed(m, k) {
      var e :| e in m && e <= k && (e != [] || k == e);
      if e <= k[..n] {
        assert UnderExposed(m, k[..n]);
      } else {
        assert k[..n] <= e;
      }
    } else {
      var e :| e in m && k <= e;
      assert k[..n] <= e;
    }
  }

  /** Everything below an exposed path other than "/" is exposed as well. */
  lemma {:induction false} ExposedSuffixClosed(m: Modes, k: Path, below: Path)
    requires VisibilityOf(m, k) == Exposed && k <= below
    ensures k != [] ==> VisibilityOf(m, below) == Exposed
  {
    if k != [] {
      var e :| e in m && e != [] && e <= k;
      assert e <= below;
    }
  }

  /** Exposing "/" exposes "/" alone, but sets the mode of every path with no other exposed prefix. */
  lemma {:induction false} RootExposesOnlyItself(m: Modes, ro: bool, k: Path)
    ensures VisibilityOf(m[[] := ro], k) == if k == [] then Exposed else VisibilityOf(m, k)
    ensures !(exists e :: e in m && e != [] && e <= k) ==> ModeOf(m[[] := ro], k) == ro
  {
    var n := m[[] := ro];
    if k != [] {
      assert UnderExposed(n, k) <==> UnderExposed(m, k) by {
        if UnderExposed(m, k) {
          var e :| e in m && e != [] && e <= k;
          assert e in n;
        }
      }
      assert AboveExposed(n, k) <==> AboveExposed(m, k) by {
        if AboveExposed(m, k) {
          var e :| e in m && k <= e;
          assert e in n;
        }
      }
    }
    if !(exists e :: e in m && e != [] && e <= k) {
      assert LongestPrefix(n, k, []);
      ModeIsLongestPrefix(n, k);
    }
  }
}
