/**
 Whole histories of AddPath and RemovePath calls: what a registry answers is a function of the
 calls made so far, and two histories that leave the same paths exposed leave the same trie.
 */
module RegistryHistory {
  import opened Paths
  import opened Visibility
  import opened PathRegistry

  datatype Op = Add(path: string, readOnly: bool, onHost: bool) | Remove(path: string)

  /** What a call does to the exposed set, once its path string is cleaned and checked. */
  datatype Effect = Nothing | Exposure(key: Path, readOnly: bool) | Withdrawal(key: Path)

  function EffectOf(op: Op): Effect {
    match op
    case Add(p, ro, onHost) => if IsAbs(p) && onHost then Exposure(Components(p), ro) else Nothing
    case Remove(p) => if IsAbs(p) then Withdrawal(Components(p)) else Nothing
  }

  function Effects(ops: seq<Op>): (effects: seq<Effect>)
    ensures |effects| == |ops| && forall i :: 0 <= i < |ops| ==> effects[i] == EffectOf(ops[i])
  {
    seq(|ops|, i requires 0 <= i < |ops| => EffectOf(ops[i]))
  }

  function Apply(m: Modes, effect: Effect): Modes {
    match effect
    case Nothing => m
    case Exposure(k, ro) => m[k := ro]
    case Withdrawal(k) => m - {k}
  }

  function Replay(effects: seq<Effect>): Modes {
    if effects == [] then map[] else Apply(Replay(Front(effects)), Last(effects))
  }

  /** The flags after a call: an exposure sets those on the way, and flags go with their nodes. */
  ghost function FlagStep(flags: set<Path>, effect: Effect, after: Modes): set<Path> {
    if effect.Exposure? then flags + OnTheWay(effect.key) else StillFlagged(flags, after)
  }

  ghost function Flags(effects: seq<Effect>): set<Path> {
    if effects == [] then {} else FlagStep(Flags(Front(effects)), Last(effects), Replay(effects))
  }

  lemma OneMore(ops: seq<Op>, i: nat)
    requires i < |ops|
    ensures Replay(Effects(ops[..i + 1])) == Apply(Replay(Effects(ops[..i])), EffectOf(ops[i]))
    ensures Flags(Effects(ops[..i + 1])) ==
            FlagStep(Flags(Effects(ops[..i])), EffectOf(ops[i]), Replay(Effects(ops[..i + 1])))
  {
    assert Front(Effects(ops[..i + 1])) == Effects(ops[..i]);
  }

  method Perform(r: PathRegistry, op: Op)
    requires r.Valid()
    modifies r, r.repr
    ensures r.Valid() && fresh(r.repr - old(r.repr))
    ensures r.modes == Apply(old(r.modes), EffectOf(op))
    ensures r.flagged == FlagStep(old(r.flagged), EffectOf(op), r.modes)
  {
    assert StillFlagged(r.flagged, r.modes) == r.flagged;
    match op
    case Add(p, ro, onHost) =>
      var _ := r.AddPath(p, ro, onHost);
    case Remove(p) =>
      r.RemovePath(p);
  }

  method Run(ops: seq<Op>) returns (r: PathRegistry)
    ensures r.Valid() && r.modes == Replay(Effects(ops)) && r.flagged == Flags(Effects(ops))
    ensures fresh(r) && fresh(r.repr)
  {
    r := new PathRegistry();
    assert ops[..0] == [];
    for i := 0 to |ops|
      invariant r.Valid() && fresh(r) && fresh(r.repr)
      invariant r.modes == Replay(Effects(ops[..i])) && r.flagged == Flags(Effects(ops[..i]))
    {
      OneMore(ops, i);
      Perform(r, ops[i]);
    }
    assert ops[..|ops|] == ops;
  }

  /** Call i is the last one that had any effect on k, and it exposed k. */
  ghost predicate LastExposure(effects: seq<Effect>, k: Path, i: int) {
    && 0 <= i < |effects| && effects[i].Exposure? && effects[i].key == k
    && forall j :: i < j < |effects| ==> effects[j].Nothing? || effects[j].key != k
  }

  /** A path is exposed just when its last effective call exposed it, and with that call's mode. */
  lemma {:induction false} ExposedByLastCall(effects: seq<Effect>, k: Path)
    ensures k in Replay(effects) <==> exists i :: LastExposure(effects, k, i)
    ensures forall i :: LastExposure(effects, k, i) ==>
              k in Replay(effects) && Replay(effects)[k] == effects[i].readOnly
    decreases |effects|
  {
    if effects != [] {
      var before, n := Front(effects), |effects| - 1;
      ExposedByLastCall(before, k);
      if !effects[n].Nothing? && effects[n].key == k {
        if effects[n].Exposure? {
          assert LastExposure(effects, k, n);
        }
      } else {
        assert forall i :: LastExposure(before, k, i) <==> LastExposure(effects, k, i);
      }
    }
  }

  /** Withdrawing a path that was newly exposed restores the registry's meaning. */
  lemma RemoveUndoesAdd(effects: seq<Effect>, k: Path, ro: bool)
    requires k !in Replay(effects)
    ensures Replay(effects + [Exposure(k, ro), Withdrawal(k)]) == Replay(effects)
  {
    var a, b := effects + [Exposure(k, ro)], effects + [Exposure(k, ro), Withdrawal(k)];
    assert Front(b) == a && Front(a) == effects;
    assert Replay(effects)[k := ro] - {k} == Replay(effects);
  }

  /** The trie is a function of the exposed set: no history leaves stray or missing nodes. */
  lemma SameMeaningSameTrie(a: PathRegistry, b: PathRegistry)
    requires a.Valid() && b.Valid() && a.modes.Keys == b.modes.Keys
    ensures a.nodes.Keys == b.nodes.Keys
    ensures forall k :: k in a.nodes ==>
      && a.nodes[k].children.Keys == b.nodes[k].children.Keys
      && a.nodes[k].isExposed == b.nodes[k].isExposed
  {
    forall k
      ensures k in a.nodes <==> k in b.nodes
      ensures k in a.nodes ==> a.nodes[k].isExposed == b.nodes[k].isExposed
    {
      SameNode(a, b, k);
    }
    forall k, c | k in a.nodes
      ensures c in a.nodes[k].children <==> c in b.nodes[k].children
    {
      SameChild(a, b, k, c);
    }
  }

  lemma SameNode(a: PathRegistry, b: PathRegistry, k: Path)
    requires a.Valid() && b.Valid() && a.modes.Keys == b.modes.Keys
    ensures k in a.nodes <==> k in b.nodes
    ensures k in a.nodes ==> a.nodes[k].isExposed == b.nodes[k].isExposed
  {
    a.NodesArePrefixes(k);
    b.NodesArePrefixes(k);
    CoversAgree(a.modes, b.modes, k);
    if k in a.nodes && k in b.nodes {
      assert a.Backed(k) && b.Backed(k);
    }
  }

  lemma CoversAgree(m: Modes, n: Modes, k: Path)
    requires m.Keys == n.Keys
    ensures AboveExposed(m, k) <==> AboveExposed(n, k)
  {
    assert forall e :: e in m <==> e in n;
  }

  lemma SameChild(a: PathRegistry, b: PathRegistry, k: Path, c: string)
    requires a.Valid() && b.Valid() && a.modes.Keys == b.modes.Keys
    requires k in a.nodes && k in b.nodes
    ensures c in a.nodes[k].children <==> c in b.nodes[k].children
  {
    var child := k + [c];
    assert child[..|k|] == k && child[..|k| + 1] == child;
    a.ChildLookup(child, |k|);
    b.ChildLookup(child, |k|);
    SameNode(a, b, child);
  }

  // ---------------------------------------------------------------- the descendants flag

  /** Call i exposed something strictly below k, and k has led to something exposed ever since. */
  ghost predicate FlaggedSince(effects: seq<Effect>, k: Path, i: int) {
    && 0 <= i < |effects| && effects[i].Exposure? && k < effects[i].key
    && forall j :: i < j <= |effects| ==> AboveExposed(Replay(effects[..j]), k)
  }

  /** One more call: what was flagged since call i still is, as long as k leads to something exposed. */
  lemma FlaggedSinceNext(effects: seq<Effect>, k: Path, i: int)
    requires effects != [] && 0 <= i < |effects| - 1
    ensures FlaggedSince(effects, k, i) <==> FlaggedSince(Front(effects), k, i) && AboveExposed(Replay(effects), k)
  {
    var front := Front(effects);
    assert effects[..|effects|] == effects;
    assert forall j :: 0 <= j <= |front| ==> front[..j] == effects[..j];
    if FlaggedSince(effects, k, i) {
      forall j | i < j <= |front|
        ensures AboveExposed(Replay(front[..j]), k)
      {
        assert front[..j] == effects[..j];
      }
    } else if FlaggedSince(front, k, i) && AboveExposed(Replay(effects), k) {
      forall j | i < j <= |effects|
        ensures AboveExposed(Replay(effects[..j]), k)
      {
        assert j < |effects| ==> front[..j] == effects[..j];
      }
    }
  }

  lemma FlaggedNow(effects: seq<Effect>, k: Path)
    requires effects != []
    ensures FlaggedSince(effects, k, |effects| - 1) <==> Last(effects).Exposure? && k < Last(effects).key
  {
    assert effects[..|effects|] == effects;
    if Last(effects).Exposure? && k < Last(effects).key {
      assert Last(effects).key in Replay(effects) && k <= Last(effects).key;
    }
  }

  /** What was flagged before leads on after an exposure. */
  lemma StillLeads(effects: seq<Effect>, k: Path, i: int)
    requires effects != [] && Last(effects).Exposure? && FlaggedSince(Front(effects), k, i)
    ensures AboveExposed(Replay(effects), k)
  {
    var front := Front(effects);
    assert front[..|front|] == front && AboveExposed(Replay(front), k);
    var e :| e in Replay(front) && k <= e;
    assert e in Replay(effects);
  }

  /** A path is flagged just when something strictly below it was exposed and its node never vanished since. */
  lemma {:induction false} FlaggedIffSince(effects: seq<Effect>, k: Path)
    requires k != []
    ensures k in Flags(effects) <==> exists i :: FlaggedSince(effects, k, i)
    decreases |effects|
  {
    if effects != [] {
      var front := Front(effects);
      FlaggedIffSince(front, k);
      FlaggedNow(effects, k);
      if i :| FlaggedSince(effects, k, i) && i < |front| {
        FlaggedSinceNext(effects, k, i);
      }
      if i :| FlaggedSince(front, k, i) {
        FlaggedSinceNext(effects, k, i);
        if Last(effects).Exposure? {
          StillLeads(effects, k, i);
        }
      }
    }
  }

  /** The flag of any node but "/", whatever the history. */
  lemma DescendantsFlag(r: PathRegistry, effects: seq<Effect>, k: Path)
    requires r.Valid() && r.modes == Replay(effects) && r.flagged == Flags(effects) && k in r.nodes && k != []
    ensures r.nodes[k].hasExposedDescendants <==> exists i :: FlaggedSince(effects, k, i)
  {
    assert r.Backed(k);
    FlaggedIffSince(effects, k);
  }

  /** So it never misses anything, and on a node that is not exposed itself it is exact. */
  lemma DescendantsFlagExact(r: PathRegistry, k: Path)
    requires r.Valid() && k in r.nodes && k != []
    ensures LeadsOn(r.modes.Keys, k) ==> r.nodes[k].hasExposedDescendants
    ensures k !in r.modes ==> LeadsOn(r.modes.Keys, k)
  {
    assert r.Backed(k);
    if k !in r.modes {
      r.NodesArePrefixes(k);
      var e :| e in r.modes && k <= e;
      PrefixesComparable(k, k, e);
    }
  }

  /** On an exposed node it can outlive what it was set for. */
  method StaleFlag() returns (r: PathRegistry)
    ensures r.Valid() && r.modes == map[["a"] := false]
    ensures ["a"] in r.nodes && r.nodes[["a"]].hasExposedDescendants
  {
    r := Run([Add("/a", false, true), Add("/a/b", false, true), Remove("/a/b")]);
    StaleEffects([Add("/a", false, true), Add("/a/b", false, true), Remove("/a/b")]);
    StaleHistory();
    assert r.Backed(["a"]);
  }

  lemma StaleEffects(ops: seq<Op>)
    requires ops == [Add("/a", false, true), Add("/a/b", false, true), Remove("/a/b")]
    ensures Effects(ops) == [Exposure(["a"], false), Exposure(["a", "b"], false), Withdrawal(["a", "b"])]
  {
    assert Abs(["a"]) == "/a" && Abs(["a", "b"]) == "/a/b" by {
      assert ["a", "b"][1..] == ["b"] && Join(["a", "b"]) == "a" + "/" + Join(["b"]);
    }
    ComponentsAbs(["a"]);
    ComponentsAbs(["a", "b"]);
  }

  lemma StaleHistory()
    ensures var effects := [Exposure(["a"], false), Exposure(["a", "b"], false), Withdrawal(["a", "b"])];
      Replay(effects) == map[["a"] := false] && ["a"] in Flags(effects)
  {
    var a, ab := ["a"], ["a", "b"];
    var one, two := [Exposure(a, false)], [Exposure(a, false), Exposure(ab, false)];
    var three := [Exposure(a, false), Exposure(ab, false), Withdrawal(ab)];
    assert Front(three) == two && Front(two) == one && Front(one) == [];
    assert Replay(one) == map[a := false];
    assert Replay(two) == map[a := false, ab := false];
    assert |a| != |ab| && Replay(three) == map[a := false];
    assert a < ab && a in Flags(two);
    assert a in Replay(three) && a <= a && AboveExposed(Replay(three), a);
  }
}
