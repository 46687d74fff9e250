/**
 9passthrough/virtualfs.go: walking and listing the filtered tree, as clients of the registry.
 The host's Lstat and directory reads are function parameters.
 */
module VirtualFs {
  import opened Paths
  import opened Visibility
  import opened PathRegistry
  import opened DirectoryPaging
  import opened Wrappers

  datatype HostInfo = HostInfo(isDir: bool, isSymlink: bool, inode: nat, mtime: nat)

  datatype Qid = HostQid(info: HostInfo) | SyntheticQid(path: string)

  type Lstat = string -> Option<HostInfo>

  datatype WalkResult = Walked(qids: seq<Qid>, path: string) | NoEntry | HostError

  datatype Dirent = Dirent(qid: Qid, isDir: bool, isSymlink: bool, name: string, offset: nat)

  /** An open directory's entries, in the host's order. */
  type HostDir = seq<(string, HostInfo)>

  datatype ReaddirResult = Listed(entries: seq<Dirent>) | ReaddirNoEntry | ReaddirHostError

  // ---------------------------------------------------------------- walking

  /** The path after one name: ".." goes up, "." stays, anything else is joined on. */
  function StepPath(current: string, name: string): string {
    if name == ".." then Dir(current) else if name != "." then JoinPath(current, name) else current
  }

  /** Where the first n names of a walk lead. */
  function PathAfter(start: string, names: seq<string>, n: nat): string
    requires n <= |names|
    decreases n
  {
    if n == 0 then start else StepPath(PathAfter(start, names, n - 1), names[n - 1])
  }

  /** Why a walk cannot stand on p, if it cannot. */
  ghost function Obstacle(m: Modes, lstat: Lstat, p: string): Option<WalkResult> {
    match VisibilityOf(m, Components(p))
    case NotVisible => Some(NoEntry)
    case Exposed => if lstat(p) == None then Some(HostError) else None
    case VirtualAncestor => None
  }

  ghost function QidAt(m: Modes, lstat: Lstat, p: string): Qid
    requires Obstacle(m, lstat, p) == None
  {
    if VisibilityOf(m, Components(p)) == Exposed then HostQid(lstat(p).value) else SyntheticQid(p)
  }

  /** The paths that a walk leads through, one per name. */
  function Trail(start: string, names: seq<string>): (trail: seq<string>)
    ensures |trail| == |names| && forall i :: 0 <= i < |names| ==> trail[i] == PathAfter(start, names, i + 1)
  {
    seq(|names|, i requires 0 <= i < |names| => PathAfter(start, names, i + 1))
  }

  /** Where a walk is after n names. */
  function StandsOn(start: string, trail: seq<string>, n: nat): string
    requires n <= |trail|
  {
    if n == 0 then start else trail[n - 1]
  }

  ghost predicate IsTrail(start: string, names: seq<string>, trail: seq<string>) {
    && |trail| == |names|
    && forall i :: 0 <= i < |names| ==> trail[i] == StepPath(StandsOn(start, trail, i), names[i])
  }

  lemma TrailSteps(start: string, names: seq<string>)
    ensures IsTrail(start, names, Trail(start, names))
    ensures StandsOn(start, Trail(start, names), |names|) == PathAfter(start, names, |names|)
  {
    forall i | 0 <= i < |names|
      ensures PathAfter(start, names, i + 1) == StepPath(StandsOn(start, Trail(start, names), i), names[i])
    {
      assert PathAfter(start, names, i) == StandsOn(start, Trail(start, names), i);
    }
  }

  /** Nothing on the first n paths of the trail is in the way. */
  ghost predicate Clear(m: Modes, lstat: Lstat, trail: seq<string>, n: nat)
    requires n <= |trail|
  {
    forall i :: 0 <= i < n ==> Obstacle(m, lstat, trail[i]) == None
  }

  /** Path i of the trail is the first one that the walk cannot get to, for reason r. */
  ghost predicate FirstObstacle(m: Modes, lstat: Lstat, trail: seq<string>, i: int, r: WalkResult) {
    0 <= i < |trail| && Clear(m, lstat, trail, i) && Obstacle(m, lstat, trail[i]) == Some(r)
  }

  /** The QIDs of the first |qids| paths. */
  ghost predicate QidsOk(m: Modes, lstat: Lstat, trail: seq<string>, qids: seq<Qid>)
    requires |qids| <= |trail| && Clear(m, lstat, trail, |qids|)
  {
    forall i :: 0 <= i < |qids| ==> qids[i] == QidAt(m, lstat, trail[i])
  }

  class VirtualFile {
    var path: string
    const registry: PathRegistry

    constructor (path: string, registry: PathRegistry)
      ensures this.path == path && this.registry == registry
    {
      this.path := path;
      this.registry := registry;
    }

    /**
     A walk succeeds, with one QID per name, exactly when nothing on the way is hidden or gone;
     otherwise it reports the first obstacle, which is path `stop` of the trail.
     */
    method Walk(names: seq<string>, lstat: Lstat) returns (r: WalkResult, ghost stop: nat)
      requires registry.Valid()
      ensures r.Walked? <==> Clear(registry.modes, lstat, Trail(path, names), |names|)
      ensures r.Walked? ==> r.path == PathAfter(path, names, |names|)
      ensures r.Walked? ==> |r.qids| == |names| && QidsOk(registry.modes, lstat, Trail(path, names), r.qids)
      ensures !r.Walked? ==> FirstObstacle(registry.modes, lstat, Trail(path, names), stop, r)
      ensures forall i :: 0 <= i < |names| && (r.Walked? || i < stop) ==>
                && VisibilityOf(registry.modes, Components(Trail(path, names)[i])) != NotVisible
                && (VisibilityOf(registry.modes, Components(Trail(path, names)[i])) == Exposed ==>
                      lstat(Trail(path, names)[i]).Some?)
      ensures r.Walked? ==> forall i :: 0 <= i < |names| ==>
                r.qids[i] == if VisibilityOf(registry.modes, Components(Trail(path, names)[i])) == Exposed
                             then HostQid(lstat(Trail(path, names)[i]).value)
                             else SyntheticQid(Trail(path, names)[i])
      ensures !r.Walked? ==>
                match VisibilityOf(registry.modes, Components(Trail(path, names)[stop]))
                case NotVisible => r == NoEntry
                case Exposed => r == HostError && lstat(Trail(path, names)[stop]).None?
                case VirtualAncestor => false
    {
      TrailSteps(path, names);
      r, stop := Follow(names, lstat, Trail(path, names));
    }

    /** Walk's loop along the trail. */
    method Follow(names: seq<string>, lstat: Lstat, ghost trail: seq<string>) returns (r: WalkResult, ghost stop: nat)
      requires registry.Valid() && IsTrail(path, names, trail)
      ensures r.Walked? <==> Clear(registry.modes, lstat, trail, |names|)
      ensures r.Walked? ==> r.path == StandsOn(path, trail, |names|)
      ensures r.Walked? ==> |r.qids| == |names| && QidsOk(registry.modes, lstat, trail, r.qids)
      ensures !r.Walked? ==> FirstObstacle(registry.modes, lstat, trail, stop, r)
    {
      var currentPath := path;
      var qids := [];
      ghost var m := registry.modes;
      for i := 0 to |names|
        invariant currentPath == StandsOn(path, trail, i) && |qids| == i
        invariant Clear(m, lstat, trail, i) && QidsOk(m, lstat, trail, qids)
      {
        currentPath := Step(currentPath, names[i]);
        assert currentPath == trail[i];
        var obstacle, qid := Visit(currentPath, lstat);
        if obstacle.Some? {
          Blocked(m, lstat, trail, i, obstacle.value);
          return obstacle.value, i;
        }
        OneQid(m, lstat, trail, qids, qid.value);
        qids := qids + [qid.value];
      }
      r, stop := Walked(qids, currentPath), |names|;
    }

    method Step(current: string, name: string) returns (next: string)
      ensures next == StepPath(current, name)
    {
      next := current;
      if name == ".." {
        next := Dir(current);
      } else if name != "." {
        next := JoinPath(current, name);
      }
    }

    /** The visibility check and QID of one walk step. */
    method Visit(currentPath: string, lstat: Lstat) returns (obstacle: Option<WalkResult>, qid: Option<Qid>)
      requires registry.Valid()
      ensures obstacle == Obstacle(registry.modes, lstat, currentPath)
      ensures obstacle == None ==> qid == Some(QidAt(registry.modes, lstat, currentPath))
    {
      var visibility := registry.CheckPath(currentPath);
      match visibility {
        case NotVisible =>
          return Some(NoEntry), None;
        case Exposed =>
          var info := lstat(currentPath);
          if info == None {
            return Some(HostError), None;
          }
          return None, Some(HostQid(info.value));
        case VirtualAncestor =>
          return None, Some(SyntheticQid(currentPath));
      }
    }

    /**
     A page of the directory's listing. `dir` is what the host's directory read returns, None if it fails.
     */
    method Readdir(offset: nat, count: nat, lstat: Lstat, dir: Option<HostDir>)
      returns (r: ReaddirResult, ghost items: seq<Option<Dirent>>)
      requires registry.Valid()
      ensures r.Listed? ==> IsListing(registry.modes, lstat, dir, path, items)
      ensures r.Listed? ==> r.entries == Page(items, offset, count)
      ensures r.ReaddirNoEntry? <==> VisibilityOf(registry.modes, Components(path)) == NotVisible
      ensures r.ReaddirHostError? <==> VisibilityOf(registry.modes, Components(path)) == Exposed && dir.None?
      ensures r.Listed? && VisibilityOf(registry.modes, Components(path)) == Exposed ==>
                && |r.entries| == (var rest := if offset < |dir.value| then |dir.value| - offset else 0;
                                   if 0 < count < rest then count else rest)
                && forall j :: 0 <= j < |r.entries| ==>
                     var (name, info) := dir.value[offset + j];
                     r.entries[j] == Dirent(HostQid(info), info.isDir, info.isSymlink, name, offset + j + 1)
      ensures r.Listed? && VisibilityOf(registry.modes, Components(path)) == VirtualAncestor ==>
                forall e :: e in r.entries ==>
                  && (exists x :: x in registry.modes && Components(path) + [e.name] <= x)
                  && var child := JoinPath(path, e.name);
                     if VisibilityOf(registry.modes, Components(child)) == Exposed then
                       && lstat(child).Some? && e.qid == HostQid(lstat(child).value)
                       && e.isDir == lstat(child).value.isDir && e.isSymlink == lstat(child).value.isSymlink
                     else
                       e.qid == SyntheticQid(child) && e.isDir && !e.isSymlink
    {
      var visibility := registry.CheckPath(path);
      items := [];
      match visibility {
        case NotVisible =>
          r := ReaddirNoEntry;
        case Exposed =>
          if dir.None? {
            return ReaddirHostError, [];
          }
          var entries := dir.value;
          var listing := seq(|entries|, i requires 0 <= i < |entries| => HostDirent(entries, i));
          items := listing;
          var page := CutPage(listing, offset, count);
          HostPage(entries, listing, offset, count);
          r := Listed(page);
        case VirtualAncestor =>
          var children := registry.GetExposedChildren(path);
          var listing := VirtualListing(children, lstat);
          items := listing;
          var page := CutPage(listing, offset, count);
          assert ChildOrder(registry.modes, Components(path), children);
          forall e | e in page {
            VirtualEntry(registry.modes, lstat, path, children, listing, offset, count, e);
          }
          r := Listed(page);
      }
    }

    /** The dirents of a virtual directory's children, None where the host's Lstat fails. */
    method VirtualListing(children: seq<string>, lstat: Lstat) returns (items: seq<Option<Dirent>>)
      requires registry.Valid()
      ensures |items| == |children|
      ensures forall i :: 0 <= i < |items| ==>
                (items[i].None? <==>
                  VisibilityOf(registry.modes, Components(JoinPath(path, children[i]))) == Exposed &&
                  lstat(JoinPath(path, children[i])).None?)
      ensures forall i :: 0 <= i < |items| && items[i].Some? ==>
                items[i].value.name == children[i] && items[i].value.offset == i + 1
      ensures forall i :: 0 <= i < |items| ==> items[i] == ChildDirent(registry.modes, lstat, path, children, i)
    {
      items := [];
      for i := 0 to |children|
        invariant |items| == i
        invariant forall j :: 0 <= j < i ==> items[j] == ChildDirent(registry.modes, lstat, path, children, j)
      {
        var item := ChildItem(children, i, lstat);
        items := items + [item];
      }
    }

    method ChildItem(children: seq<string>, i: nat, lstat: Lstat) returns (item: Option<Dirent>)
      requires registry.Valid() && i < |children|
      ensures item == ChildDirent(registry.modes, lstat, path, children, i)
    {
      var childPath := JoinPath(path, children[i]);
      var childVisibility := registry.CheckPath(childPath);
      if childVisibility == Exposed {
        var info := lstat(childPath);
        if info.None? {
          return None;
        }
        return Some(Dirent(HostQid(info.value), info.value.isDir, info.value.isSymlink, children[i], i + 1));
      }
      return Some(Dirent(SyntheticQid(childPath), true, false, children[i], i + 1));
    }
  }

  lemma Blocked(m: Modes, lstat: Lstat, trail: seq<string>, i: nat, r: WalkResult)
    requires FirstObstacle(m, lstat, trail, i, r)
    ensures !r.Walked? && !Clear(m, lstat, trail, |trail|)
  {
  }

  lemma OneQid(m: Modes, lstat: Lstat, trail: seq<string>, qids: seq<Qid>, qid: Qid)
    requires |qids| < |trail| && Clear(m, lstat, trail, |qids|) && QidsOk(m, lstat, trail, qids)
    requires Obstacle(m, lstat, trail[|qids|]) == None && qid == QidAt(m, lstat, trail[|qids|])
    ensures Clear(m, lstat, trail, |qids| + 1) && QidsOk(m, lstat, trail, qids + [qid])
  {
    ClearOne(m, lstat, trail, |qids|);
    var longer := qids + [qid];
    forall i | 0 <= i < |longer|
      ensures longer[i] == QidAt(m, lstat, trail[i])
    {
      assert i < |qids| ==> longer[i] == qids[i];
    }
  }

  lemma ClearOne(m: Modes, lstat: Lstat, trail: seq<string>, n: nat)
    requires n < |trail| && Clear(m, lstat, trail, n) && Obstacle(m, lstat, trail[n]) == None
    ensures Clear(m, lstat, trail, n + 1)
  {
  }

  // ---------------------------------------------------------------- listing

  function HostDirent(dir: HostDir, i: nat): Option<Dirent>
    requires i < |dir|
  {
    var (name, info) := dir[i];
    Some(Dirent(HostQid(info), info.isDir, info.isSymlink, name, i + 1))
  }

  ghost function ChildDirent(m: Modes, lstat: Lstat, path: string, order: seq<string>, i: nat): Option<Dirent>
    requires i < |order|
  {
    var child := JoinPath(path, order[i]);
    if VisibilityOf(m, Components(child)) == Exposed then
      match lstat(child)
      case None => None
      case Some(info) => Some(Dirent(HostQid(info), info.isDir, info.isSymlink, order[i], i + 1))
    else
      Some(Dirent(SyntheticQid(child), true, false, order[i], i + 1))
  }

  /** A page of an exposed directory: the host's entries from the offset on. */
  lemma {:induction false} HostPage(dir: HostDir, items: seq<Option<Dirent>>, offset: nat, count: nat)
    requires |items| == |dir| && forall i :: 0 <= i < |items| ==> items[i] == HostDirent(dir, i)
    ensures var page := Page(items, offset, count);
            && |page| == (var rest := if offset < |dir| then |dir| - offset else 0;
                          if 0 < count < rest then count else rest)
            && forall j :: 0 <= j < |page| ==> offset + j < |dir| && Some(page[j]) == HostDirent(dir, offset + j)
  {
    var rest := From(items, offset);
    AllSome(rest);
    var page := Page(items, offset, count);
    forall j | 0 <= j < |page|
      ensures offset + j < |dir| && Some(page[j]) == HostDirent(dir, offset + j)
    {
      assert Some(page[j]) == rest[j] == items[offset + j];
    }
  }

  /** An entry on a page of a virtual directory: a child that the host's Lstat did not fail on. */
  lemma {:induction false} VirtualEntry(m: Modes, lstat: Lstat, path: string, order: seq<string>,
                                        items: seq<Option<Dirent>>, offset: nat, count: nat, e: Dirent)
    requires |items| == |order| && e in Page(items, offset, count)
    requires forall i :: 0 <= i < |items| ==> items[i] == ChildDirent(m, lstat, path, order, i)
    ensures e.name in order
    ensures var child := JoinPath(path, e.name);
            if VisibilityOf(m, Components(child)) == Exposed then
              && lstat(child).Some? && e.qid == HostQid(lstat(child).value)
              && e.isDir == lstat(child).value.isDir && e.isSymlink == lstat(child).value.isSymlink
            else
              e.qid == SyntheticQid(child) && e.isDir && !e.isSymlink
  {
    var j := EntryIndex(From(items, offset), e);
    assert items[offset + j] == ChildDirent(m, lstat, path, order, offset + j) == Some(e);
  }

  /** The names below a directory that lead to exposed paths, each once. */
  ghost predicate ChildOrder(m: Modes, k: Path, order: seq<string>) {
    && (forall i, j :: 0 <= i < j < |order| ==> order[i] != order[j])
    && (forall c :: c in order <==> AboveExposed(m, k + [c]))
  }

  /** The listing that Readdir cuts its page from; for a virtual directory, in some order of its children. */
  ghost predicate IsListing(m: Modes, lstat: Lstat, dir: Option<HostDir>, path: string, items: seq<Option<Dirent>>) {
    match VisibilityOf(m, Components(path))
    case NotVisible => false
    case Exposed =>
      dir.Some? && |items| == |dir.value| && forall i :: 0 <= i < |items| ==> items[i] == HostDirent(dir.value, i)
    case VirtualAncestor =>
      exists order :: ChildOrder(m, Components(path), order) && |items| == |order| &&
                      forall i :: 0 <= i < |items| ==> items[i] == ChildDirent(m, lstat, path, order, i)
  }

  /** Every name that leads to something exposed is listed, unless it is exposed and the host's Lstat fails. */
  lemma {:induction false} ChildIsListed(m: Modes, lstat: Lstat, dir: Option<HostDir>, path: string,
                                         items: seq<Option<Dirent>>, c: string, x: Path) returns (e: Dirent)
    requires IsListing(m, lstat, dir, path, items) && VisibilityOf(m, Components(path)) == VirtualAncestor
    requires x in m && Components(path) + [c] <= x
    requires VisibilityOf(m, Components(JoinPath(path, c))) == Exposed ==> lstat(JoinPath(path, c)).Some?
    ensures e in Page(items, 0, 0) && e.name == c
  {
    var order :| ChildOrder(m, Components(path), order) && |items| == |order| &&
                 forall i :: 0 <= i < |items| ==> items[i] == ChildDirent(m, lstat, path, order, i);
    assert AboveExposed(m, Components(path) + [c]);
    var i :| 0 <= i < |order| && order[i] == c;
    assert items[i] == ChildDirent(m, lstat, path, order, i);
    e := items[i].value;
    EntriesOfSome(items, i);
    assert From(items, 0) == items;
  }

  /**
   Below a path that is not exposed itself, the listed names are exactly the visible children.
   */
  lemma ListedIffVisible(m: Modes, k: Path, order: seq<string>, c: string)
    requires ChildOrder(m, k, order) && VisibilityOf(m, k) != Exposed
    ensures c in order <==> VisibilityOf(m, k + [c]) != NotVisible
  {
    if UnderExposed(m, k + [c]) {
      var e :| e in m && e != [] && e <= k + [c];
      assert Front(k + [c]) == k;
      if e != k + [c] {
        ProperPrefix(e, k + [c]);
      }
      assert AboveExposed(m, k + [c]);
    }
  }

  // ---------------------------------------------------------------- reachability

  lemma StepByName(k: Path, name: string)
    requires CleanPath(k) && CleanName(name)
    ensures CleanPath(k + [name]) && StepPath(Abs(k), name) == Abs(k + [name])
  {
    JoinPathName(k, name);
  }

  /** Whatever the names hold, n steps of a walk lead where path.Clean leads from the names put together. */
  lemma {:induction false} WalkIsClean(k: Path, names: seq<string>, n: nat)
    requires CleanPath(k) && n <= |names|
    ensures PathAfter(Abs(k), names, n) == Clean(Abs(k) + "/" + Join(names[..n]))
    ensures CleanPath(Resolve(true, k, Split(Join(names[..n]))))
    ensures PathAfter(Abs(k), names, n) == Abs(Resolve(true, k, Split(Join(names[..n]))))
    decreases n
  {
    CleanFrom(k, Join(names[..n]));
    if n == 0 {
      assert names[..0] == [] && Resolve(true, k, [""]) == Resolve(true, k, []);
    } else {
      WalkIsClean(k, names, n - 1);
      var before := Split(Join(names[..n - 1]));
      StepResolves(Resolve(true, k, before), names[n - 1]);
      ResolveAppend(true, k, before, Split(names[n - 1]));
      ResolveJoined(k, names, n);
    }
  }

  /** Proper names are appended one by one. */
  lemma {:induction false} AfterCleanNames(k: Path, names: Path, n: nat)
    requires CleanPath(k) && CleanPath(names) && n <= |names|
    ensures PathAfter(Abs(k), names, n) == Abs(k + names[..n])
  {
    WalkIsClean(k, names, n);
    if n == 0 {
      assert k + names[..0] == k && Resolve(true, k, [""]) == Resolve(true, k, []);
    } else {
      SplitJoin(names[..n]);
      ResolveClean(true, k, names[..n]);
    }
  }

  lemma {:induction false} ResolveJoined(k: Path, names: seq<string>, n: nat)
    requires 0 < n <= |names|
    ensures Resolve(true, k, Split(Join(names[..n]))) ==
            Resolve(true, k, Split(Join(names[..n - 1])) + Split(names[n - 1]))
  {
    if n == 1 {
      assert names[..1] == [names[0]] && names[..0] == [];
      assert ([""] + Split(names[0]))[1..] == Split(names[0]);
    } else {
      JoinFront(names[..n]);
      assert Front(names[..n]) == names[..n - 1];
      SplitConcat(Join(names[..n - 1]), names[n - 1]);
    }
  }

  lemma {:induction false} CleanFrom(k: Path, text: string)
    requires CleanPath(k)
    ensures CleanPath(Resolve(true, k, Split(text)))
    ensures Clean(Abs(k) + "/" + text) == Abs(Resolve(true, k, Split(text)))
  {
    JoinPathResolves(k, text);
    if text == "" {
      CleanTrailingSlash(k);
      ComponentsAbs(k);
      assert Abs(k) + "/" + "" == Abs(k) + "/";
    }
  }

  lemma {:induction false} StepResolves(k: Path, name: string)
    requires CleanPath(k)
    ensures StepPath(Abs(k), name) == Abs(Resolve(true, k, Split(name)))
  {
    JoinPathResolves(k, name);
    DirIsParent(k);
    if name == ".." {
      SplitJoin([".."]);
      assert Resolve(true, k, [".."]) == Resolve(true, Push(true, k, ".."), []);
    } else if name == "." {
      SplitJoin(["."]);
      assert Resolve(true, k, ["."]) == Resolve(true, k, []);
    }
  }

  /**
   Reachability: every visible path whose exposed prefixes exist on the host can be walked to
   from the root by its own components, because visibility is closed under prefixes.
   */
  lemma {:induction false} VisibleIsReachable(m: Modes, lstat: Lstat, k: Path)
    requires CleanPath(k) && VisibilityOf(m, k) != NotVisible
    requires forall n :: 0 < n <= |k| && VisibilityOf(m, k[..n]) == Exposed ==> lstat(Abs(k[..n])).Some?
    ensures Clear(m, lstat, Trail("/", k), |k|) && PathAfter("/", k, |k|) == Abs(k)
  {
    forall i | 0 <= i < |k|
      ensures Obstacle(m, lstat, Trail("/", k)[i]) == None
    {
      TrailOfClean(k, i);
      ComponentsAbs(k[..i + 1]);
      VisiblePrefixClosed(m, k, i + 1);
    }
    AfterCleanNames([], k, |k|);
    assert [] + k[..|k|] == k && "/" == Abs([]);
  }

  lemma TrailOfClean(k: Path, i: nat)
    requires CleanPath(k) && i < |k|
    ensures Trail("/", k)[i] == Abs(k[..i + 1])
  {
    assert "/" == Abs([]) && [] + k[..i + 1] == k[..i + 1];
    AfterCleanNames([], k, i + 1);
  }

  /** Whatever the names hold, slashes and dots included, a successful walk only visits visible clean paths. */
  lemma {:induction false} WalkStaysVisible(m: Modes, lstat: Lstat, k: Path, names: seq<string>, n: nat)
    requires CleanPath(k) && 0 < n <= |names| && Clear(m, lstat, Trail(Abs(k), names), |names|)
    ensures exists j :: CleanPath(j) && PathAfter(Abs(k), names, n) == Abs(j) && VisibilityOf(m, j) != NotVisible
  {
    WalkIsClean(k, names, n);
    var j := Resolve(true, k, Split(Join(names[..n])));
    assert Obstacle(m, lstat, Trail(Abs(k), names)[n - 1]) == None;
    ComponentsAbs(j);
  }

  lemma {:induction false} DownAndUpPath(k: Path, name: string)
    requires CleanPath(k) && CleanName(name)
    ensures PathAfter(Abs(k), [name], 1) == PathAfter(Abs(k), [name, ".."], 1) == Abs(k + [name])
    ensures PathAfter(Abs(k), [name, ".."], 2) == Abs(k)
  {
    StepByName(k, name);
    DirIsParent(k + [name]);
    assert Front(k + [name]) == k;
    assert PathAfter(Abs(k), [name], 0) == PathAfter(Abs(k), [name, ".."], 0) == Abs(k);
  }

  /** Going down by a name and up again is allowed wherever going down is, and comes back. */
  lemma {:induction false} DownAndUp(m: Modes, lstat: Lstat, k: Path, name: string)
    requires CleanPath(k) && CleanName(name)
    requires VisibilityOf(m, k) == Exposed ==> lstat(Abs(k)).Some?
    ensures PathAfter(Abs(k), [name, ".."], 2) == Abs(k)
    ensures Clear(m, lstat, Trail(Abs(k), [name]), 1) ==> Clear(m, lstat, Trail(Abs(k), [name, ".."]), 2)
  {
    DownAndUpPath(k, name);
    if Clear(m, lstat, Trail(Abs(k), [name]), 1) {
      assert Obstacle(m, lstat, Trail(Abs(k), [name])[0]) == None;
      ParentOfVisible(m, lstat, k, name);
    }
  }

  lemma {:induction false} ParentOfVisible(m: Modes, lstat: Lstat, k: Path, name: string)
    requires CleanPath(k) && CleanName(name)
    requires VisibilityOf(m, k) == Exposed ==> lstat(Abs(k)).Some?
    requires Obstacle(m, lstat, Abs(k + [name])) == None
    ensures Obstacle(m, lstat, Abs(k)) == None
  {
    ComponentsAbs(k);
    ComponentsAbs(k + [name]);
    VisiblePrefixClosed(m, k + [name], |k|);
    assert (k + [name])[..|k|] == k;
  }
}
