/**
 P9Client's cache-touching methods in their own order of steps: invalidate first, then ask the host. Each
 is proved against the transition of GuestCache that the results about whole runs are about. Time stands
 still within one operation.
 */
module GuestClient {
  import opened Paths
  import opened Wrappers
  import opened AttrCache
  import opened DirectoryPaging
  import Paging = DirectoryPaging
  import opened GuestPaths
  import opened ServerFs
  import opened GuestCache

  class P9Client {
    /** The files on the host, and its clock. */
    var fs: Fs
    var now: nat
    const attrCache: AttrCache<HostPath, Inode>
    var files: map<nat, Handle>
    var nextFid: nat

    ghost function View(): State
      reads this, attrCache
    {
      State(fs, attrCache.entries, files, nextFid, now, attrCache.ttl)
    }

    constructor (fs: Fs, ttl: nat)
      ensures View() == Fresh(fs, ttl) && fresh(attrCache)
    {
      this.fs, now, files, nextFid := fs, 0, map[], 1;
      attrCache := new AttrCache(ttl);
    }

    method AllocateFid(handle: Handle) returns (fid: nat)
      modifies this`files, this`nextFid
      ensures fid == old(nextFid) && nextFid == fid + 1 && files == old(files)[fid := handle]
    {
      fid := nextFid;
      nextFid := nextFid + 1;
      files := files[fid := handle];
    }

    method GetAttr(path: HostPath, ok: bool) returns (attr: Option<Inode>)
      modifies attrCache
      ensures View() == Next(old(View()), Event.GetAttr(path, ok))
      ensures attr == if Lookup(old(attrCache.entries), path, now).Some? then Lookup(old(attrCache.entries), path, now)
                      else if ok then AttrOf(fs, Walked(path)) else None
      ensures if path in old(attrCache.entries) && now <= old(attrCache.entries)[path].expiry then
                attr == Some(old(attrCache.entries)[path].attr) && attrCache.entries == old(attrCache.entries)
              else
                && attr == (if ok then AttrOf(fs, Walked(path)) else None)
                && attrCache.entries == if attr.Some?
                     then old(attrCache.entries)[path := Entry(attr.value, now + attrCache.ttl)]
                     else old(attrCache.entries) - {path}
    {
      var hit := attrCache.Get(path, now);
      if hit.Some? {
        return hit;
      }
      if !ok {
        return None;
      }
      attr := AttrOf(fs, Walked(path));
      if attr.Some? {
        attrCache.Put(path, attr.value, now);
      }
    }

    /**
     Lists a directory page by page and prefetches the attributes of its entries; `fetched` names those that
     answer. Each name comes once.
     */
    method Readdir(path: HostPath, ok: bool, fetched: set<Name>) returns (names: seq<Name>)
      modifies attrCache
      ensures View() == Next(old(View()), Event.Readdir(path, ok, fetched))
      ensures ok && IsDir(fs, Walked(path)) ==>
        NoRepeats(names) && forall c :: c in names <==> Walked(path) + [c] in fs.links
      ensures !(ok && IsDir(fs, Walked(path))) ==> names == [] && attrCache.entries == old(attrCache.entries)
      ensures ok && IsDir(fs, Walked(path)) ==> forall q ::
                if q != [] && Front(q) == path && Last(q) in names
                   && !(q in old(attrCache.entries) && now <= old(attrCache.entries)[q].expiry) then
                  if Last(q) in fetched && AttrOf(fs, Walked(q)).Some? then
                    && q in attrCache.entries
                    && attrCache.entries[q] == Entry(AttrOf(fs, Walked(q)).value, now + attrCache.ttl)
                  else
                    q !in attrCache.entries
                else
                  && (q in attrCache.entries <==> q in old(attrCache.entries))
                  && (q in attrCache.entries ==> attrCache.entries[q] == old(attrCache.entries)[q])
    {
      if !ok || !IsDir(fs, Walked(path)) {
        return [];
      }
      ghost var start := View();
      names := ReadNames(fs, Walked(path));
      PrefetchAttrs(path, names, fetched, start);
      FetchedAll(start, path, fetched, names);
      PrefetchedMeans(start, path, fetched, names);
    }

    method PrefetchAttrs(path: HostPath, names: seq<Name>, fetched: set<Name>, ghost start: State)
      requires start == View()
      modifies attrCache
      ensures attrCache.entries == FetchedSoFar(start, path, fetched, names)
    {
      for i := 0 to |names|
        invariant attrCache.entries == FetchedSoFar(start, path, fetched, names[..i])
      {
        Prefetch(path + [names[i]], names[i] in fetched);
        FetchOne(start, path, fetched, names[..i], names[i]);
        assert names[..i + 1] == names[..i] + [names[i]];
      }
      assert names[..|names|] == names;
    }

    /** One entry of the prefetch loop: skipped if cached, else asked for and stored if it answers. */
    method Prefetch(path: HostPath, answers: bool)
      modifies attrCache
      ensures attrCache.entries == AfterPrefetch(fs, old(attrCache.entries), path, answers, now, attrCache.ttl)
    {
      var hit := attrCache.Get(path, now);
      if hit.Some? || !answers {
        return;
      }
      var attr := AttrOf(fs, Walked(path));
      if attr.Some? {
        attrCache.Put(path, attr.value, now);
      }
    }

    method Create(path: HostPath, ok: bool, ino: nat, mode: nat) returns (fid: Option<nat>)
      modifies this, attrCache
      ensures View() == Next(old(View()), Event.Create(path, ok, ino, mode))
      ensures attrCache.entries == old(attrCache.entries) - {if path == [] then [] else Front(path)}
      ensures fid.Some? <==>
              && ok && path != [] && ino !in old(fs).inodes
              && Walked(Front(path)) + [Last(path)] !in old(fs).links && IsDir(old(fs), Walked(Front(path)))
      ensures fid.Some? ==>
                && fs == Fs(old(fs).links[Walked(Front(path)) + [Last(path)] := ino],
                            old(fs).inodes[ino := Inode(false, mode, 0, 0, 0)])
                && fid.value == old(nextFid) && files == old(files)[fid.value := Handle(path, ino)]
      ensures fid.None? ==> fs == old(fs) && files == old(files)
    {
      attrCache.Invalidate(Parent(path));
      fid := None;
      if ok && path != [] && EntryAt(path) !in fs.links && IsDir(fs, Walked(Front(path))) && ino !in fs.inodes {
        fs := CreateAt(fs, EntryAt(path), ino, Inode(false, mode, 0, 0, 0));
        var n := AllocateFid(Handle(path, ino));
        fid := Some(n);
      }
    }

    method Mkdir(path: HostPath, ok: bool, ino: nat, mode: nat)
      modifies this, attrCache
      ensures View() == Next(old(View()), Event.Mkdir(path, ok, ino, mode))
      ensures attrCache.entries == old(attrCache.entries) - {if path == [] then [] else Front(path)}
      ensures fs ==
              if && ok && path != [] && ino !in old(fs).inodes
                 && Walked(Front(path)) + [Last(path)] !in old(fs).links && IsDir(old(fs), Walked(Front(path)))
              then Fs(old(fs).links[Walked(Front(path)) + [Last(path)] := ino],
                      old(fs).inodes[ino := Inode(true, mode, 0, 0, 0)])
              else old(fs)
    {
      attrCache.Invalidate(Parent(path));
      if ok && path != [] {
        fs := CreateAt(fs, EntryAt(path), ino, Inode(true, mode, 0, 0, 0));
      }
    }

    method Unlink(path: HostPath, ok: bool)
      modifies this, attrCache
      ensures View() == Next(old(View()), Event.Unlink(path, ok))
      ensures attrCache.entries == old(attrCache.entries) - {path, if path == [] then [] else Front(path)}
      ensures fs.inodes == old(fs).inodes
      ensures path != [] ==>
                var entry := Walked(Front(path)) + [Last(path)];
                fs.links == if ok && (IsFile(old(fs), entry) || EmptyDir(old(fs), entry))
                            then old(fs).links - {entry} else old(fs).links
      ensures path == [] ==> fs == old(fs)
    {
      attrCache.Invalidate(path);
      attrCache.Invalidate(Parent(path));
      if ok {
        fs := UnlinkAt(fs, EntryAt(path));
      }
    }

    method Rename(path: HostPath, ok: bool, to: HostPath)
      modifies this, attrCache
      ensures View() == Next(old(View()), Event.Rename(path, ok, to))
      ensures attrCache.entries == old(attrCache.entries) -
                {path, to, if path == [] then [] else Front(path), if to == [] then [] else Front(to)}
      ensures fs.inodes == old(fs).inodes
      ensures path == [] || to == [] || !ok ==> fs == old(fs)
      ensures ok && path != [] && to != [] ==>
                var from, target := Walked(Front(path)) + [Last(path)], Walked(Front(to)) + [Last(to)];
                if !CanRename(old(fs), from, target) then fs == old(fs)
                else forall q ::
                  var was := if target <= q then from + q[|target|..] else q;
                  && (q in fs.links <==> was in old(fs).links && (target <= q || !(from <= q)))
                  && (q in fs.links ==> fs.links[q] == old(fs).links[was])
    {
      attrCache.Invalidate(path);
      attrCache.Invalidate(to);
      attrCache.Invalidate(Parent(path));
      attrCache.Invalidate(Parent(to));
      if ok {
        RenamedEverywhere(fs, EntryAt(path), EntryAt(to));
        fs := RenameAt(fs, EntryAt(path), EntryAt(to));
      }
    }

    method Truncate(path: HostPath, ok: bool, size: nat) returns (done: bool)
      modifies this, attrCache
      ensures View() == Next(old(View()), Event.Truncate(path, ok, size))
      ensures attrCache.entries == old(attrCache.entries) - {path} && fs.links == old(fs).links
      ensures done <==> ok && IsFile(old(fs), Walked(path))
      ensures fs.inodes == if done then old(fs).inodes[fs.links[Walked(path)] :=
                                          old(fs).inodes[fs.links[Walked(path)]].(size := size)]
                           else old(fs).inodes
    {
      attrCache.Invalidate(path);
      done := ok && IsFile(fs, Walked(path));
      if done {
        fs := TruncateAt(fs, Walked(path), size);
      }
    }

    method Chmod(path: HostPath, ok: bool, mode: nat) returns (done: bool)
      modifies this, attrCache
      ensures View() == Next(old(View()), Event.Chmod(path, ok, mode))
      ensures attrCache.entries == old(attrCache.entries) - {path} && fs.links == old(fs).links
      ensures done <==> ok && AttrOf(old(fs), Walked(path)).Some?
      ensures fs.inodes == if done then old(fs).inodes[fs.links[Walked(path)] :=
                                          old(fs).inodes[fs.links[Walked(path)]].(mode := mode)]
                           else old(fs).inodes
    {
      attrCache.Invalidate(path);
      done := ok && AttrOf(fs, Walked(path)).Some?;
      if done {
        fs := ChmodAt(fs, Walked(path), mode);
      }
    }

    /** Invalidates nothing: a cached entry of the path would be stale, but its only caller has removed that. */
    method Chown(path: HostPath, ok: bool, owner: nat)
      modifies this`fs
      ensures fs == if ok then ChownAt(old(fs), Walked(path), owner) else old(fs)
      ensures fs.links == old(fs).links
      ensures fs.inodes == if ok && AttrOf(old(fs), Walked(path)).Some?
                           then old(fs).inodes[fs.links[Walked(path)] :=
                                  old(fs).inodes[fs.links[Walked(path)]].(owner := owner)]
                           else old(fs).inodes
      ensures path !in attrCache.entries ==> View() == Next(old(View()), Event.Chown(path, ok, owner))
    {
      if ok {
        fs := ChownAt(fs, Walked(path), owner);
      }
      assert path !in attrCache.entries ==> attrCache.entries - {path} == attrCache.entries;
    }

    /** Likewise. */
    method Utimens(path: HostPath, ok: bool, times: nat)
      modifies this`fs
      ensures fs == if ok then UtimensAt(old(fs), Walked(path), times) else old(fs)
      ensures fs.links == old(fs).links
      ensures fs.inodes == if ok && AttrOf(old(fs), Walked(path)).Some?
                           then old(fs).inodes[fs.links[Walked(path)] :=
                                  old(fs).inodes[fs.links[Walked(path)]].(times := times)]
                           else old(fs).inodes
      ensures path !in attrCache.entries ==> View() == Next(old(View()), Event.Utimens(path, ok, times))
    {
      if ok {
        fs := UtimensAt(fs, Walked(path), times);
      }
      assert path !in attrCache.entries ==> attrCache.entries - {path} == attrCache.entries;
    }

    /** The FUSE node's Open with a writing flag. */
    method OpenForWrite(path: HostPath, ok: bool) returns (fid: Option<nat>)
      modifies this, attrCache
      ensures View() == Next(old(View()), Event.OpenForWrite(path, ok))
      ensures attrCache.entries == old(attrCache.entries) - {path} && fs == old(fs)
      ensures fid == if ok && IsFile(fs, Walked(path)) then Some(old(nextFid)) else None
      ensures files == if fid.Some? then old(files)[fid.value := Handle(path, fs.links[Walked(path)])] else old(files)
    {
      attrCache.Invalidate(path);
      fid := None;
      if ok && IsFile(fs, Walked(path)) {
        var n := AllocateFid(Handle(path, fs.links[Walked(path)]));
        fid := Some(n);
      }
    }

    /** The FUSE file handle's Write. */
    method Write(fid: nat, ok: bool, offset: nat, length: nat)
      modifies this, attrCache
      ensures View() == Next(old(View()), Event.Write(fid, ok, offset, length))
      ensures files == old(files) && fs.links == old(fs).links
      ensures fid !in files ==> fs == old(fs) && attrCache.entries == old(attrCache.entries)
      ensures fid in files ==> attrCache.entries == old(attrCache.entries) - {files[fid].path}
      ensures fid in files ==>
                var n := files[fid].inode;
                fs.inodes == if ok && n in old(fs).inodes && length > 0 && offset + length > old(fs).inodes[n].size
                             then old(fs).inodes[n := old(fs).inodes[n].(size := offset + length)]
                             else old(fs).inodes
    {
      if fid !in files {
        return;
      }
      var handle := files[fid];
      attrCache.Invalidate(handle.path);
      if ok {
        fs := WriteInode(fs, handle.inode, offset, length);
      }
    }

    /**
     The FUSE node's Setattr: truncate and chmod, whose failure is the result, then chown and utimens, whose
     failure is ignored, then the attributes are read back through the cache. What it reports is what was
     done, and no other path is affected.
     */
    method Setattr(path: HostPath, change: Change, host: Answers) returns (attr: Option<Inode>)
      requires Coherent(View())
      modifies this, attrCache
      ensures Coherent(View()) && fs.links == old(fs.links)
      ensures attr.Some? <==> Succeeds(old(fs), path, change, host)
      ensures attr.Some? ==> attr == AttrOf(fs, Walked(path))
      ensures attr.Some? ==> attr.value == Changed(AttrOf(old(fs), Walked(path)).value, change, host)
      ensures attr.Some? <==>
              && host.getsAttr && AttrOf(old(fs), Walked(path)).Some? && (change.mode.Some? ==> host.chmods)
              && (change.size.Some? ==> host.truncates && !AttrOf(old(fs), Walked(path)).value.isDir)
      ensures attr.Some? ==>
                var was := AttrOf(old(fs), Walked(path)).value;
                && attr.value.isDir == was.isDir
                && attr.value.size == (if change.size.Some? then change.size.value else was.size)
                && attr.value.mode == (if change.mode.Some? then change.mode.value else was.mode)
                && attr.value.owner == (if change.owner.Some? && host.chowns then change.owner.value else was.owner)
                && attr.value.times == (if change.times.Some? && host.utimes then change.times.value else was.times)
      ensures forall w :: w != Walked(path) ==> AttrOf(fs, w) == AttrOf(old(fs), w)
    {
      attrCache.Invalidate(path);
      DropKeepsCoherent(old(View()), path);
      OneName(fs, Walked(path));
      var done := SetSizeAndMode(path, change, host);
      if !done {
        return None;
      }
      SetOwnerAndTimes(path, change, host);
      OrdinaryKeepsCoherent(View(), Event.GetAttr(path, host.getsAttr));
      attr := GetAttr(path, host.getsAttr);
    }

    /** The steps whose failure ends Setattr. */
    method SetSizeAndMode(path: HostPath, change: Change, host: Answers) returns (done: bool)
      requires Coherent(View()) && path !in attrCache.entries
      modifies this, attrCache
      ensures Coherent(View()) && path !in attrCache.entries
      ensures done <==> (change.size.Some? ==> host.truncates && IsFile(old(fs), Walked(path))) &&
                        (change.mode.Some? ==> host.chmods && AttrOf(old(fs), Walked(path)).Some?)
      ensures OnlyAt(old(fs), fs, Walked(path))
      ensures done && AttrOf(old(fs), Walked(path)).Some? ==>
        AttrOf(fs, Walked(path)) == Some(SizeAndMode(AttrOf(old(fs), Walked(path)).value, change))
    {
      if change.size.Some? {
        OrdinaryKeepsCoherent(View(), Event.Truncate(path, host.truncates, change.size.value));
        done := Truncate(path, host.truncates, change.size.value);
        if !done {
          return;
        }
      }
      if change.mode.Some? {
        OrdinaryKeepsCoherent(View(), Event.Chmod(path, host.chmods, change.mode.value));
        done := Chmod(path, host.chmods, change.mode.value);
        if !done {
          return;
        }
      }
      return true;
    }

    /** The steps whose failure does not matter. */
    method SetOwnerAndTimes(path: HostPath, change: Change, host: Answers)
      requires Coherent(View()) && path !in attrCache.entries
      modifies this`fs
      ensures Coherent(View()) && OnlyAt(old(fs), fs, Walked(path))
      ensures AttrOf(old(fs), Walked(path)).Some? ==>
        AttrOf(fs, Walked(path)) == Some(OwnerAndTimes(AttrOf(old(fs), Walked(path)).value, change, host))
    {
      if change.owner.Some? {
        OrdinaryKeepsCoherent(View(), Event.Chown(path, host.chowns, change.owner.value));
        Chown(path, host.chowns, change.owner.value);
      }
      if change.times.Some? {
        OrdinaryKeepsCoherent(View(), Event.Utimens(path, host.utimes, change.times.value));
        Utimens(path, host.utimes, change.times.value);
      }
    }
  }

  // ---------------------------------------------------------------- Setattr

  /** What is to be set, and which of the requests the host carries out. */
  datatype Change = Change(size: Option<nat>, mode: Option<nat>, owner: Option<nat>, times: Option<nat>)

  datatype Answers = Answers(truncates: bool, chmods: bool, chowns: bool, utimes: bool, getsAttr: bool)

  predicate Succeeds(fs: Fs, p: HostPath, change: Change, host: Answers) {
    && AttrOf(fs, Walked(p)).Some? && host.getsAttr
    && (change.size.Some? ==> host.truncates && IsFile(fs, Walked(p))) && (change.mode.Some? ==> host.chmods)
  }

  function SizeAndMode(node: Inode, change: Change): Inode {
    var resized := if change.size.Some? then node.(size := change.size.value) else node;
    if change.mode.Some? then resized.(mode := change.mode.value) else resized
  }

  function OwnerAndTimes(node: Inode, change: Change, host: Answers): Inode {
    var owned := if change.owner.Some? && host.chowns then node.(owner := change.owner.value) else node;
    if change.times.Some? && host.utimes then owned.(times := change.times.value) else owned
  }

  function Changed(node: Inode, change: Change, host: Answers): Inode {
    OwnerAndTimes(SizeAndMode(node, change), change, host)
  }

  /** The same tree, with other attributes at most for the inode at w. */
  ghost predicate OnlyAt(fs: Fs, t: Fs, w: HostPath) {
    && t.links == fs.links && fs.inodes.Keys <= t.inodes.Keys
    && forall i :: i in fs.inodes && !(w in fs.links && i == fs.links[w]) ==> t.inodes[i] == fs.inodes[i]
  }

  lemma OneName(fs: Fs, w: HostPath)
    requires FsOk(fs)
    ensures forall v :: v != w && v in fs.links && w in fs.links ==> fs.links[v] != fs.links[w]
    ensures forall v :: v in fs.links ==> fs.links[v] in fs.inodes
  {
    forall v | v in fs.links
      ensures fs.links[v] in fs.inodes
    {
      assert LinkOk(fs, v);
    }
  }

  lemma DropKeepsCoherent(s: State, p: HostPath)
    requires Coherent(s)
    ensures Coherent(s.(cache := s.cache - {p}))
  {
    var t := s.(cache := s.cache - {p});
    forall q
      ensures EntryOk(t, q)
    {
      assert EntryOk(s, q);
    }
    forall fid
      ensures HandleOk(t, fid)
    {
      assert HandleOk(s, fid);
    }
  }

  // ---------------------------------------------------------------- reading a directory

  /** The host's listing, in some order. */
  method HostListing(fs: Fs, d: HostPath) returns (order: seq<Name>)
    ensures NoRepeats(order) && forall c :: c in order <==> d + [c] in fs.links
  {
    var todo := NamesIn(fs, d);
    ghost var all := todo;
    order := [];
    while todo != {}
      invariant todo <= all && NoRepeats(order)
      invariant forall c :: c in order <==> c in all && c !in todo
      decreases todo
    {
      var c :| c in todo;
      todo := todo - {c};
      order := order + [c];
    }
  }

  /** Readdir's paging loop, on a directory that the host does not change meanwhile. */
  method ReadNames(fs: Fs, d: HostPath) returns (names: seq<Name>)
    ensures NoRepeats(names) && forall c :: c in names <==> d + [c] in fs.links
  {
    var order := HostListing(fs, d);
    var items := seq(|order|, i requires 0 <= i < |order| => Some(order[i]));
    var listing := (k: nat) => items;
    names := ReadAll(listing, |items|, 8192);
    ghost var calls :| Yields(listing, 8192, calls, names);
    SawOne(calls, listing, items);
    FixedListing(items, calls, 8192);
    SomeEntries(order, items);
  }

  lemma {:induction false} SawOne<T>(calls: Calls<T>, listing: nat -> seq<Option<T>>, items: seq<Option<T>>)
    requires Saw(calls, listing) && forall k {:trigger listing(k)} :: listing(k) == items
    ensures Constant(calls, items)
  {
    if calls.Then? {
      SawOne(calls.before, listing, items);
    }
  }

  lemma {:induction false} SomeEntries<T>(order: seq<T>, items: seq<Option<T>>)
    requires |items| == |order| && forall i :: 0 <= i < |order| ==> items[i] == Some(order[i])
    ensures Paging.Entries(items) == order
    decreases |order|
  {
    if order != [] {
      SomeEntries(order[1..], items[1..]);
      assert order == [order[0]] + order[1..];
    }
  }

  // ---------------------------------------------------------------- prefetching

  function AfterPrefetch(fs: Fs, cache: Entries<HostPath, Inode>, q: HostPath, answers: bool, now: nat, ttl: nat):
    Entries<HostPath, Inode>
  {
    if Lookup(cache, q, now).Some? then cache
    else
      var dropped := AfterLookup(cache, q, now);
      match AttrOf(fs, Walked(q))
      case Some(attr) => if answers then dropped[q := Entry(attr, now + ttl)] else dropped
      case None => dropped
  }

  function FetchedSoFar(s: State, p: HostPath, fetched: set<Name>, names: seq<Name>): Entries<HostPath, Inode>
    decreases |names|
  {
    if names == [] then s.cache
    else
      var c := Last(names);
      AfterPrefetch(s.fs, FetchedSoFar(s, p, fetched, Front(names)), p + [c], c in fetched, s.now, s.ttl)
  }

  lemma FetchOne(s: State, p: HostPath, fetched: set<Name>, names: seq<Name>, c: Name)
    ensures FetchedSoFar(s, p, fetched, names + [c]) ==
            AfterPrefetch(s.fs, FetchedSoFar(s, p, fetched, names), p + [c], c in fetched, s.now, s.ttl)
  {
    assert Front(names + [c]) == names && Last(names + [c]) == c;
  }

  /** Each key is asked for at most once, and the others are left alone. */
  lemma {:induction false} FetchedKey(s: State, p: HostPath, fetched: set<Name>, names: seq<Name>, q: HostPath)
    requires NoRepeats(names)
    ensures var cache := FetchedSoFar(s, p, fetched, names);
      if ChildOf(q, p) && Last(q) in names then
        SameEntry(AfterPrefetch(s.fs, s.cache, q, Last(q) in fetched, s.now, s.ttl), cache, q)
      else
        SameEntry(s.cache, cache, q)
    decreases |names|
  {
    if names != [] {
      var front, c := Front(names), Last(names);
      assert c !in front;
      FetchedKey(s, p, fetched, front, q);
      assert ChildOf(q, p) && Last(q) == c <==> q == p + [c];
    }
  }

  ghost predicate SameEntry(a: Entries<HostPath, Inode>, b: Entries<HostPath, Inode>, q: HostPath) {
    (q in a <==> q in b) && (q in a ==> a[q] == b[q])
  }

  lemma FetchedSame(s: State, p: HostPath, fetched: set<Name>, names: seq<Name>, q: HostPath)
    requires NoRepeats(names) && forall c :: c in names <==> Walked(p) + [c] in s.fs.links
    ensures SameEntry(Prefetched(s, p, fetched), FetchedSoFar(s, p, fetched, names), q)
  {
    FetchedKey(s, p, fetched, names, q);
    if Listed(s, p, q) {
      assert q == p + [Last(q)];
    }
  }

  lemma SameEntriesEqual(a: Entries<HostPath, Inode>, b: Entries<HostPath, Inode>)
    requires forall q {:trigger SameEntry(a, b, q)} :: SameEntry(a, b, q)
    ensures a == b
  {
    forall q
      ensures q in a <==> q in b
    {
      assert SameEntry(a, b, q);
    }
    forall q | q in a
      ensures a[q] == b[q]
    {
      assert SameEntry(a, b, q);
    }
  }

  /** Prefetching in plain terms: what was not a hit is stored if it answers and exists, or gone. */
  lemma PrefetchedAt(s: State, p: HostPath, fetched: set<Name>, names: seq<Name>, q: HostPath)
    requires forall c :: c in names <==> Walked(p) + [c] in s.fs.links
    ensures var cache := Prefetched(s, p, fetched);
      if q != [] && Front(q) == p && Last(q) in names && !(q in s.cache && s.now <= s.cache[q].expiry) then
        if Last(q) in fetched && AttrOf(s.fs, Walked(q)).Some? then
          q in cache && cache[q] == Entry(AttrOf(s.fs, Walked(q)).value, s.now + s.ttl)
        else
          q !in cache
      else
        (q in cache <==> q in s.cache) && (q in cache ==> cache[q] == s.cache[q])
  {
    var asked := q != [] && Front(q) == p && Last(q) in names && !(q in s.cache && s.now <= s.cache[q].expiry);
    assert asked <==> Asked(s, p, q);
    if asked {
      assert q == p + [Last(q)];
      assert q in set c | c in NamesIn(s.fs, Walked(p)) :: p + [c];
    }
  }

  lemma PrefetchedMeans(s: State, p: HostPath, fetched: set<Name>, names: seq<Name>)
    requires forall c :: c in names <==> Walked(p) + [c] in s.fs.links
    ensures var cache := Prefetched(s, p, fetched);
      forall q ::
        if q != [] && Front(q) == p && Last(q) in names && !(q in s.cache && s.now <= s.cache[q].expiry) then
          if Last(q) in fetched && AttrOf(s.fs, Walked(q)).Some? then
            q in cache && cache[q] == Entry(AttrOf(s.fs, Walked(q)).value, s.now + s.ttl)
          else
            q !in cache
        else
          (q in cache <==> q in s.cache) && (q in cache ==> cache[q] == s.cache[q])
  {
    forall q {
      PrefetchedAt(s, p, fetched, names, q);
    }
  }

  /** In whatever order the entries are asked for, the cache is that of the transition. */
  lemma FetchedAll(s: State, p: HostPath, fetched: set<Name>, names: seq<Name>)
    requires NoRepeats(names) && forall c :: c in names <==> Walked(p) + [c] in s.fs.links
    ensures FetchedSoFar(s, p, fetched, names) == Prefetched(s, p, fetched)
  {
    var want, have := Prefetched(s, p, fetched), FetchedSoFar(s, p, fetched, names);
    forall q
      ensures SameEntry(want, have, q)
    {
      FetchedSame(s, p, fetched, names, q);
    }
    SameEntriesEqual(want, have);
  }
}
