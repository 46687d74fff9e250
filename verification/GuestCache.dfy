/**
 The guest client's cache-touching operations (guest/9pfuse/client.go, guest/9pfuse/fuse.go) against
 the host's files, as one sequence of operations. `ok` says whether the host carries a request out: it
 refuses whatever is not exposed or is read-only, and a call can fail to reach it.

 The cache is keyed by the guest's paths. The host is walked to what parsePath makes of a path, with every
 name widened; only the last name of a path to be created, removed or renamed is sent as it is.
 */
module GuestCache {
  import opened Paths
  import opened Wrappers
  import opened AttrCache
  import opened GuestPaths
  import opened ServerFs

  /** An open file: the path it was opened under and the host's inode behind it. */
  datatype Handle = Handle(path: HostPath, inode: nat)

  datatype State = State(fs: Fs, cache: Entries<HostPath, Inode>, handles: map<nat, Handle>, nextFid: nat,
                         now: nat, ttl: nat)

  datatype Event =
    | GetAttr(path: HostPath, ok: bool)
    | Readdir(path: HostPath, ok: bool, fetched: set<Name>)
    | Create(path: HostPath, ok: bool, ino: nat, mode: nat)
    | Mkdir(path: HostPath, ok: bool, ino: nat, mode: nat)
    | Unlink(path: HostPath, ok: bool)
    | Rename(path: HostPath, ok: bool, to: HostPath)
    | Truncate(path: HostPath, ok: bool, size: nat)
    | Chmod(path: HostPath, ok: bool, mode: nat)
    | Chown(path: HostPath, ok: bool, owner: nat)
    | Utimens(path: HostPath, ok: bool, times: nat)
    | OpenForWrite(path: HostPath, ok: bool)
    | Write(fid: nat, ok: bool, offset: nat, length: nat)
    | Close(fid: nat)
    | Tick(elapsed: nat)
    | HostChange(fs: Fs)

  /** filepath.Dir */
  function Parent(p: HostPath): HostPath {
    if p == [] then [] else Front(p)
  }

  /** Where the client gets to when it walks for p; see GuestPaths.ParsesToWidened. */
  function Walked(p: HostPath): HostPath {
    WidenAll(p)
  }

  /** The host's path for an operation on the last name of p, in the directory walked to. */
  function EntryAt(p: HostPath): HostPath {
    if p == [] then [] else Walked(Front(p)) + [Last(p)]
  }

  predicate ChildOf(q: HostPath, p: HostPath) {
    q != [] && Front(q) == p
  }

  /** The names in a directory of the host. */
  function NamesIn(fs: Fs, d: HostPath): (names: set<Name>)
    ensures forall c :: c in names <==> d + [c] in fs.links
  {
    var names := set q | q in fs.links && ChildOf(q, d) :: Last(q);
    assert forall c :: c in names <==> d + [c] in fs.links by {
      forall c
        ensures c in names <==> d + [c] in fs.links
      {
        assert Front(d + [c]) == d && Last(d + [c]) == c;
        if c in names {
          var q :| q in fs.links && ChildOf(q, d) && Last(q) == c;
          assert q == d + [c];
        }
      }
    }
    names
  }

  // ---------------------------------------------------------------- the operations

  function AfterGetAttr(s: State, p: HostPath, ok: bool): State {
    if Lookup(s.cache, p, s.now) != None then s
    else
      var dropped := AfterLookup(s.cache, p, s.now);
      match AttrOf(s.fs, Walked(p))
      case Some(attr) => if ok then s.(cache := dropped[p := Entry(attr, s.now + s.ttl)]) else s.(cache := dropped)
      case None => s.(cache := dropped)
  }

  /** The keys under which the entries of a listed directory are looked up. */
  predicate Listed(s: State, p: HostPath, q: HostPath) {
    ChildOf(q, p) && Walked(p) + [Last(q)] in s.fs.links
  }

  predicate Asked(s: State, p: HostPath, q: HostPath) {
    Listed(s, p, q) && Lookup(s.cache, q, s.now) == None
  }

  /** prefetchAttrs: every listed entry that is not cached is asked for; `fetched` are those that answer. */
  function Prefetched(s: State, p: HostPath, fetched: set<Name>): Entries<HostPath, Inode> {
    map q | q in s.cache.Keys + (set c | c in NamesIn(s.fs, Walked(p)) :: p + [c]) &&
            (if Asked(s, p, q) then Last(q) in fetched && AttrOf(s.fs, Walked(q)) != None else q in s.cache) ::
      if Asked(s, p, q) then Entry(AttrOf(s.fs, Walked(q)).value, s.now + s.ttl) else s.cache[q]
  }

  function AfterOpen(s: State, p: HostPath, inode: nat): State {
    s.(handles := s.handles[s.nextFid := Handle(p, inode)], nextFid := s.nextFid + 1)
  }

  predicate Creates(s: State, p: HostPath, ok: bool, ino: nat) {
    ok && p != [] && EntryAt(p) !in s.fs.links && IsDir(s.fs, Walked(Front(p))) && ino !in s.fs.inodes
  }

  function Next(s: State, e: Event): State {
    match e
    case GetAttr(p, ok) => AfterGetAttr(s, p, ok)
    case Readdir(p, ok, fetched) => if ok && IsDir(s.fs, Walked(p)) then s.(cache := Prefetched(s, p, fetched)) else s
    case Create(p, ok, ino, mode) =>
      var t := s.(cache := s.cache - {Parent(p)});
      if Creates(s, p, ok, ino) then
        AfterOpen(t.(fs := CreateAt(s.fs, EntryAt(p), ino, Inode(false, mode, 0, 0, 0))), p, ino)
      else
        t
    case Mkdir(p, ok, ino, mode) =>
      var t := s.(cache := s.cache - {Parent(p)});
      if Creates(s, p, ok, ino) then t.(fs := CreateAt(s.fs, EntryAt(p), ino, Inode(true, mode, 0, 0, 0))) else t
    case Unlink(p, ok) =>
      s.(cache := s.cache - {p} - {Parent(p)}, fs := if ok then UnlinkAt(s.fs, EntryAt(p)) else s.fs)
    case Rename(p, ok, to) =>
      s.(cache := s.cache - {p} - {to} - {Parent(p)} - {Parent(to)},
         fs := if ok then RenameAt(s.fs, EntryAt(p), EntryAt(to)) else s.fs)
    case Truncate(p, ok, size) =>
      s.(cache := s.cache - {p}, fs := if ok then TruncateAt(s.fs, Walked(p), size) else s.fs)
    case Chmod(p, ok, mode) =>
      s.(cache := s.cache - {p}, fs := if ok then ChmodAt(s.fs, Walked(p), mode) else s.fs)
    case Chown(p, ok, owner) =>
      s.(cache := s.cache - {p}, fs := if ok then ChownAt(s.fs, Walked(p), owner) else s.fs)
    case Utimens(p, ok, times) =>
      s.(cache := s.cache - {p}, fs := if ok then UtimensAt(s.fs, Walked(p), times) else s.fs)
    case OpenForWrite(p, ok) =>
      var t := s.(cache := s.cache - {p});
      if ok && IsFile(s.fs, Walked(p)) then AfterOpen(t, p, s.fs.links[Walked(p)]) else t
    case Write(fid, ok, offset, length) =>
      if fid !in s.handles then s
      else
        var h := s.handles[fid];
        s.(cache := s.cache - {h.path}, fs := if ok then WriteInode(s.fs, h.inode, offset, length) else s.fs)
    case Close(fid) => s.(handles := s.handles - {fid})
    case Tick(elapsed) => s.(now := s.now + elapsed)
    case HostChange(fs) => s.(fs := fs)
  }

  // ---------------------------------------------------------------- coherence

  predicate Hits(s: State, p: HostPath) {
    Lookup(s.cache, p, s.now).Some?
  }

  /** A cached attribute tells the kind, and of a regular file everything. */
  predicate Matches(attr: Inode, node: Option<Inode>) {
    node.Some? && attr.isDir == node.value.isDir && (!attr.isDir ==> attr == node.value)
  }

  /** What a hit tells is what the host would answer now. */
  ghost predicate EntryOk(s: State, p: HostPath) {
    HitOk(Lookup(s.cache, p, s.now), s.fs, Walked(p))
  }

  predicate HitOk(hit: Option<Inode>, fs: Fs, w: HostPath) {
    hit.Some? ==> Matches(hit.value, AttrOf(fs, w))
  }

  /** The inode behind an open file is a file's, whether it still has a name or not. */
  ghost predicate HandleOk(s: State, fid: nat) {
    fid in s.handles ==> s.handles[fid].inode in s.fs.inodes && !s.fs.inodes[s.handles[fid].inode].isDir
  }

  ghost predicate EntriesOk(s: State) {
    forall p {:trigger EntryOk(s, p)} :: EntryOk(s, p)
  }

  ghost predicate FilesOk(s: State) {
    FsOk(s.fs) && forall fid {:trigger HandleOk(s, fid)} :: HandleOk(s, fid)
  }

  ghost predicate Coherent(s: State) {
    FilesOk(s) && EntriesOk(s)
  }

  /** What a hit on a regular file returns is what the host would say now. */
  lemma HitIsCurrent(s: State, p: HostPath)
    requires Coherent(s) && Hits(s, p) && !Lookup(s.cache, p, s.now).value.isDir
    ensures AttrOf(s.fs, Walked(p)) == Lookup(s.cache, p, s.now)
  {
    assert EntryOk(s, p);
  }

  /** q is hit, and stands for the removed entry under another key. */
  ghost predicate AliasOfRemoved(s: State, p: HostPath, q: HostPath) {
    Hits(s, q) && q != p && Walked(q) == EntryAt(p)
  }

  /** q is hit, was not invalidated, and stands for something moved or for a file replaced by a different one. */
  ghost predicate MovedOrReplaced(s: State, p: HostPath, to: HostPath, q: HostPath) {
    && Hits(s, q) && q != p && q != to
    && (EntryAt(p) <= Walked(q) ||
        (Walked(q) == EntryAt(to) && IsFile(s.fs, EntryAt(to)) &&
         AttrOf(s.fs, EntryAt(p)) != AttrOf(s.fs, EntryAt(to))))
  }

  /** q is hit, and names the open file, but is not the path it was opened under. */
  ghost predicate OtherName(s: State, h: Handle, q: HostPath) {
    Hits(s, q) && q != h.path && Walked(q) in s.fs.links && s.fs.links[Walked(q)] == h.inode
  }

  /** The operations that leave a stale entry behind. */
  ghost predicate Unsafe(s: State, e: Event) {
    match e
    case Unlink(p, ok) =>
      ok && UnlinkAt(s.fs, EntryAt(p)) != s.fs && exists q :: AliasOfRemoved(s, p, q)
    case Rename(p, ok, to) =>
      ok && CanRename(s.fs, EntryAt(p), EntryAt(to)) && exists q :: MovedOrReplaced(s, p, to, q)
    case Write(fid, ok, offset, length) =>
      && fid in s.handles && ok && WriteInode(s.fs, s.handles[fid].inode, offset, length) != s.fs
      && exists q :: OtherName(s, s.handles[fid], q)
    case _ => false
  }

  // ---------------------------------------------------------------- one step

  lemma FsNext(s: State, e: Event)
    requires FilesOk(s) && !e.HostChange?
    ensures FsOk(Next(s, e).fs)
  {
    match e
    case Create(p, ok, ino, mode) => CreateKeeps(s.fs, EntryAt(p), ino, Inode(false, mode, 0, 0, 0));
    case Mkdir(p, ok, ino, mode) => CreateKeeps(s.fs, EntryAt(p), ino, Inode(true, mode, 0, 0, 0));
    case Unlink(p, ok) => UnlinkKeeps(s.fs, EntryAt(p));
    case Rename(p, ok, to) =>
      if CanRename(s.fs, EntryAt(p), EntryAt(to)) {
        RenameKeeps(s.fs, EntryAt(p), EntryAt(to));
      }
    case Truncate(p, ok, size) => UpdateKeeps(s.fs, TruncateAt(s.fs, Walked(p), size));
    case Chmod(p, ok, mode) => UpdateKeeps(s.fs, ChmodAt(s.fs, Walked(p), mode));
    case Chown(p, ok, owner) => UpdateKeeps(s.fs, ChownAt(s.fs, Walked(p), owner));
    case Utimens(p, ok, times) => UpdateKeeps(s.fs, UtimensAt(s.fs, Walked(p), times));
    case Write(fid, ok, offset, length) =>
      if fid in s.handles {
        UpdateKeeps(s.fs, WriteInode(s.fs, s.handles[fid].inode, offset, length));
      }
    case _ =>
  }

  lemma HandlesNext(s: State, e: Event, fid: nat)
    requires FilesOk(s) && !e.HostChange?
    ensures HandleOk(Next(s, e), fid)
  {
    assert HandleOk(s, fid);
  }

  /** Whatever the guest does, the host's files stay a tree and its handles stay good. */
  lemma FilesNext(s: State, e: Event)
    requires FilesOk(s) && !e.HostChange?
    ensures FilesOk(Next(s, e))
  {
    FsNext(s, e);
    forall fid
      ensures HandleOk(Next(s, e), fid)
    {
      HandlesNext(s, e, fid);
    }
  }

  /** Everything but what can go wrong. */
  predicate Ordinary(e: Event) {
    !e.Unlink? && !e.Rename? && !e.Write? && !e.HostChange?
  }

  /** Two keys never walk to one inode. */
  lemma OneKey(s: State, p: HostPath, q: HostPath)
    requires FilesOk(s) && Walked(p) in s.fs.links && Walked(q) in s.fs.links
    requires s.fs.links[Walked(p)] == s.fs.links[Walked(q)]
    ensures p == q
  {
    WalkKeepsOrder(p, q);
  }

  /** A change of the inode at a path whose key is invalidated. */
  lemma UpdatedEntry(s: State, p: HostPath, fs: Fs, q: HostPath)
    requires Coherent(s) && fs.links == s.fs.links
    requires forall i :: i in s.fs.inodes && !(Walked(p) in s.fs.links && i == s.fs.links[Walked(p)]) ==>
               i in fs.inodes && fs.inodes[i] == s.fs.inodes[i]
    ensures HitOk(Lookup(s.cache - {p}, q, s.now), fs, Walked(q))
  {
    assert EntryOk(s, q);
    if Walked(p) in s.fs.links && Walked(q) in s.fs.links && s.fs.links[Walked(p)] == s.fs.links[Walked(q)] {
      OneKey(s, p, q);
    }
  }

  lemma CreatedEntry(s: State, p: HostPath, node: Inode, ino: nat, q: HostPath)
    requires Coherent(s)
    ensures HitOk(Lookup(s.cache - {Parent(p)}, q, s.now), CreateAt(s.fs, EntryAt(p), ino, node), Walked(q))
    ensures HitOk(Lookup(s.cache - {Parent(p)}, q, s.now), s.fs, Walked(q))
  {
    assert EntryOk(s, q);
    assert LinkOk(s.fs, Walked(q));
  }

  /** What is fetched is what the host says now. */
  lemma LookedUpEntry(s: State, p: HostPath, ok: bool, q: HostPath)
    requires Coherent(s)
    ensures EntryOk(AfterGetAttr(s, p, ok), q)
  {
    assert EntryOk(s, q);
  }

  /** What prefetching leaves in the cache was there before or is what the host says now. */
  lemma PrefetchedEntry(s: State, p: HostPath, fetched: set<Name>, q: HostPath)
    ensures var cache := Prefetched(s, p, fetched);
      q in cache ==> (q in s.cache && cache[q] == s.cache[q]) ||
                     (AttrOf(s.fs, Walked(q)).Some? && cache[q] == Entry(AttrOf(s.fs, Walked(q)).value, s.now + s.ttl))
  {
  }

  lemma ListedEntry(s: State, p: HostPath, fetched: set<Name>, q: HostPath)
    requires Coherent(s)
    ensures HitOk(Lookup(Prefetched(s, p, fetched), q, s.now), s.fs, Walked(q))
  {
    assert EntryOk(s, q);
    PrefetchedEntry(s, p, fetched, q);
  }

  lemma OrdinaryEntry(s: State, e: Event, q: HostPath)
    requires Coherent(s) && Ordinary(e)
    ensures EntryOk(Next(s, e), q)
  {
    assert EntryOk(s, q);
    match e
    case GetAttr(p, ok) => LookedUpEntry(s, p, ok, q);
    case Readdir(p, ok, fetched) => ListedEntry(s, p, fetched, q);
    case Create(p, ok, ino, mode) => CreatedEntry(s, p, Inode(false, mode, 0, 0, 0), ino, q);
    case Mkdir(p, ok, ino, mode) => CreatedEntry(s, p, Inode(true, mode, 0, 0, 0), ino, q);
    case Truncate(p, ok, size) => UpdatedEntry(s, p, Next(s, e).fs, q);
    case Chmod(p, ok, mode) => UpdatedEntry(s, p, Next(s, e).fs, q);
    case Chown(p, ok, owner) => UpdatedEntry(s, p, Next(s, e).fs, q);
    case Utimens(p, ok, times) => UpdatedEntry(s, p, Next(s, e).fs, q);
    case _ =>
  }

  /** No ordinary operation, carried out or refused, leaves a stale entry behind. */
  lemma OrdinaryKeepsCoherent(s: State, e: Event)
    requires Coherent(s) && Ordinary(e)
    ensures Coherent(Next(s, e))
  {
    FilesNext(s, e);
    forall q
      ensures EntryOk(Next(s, e), q)
    {
      OrdinaryEntry(s, e, q);
    }
  }

  lemma UnlinkEntry(s: State, p: HostPath, ok: bool, q: HostPath)
    requires Coherent(s)
    ensures EntryOk(Next(s, Unlink(p, ok)), q) <==>
            !(ok && UnlinkAt(s.fs, EntryAt(p)) != s.fs && AliasOfRemoved(s, p, q))
  {
    assert EntryOk(s, q);
    assert |Walked(q)| == |q| && |EntryAt(p)| == |p| && (p != [] ==> |Parent(p)| == |p| - 1);
  }

  lemma UnlinkKeepsCoherentIff(s: State, e: Event)
    requires Coherent(s) && e.Unlink?
    ensures Coherent(Next(s, e)) <==> !Unsafe(s, e)
  {
    FilesNext(s, e);
    forall q
      ensures EntryOk(Next(s, e), q) <==>
              !(e.ok && UnlinkAt(s.fs, EntryAt(e.path)) != s.fs && AliasOfRemoved(s, e.path, q))
    {
      UnlinkEntry(s, e.path, e.ok, q);
    }
  }

  lemma WriteEntry(s: State, fid: nat, ok: bool, offset: nat, length: nat, q: HostPath)
    requires Coherent(s) && fid in s.handles
    ensures EntryOk(Next(s, Write(fid, ok, offset, length)), q) <==>
            !(ok && WriteInode(s.fs, s.handles[fid].inode, offset, length) != s.fs && OtherName(s, s.handles[fid], q))
  {
    assert EntryOk(s, q) && HandleOk(s, fid);
    var h := s.handles[fid];
    if WriteInode(s.fs, h.inode, offset, length) != s.fs {
      assert s.fs.inodes[h.inode].size < offset + length;
    }
  }

  /** A write goes wrong if and only if it changes the file and another of its names is cached. */
  lemma WriteKeepsCoherentIff(s: State, e: Event)
    requires Coherent(s) && e.Write?
    ensures Coherent(Next(s, e)) <==> !Unsafe(s, e)
  {
    FilesNext(s, e);
    if e.fid in s.handles {
      forall q
        ensures EntryOk(Next(s, e), q) <==>
                !(e.ok && WriteInode(s.fs, s.handles[e.fid].inode, e.offset, e.length) != s.fs &&
                  OtherName(s, s.handles[e.fid], q))
      {
        WriteEntry(s, e.fid, e.ok, e.offset, e.length, q);
      }
    }
  }

  /** What a path that exists before a rename is afterwards. */
  lemma AfterRename(fs: Fs, from: HostPath, to: HostPath, w: HostPath)
    requires FsOk(fs) && CanRename(fs, from, to) && AttrOf(fs, w).Some?
    ensures AttrOf(RenameAt(fs, from, to), w) ==
            if from <= w then None else if w == to then AttrOf(fs, from) else AttrOf(fs, w)
    ensures w == to ==> IsDir(fs, from) == IsDir(fs, to) && AttrOf(fs, from).Some?
  {
    RenamedAt(fs, from, to, w);
    ExistsBelow(fs, w, to);
    if to <= w {
      PrefixesComparable(to, to, w);
      if from <= w {
        PrefixesComparable(from, to, w);
        PrefixesComparable(to, to, from);
        ExistsBelow(fs, from, to);
      } else {
        assert w == to && from + w[|to|..] == from;
      }
    }
  }

  /** The invalidated parents are neither moved nor replaced. */
  lemma ParentsStay(s: State, p: HostPath, to: HostPath, q: HostPath)
    requires FilesOk(s) && CanRename(s.fs, EntryAt(p), EntryAt(to)) && (q == Parent(p) || q == Parent(to))
    ensures !MovedOrReplaced(s, p, to, q)
  {
    var from, onto := EntryAt(p), EntryAt(to);
    assert p != [] && to != [] && Front(from) == Walked(Front(p)) && Front(onto) == Walked(Front(to));
    assert LinkOk(s.fs, from);
    assert from <= Front(onto) ==> from <= onto;
  }

  /** All that a rename does to other keys. */
  lemma OthersKept(s: State, p: HostPath, to: HostPath, q: HostPath)
    ensures var t := Next(s, Rename(p, true, to));
      && t.fs == RenameAt(s.fs, EntryAt(p), EntryAt(to)) && t == s.(fs := t.fs, cache := t.cache)
      && Lookup(t.cache, q, t.now) == if q in {p, to, Parent(p), Parent(to)} then None else Lookup(s.cache, q, s.now)
  {
  }

  lemma RenameEntry(s: State, p: HostPath, to: HostPath, q: HostPath)
    requires Coherent(s) && CanRename(s.fs, EntryAt(p), EntryAt(to))
    ensures EntryOk(Next(s, Rename(p, true, to)), q) <==> !MovedOrReplaced(s, p, to, q)
  {
    OthersKept(s, p, to, q);
    if q == Parent(p) || q == Parent(to) {
      ParentsStay(s, p, to, q);
    } else if q != p && q != to {
      OtherEntry(s, p, to, q);
    }
  }

  lemma OtherEntry(s: State, p: HostPath, to: HostPath, q: HostPath)
    requires Coherent(s) && CanRename(s.fs, EntryAt(p), EntryAt(to)) && q != p && q != to
    ensures HitOk(Lookup(s.cache, q, s.now), RenameAt(s.fs, EntryAt(p), EntryAt(to)), Walked(q)) <==>
            !MovedOrReplaced(s, p, to, q)
  {
    assert EntryOk(s, q);
    if Hits(s, q) {
      AfterRename(s.fs, EntryAt(p), EntryAt(to), Walked(q));
    }
  }

  /**
   A rename goes wrong if and only if something is cached under a key that stands for what it moves or, under
   another key than its own, for a different file that it replaces: only the two paths and their parents
   are invalidated.
   */
  lemma RenameKeepsCoherentIff(s: State, e: Event)
    requires Coherent(s) && e.Rename?
    ensures Coherent(Next(s, e)) <==> !Unsafe(s, e)
  {
    FilesNext(s, e);
    if e.ok && CanRename(s.fs, EntryAt(e.path), EntryAt(e.to)) {
      forall q
        ensures EntryOk(Next(s, e), q) <==> !MovedOrReplaced(s, e.path, e.to, q)
      {
        RenameEntry(s, e.path, e.to, q);
      }
    } else {
      forall q
        ensures EntryOk(Next(s, e), q)
      {
        assert EntryOk(s, q);
      }
    }
  }

  /** One step, whatever it is. */
  lemma CoherentNextIff(s: State, e: Event)
    requires Coherent(s) && !e.HostChange?
    ensures Coherent(Next(s, e)) <==> !Unsafe(s, e)
  {
    match e
    case Unlink(_, _) => UnlinkKeepsCoherentIff(s, e);
    case Rename(_, _, _) => RenameKeepsCoherentIff(s, e);
    case Write(_, _, _, _) => WriteKeepsCoherentIff(s, e);
    case _ => OrdinaryKeepsCoherent(s, e);
  }

  // ---------------------------------------------------------------- plain ASCII paths

  lemma AsciiWalks(p: HostPath)
    requires Ascii(p)
    ensures Walked(p) == p && EntryAt(p) == p
  {
    WidenAllSame(p);
    if p != [] {
      assert forall i, j :: 0 <= i < |Front(p)| && 0 <= j < |Front(p)[i]| ==> p[i][j] < 0x80;
      WidenAllSame(Front(p));
      assert p == Front(p) + [Last(p)];
    }
  }

  /** With an ASCII path a removal is always safe. */
  lemma AsciiUnlink(s: State, e: Event)
    requires e.Unlink? && Ascii(e.path)
    ensures !Unsafe(s, e)
  {
    AsciiWalks(e.path);
    forall q
      ensures !AliasOfRemoved(s, e.path, q)
    {
      WalkKeepsOrder(e.path, q);
    }
  }

  /** With ASCII paths a rename is unsafe just if something is cached strictly below what it moves. */
  lemma AsciiRename(s: State, e: Event)
    requires e.Rename? && Ascii(e.path) && Ascii(e.to)
    ensures Unsafe(s, e) <==> e.ok && CanRename(s.fs, e.path, e.to) && exists q :: Hits(s, q) && e.path < q
  {
    AsciiWalks(e.path);
    AsciiWalks(e.to);
    if CanRename(s.fs, e.path, e.to) {
      forall q
        ensures MovedOrReplaced(s, e.path, e.to, q) <==> Hits(s, q) && e.path < q
      {
        AsciiMoved(s, e.path, e.to, q);
      }
    }
  }

  lemma AsciiMoved(s: State, p: HostPath, to: HostPath, q: HostPath)
    requires Walked(p) == EntryAt(p) == p && Walked(to) == EntryAt(to) == to && !(p <= to)
    ensures MovedOrReplaced(s, p, to, q) <==> Hits(s, q) && p < q
  {
    WalkKeepsOrder(p, q);
    WalkKeepsOrder(to, q);
    if p <= q {
      PrefixesComparable(p, p, q);
    }
  }

  // ---------------------------------------------------------------- whole runs

  /** A new client of a host with these files. */
  function Fresh(fs: Fs, ttl: nat): State {
    State(fs, map[], map[], 1, 0, ttl)
  }

  function After(s: State, events: seq<Event>): State
    decreases |events|
  {
    if events == [] then s else Next(After(s, Front(events)), Last(events))
  }

  ghost predicate NoUnsafe(s: State, events: seq<Event>)
    decreases |events|
  {
    events == [] || (NoUnsafe(s, Front(events)) && !Unsafe(After(s, Front(events)), Last(events)))
  }

  /** Every state of the run, the last one included, has only entries that are up to date. */
  ghost predicate AlwaysCoherent(s: State, events: seq<Event>)
    decreases |events|
  {
    Coherent(After(s, events)) && (events == [] || AlwaysCoherent(s, Front(events)))
  }

  /**
   Without changes behind the guest's back, every entry is up to date throughout a run of operations if
   and only if none of them is unsafe.
   */
  lemma {:induction false} CoherentIffNoUnsafe(fs: Fs, ttl: nat, events: seq<Event>)
    requires FsOk(fs) && forall i :: 0 <= i < |events| ==> !events[i].HostChange?
    ensures AlwaysCoherent(Fresh(fs, ttl), events) <==> NoUnsafe(Fresh(fs, ttl), events)
    decreases |events|
  {
    if events != [] {
      CoherentIffNoUnsafe(fs, ttl, Front(events));
      if AlwaysCoherent(Fresh(fs, ttl), Front(events)) {
        CoherentNow(Fresh(fs, ttl), Front(events));
        CoherentNextIff(After(Fresh(fs, ttl), Front(events)), Last(events));
      }
    }
  }

  lemma CoherentNow(s: State, events: seq<Event>)
    requires AlwaysCoherent(s, events)
    ensures Coherent(After(s, events))
  {
  }

  /** After any such run a hit on a regular file tells all its current attributes. */
  lemma {:induction false} HitsAreCurrent(fs: Fs, ttl: nat, events: seq<Event>, p: HostPath)
    requires FsOk(fs) && (forall i :: 0 <= i < |events| ==> !events[i].HostChange?) && NoUnsafe(Fresh(fs, ttl), events)
    ensures var s := After(Fresh(fs, ttl), events);
            Hits(s, p) && !Lookup(s.cache, p, s.now).value.isDir ==>
              AttrOf(s.fs, Walked(p)) == Lookup(s.cache, p, s.now)
  {
    CoherentIffNoUnsafe(fs, ttl, events);
    CoherentNow(Fresh(fs, ttl), events);
    var s := After(Fresh(fs, ttl), events);
    if Hits(s, p) && !Lookup(s.cache, p, s.now).value.isDir {
      HitIsCurrent(s, p);
    }
  }

  // ---------------------------------------------------------------- staleness is bounded whatever happens

  /** After the first n events the host said attr about p, and an entry made then expires at `expiry`. */
  ghost predicate Said(s: State, events: seq<Event>, n: int, p: HostPath, entry: Entry<Inode>) {
    && 0 <= n <= |events|
    && AttrOf(After(s, events[..n]).fs, Walked(p)) == Some(entry.attr)
    && After(s, events[..n]).now + s.ttl == entry.expiry
  }

  lemma {:induction false} TtlConstant(s: State, events: seq<Event>)
    ensures After(s, events).ttl == s.ttl
    decreases |events|
  {
    if events != [] {
      TtlConstant(s, Front(events));
    }
  }

  /** An entry that an operation leaves in the cache was there before or is what the host says now. */
  lemma EntryAfter(s: State, e: Event, p: HostPath)
    requires p in Next(s, e).cache
    ensures (p in s.cache && Next(s, e).cache[p] == s.cache[p]) ||
            (AttrOf(s.fs, Walked(p)) == Some(Next(s, e).cache[p].attr) && Next(s, e).cache[p].expiry == s.now + s.ttl)
  {
  }

  lemma {:induction false} EveryEntryWasSaid(s: State, events: seq<Event>, p: HostPath)
    requires s.cache == map[] && p in After(s, events).cache
    ensures exists n :: Said(s, events, n, p, After(s, events).cache[p])
    decreases |events|
  {
    var entry := After(s, events).cache[p];
    var front := Front(events);
    EntryAfter(After(s, front), Last(events), p);
    TtlConstant(s, front);
    if p in After(s, front).cache && After(s, front).cache[p] == entry {
      EveryEntryWasSaid(s, front, p);
      var n :| Said(s, front, n, p, entry);
      assert front[..n] == events[..n];
      assert Said(s, events, n, p, entry);
    } else {
      assert events[..|front|] == front;
      assert Said(s, events, |front|, p, entry);
    }
  }

  /**
   Whatever changes on the host, directory renames and open files included, a hit tells what the host
   said at most ttl ago.
   */
  lemma {:induction false} HitsAreRecent(fs: Fs, ttl: nat, events: seq<Event>, p: HostPath)
    requires var s := After(Fresh(fs, ttl), events); Lookup(s.cache, p, s.now).Some?
    ensures var s := After(Fresh(fs, ttl), events);
            exists n :: 0 <= n <= |events| &&
                        AttrOf(After(Fresh(fs, ttl), events[..n]).fs, Walked(p)) == Lookup(s.cache, p, s.now) &&
                        s.now <= After(Fresh(fs, ttl), events[..n]).now + ttl
  {
    EveryEntryWasSaid(Fresh(fs, ttl), events, p);
    var n :| Said(Fresh(fs, ttl), events, n, p, After(Fresh(fs, ttl), events).cache[p]);
  }

  // ---------------------------------------------------------------- three runs that go wrong

  const D: Name := [100]
  const E: Name := [101]
  const F: Name := [102]
  const G: Name := [103]

  /** The letter é in UTF-8, and those two bytes widened. */
  const ACUTE: Name := [0xC3, 0xA9]
  const WIDE: Name := [0xC3, 0x83, 0xC2, 0xA9]

  function Dir(): Inode {
    Inode(true, 0, 0, 0, 0)
  }

  function File(size: nat): Inode {
    Inode(false, 0, size, 0, 0)
  }

  /** A directory with one file. */
  const SAMPLE: Fs := Fs(map[[] := 0, [D] := 1, [D, F] := 2], map[0 := Dir(), 1 := Dir(), 2 := File(7)])

  /** A directory with two files, one of them under the widened name. */
  const WIDE_SAMPLE: Fs := Fs(map[[] := 0, [D] := 1, [D, F] := 2, [D, WIDE] := 3],
                              map[0 := Dir(), 1 := Dir(), 2 := File(7), 3 := File(5)])

  lemma SamplePaths()
    ensures Walked([D]) == [D] && Walked([D, F]) == [D, F] && Walked([D, G]) == [D, G] && Walked([E]) == [E]
    ensures EntryAt([D]) == [D] && EntryAt([E]) == [E] && EntryAt([D, F]) == [D, F] && EntryAt([D, G]) == [D, G]
  {
    AsciiWalks([D]);
    AsciiWalks([E]);
    AsciiWalks([D, F]);
    AsciiWalks([D, G]);
  }

  lemma WidePaths()
    ensures Walked([D, ACUTE]) == [D, WIDE] && EntryAt([D, WIDE]) == [D, WIDE]
  {
    AsciiWalks([D]);
    assert Front([D, WIDE]) == [D] && Last([D, WIDE]) == WIDE;
    assert ACUTE[1..] == [0xA9] && Widen([0xA9]) == [0xC2, 0xA9];
    assert Widen(ACUTE) == WIDE && Walked([D])[0] == Widen(D);
  }

  /** Moving a directory leaves the attributes of what was below it in the cache, under names that are gone. */
  lemma StaleAfterDirectoryRename()
    ensures var s := After(Fresh(SAMPLE, 100), [GetAttr([D, F], true), Rename([D], true, [E])]);
            Lookup(s.cache, [D, F], s.now) == Some(File(7)) && AttrOf(s.fs, Walked([D, F])) == None
  {
    SamplePaths();
    var first := Next(Fresh(SAMPLE, 100), GetAttr([D, F], true));
    AfterTwo(Fresh(SAMPLE, 100), GetAttr([D, F], true), Rename([D], true, [E]));
    assert first == Fresh(SAMPLE, 100).(cache := map[[D, F] := Entry(File(7), 100)]);
    OthersKept(first, [D], [E], [D, F]);
    assert |[D, F]| != |[D]| && |[D, F]| != |[E]| && |[D, F]| != |Parent([D])| && |[D, F]| != |Parent([E])|;
    SampleMove();
  }

  lemma SampleMove()
    ensures CanRename(SAMPLE, [D], [E]) && AttrOf(RenameAt(SAMPLE, [D], [E]), [D, F]) == None
  {
    assert Front([E]) == [] && [D][0] == D && [E][0] == E && D[0] != E[0];
    RenamedAt(SAMPLE, [D], [E], [D, F]);
  }

  lemma AfterTwo(s: State, a: Event, b: Event)
    ensures After(s, [a]) == Next(s, a) && After(s, [a, b]) == Next(Next(s, a), b)
  {
    assert Front([a, b]) == [a] && Front([a]) == [];
  }

  lemma AfterFour(s: State, a: Event, b: Event, c: Event, d: Event)
    ensures After(s, [a, b, c, d]) == Next(Next(Next(Next(s, a), b), c), d)
  {
    assert Front([a, b, c, d]) == [a, b, c] && Front([a, b, c]) == [a, b];
    AfterTwo(s, a, b);
    assert After(s, [a, b, c]) == Next(Next(Next(s, a), b), c);
  }

  /** A write through a handle opened under the old name invalidates the old name only. */
  lemma StaleAfterOpenFileRename()
    ensures var f, g := [D, F], [D, G];
            var events: seq<Event> :=
              [OpenForWrite(f, true), Rename(f, true, g), GetAttr(g, true), Write(1, true, 0, 9)];
            var s := After(Fresh(SAMPLE, 100), events);
            Lookup(s.cache, g, s.now) == Some(File(7)) && AttrOf(s.fs, Walked(g)) == Some(File(9))
  {
    var f, g := [D, F], [D, G];
    SamplePaths();
    var s1 := Next(Fresh(SAMPLE, 100), OpenForWrite(f, true));
    assert s1 == Fresh(SAMPLE, 100).(handles := map[1 := Handle(f, 2)], nextFid := 2);
    RenamedWhileOpen(s1, f, g);
    LateWrite(Next(s1, Rename(f, true, g)), f, g);
    AfterFour(Fresh(SAMPLE, 100), OpenForWrite(f, true), Rename(f, true, g), GetAttr(g, true), Write(1, true, 0, 9));
  }

  lemma RenamedWhileOpen(s: State, f: HostPath, g: HostPath)
    requires f == [D, F] && g == [D, G] && s.fs == SAMPLE && s.cache == map[]
    ensures var t := Next(s, Rename(f, true, g));
            && t.cache == map[] && t.handles == s.handles && t.now == s.now && t.ttl == s.ttl
            && g in t.fs.links && t.fs.links[g] == 2 && t.fs.inodes == SAMPLE.inodes
  {
    AsciiWalks(f);
    AsciiWalks(g);
    OthersKept(s, f, g, f);
    SampleRename(SAMPLE, F, G, 2);
    NothingToDrop(s, f, g);
  }

  lemma NothingToDrop(s: State, f: HostPath, g: HostPath)
    requires s.cache == map[]
    ensures var t := Next(s, Rename(f, true, g));
            && t.cache == map[] && t.handles == s.handles && t.now == s.now && t.ttl == s.ttl
            && t.fs == RenameAt(s.fs, EntryAt(f), EntryAt(g))
  {
  }

  lemma LateWrite(s: State, f: HostPath, g: HostPath)
    requires s.cache == map[] && s.handles == map[1 := Handle(f, 2)] && f != g && s.now == 0 && s.ttl == 100
    requires Walked(g) in s.fs.links && s.fs.links[Walked(g)] == 2 && 2 in s.fs.inodes && s.fs.inodes[2] == File(7)
    ensures var t := Next(Next(s, GetAttr(g, true)), Write(1, true, 0, 9));
            Lookup(t.cache, g, t.now) == Some(File(7)) && AttrOf(t.fs, Walked(g)) == Some(File(9))
  {
  }

  /** Renaming a file within [D], possibly over another. */
  lemma SampleRename(fs: Fs, x: Name, y: Name, ino: nat)
    requires IsDir(fs, [D]) && IsFile(fs, [D, x]) && fs.links[[D, x]] == ino
    requires x != y && ([D, y] in fs.links ==> IsFile(fs, [D, y]))
    ensures CanRename(fs, [D, x], [D, y])
    ensures var t := RenameAt(fs, [D, x], [D, y]); [D, y] in t.links && t.links[[D, y]] == ino && t.inodes == fs.inodes
  {
    assert Front([D, y]) == [D] && [D, x][1] == x && [D, y][1] == y;
    RenamedAt(fs, [D, x], [D, y], [D, y]);
    assert [D, x] + [D, y][2..] == [D, x];
  }

  /**
   The guest's name é is walked to as another name. What that other name holds is cached under é, and
   replacing it by its own name invalidates that only.
   */
  lemma StaleAfterNonAsciiRename()
    ensures var events := [GetAttr([D, ACUTE], true), Rename([D, F], true, [D, WIDE])];
            var s := After(Fresh(WIDE_SAMPLE, 100), events);
            Lookup(s.cache, [D, ACUTE], s.now) == Some(File(5)) && AttrOf(s.fs, Walked([D, ACUTE])) == Some(File(7))
  {
    var s := Fresh(WIDE_SAMPLE, 100);
    AfterTwo(s, GetAttr([D, ACUTE], true), Rename([D, F], true, [D, WIDE]));
    WidePaths();
    var t := s.(cache := map[[D, ACUTE] := Entry(File(5), 100)]);
    assert Next(s, GetAttr([D, ACUTE], true)) == t;
    WideReplaced(t);
  }

  lemma WideReplaced(s: State)
    requires s.fs == WIDE_SAMPLE
    ensures var t := Next(s, Rename([D, F], true, [D, WIDE]));
      && Lookup(t.cache, [D, ACUTE], t.now) == Lookup(s.cache, [D, ACUTE], s.now)
      && AttrOf(t.fs, [D, WIDE]) == Some(File(7))
  {
    WidePaths();
    AsciiWalks([D, F]);
    SampleRename(WIDE_SAMPLE, F, WIDE, 2);
    OthersKept(s, [D, F], [D, WIDE], [D, ACUTE]);
    assert [D, ACUTE][1] != [D, F][1] && [D, ACUTE][1] != [D, WIDE][1];
    assert |[D, ACUTE]| != |Parent([D, F])| && |[D, ACUTE]| != |Parent([D, WIDE])|;
  }
}
