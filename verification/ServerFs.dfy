/**
 The host file system as the guest's calls see it: a tree of names for numbered inodes. Every name has
 an inode of its own, since hard links are not part of this model.
 */
module ServerFs {
  import opened GuestPaths
  import opened Paths
  import opened Wrappers

  type HostPath = seq<Name>

  /** The attributes that the guest caches; `times` is what the last explicit setting of the times said. */
  datatype Inode = Inode(isDir: bool, mode: nat, size: nat, owner: nat, times: nat)

  datatype Fs = Fs(links: map<HostPath, nat>, inodes: map<nat, Inode>)

  ghost predicate LinkOk(fs: Fs, p: HostPath) {
    p in fs.links ==>
      && fs.links[p] in fs.inodes
      && (p != [] ==> Front(p) in fs.links && fs.links[Front(p)] in fs.inodes && fs.inodes[fs.links[Front(p)]].isDir)
  }

  ghost predicate FsOk(fs: Fs) {
    && (forall p {:trigger LinkOk(fs, p)} :: LinkOk(fs, p))
    && (forall p, q :: p in fs.links && q in fs.links && fs.links[p] == fs.links[q] ==> p == q)
  }

  predicate IsDir(fs: Fs, p: HostPath) {
    p in fs.links && fs.links[p] in fs.inodes && fs.inodes[fs.links[p]].isDir
  }

  predicate IsFile(fs: Fs, p: HostPath) {
    p in fs.links && fs.links[p] in fs.inodes && !fs.inodes[fs.links[p]].isDir
  }

  function AttrOf(fs: Fs, p: HostPath): Option<Inode> {
    if p in fs.links && fs.links[p] in fs.inodes then Some(fs.inodes[fs.links[p]]) else None
  }

  /** In plain terms: the attributes of a path are those of the inode its name leads to, and tell its kind. */
  lemma KindMeans(fs: Fs, p: HostPath)
    ensures AttrOf(fs, p).None? <==> p !in fs.links || fs.links[p] !in fs.inodes
    ensures AttrOf(fs, p).Some? ==> AttrOf(fs, p).value == fs.inodes[fs.links[p]]
    ensures IsDir(fs, p) <==> AttrOf(fs, p).Some? && AttrOf(fs, p).value.isDir
    ensures IsFile(fs, p) <==> AttrOf(fs, p).Some? && !AttrOf(fs, p).value.isDir
    ensures EmptyDir(fs, p) <==> IsDir(fs, p) && forall q :: q in fs.links && p <= q ==> q == p
  {
    if q :| q in fs.links && p < q {
      assert p <= q && q != p;
    }
    if q :| q in fs.links && p <= q && q != p {
      assert p < q;
    }
  }

  predicate EmptyDir(fs: Fs, p: HostPath) {
    IsDir(fs, p) && forall q :: q in fs.links ==> !(p < q)
  }

  /** open with O_CREAT and O_EXCL, or mkdir; the host picks an inode number that is not in use. */
  function CreateAt(fs: Fs, p: HostPath, ino: nat, node: Inode): Fs {
    if p !in fs.links && p != [] && IsDir(fs, Front(p)) && ino !in fs.inodes then
      Fs(fs.links[p := ino], fs.inodes[ino := node])
    else
      fs
  }

  function UnlinkAt(fs: Fs, p: HostPath): Fs {
    if p != [] && (IsFile(fs, p) || EmptyDir(fs, p)) then fs.(links := fs.links - {p}) else fs
  }

  function UpdateInode(fs: Fs, ino: nat, node: Inode): Fs {
    fs.(inodes := fs.inodes[ino := node])
  }

  function TruncateAt(fs: Fs, p: HostPath, size: nat): Fs {
    if IsFile(fs, p) then UpdateInode(fs, fs.links[p], fs.inodes[fs.links[p]].(size := size)) else fs
  }

  function ChmodAt(fs: Fs, p: HostPath, mode: nat): Fs {
    if AttrOf(fs, p).Some? then UpdateInode(fs, fs.links[p], fs.inodes[fs.links[p]].(mode := mode)) else fs
  }

  function ChownAt(fs: Fs, p: HostPath, owner: nat): Fs {
    if AttrOf(fs, p).Some? then UpdateInode(fs, fs.links[p], fs.inodes[fs.links[p]].(owner := owner)) else fs
  }

  function UtimensAt(fs: Fs, p: HostPath, times: nat): Fs {
    if AttrOf(fs, p).Some? then UpdateInode(fs, fs.links[p], fs.inodes[fs.links[p]].(times := times)) else fs
  }

  function WriteInode(fs: Fs, ino: nat, offset: nat, length: nat): Fs {
    if ino in fs.inodes && length > 0 && offset + length > fs.inodes[ino].size then
      UpdateInode(fs, ino, fs.inodes[ino].(size := offset + length))
    else
      fs
  }

  /** When rename(2) moves something. */
  predicate CanRename(fs: Fs, from: HostPath, to: HostPath) {
    && from in fs.links && fs.links[from] in fs.inodes && from != [] && to != [] && IsDir(fs, Front(to))
    && !(from <= to)
    && (to in fs.links ==> (IsFile(fs, from) && IsFile(fs, to)) || (IsDir(fs, from) && EmptyDir(fs, to)))
  }

  /** rename(2) in plain terms: something other than "/" moves into a directory, not below itself; a file may
      replace a file, and a directory an empty one. */
  lemma CanRenameMeans(fs: Fs, from: HostPath, to: HostPath)
    ensures CanRename(fs, from, to) <==>
            && from != [] && to != [] && !(from <= to) && AttrOf(fs, from).Some?
            && AttrOf(fs, Front(to)).Some? && AttrOf(fs, Front(to)).value.isDir
            && (to in fs.links ==>
                  && AttrOf(fs, to).Some? && AttrOf(fs, to).value.isDir == AttrOf(fs, from).value.isDir
                  && (AttrOf(fs, to).value.isDir ==> forall q :: q in fs.links && to <= q ==> q == to))
  {
    KindMeans(fs, to);
  }

  function MovedKeys(fs: Fs, from: HostPath, to: HostPath): set<HostPath> {
    set p | p in fs.links && from <= p :: to + p[|from|..]
  }

  function RenameLinks(fs: Fs, from: HostPath, to: HostPath): map<HostPath, nat> {
    (map p | p in fs.links && !(from <= p) && !(to <= p) :: fs.links[p]) +
    (map p | p in MovedKeys(fs, from, to) && from + p[|to|..] in fs.links :: fs.links[from + p[|to|..]])
  }

  function RenameAt(fs: Fs, from: HostPath, to: HostPath): Fs {
    if CanRename(fs, from, to) then fs.(links := RenameLinks(fs, from, to)) else fs
  }

  // ---------------------------------------------------------------- the tree stays a tree

  lemma CreateKeeps(fs: Fs, p: HostPath, ino: nat, node: Inode)
    requires FsOk(fs)
    ensures FsOk(CreateAt(fs, p, ino, node))
  {
    var t := CreateAt(fs, p, ino, node);
    forall q
      ensures LinkOk(t, q)
    {
      assert LinkOk(fs, q);
    }
    forall q, r | q in t.links && r in t.links && t.links[q] == t.links[r]
      ensures q == r
    {
      assert LinkOk(fs, q) && LinkOk(fs, r);
    }
  }

  lemma UnlinkKeeps(fs: Fs, p: HostPath)
    requires FsOk(fs)
    ensures FsOk(UnlinkAt(fs, p))
  {
    var t := UnlinkAt(fs, p);
    forall q
      ensures LinkOk(t, q)
    {
      assert LinkOk(fs, q);
      if q in t.links && q != [] {
        assert Front(q) < q;
      }
    }
  }

  /** Changing modes and sizes changes nothing about the tree. */
  lemma UpdateKeeps(fs: Fs, t: Fs)
    requires FsOk(fs) && t.links == fs.links && fs.inodes.Keys <= t.inodes.Keys
    requires forall i :: i in fs.inodes ==> t.inodes[i].isDir == fs.inodes[i].isDir
    ensures FsOk(t)
  {
    forall q
      ensures LinkOk(t, q)
    {
      assert LinkOk(fs, q);
    }
  }

  /** What is at q after a rename: below the target what was below the source, elsewhere what was there. */
  lemma RenamedAt(fs: Fs, from: HostPath, to: HostPath, q: HostPath)
    requires CanRename(fs, from, to)
    ensures var after := RenameAt(fs, from, to).links;
      if to <= q then
        (q in after <==> from + q[|to|..] in fs.links) && (q in after ==> after[q] == fs.links[from + q[|to|..]])
      else
        (q in after <==> q in fs.links && !(from <= q)) && (q in after ==> after[q] == fs.links[q])
  {
    var moved := MovedKeys(fs, from, to);
    if q in moved {
      var p :| p in fs.links && from <= p && to + p[|from|..] == q;
      assert q[|to|..] == p[|from|..] && from + p[|from|..] == p;
    }
    if to <= q && from + q[|to|..] in fs.links {
      var p := from + q[|to|..];
      assert p[|from|..] == q[|to|..] && to + p[|from|..] == q;
      assert q in moved;
    }
  }

  lemma RenamedEverywhere(fs: Fs, from: HostPath, to: HostPath)
    ensures RenameAt(fs, from, to).inodes == fs.inodes
    ensures if !CanRename(fs, from, to) then RenameAt(fs, from, to) == fs
            else forall q ::
              var was := if to <= q then from + q[|to|..] else q;
              && (q in RenameAt(fs, from, to).links <==> was in fs.links && (to <= q || !(from <= q)))
              && (q in RenameAt(fs, from, to).links ==> RenameAt(fs, from, to).links[q] == fs.links[was])
  {
    if CanRename(fs, from, to) {
      forall q {
        RenamedAt(fs, from, to, q);
      }
    }
  }

  lemma RenameKeeps(fs: Fs, from: HostPath, to: HostPath)
    requires FsOk(fs) && CanRename(fs, from, to)
    ensures FsOk(RenameAt(fs, from, to))
  {
    var t := RenameAt(fs, from, to);
    forall q
      ensures LinkOk(t, q)
    {
      RenamedAt(fs, from, to, q);
      assert LinkOk(fs, q) && (to <= q ==> LinkOk(fs, from + q[|to|..]));
      if q in t.links && q != [] {
        RenamedParent(fs, from, to, q);
      }
    }
    forall q, r | q in t.links && r in t.links && t.links[q] == t.links[r]
      ensures q == r
    {
      RenamedAt(fs, from, to, q);
      RenamedAt(fs, from, to, r);
      if to <= q && to <= r {
        assert from + q[|to|..] == from + r[|to|..];
        assert (from + q[|to|..])[|from|..] == q[|to|..] && (from + r[|to|..])[|from|..] == r[|to|..];
        assert q == to + q[|to|..] && r == to + r[|to|..];
      }
    }
  }

  lemma MovedParent(fs: Fs, from: HostPath, to: HostPath, q: HostPath)
    requires FsOk(fs) && CanRename(fs, from, to) && to < q && from + q[|to|..] in fs.links
    ensures to <= Front(q) && IsDir(fs, from + Front(q)[|to|..])
  {
    var p := from + q[|to|..];
    assert LinkOk(fs, p);
    assert Front(p) == from + Front(q)[|to|..];
  }

  lemma RenamedParent(fs: Fs, from: HostPath, to: HostPath, q: HostPath)
    requires FsOk(fs) && CanRename(fs, from, to) && q in RenameAt(fs, from, to).links && q != []
    ensures var t := RenameAt(fs, from, to);
            Front(q) in t.links && t.links[Front(q)] in t.inodes && t.inodes[t.links[Front(q)]].isDir
  {
    RenamedAt(fs, from, to, q);
    RenamedAt(fs, from, to, Front(q));
    if to < q {
      MovedParent(fs, from, to, q);
    } else if q == to {
      assert !(to <= Front(to)) && !(from <= Front(to));
    } else {
      assert !(to <= q);
      assert LinkOk(fs, q);
      assert !(to <= Front(q)) && !(from <= Front(q));
    }
  }

  /** Whatever lies below d shows that d exists and is a directory. */
  lemma {:induction false} ExistsBelow(fs: Fs, p: HostPath, d: HostPath)
    requires FsOk(fs) && p in fs.links
    ensures d < p ==> IsDir(fs, d)
    decreases |p|
  {
    assert LinkOk(fs, p);
    if d < p && d != Front(p) {
      ProperPrefix(d, p);
      PrefixesComparable(d, d, Front(p));
      ExistsBelow(fs, Front(p), d);
    }
  }
}
