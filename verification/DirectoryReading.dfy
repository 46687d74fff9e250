/**
 The guest's listing of one directory through the server's Readdir: the client's paging loop
 (guest/9pfuse/client.go:254-275) as a caller of VirtualFile.Readdir (9passthrough/virtualfs.go:595-689).
 */
module DirectoryReading {
  import opened Paths
  import opened Visibility
  import opened DirectoryPaging
  import opened VirtualFs
  import opened Wrappers

  /** Every call saw a listing of this directory. */
  ghost predicate Listings(m: Modes, lstat: Lstat, dir: Option<HostDir>, path: string, calls: Calls<Dirent>) {
    calls.Then? ==> IsListing(m, lstat, dir, path, calls.listing) && Listings(m, lstat, dir, path, calls.before)
  }

  /** The whole listing, page by page; an error on any call is the result. */
  method ReadDirectory(file: VirtualFile, lstat: Lstat, dir: Option<HostDir>)
    returns (r: ReaddirResult, ghost calls: Calls<Dirent>, ghost last: seq<Option<Dirent>>)
    requires file.registry.Valid()
    ensures r.ReaddirNoEntry? <==> VisibilityOf(file.registry.modes, Components(file.path)) == NotVisible
    ensures r.ReaddirHostError? <==> VisibilityOf(file.registry.modes, Components(file.path)) == Exposed && dir.None?
    ensures r.Listed? ==> r.entries == Received(calls) && IsRun(calls, last, 8192)
    ensures r.Listed? ==> Listings(file.registry.modes, lstat, dir, file.path, calls)
    ensures r.Listed? ==> IsListing(file.registry.modes, lstat, dir, file.path, last)
  {
    var entries := [];
    ghost var m := file.registry.modes;
    calls, last := Begin, [];
    ghost var n := ListingLength(m, lstat, dir, file.path);
    while true
      invariant entries == Received(calls) && Possible(calls, 8192) && Listings(m, lstat, dir, file.path, calls)
      invariant calls.Then? ==> |entries| <= n
      invariant calls.Then? ==> VisibilityOf(m, Components(file.path)) != NotVisible
      invariant calls.Then? ==> !(VisibilityOf(m, Components(file.path)) == Exposed && dir.None?)
      decreases n - |entries|
    {
      ghost var items;
      r, items := file.Readdir(|entries|, 8192, lstat, dir);
      if !r.Listed? {
        return;
      }
      SameLength(m, lstat, dir, file.path, items, n);
      var dirents := Transport(r.entries);
      if |dirents| == 0 {
        last := items;
        return Listed(entries), calls, last;
      }
      calls := Then(calls, items, dirents);
      entries := entries + dirents;
    }
  }

  // ---------------------------------------------------------------- listings of one directory

  /** How many items every listing of the directory has. */
  ghost function ListingLength(m: Modes, lstat: Lstat, dir: Option<HostDir>, path: string): nat {
    if items :| IsListing(m, lstat, dir, path, items) then |items| else 0
  }

  lemma SameLength(m: Modes, lstat: Lstat, dir: Option<HostDir>, path: string, items: seq<Option<Dirent>>, n: nat)
    requires IsListing(m, lstat, dir, path, items) && n == ListingLength(m, lstat, dir, path)
    ensures |items| == n
  {
    var other :| IsListing(m, lstat, dir, path, other) && |other| == n;
    if VisibilityOf(m, Components(path)) == VirtualAncestor {
      SameNames(m, lstat, dir, path, items, other);
      assert |multiset(NameItems(items))| == |multiset(NameItems(other))|;
    }
  }

  /** A listing by name only: entries of two listings of one virtual directory differ in their offsets. */
  function NameItems(items: seq<Option<Dirent>>): (names: seq<Option<string>>)
    ensures |names| == |items|
    ensures forall i :: 0 <= i < |items| ==> names[i] == NameItem(items[i])
  {
    seq(|items|, i requires 0 <= i < |items| => NameItem(items[i]))
  }

  function NameItem(item: Option<Dirent>): Option<string> {
    if item.Some? then Some(item.value.name) else None
  }

  function Names(entries: seq<Dirent>): (names: seq<string>)
    ensures |names| == |entries| && forall i :: 0 <= i < |entries| ==> names[i] == entries[i].name
  {
    seq(|entries|, i requires 0 <= i < |entries| => entries[i].name)
  }

  /** The child as listed, wherever it stands: by its name, or not at all. */
  ghost function Shown(m: Modes, lstat: Lstat, path: string, c: string): Option<string> {
    var child := JoinPath(path, c);
    if VisibilityOf(m, Components(child)) == Exposed && lstat(child) == None then None else Some(c)
  }

  ghost function MapTo<S, T>(f: S -> T, s: seq<S>): (t: seq<T>)
    ensures |t| == |s| && forall i :: 0 <= i < |s| ==> t[i] == f(s[i])
  {
    seq(|s|, i requires 0 <= i < |s| => f(s[i]))
  }

  ghost function ShownItems(m: Modes, lstat: Lstat, path: string, order: seq<string>): seq<Option<string>> {
    MapTo(c => Shown(m, lstat, path, c), order)
  }

  lemma ListingShows(m: Modes, lstat: Lstat, dir: Option<HostDir>, path: string, items: seq<Option<Dirent>>)
    returns (order: seq<string>)
    requires IsListing(m, lstat, dir, path, items) && VisibilityOf(m, Components(path)) == VirtualAncestor
    ensures ChildOrder(m, Components(path), order) && NameItems(items) == ShownItems(m, lstat, path, order)
  {
    order :| ChildOrder(m, Components(path), order) && |items| == |order| &&
             forall i :: 0 <= i < |items| ==> items[i] == ChildDirent(m, lstat, path, order, i);
    forall i | 0 <= i < |items|
      ensures NameItems(items)[i] == ShownItems(m, lstat, path, order)[i]
    {
      assert items[i] == ChildDirent(m, lstat, path, order, i);
    }
  }

  lemma {:induction false} Multiplicity<T>(s: seq<T>, x: T)
    requires NoRepeats(s)
    ensures multiset(s)[x] == if x in s then 1 else 0
  {
    AtMostOnce(s, x);
  }

  lemma SameElements<T(!new)>(a: seq<T>, b: seq<T>)
    requires NoRepeats(a) && NoRepeats(b) && forall x :: x in a <==> x in b
    ensures multiset(a) == multiset(b)
  {
    forall x
      ensures multiset(a)[x] == multiset(b)[x]
    {
      Multiplicity(a, x);
      Multiplicity(b, x);
    }
  }

  /** Mapping respects reordering. */
  lemma {:induction false} MapReorders<S, T>(f: S -> T, a: seq<S>, b: seq<S>)
    requires multiset(a) == multiset(b)
    ensures multiset(MapTo(f, a)) == multiset(MapTo(f, b))
    decreases |a|
  {
    if a == [] {
      assert |multiset(b)| == 0;
    } else {
      var j := Occurrence(a, b);
      MapReorders(f, a[1..], b[..j] + b[j + 1..]);
      MapSplit(f, [], a[0], a[1..]);
      assert [] + [a[0]] + a[1..] == a && [] + a[1..] == a[1..];
      MapSplit(f, b[..j], a[0], b[j + 1..]);
    }
  }

  lemma Occurrence<T>(a: seq<T>, b: seq<T>) returns (j: nat)
    requires multiset(a) == multiset(b) && a != []
    ensures j < |b| && b == b[..j] + [a[0]] + b[j + 1..]
    ensures multiset(a[1..]) == multiset(b[..j] + b[j + 1..])
  {
    assert a[0] in multiset(b);
    j :| 0 <= j < |b| && b[j] == a[0];
    TakeOut(a, 0);
    assert a[..0] + a[1..] == a[1..];
    TakeOut(b, j);
  }

  lemma TakeOut<T>(s: seq<T>, j: nat)
    requires j < |s|
    ensures s == s[..j] + [s[j]] + s[j + 1..]
    ensures multiset(s[..j] + s[j + 1..]) == multiset(s) - multiset{s[j]}
  {
    assert s == s[..j] + [s[j]] + s[j + 1..];
    assert multiset(s) == multiset(s[..j]) + multiset{s[j]} + multiset(s[j + 1..]);
  }

  lemma MapSplit<S, T>(f: S -> T, left: seq<S>, c: S, right: seq<S>)
    ensures multiset(MapTo(f, left + [c] + right)) == multiset(MapTo(f, left + right)) + multiset{f(c)}
  {
    var l, r := MapTo(f, left), MapTo(f, right);
    assert MapTo(f, left + [c] + right) == l + [f(c)] + r;
    assert MapTo(f, left + right) == l + r;
  }

  /** Any two listings of a virtual directory hold the same children, by name, in some order. */
  lemma SameNames(m: Modes, lstat: Lstat, dir: Option<HostDir>, path: string,
                  a: seq<Option<Dirent>>, b: seq<Option<Dirent>>)
    requires IsListing(m, lstat, dir, path, a) && IsListing(m, lstat, dir, path, b)
    requires VisibilityOf(m, Components(path)) == VirtualAncestor
    ensures multiset(NameItems(a)) == multiset(NameItems(b))
  {
    var x := ListingShows(m, lstat, dir, path, a);
    var y := ListingShows(m, lstat, dir, path, b);
    SameElements(x, y);
    MapReorders(c => Shown(m, lstat, path, c), x, y);
  }

  // ---------------------------------------------------------------- runs by name

  function NameCalls(calls: Calls<Dirent>): Calls<string> {
    match calls
    case Begin => Begin
    case Then(before, listing, answer) => Then(NameCalls(before), NameItems(listing), Names(answer))
  }

  lemma {:induction false} EntryNames(items: seq<Option<Dirent>>)
    ensures Entries(NameItems(items)) == Names(Entries(items))
    decreases |items|
  {
    if items != [] {
      EntryNames(items[1..]);
      assert NameItems(items)[1..] == NameItems(items[1..]);
    }
  }

  lemma PageNames(items: seq<Option<Dirent>>, offset: nat, count: nat)
    ensures Page(NameItems(items), offset, count) == Names(Page(items, offset, count))
  {
    EntryNames(From(items, offset));
    assert From(NameItems(items), offset) == NameItems(From(items, offset));
  }

  lemma {:induction false} RunNames(calls: Calls<Dirent>, count: nat)
    requires Possible(calls, count)
    ensures Possible(NameCalls(calls), count) && Received(NameCalls(calls)) == Names(Received(calls))
  {
    if calls.Then? {
      RunNames(calls.before, count);
      PageNames(calls.listing, |Received(calls.before)|, count);
    }
  }

  lemma {:induction false} NamesReorder(m: Modes, lstat: Lstat, dir: Option<HostDir>, path: string,
                                        calls: Calls<Dirent>, first: seq<Option<Dirent>>)
    requires Listings(m, lstat, dir, path, calls) && IsListing(m, lstat, dir, path, first)
    requires VisibilityOf(m, Components(path)) == VirtualAncestor
    ensures Reorders(NameCalls(calls), NameItems(first))
  {
    if calls.Then? {
      SameNames(m, lstat, dir, path, calls.listing, first);
      NamesReorder(m, lstat, dir, path, calls.before, first);
    }
  }

  lemma {:induction false} NamesBegin(calls: Calls<Dirent>, first: seq<Option<Dirent>>, got: seq<Dirent>)
    requires BeginsWith(calls, first, got)
    ensures BeginsWith(NameCalls(calls), NameItems(first), Names(got))
  {
    if calls != Then(Begin, first, got) {
      NamesBegin(calls.before, first, got);
    }
  }

  // ---------------------------------------------------------------- what the guest gets

  /** An exposed directory is read exactly: every host entry once, in the host's order. */
  lemma {:induction false} HostDirectoryRead(m: Modes, lstat: Lstat, dir: HostDir, path: string,
                                             calls: Calls<Dirent>, last: seq<Option<Dirent>>, count: nat)
    requires VisibilityOf(m, Components(path)) == Exposed
    requires IsRun(calls, last, count)
    requires Listings(m, lstat, Some(dir), path, calls) && IsListing(m, lstat, Some(dir), path, last)
    ensures |Received(calls)| == |dir|
    ensures forall i :: 0 <= i < |dir| ==>
              && Received(calls)[i].name == dir[i].0 && Received(calls)[i].qid == HostQid(dir[i].1)
              && Received(calls)[i].isDir == dir[i].1.isDir && Received(calls)[i].isSymlink == dir[i].1.isSymlink
              && Received(calls)[i].offset == i + 1
  {
    HostConstant(m, lstat, dir, path, calls, last);
    FixedListing(last, calls, count);
    AllSome(last);
    forall i | 0 <= i < |dir|
      ensures Received(calls)[i] == HostDirent(dir, i).value
    {
      assert Some(Received(calls)[i]) == last[i];
    }
  }

  lemma {:induction false} HostConstant(m: Modes, lstat: Lstat, dir: HostDir, path: string,
                                        calls: Calls<Dirent>, last: seq<Option<Dirent>>)
    requires VisibilityOf(m, Components(path)) == Exposed
    requires Listings(m, lstat, Some(dir), path, calls) && IsListing(m, lstat, Some(dir), path, last)
    ensures Constant(calls, last)
  {
    if calls.Then? {
      HostConstant(m, lstat, dir, path, calls.before, last);
      assert forall i :: 0 <= i < |dir| ==> calls.listing[i] == last[i];
    }
  }

  /** A whole run on a virtual directory, whose first call saw this listing and got this answer. */
  ghost predicate RunThrough(m: Modes, lstat: Lstat, dir: Option<HostDir>, path: string, count: nat,
                             calls: Calls<Dirent>, last: seq<Option<Dirent>>,
                             first: seq<Option<Dirent>>, got: seq<Dirent>)
  {
    && VisibilityOf(m, Components(path)) == VirtualAncestor
    && IsRun(calls, last, count) && Listings(m, lstat, dir, path, calls) && IsListing(m, lstat, dir, path, last)
    && BeginsWith(calls, first, got) && IsListing(m, lstat, dir, path, first) && got != []
  }

  /**
   A virtual directory whose first answer carries all its children is read exactly: every name that leads
   to something exposed, once. When it does not, AnyOrderIff says that some later order repeats a name.
   */
  lemma {:induction false} VirtualDirectoryRead(m: Modes, lstat: Lstat, dir: Option<HostDir>, path: string, count: nat,
                                                calls: Calls<Dirent>, last: seq<Option<Dirent>>,
                                                first: seq<Option<Dirent>>, got: seq<Dirent>)
    ensures RunThrough(m, lstat, dir, path, count, calls, last, first, got) && |got| == |first| ==>
      && NoRepeats(Names(Received(calls)))
      && forall c :: c in Names(Received(calls)) <==> AboveExposed(m, Components(path) + [c])
  {
    if RunThrough(m, lstat, dir, path, count, calls, last, first, got) && |got| == |first| {
      NamedRun(m, lstat, dir, path, count, calls, last, first, got);
      var order := ListingShows(m, lstat, dir, path, first);
      FullRun(NameItems(first), Names(got), count, NameCalls(calls), NameItems(last));
      FirstAnswer(calls, count, first, got);
      EntryNames(first);
      AllShown(m, lstat, path, order);
    }
  }

  lemma AllShown(m: Modes, lstat: Lstat, path: string, order: seq<string>)
    requires |Entries(ShownItems(m, lstat, path, order))| >= |order|
    ensures Entries(ShownItems(m, lstat, path, order)) == order
  {
    var items := ShownItems(m, lstat, path, order);
    NothingSkipped(items);
    forall i | 0 <= i < |order|
      ensures Entries(items)[i] == order[i]
    {
      assert items[i] == Shown(m, lstat, path, order[i]);
    }
  }

  lemma NamedRun(m: Modes, lstat: Lstat, dir: Option<HostDir>, path: string, count: nat, calls: Calls<Dirent>,
                 last: seq<Option<Dirent>>, first: seq<Option<Dirent>>, got: seq<Dirent>)
    requires RunThrough(m, lstat, dir, path, count, calls, last, first, got)
    ensures Continues(NameItems(first), Names(got), count, NameCalls(calls), NameItems(last))
    ensures Received(NameCalls(calls)) == Names(Received(calls))
  {
    RunNames(calls, count);
    PageNames(last, |Received(calls)|, count);
    NamesReorder(m, lstat, dir, path, calls, first);
    SameNames(m, lstat, dir, path, last, first);
    NamesBegin(calls, first, got);
  }

  lemma {:induction false} FirstAnswer<T>(calls: Calls<T>, count: nat, first: seq<Option<T>>, got: seq<T>)
    requires Possible(calls, count) && BeginsWith(calls, first, got)
    ensures IsAnswer(first, 0, count, got) && |got| <= |Entries(first)|
  {
    if calls != Then(Begin, first, got) {
      FirstAnswer(calls.before, count, first, got);
    } else {
      assert From(first, 0) == first;
    }
  }

  /** A listing with as many entries as items skips nothing. */
  lemma {:induction false} NothingSkipped<T>(items: seq<Option<T>>)
    requires |Entries(items)| >= |items|
    ensures |Entries(items)| == |items| && forall i :: 0 <= i < |items| ==> items[i] == Some(Entries(items)[i])
    decreases |items|
  {
    if items != [] {
      NothingSkipped(items[1..]);
    }
  }
}
