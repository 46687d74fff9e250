/**
 Paged directory listing: the server cuts pages out of a listing by index (9passthrough/virtualfs.go:620-681),
 the guest asks again at the number of entries received so far (guest/9pfuse/client.go:258-275), and the
 transport may cut a page short. For a virtual directory the server takes a new order on every call.

 An item None stands for a child that the server skips because its Lstat fails.
 */
module DirectoryPaging {
  import opened Wrappers

  /** The entries a listing really has. */
  function Entries<T>(items: seq<Option<T>>): (entries: seq<T>)
    ensures |entries| <= |items|
  {
    if items == [] then []
    else if items[0].Some? then [items[0].value] + Entries(items[1..])
    else Entries(items[1..])
  }

  lemma {:induction false} EntriesAppend<T>(a: seq<Option<T>>, b: seq<Option<T>>)
    ensures Entries(a + b) == Entries(a) + Entries(b)
    decreases |a|
  {
    if a == [] {
      assert a + b == b;
    } else {
      assert (a + b)[1..] == a[1..] + b;
      EntriesAppend(a[1..], b);
    }
  }

  /** With EntriesAppend, this is all there is to Entries. */
  lemma EntriesOfOne<T>(x: T)
    ensures Entries([Some(x)]) == [x]
    ensures Entries([Option<T>.None]) == []
    ensures Entries<T>([]) == []
  {
    assert [Some(x)][1..] == [] && [Option<T>.None][1..] == [];
  }

  /** Where nothing is skipped, item i is entry i. */
  lemma {:induction false} AllSome<T>(items: seq<Option<T>>)
    requires forall i :: 0 <= i < |items| ==> items[i].Some?
    ensures |Entries(items)| == |items| && forall i :: 0 <= i < |items| ==> Some(Entries(items)[i]) == items[i]
    decreases |items|
  {
    if items != [] {
      AllSome(items[1..]);
    }
  }

  lemma {:induction false} EntriesOfSome<T>(items: seq<Option<T>>, i: nat)
    requires i < |items| && items[i].Some?
    ensures items[i].value in Entries(items)
    decreases |items|
  {
    if i > 0 {
      EntriesOfSome(items[1..], i - 1);
    }
  }

  lemma {:induction false} EntryIndex<T>(items: seq<Option<T>>, x: T) returns (i: nat)
    requires x in Entries(items)
    ensures i < |items| && items[i] == Some(x)
    decreases |items|
  {
    if items[0] == Some(x) {
      i := 0;
    } else {
      i := EntryIndex(items[1..], x);
      i := i + 1;
    }
  }

  function From<T>(items: seq<T>, offset: nat): seq<T> {
    if offset <= |items| then items[offset..] else []
  }

  /** At most `count` entries from index `offset` on; count 0 means all. */
  function Page<T>(items: seq<Option<T>>, offset: nat, count: nat): (page: seq<T>)
    ensures |page| <= |From(items, offset)|
  {
    var all := Entries(From(items, offset));
    if 0 < count < |all| then all[..count] else all
  }

  /** The server's loop over a listing. */
  method CutPage<T>(items: seq<Option<T>>, offset: nat, count: nat) returns (page: seq<T>)
    ensures page == Page(items, offset, count)
    ensures offset >= |items| ==> page == []
    ensures offset < |items| ==> page <= Entries(items[offset..])
    ensures count > 0 ==> |page| <= count
    ensures offset < |items| && page != Entries(items[offset..]) ==> |page| == count > 0
  {
    page := [];
    for i := 0 to |items|
      invariant i <= offset ==> page == []
      invariant i >= offset ==> page == Entries(items[offset..i])
      invariant count > 0 ==> |page| <= count
    {
      if i < offset {
        continue;
      }
      if count > 0 && |page| >= count {
        PageFull(items, offset, i);
        return;
      }
      PageStep(items, offset, i);
      if items[i].None? {
        continue;
      }
      page := page + [items[i].value];
    }
    if offset <= |items| {
      assert items[offset..|items|] == items[offset..];
    }
  }

  lemma PageStep<T>(items: seq<Option<T>>, offset: nat, i: nat)
    requires offset <= i < |items|
    ensures Entries(items[offset..i + 1]) ==
            if items[i].Some? then Entries(items[offset..i]) + [items[i].value] else Entries(items[offset..i])
  {
    assert items[offset..i + 1] == items[offset..i] + [items[i]];
    EntriesAppend(items[offset..i], [items[i]]);
  }

  lemma PageFull<T>(items: seq<Option<T>>, offset: nat, i: nat)
    requires offset <= i <= |items|
    ensures Entries(items[offset..i]) <= Entries(items[offset..])
  {
    assert items[offset..] == items[offset..i] + items[i..];
    EntriesAppend(items[offset..i], items[i..]);
  }

  /** No skipped child comes before a listed one. */
  ghost predicate FailuresTrail<T>(items: seq<Option<T>>) {
    forall i, j :: 0 <= i < j < |items| && items[i].None? ==> items[j].None?
  }

  /** The transport delivers some non-empty prefix of a non-empty page. */
  method Transport<T>(page: seq<T>) returns (received: seq<T>)
    ensures received <= page && (received == [] <==> page == [])
  {
    if page == [] {
      return [];
    }
    var n :| 1 <= n <= |page|;
    received := page[..n];
  }

  // ---------------------------------------------------------------- the guest's loop

  /** The calls of the guest's loop that found something: the server's listing then, and what was delivered. */
  datatype Calls<T> = Begin | Then(before: Calls<T>, listing: seq<Option<T>>, answer: seq<T>)

  function Received<T>(calls: Calls<T>): seq<T> {
    match calls
    case Begin => []
    case Then(before, _, answer) => Received(before) + answer
  }

  function Number<T>(calls: Calls<T>): nat {
    if calls.Begin? then 0 else Number(calls.before) + 1
  }

  /** What a call may deliver: some non-empty part of a non-empty page. */
  ghost predicate IsAnswer<T>(listing: seq<Option<T>>, offset: nat, count: nat, answer: seq<T>) {
    answer != [] && answer <= Page(listing, offset, count)
  }

  /** Each call asked at the number of entries received before. */
  ghost predicate Possible<T>(calls: Calls<T>, count: nat) {
    match calls
    case Begin => true
    case Then(before, listing, answer) =>
      Possible(before, count) && IsAnswer(listing, |Received(before)|, count, answer)
  }

  /** A whole run of the loop: these calls, and one more, on the listing `last`, that finds nothing. */
  ghost predicate IsRun<T>(calls: Calls<T>, last: seq<Option<T>>, count: nat) {
    Possible(calls, count) && Page(last, |Received(calls)|, count) == []
  }

  /** Call k saw the listing of time k. */
  ghost predicate Saw<T>(calls: Calls<T>, listing: nat -> seq<Option<T>>) {
    calls.Then? ==> calls.listing == listing(Number(calls.before)) && Saw(calls.before, listing)
  }

  /** The entries delivered by a whole run against these listings. */
  ghost predicate Yields<T>(listing: nat -> seq<Option<T>>, count: nat, calls: Calls<T>, entries: seq<T>) {
    Saw(calls, listing) && IsRun(calls, listing(Number(calls)), count) && entries == Received(calls)
  }

  /**
   The guest's loop against listings that are all of one length: it terminates, and what it returns is
   what the calls delivered.
   */
  method ReadAll<T(!new)>(listing: nat -> seq<Option<T>>, ghost n: nat, count: nat) returns (entries: seq<T>)
    requires forall k {:trigger listing(k)} :: |listing(k)| == n
    ensures exists calls :: Yields(listing, count, calls, entries)
  {
    entries := [];
    ghost var calls := Begin;
    var k := 0;
    while true
      invariant k == Number(calls) && |entries| <= n && entries == Received(calls)
      invariant Possible(calls, count) && Saw(calls, listing)
      decreases n - |entries|
    {
      var items := listing(k);
      var page := CutPage(items, |entries|, count);
      var dirents := Transport(page);
      if |dirents| == 0 {
        break;
      }
      calls := Then(calls, items, dirents);
      entries := entries + dirents;
      k := k + 1;
    }
    assert Yields(listing, count, calls, entries);
  }

  // ---------------------------------------------------------------- the same listing on every call

  /** All entries of the listing before n have been received. */
  ghost predicate Covered<T>(items: seq<Option<T>>, received: seq<T>, n: nat) {
    forall i :: 0 <= i < n && i < |items| && items[i].Some? ==> items[i].value in received
  }

  ghost predicate Constant<T>(calls: Calls<T>, items: seq<Option<T>>) {
    calls.Then? ==> calls.listing == items && Constant(calls.before, items)
  }

  lemma {:induction false} FixedSoFar<T>(items: seq<Option<T>>, calls: Calls<T>, count: nat)
    requires Possible(calls, count) && Constant(calls, items)
    ensures var received := Received(calls);
      && |received| <= |items| && Covered(items, received, |received|)
      && (FailuresTrail(items) ==> received == Entries(items[..|received|]))
  {
    if calls.Begin? {
      assert items[..0] == [];
    } else {
      FixedSoFar(items, calls.before, count);
      Advance(items, Received(calls.before), calls.answer);
    }
  }

  /**
   If the listing is the same on every call, nothing is missed; the result is the listing's entries, once
   each and in order, if and only if no skipped child precedes a listed one. In particular a host directory,
   which skips nothing, is read exactly.
   */
  lemma {:induction false} FixedListing<T>(items: seq<Option<T>>, calls: Calls<T>, count: nat)
    requires IsRun(calls, items, count) && Constant(calls, items)
    ensures forall i :: 0 <= i < |items| && items[i].Some? ==> items[i].value in Received(calls)
    ensures Received(calls) == Entries(items) <==> FailuresTrail(items)
    ensures !FailuresTrail(items) ==> |Received(calls)| > |Entries(items)|
  {
    FixedSoFar(items, calls, count);
    Finish(items, Received(calls));
  }

  lemma Finish<T>(items: seq<Option<T>>, entries: seq<T>)
    requires |entries| <= |items| && Covered(items, entries, |entries|) && Entries(items[|entries|..]) == []
    requires FailuresTrail(items) ==> entries == Entries(items[..|entries|])
    ensures forall i :: 0 <= i < |items| && items[i].Some? ==> items[i].value in entries
    ensures entries == Entries(items) <==> FailuresTrail(items)
    ensures !FailuresTrail(items) ==> |entries| > |Entries(items)|
  {
    var offset := |entries|;
    NothingLeft(items, offset);
    Surplus(items, offset);
    assert items == items[..offset] + items[offset..];
    EntriesAppend(items[..offset], items[offset..]);
  }

  /** One round of the loop. */
  lemma Advance<T>(items: seq<Option<T>>, entries: seq<T>, page: seq<T>)
    requires |entries| <= |items| && page != [] && page <= Entries(items[|entries|..])
    requires Covered(items, entries, |entries|)
    requires FailuresTrail(items) ==> entries == Entries(items[..|entries|])
    ensures |entries| + |page| <= |items|
    ensures Covered(items, entries + page, |entries| + |page|)
    ensures FailuresTrail(items) ==> entries + page == Entries(items[..|entries| + |page|])
  {
    PagePrefix(items, |entries|, page);
    PageInOrder(items, |entries|, page);
    forall i | 0 <= i < |entries| + |page| && i < |items| && items[i].Some?
      ensures items[i].value in entries + page
    {
      assert i < |entries| ==> items[i].value in entries;
    }
  }

  /** A page reaches at least as far in the listing as its length. */
  lemma {:induction false} PagePrefix<T>(items: seq<Option<T>>, offset: nat, page: seq<T>)
    requires offset <= |items| && page <= Entries(items[offset..])
    ensures offset + |page| <= |items|
    ensures forall i :: offset <= i < offset + |page| && items[i].Some? ==> items[i].value in page
    decreases |items| - offset
  {
    if page != [] {
      assert items[offset..][1..] == items[offset + 1..];
      if items[offset].Some? {
        assert page[0] == items[offset].value;
        PagePrefix(items, offset + 1, page[1..]);
      } else {
        PagePrefix(items, offset + 1, page);
      }
    }
  }

  lemma {:induction false} PageInOrder<T>(items: seq<Option<T>>, offset: nat, page: seq<T>)
    requires offset <= |items| && page != [] && page <= Entries(items[offset..])
    ensures offset + |page| <= |items|
    ensures FailuresTrail(items) ==> Entries(items[..offset]) + page == Entries(items[..offset + |page|])
    decreases |page|
  {
    PagePrefix(items, offset, page);
    if FailuresTrail(items) {
      if items[offset].None? {
        NoEntries(items[offset..]);
      } else {
        assert items[offset..][1..] == items[offset + 1..];
        assert items[..offset + 1] == items[..offset] + [items[offset]];
        EntriesAppend(items[..offset], [items[offset]]);
        assert page == [page[0]] + page[1..];
        if |page| > 1 {
          PageInOrder(items, offset + 1, page[1..]);
        }
      }
    }
  }

  lemma {:induction false} NoEntries<T>(items: seq<Option<T>>)
    requires forall i :: 0 <= i < |items| ==> items[i].None?
    ensures Entries(items) == []
    decreases |items|
  {
    if items != [] {
      NoEntries(items[1..]);
    }
  }

  /** An empty page means that nothing is listed from the offset on. */
  lemma NothingLeft<T>(items: seq<Option<T>>, offset: nat)
    requires offset <= |items| && Entries(items[offset..]) == []
    ensures forall i :: offset <= i < |items| ==> items[i].None?
  {
    forall i | offset <= i < |items|
      ensures items[i].None?
    {
      if items[i].Some? {
        EntriesOfSome(items[offset..], i - offset);
      }
    }
  }

  /** Once the offset is past every listed child, it exceeds their number by the failures before them. */
  lemma {:induction false} Surplus<T>(items: seq<Option<T>>, offset: nat)
    requires offset <= |items| && forall i :: offset <= i < |items| ==> items[i].None?
    ensures !FailuresTrail(items) ==> |Entries(items)| < offset
  {
    assert items == items[..offset] + items[offset..];
    EntriesAppend(items[..offset], items[offset..]);
    NoEntries(items[offset..]);
    if !FailuresTrail(items) {
      var i, j :| 0 <= i < j < |items| && items[i].None? && items[j].Some?;
      assert i < offset;
      var head := items[..offset];
      assert head == head[..i] + ([head[i]] + head[i + 1..]);
      EntriesAppend(head[..i], [head[i]] + head[i + 1..]);
      EntriesAppend([head[i]], head[i + 1..]);
    }
  }

  /** A listing on which the guest reports a child twice: the first of two children has vanished. */
  lemma SkippedChildIsRepeated()
    ensures var items := [None, Some("b")];
            Page(items, 0, 8192) == ["b"] && Page(items, 1, 8192) == ["b"] && Page(items, 2, 8192) == []
  {
    var items := [None, Some("b")];
    assert items[1..] == [Some("b")] && items[2..] == [];
    assert items[0..] == items;
  }

  // ---------------------------------------------------------------- a new order on every call

  /**
   The virtual branch takes its order from a map, anew on every call. If a page is cut short, two calls
   with two orders can repeat one child and lose another.
   */
  lemma ReorderingLosesChild()
    ensures var first, second := [Some("a"), Some("b")], [Some("b"), Some("a")];
            Page(first, 0, 1) + Page(second, 1, 1) == ["a", "a"]
  {
    var first, second := [Some("a"), Some("b")], [Some("b"), Some("a")];
    assert first[0..] == first && first[1..] == [Some("b")];
    assert second[1..] == [Some("a")];
  }

  ghost predicate NoRepeats<T>(s: seq<T>) {
    forall i, j :: 0 <= i < j < |s| ==> s[i] != s[j]
  }

  ghost predicate SameEntries<T>(a: seq<T>, b: seq<T>) {
    multiset(a) == multiset(b)
  }

  /** All listings are orders of the same children, skipped ones included. */
  ghost predicate Reorders<T>(calls: Calls<T>, first: seq<Option<T>>) {
    calls.Then? ==> multiset(calls.listing) == multiset(first) && Reorders(calls.before, first)
  }

  /** The first call saw this listing and got this answer. */
  ghost predicate BeginsWith<T>(calls: Calls<T>, first: seq<Option<T>>, got: seq<T>) {
    calls.Then? && (calls == Then(Begin, first, got) || BeginsWith(calls.before, first, got))
  }

  /** A run on orders of the same children whose first call saw this listing; got is [] if that found nothing. */
  ghost predicate Continues<T>(first: seq<Option<T>>, got: seq<T>, count: nat, calls: Calls<T>, last: seq<Option<T>>) {
    && IsRun(calls, last, count) && Reorders(calls, first) && multiset(last) == multiset(first)
    && (if got == [] then calls == Begin && last == first else BeginsWith(calls, first, got))
  }

  /** A first answer that carries every child ends the run, in whatever order the next call looks. */
  lemma {:induction false} FullAnswerEnds<T>(first: seq<Option<T>>, got: seq<T>, count: nat, calls: Calls<T>)
    requires Possible(calls, count) && Reorders(calls, first) && BeginsWith(calls, first, got) && |got| == |first|
    ensures calls == Then(Begin, first, got)
  {
    assert |multiset(calls.listing)| == |multiset(first)| && [] + got == got;
    if calls != Then(Begin, first, got) {
      FullAnswerEnds(first, got, count, calls.before);
    }
  }

  lemma FullRun<T>(first: seq<Option<T>>, got: seq<T>, count: nat, calls: Calls<T>, last: seq<Option<T>>)
    requires Continues(first, got, count, calls, last) && (got == [] || |got| == |first|)
    ensures Received(calls) == Entries(first)
  {
    assert From(first, 0) == first;
    if got != [] {
      FullAnswerEnds(first, got, count, calls);
      assert [] + got == got;
    }
  }

  function Swap<T>(s: seq<T>, i: nat, j: nat): (t: seq<T>)
    requires i < |s| && j < |s|
    ensures |t| == |s| && t[j] == s[i] && multiset(t) == multiset(s)
  {
    s[i := s[j]][j := s[i]]
  }

  /** The first entry of a listing is that of its first item that is not skipped. */
  lemma {:induction false} FirstEntry<T>(items: seq<Option<T>>) returns (p: nat)
    requires Entries(items) != []
    ensures p < |items| && items[p] == Some(Entries(items)[0])
    decreases |items|
  {
    if items[0].Some? {
      p := 0;
    } else {
      p := FirstEntry(items[1..]);
      p := p + 1;
    }
  }

  /** Any calls can be gone on from to the end, with one order from now on. */
  lemma {:induction false} Completes<T>(items: seq<Option<T>>, count: nat, calls: Calls<T>,
                                        first: seq<Option<T>>, got: seq<T>)
    returns (all: Calls<T>)
    requires Possible(calls, count) && Reorders(calls, first) && multiset(items) == multiset(first)
    requires BeginsWith(calls, first, got)
    ensures IsRun(all, items, count) && Reorders(all, first) && BeginsWith(all, first, got)
    ensures Received(calls) <= Received(all)
    decreases if |items| >= |Received(calls)| then |items| - |Received(calls)| else 0
  {
    var page := Page(items, |Received(calls)|, count);
    if page == [] {
      all := calls;
    } else {
      all := Completes(items, count, Then(calls, items, page), first, got);
    }
  }

  /** After a partial first answer the next order can show a received entry again. */
  lemma PartialAnswerRepeats<T>(first: seq<Option<T>>, got: seq<T>, count: nat)
    returns (calls: Calls<T>, last: seq<Option<T>>)
    requires IsAnswer(first, 0, count, got) && |got| < |first|
    ensures Continues(first, got, count, calls, last) && !NoRepeats(Received(calls))
  {
    assert From(first, 0) == first;
    var p := FirstEntry(first);
    last := Swap(first, p, |got|);
    var page := Page(last, |got|, count);
    SwappedPage(last, |got|, count, got[0]);
    var one := Then(Begin, first, got);
    assert Received(one) == [] + got == got;
    calls := Completes(last, count, Then(one, last, page), first, got);
    var all := Received(calls);
    assert got + page <= all;
    assert all[0] == got[0] && all[|got|] == page[0];
  }

  lemma SwappedPage<T>(items: seq<Option<T>>, r: nat, count: nat, entry: T)
    requires r < |items| && items[r] == Some(entry)
    ensures Page(items, r, count) != [] && Page(items, r, count)[0] == entry
  {
    assert items[r..][0] == items[r];
  }

  lemma RepeatsDiffer<T>(a: seq<T>, b: seq<T>)
    requires !NoRepeats(a) && NoRepeats(b)
    ensures !SameEntries(a, b)
  {
    var i, j :| 0 <= i < j < |a| && a[i] == a[j];
    assert a == a[..i] + [a[i]] + a[i + 1..j] + [a[j]] + a[j + 1..];
    assert multiset(a)[a[i]] >= 2;
    AtMostOnce(b, a[i]);
  }

  lemma {:induction false} AtMostOnce<T>(s: seq<T>, x: T)
    requires NoRepeats(s)
    ensures multiset(s)[x] <= 1
    decreases |s|
  {
    if s != [] {
      var front, last := s[..|s| - 1], s[|s| - 1];
      assert s == front + [last];
      AtMostOnce(front, x);
      if x == last {
        assert x !in front;
      }
    }
  }

  /**
   The order of a virtual directory is drawn anew on every call. Given a first listing and its answer,
   every way to go on returns each listed child exactly once if and only if the answer was empty or held
   all the children: none skipped, and none cut off by the count or the transport.
   */
  lemma {:induction false} AnyOrderIff<T(!new)>(first: seq<Option<T>>, got: seq<T>, count: nat)
    requires NoRepeats(Entries(first))
    requires got == [] ==> Page(first, 0, count) == []
    requires got != [] ==> IsAnswer(first, 0, count, got)
    ensures (forall calls, last :: Continues(first, got, count, calls, last) ==>
               SameEntries(Received(calls), Entries(first))) <==>
            got == [] || |got| == |first|
  {
    if got == [] || |got| == |first| {
      forall calls, last | Continues(first, got, count, calls, last)
        ensures SameEntries(Received(calls), Entries(first))
      {
        FullRun(first, got, count, calls, last);
      }
    } else {
      assert From(first, 0) == first;
      var calls, last := PartialAnswerRepeats(first, got, count);
      RepeatsDiffer(Received(calls), Entries(first));
    }
  }
}
