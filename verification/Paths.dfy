/**
 Slash-separated path strings and the component sequences they stand for: the parts of Go's
 `path` and `strings` packages that the registry relies on, and `splitPath`
 (9passthrough/pathregistry.go:347-359).
 */
module Paths {

  /** The components of an absolute path; [] is "/". */
  type Path = seq<string>

  /** A name that can be a component of a cleaned absolute path. */
  predicate CleanName(name: string) {
    name != "" && name != "." && name != ".." && '/' !in name
  }

  predicate CleanPath(k: Path) {
    forall i :: 0 <= i < |k| ==> CleanName(k[i])
  }

  predicate SlashFree(parts: seq<string>) {
    forall i :: 0 <= i < |parts| ==> '/' !in parts[i]
  }

  function Last<T>(s: seq<T>): T
    requires s != []
  {
    s[|s| - 1]
  }

  function Front<T>(s: seq<T>): seq<T>
    requires s != []
  {
    s[..|s| - 1]
  }

  lemma ProperPrefix<T>(e: seq<T>, k: seq<T>)
    requires k != [] && e != k
    ensures e <= k <==> e <= Front(k)
  {
    assert k[..|k|] == k;
  }

  lemma Slices(k: Path, i: nat)
    requires i < |k|
    ensures k[..i + 1] <= k && k[..i + 1] == k[..i] + [k[i]]
    ensures Front(k[..i + 1]) == k[..i] && Last(k[..i + 1]) == k[i]
    ensures k[..i + 1] == k <==> i == |k| - 1
  {
  }

  lemma PrefixesComparable<T>(a: seq<T>, b: seq<T>, p: seq<T>)
    requires a <= p && b <= p
    ensures |a| <= |b| ==> a <= b
    ensures |b| <= |a| ==> b <= a
    ensures a == p || a < p
  {
    assert p[..|a|] == a && p[..|b|] == b && p[..|p|] == p;
  }

  /** strings.Split(s, "/") */
  function Split(s: string): (parts: seq<string>)
    ensures parts != []
  {
    if s == "" then
      [""]
    else
      var rest := Split(s[1..]);
      if s[0] == '/' then [""] + rest else [[s[0]] + rest[0]] + rest[1..]
  }

  /** Splitting loses nothing, and no part holds a slash. */
  lemma {:induction false} JoinSplit(s: string)
    ensures SlashFree(Split(s)) && Join(Split(s)) == s
  {
    if s != "" {
      JoinSplit(s[1..]);
      var rest := Split(s[1..]);
      if s[0] != '/' {
        var parts := [[s[0]] + rest[0]] + rest[1..];
        assert |rest| > 1 ==> parts[1..] == rest[1..];
      }
    }
  }

  /** strings.Join(parts, "/") */
  function Join(parts: seq<string>): string {
    if parts == [] then "" else if |parts| == 1 then parts[0] else parts[0] + "/" + Join(parts[1..])
  }

  lemma {:induction false} SplitJoin(parts: seq<string>)
    requires parts != [] && SlashFree(parts)
    ensures Split(Join(parts)) == parts
    decreases |parts|, |parts[0]|
  {
    var s := Join(parts);
    if parts[0] == "" {
      if |parts| > 1 {
        assert s[1..] == Join(parts[1..]);
        SplitJoin(parts[1..]);
      }
    } else {
      var shorter := [parts[0][1..]] + parts[1..];
      assert shorter[1..] == parts[1..];
      assert s[1..] == Join(shorter);
      assert s[0] == parts[0][0];
      SplitJoin(shorter);
      assert [s[0]] + shorter[0] == parts[0];
    }
  }

  predicate IsAbs(p: string) {
    p != "" && p[0] == '/'
  }

  /** One element of path.Clean's scan: "" and "." vanish, ".." drops the element before it. */
  function Push(rooted: bool, stack: Path, part: string): Path {
    if part == "" || part == "." then
      stack
    else if part == ".." then
      if stack != [] && Last(stack) != ".." then Front(stack)
      else if rooted then stack
      else stack + [".."]
    else
      stack + [part]
  }

  function Resolve(rooted: bool, stack: Path, parts: seq<string>): Path
    decreases |parts|
  {
    if parts == [] then stack else Resolve(rooted, Push(rooted, stack, parts[0]), parts[1..])
  }

  /** path.Clean */
  function Clean(p: string): string {
    if p == "" then
      "."
    else
      var stack := Resolve(IsAbs(p), [], Split(p));
      if IsAbs(p) then Abs(stack) else if stack == [] then "." else Join(stack)
  }

  function Abs(k: Path): string {
    "/" + Join(k)
  }

  /** splitPath of the registry */
  function SplitPath(p: string): Path {
    if p == "/" then
      []
    else
      var q := if IsAbs(p) then p[1..] else p;
      if q == "" then [] else Split(q)
  }

  /** The components that the registry looks a path string up by. */
  function Components(p: string): Path {
    SplitPath(Clean(p))
  }

  /** path.Join(dir, name) for a non-empty dir */
  function JoinPath(dir: string, name: string): string {
    if name == "" then Clean(dir) else Clean(dir + "/" + name)
  }

  /** The part of p up to and including its last slash. */
  function DirPart(p: string): string {
    if p == "" || Last(p) == '/' then p else DirPart(Front(p))
  }

  /** path.Dir */
  function Dir(p: string): string {
    Clean(DirPart(p))
  }

  // ---------------------------------------------------------------- Clean and its components

  /** What a cleaned relative path may look like: some leading ".."s, then clean names. */
  predicate RelativeStack(k: Path) {
    forall i :: 0 <= i < |k| ==>
      k[i] != "" && k[i] != "." && '/' !in k[i] && (k[i] == ".." && i > 0 ==> k[i - 1] == "..")
  }

  lemma {:induction false} ResolveShape(rooted: bool, stack: Path, parts: seq<string>)
    requires SlashFree(parts)
    requires if rooted then CleanPath(stack) else RelativeStack(stack)
    ensures var k := Resolve(rooted, stack, parts); if rooted then CleanPath(k) else RelativeStack(k)
    decreases |parts|
  {
    if parts != [] {
      ResolveShape(rooted, Push(rooted, stack, parts[0]), parts[1..]);
    }
  }

  lemma {:induction false} ResolveAppend(rooted: bool, stack: Path, parts: seq<string>, more: seq<string>)
    ensures Resolve(rooted, stack, parts + more) == Resolve(rooted, Resolve(rooted, stack, parts), more)
    decreases |parts|
  {
    if parts == [] {
      assert parts + more == more;
    } else {
      assert (parts + more)[1..] == parts[1..] + more;
      ResolveAppend(rooted, Push(rooted, stack, parts[0]), parts[1..], more);
    }
  }

  /** Elements that are already clean are pushed one by one. */
  lemma {:induction false} ResolveClean(rooted: bool, stack: Path, k: Path)
    requires if rooted then CleanPath(stack + k) else RelativeStack(stack + k)
    ensures Resolve(rooted, stack, k) == stack + k
    decreases |k|
  {
    if k == [] {
      assert stack + k == stack;
    } else {
      assert (stack + k)[|stack|] == k[0];
      assert stack != [] ==> (stack + k)[|stack| - 1] == Last(stack);
      assert stack + k == (stack + [k[0]]) + k[1..];
      ResolveClean(rooted, stack + [k[0]], k[1..]);
    }
  }

  lemma {:induction false} JoinNotEmpty(k: Path)
    requires k != [] && forall i :: 0 <= i < |k| ==> k[i] != "" && '/' !in k[i]
    ensures Join(k) != "" && !IsAbs(Join(k))
  {
    assert k[0] != "" && k[0][0] in k[0];
  }

  /** splitPath reads back the components of a clean absolute path. */
  lemma {:induction false} SplitPathAbs(k: Path)
    requires CleanPath(k)
    ensures SplitPath(Abs(k)) == k
  {
    if k != [] {
      JoinNotEmpty(k);
      assert Abs(k)[1..] == Join(k);
      SplitJoin(k);
    }
  }

  /** Two clean component sequences never print the same. */
  lemma {:induction false} AbsInjective(a: Path, b: Path)
    requires CleanPath(a) && CleanPath(b) && Abs(a) == Abs(b)
    ensures a == b
  {
    SplitPathAbs(a);
    SplitPathAbs(b);
  }

  lemma {:induction false} SplitAbs(k: Path)
    requires SlashFree(k)
    ensures Split(Abs(k)) == if k == [] then ["", ""] else [""] + k
  {
    if k == [] {
      assert Abs(k) == "/";
      assert Split("") == [""];
      assert Split("/") == [""] + Split("");
    } else {
      assert Abs(k)[1..] == Join(k);
      SplitJoin(k);
    }
  }

  /** Resolving an absolute string from a stack starts over at that stack. */
  lemma {:induction false} ResolveAbs(rooted: bool, k: Path)
    requires CleanPath(k)
    ensures Resolve(rooted, [], Split(Abs(k))) == k
  {
    SplitAbs(k);
    ResolveClean(true, [], k);
    ResolveClean(rooted, [], k) by {
      assert [] + k == k;
    }
    if k == [] {
      assert Resolve(rooted, [], ["", ""]) == Resolve(rooted, [], [""]) == [];
    } else {
      assert ([""] + k)[1..] == k;
      assert [] + k == k;
    }
  }

  // ---------------------------------------------------------------- the laws of path.Clean

  /** Any parts behind a slash, printed and cleaned. */
  lemma {:induction false} CleanAbs(parts: seq<string>)
    requires SlashFree(parts)
    ensures Clean(Abs(parts)) == Abs(Resolve(true, [], parts))
  {
    SplitAbs(parts);
    if parts == [] {
      assert Resolve(true, [], ["", ""]) == Resolve(true, [], [""]) == [];
    } else {
      assert ([""] + parts)[1..] == parts;
    }
  }

  /** In an absolute path, a name followed by ".." goes with it, wherever it stands. */
  lemma {:induction false} CleanCancels(before: seq<string>, c: string, after: seq<string>)
    requires SlashFree(before) && SlashFree(after) && CleanName(c)
    ensures Clean(Abs(before + [c, ".."] + after)) == Clean(Abs(before + after))
  {
    CleanAbs(before + [c, ".."] + after);
    CleanAbs(before + after);
    ResolveCancels(true, before, c, after);
  }

  /** So does an empty part, from a doubled or trailing slash, and a ".". */
  lemma {:induction false} CleanDrops(before: seq<string>, x: string, after: seq<string>)
    requires SlashFree(before) && SlashFree(after) && (x == "" || x == ".")
    ensures Clean(Abs(before + [x] + after)) == Clean(Abs(before + after))
  {
    CleanAbs(before + [x] + after);
    CleanAbs(before + after);
    ResolveDrops(true, before, x, after);
  }

  /** Above "/" there is nothing. */
  lemma {:induction false} CleanAtRoot(after: seq<string>)
    requires SlashFree(after)
    ensures Clean(Abs([".."] + after)) == Clean(Abs(after))
  {
    CleanAbs([".."] + after);
    CleanAbs(after);
    assert ([".."] + after)[1..] == after;
  }

  lemma ResolvePair(rooted: bool, stack: Path, c: string, after: seq<string>)
    requires CleanName(c)
    ensures Resolve(rooted, stack, [c, ".."] + after) == Resolve(rooted, stack, after)
  {
    assert ([c, ".."] + after)[1..] == [".."] + after && ([".."] + after)[1..] == after;
    assert Front(stack + [c]) == stack;
  }

  lemma {:induction false} ResolveCancels(rooted: bool, before: seq<string>, c: string, after: seq<string>)
    requires CleanName(c)
    ensures Resolve(rooted, [], before + [c, ".."] + after) == Resolve(rooted, [], before + after)
  {
    ResolveAppend(rooted, [], before, after);
    ResolveAppend(rooted, [], before, [c, ".."] + after);
    assert before + [c, ".."] + after == before + ([c, ".."] + after);
    ResolvePair(rooted, Resolve(rooted, [], before), c, after);
  }

  lemma {:induction false} ResolveDrops(rooted: bool, before: seq<string>, x: string, after: seq<string>)
    requires x == "" || x == "."
    ensures Resolve(rooted, [], before + [x] + after) == Resolve(rooted, [], before + after)
  {
    ResolveAppend(rooted, [], before, after);
    ResolveAppend(rooted, [], before, [x] + after);
    assert before + [x] + after == before + ([x] + after);
    assert ([x] + after)[1..] == after;
  }

  /** The same for a relative path: its first part is not empty. */
  lemma {:induction false} CleanRelative(parts: seq<string>)
    requires SlashFree(parts) && parts != [] && parts[0] != ""
    ensures var stack := Resolve(false, [], parts); Clean(Join(parts)) == if stack == [] then "." else Join(stack)
  {
    SplitJoin(parts);
    assert parts[0][0] in parts[0];
  }

  lemma {:induction false} CleanAlike(parts: seq<string>, more: seq<string>)
    requires SlashFree(parts) && parts != [] && parts[0] != "" && SlashFree(more) && more != [] && more[0] != ""
    requires Resolve(false, [], parts) == Resolve(false, [], more)
    ensures Clean(Join(parts)) == Clean(Join(more))
  {
    CleanRelative(parts);
    CleanRelative(more);
  }

  lemma {:induction false} CleanRelativeCancels(before: seq<string>, c: string, after: seq<string>)
    requires SlashFree(before) && SlashFree(after) && CleanName(c)
    requires before + after != [] && (before + after)[0] != ""
    ensures Clean(Join(before + [c, ".."] + after)) == Clean(Join(before + after))
  {
    ResolveCancels(false, before, c, after);
    CleanAlike(before + [c, ".."] + after, before + after);
  }

  lemma {:induction false} CleanRelativeDrops(before: seq<string>, x: string, after: seq<string>)
    requires SlashFree(before) && SlashFree(after) && (x == "." || (x == "" && before != []))
    requires before + after != [] && (before + after)[0] != ""
    ensures Clean(Join(before + [x] + after)) == Clean(Join(before + after))
  {
    ResolveDrops(false, before, x, after);
    CleanAlike(before + [x] + after, before + after);
  }

  /** Where nothing remains, ".". */
  lemma {:induction false} CleanToDot(c: string)
    requires CleanName(c)
    ensures Clean("") == "."
    ensures Clean(Join(["."])) == "."
    ensures Clean(Join([c, ".."])) == "."
  {
    var none: seq<string> := [];
    CleanRelative(["."]);
    ResolveDrops(false, none, ".", none);
    assert none + ["."] + none == ["."] && none + none == none;
    CleanRelative([c, ".."]);
    ResolveCancels(false, none, c, none);
    assert none + [c, ".."] + none == [c, ".."];
  }

  /** What is already clean stays: proper names behind a slash, or some ".."s and then proper names. */
  lemma {:induction false} CleanKeeps(k: Path)
    ensures CleanPath(k) ==> Clean(Abs(k)) == Abs(k)
    ensures RelativeStack(k) && k != [] ==> Clean(Join(k)) == Join(k)
  {
    if CleanPath(k) {
      ComponentsAbs(k);
    }
    if RelativeStack(k) && k != [] {
      CleanRelative(k);
      assert [] + k == k;
      ResolveClean(false, [], k);
    }
  }

  /** Clean keeps absolute paths absolute, and its output splits into clean components. */
  lemma {:induction false} CleanShape(p: string)
    ensures IsAbs(Clean(p)) == IsAbs(p)
    ensures IsAbs(p) ==> CleanPath(Components(p)) && Abs(Components(p)) == Clean(p)
    ensures !IsAbs(p) ==> Components(p) != [] && Join(Components(p)) == Clean(p)
  {
    if IsAbs(p) {
      var stack := Resolve(true, [], Split(p));
      JoinSplit(p);
      ResolveShape(true, [], Split(p));
      SplitPathAbs(stack);
    } else if p != "" {
      var stack := Resolve(false, [], Split(p));
      JoinSplit(p);
      ResolveShape(false, [], Split(p));
      if stack == [] {
        assert Split(".") == [['.'] + ""] + [];
      } else {
        JoinNotEmpty(stack);
        SplitJoin(stack);
      }
    }
  }

  /** Cleaning twice is cleaning once, for every string. */
  lemma {:induction false} CleanIdempotent(p: string)
    ensures Clean(Clean(p)) == Clean(p)
  {
    CleanShape(p);
    if IsAbs(p) {
      ResolveAbs(true, Components(p));
    } else if p != "" {
      var stack := Resolve(false, [], Split(p));
      JoinSplit(p);
      ResolveShape(false, [], Split(p));
      if stack != [] {
        JoinNotEmpty(stack);
        SplitJoin(stack);
        assert [] + stack == stack;
        ResolveClean(false, [], stack);
      } else {
        assert Split(".") == ["."];
        assert Resolve(false, [], ["."]) == Resolve(false, [], []);
      }
    }
  }

  /** Joining any string, whatever slashes and dots it holds, resolves it from the directory. */
  lemma {:induction false} JoinPathResolves(k: Path, name: string)
    requires CleanPath(k)
    ensures CleanPath(Resolve(true, k, Split(name)))
    ensures JoinPath(Abs(k), name) == Abs(Resolve(true, k, Split(name)))
  {
    JoinSplit(name);
    ResolveShape(true, k, Split(name));
    if name == "" {
      ResolveAbs(true, k);
      assert Resolve(true, k, [""]) == Resolve(true, k, []);
    } else {
      var full := Abs(k) + "/" + name;
      SplitConcat(Abs(k), name);
      ResolveAppend(true, [], Split(Abs(k)), Split(name));
      ResolveAbs(true, k);
      assert IsAbs(full);
    }
  }

  lemma {:induction false} SplitConcat(a: string, b: string)
    ensures Split(a + "/" + b) == Split(a) + Split(b)
  {
    var s := a + "/" + b;
    if a == "" {
      assert s[1..] == b;
    } else {
      assert s[1..] == a[1..] + "/" + b;
      SplitConcat(a[1..], b);
      SplitConcatStep(a[0], Split(a[1..]), Split(b));
    }
  }

  lemma SplitConcatStep(c: char, rest: seq<string>, more: seq<string>)
    requires rest != []
    ensures [""] + (rest + more) == ([""] + rest) + more
    ensures [[c] + (rest + more)[0]] + (rest + more)[1..] == ([[c] + rest[0]] + rest[1..]) + more
  {
  }

  /** A proper name is appended as one more component. */
  lemma {:induction false} JoinPathName(k: Path, name: string)
    requires CleanPath(k) && CleanName(name)
    ensures JoinPath(Abs(k), name) == Abs(k + [name])
    ensures Components(JoinPath(Abs(k), name)) == k + [name]
  {
    JoinPathResolves(k, name);
    SplitJoin([name]);
    assert CleanPath(k + [name]);
    ResolveClean(true, k, [name]);
    ComponentsAbs(k + [name]);
  }

  lemma {:induction false} ComponentsAbs(k: Path)
    requires CleanPath(k)
    ensures Clean(Abs(k)) == Abs(k) && Components(Abs(k)) == k
  {
    ResolveAbs(true, k);
    SplitPathAbs(k);
  }

  lemma {:induction false} DirPartSlashFree(p: string, q: string)
    requires '/' !in q
    ensures DirPart(p + "/" + q) == p + "/"
    decreases |q|
  {
    if q == "" {
      assert p + "/" + q == p + "/";
    } else {
      var s := p + "/" + q;
      assert Last(s) == Last(q) && Last(q) in q;
      assert Front(s) == p + "/" + Front(q);
      DirPartSlashFree(p, Front(q));
    }
  }

  lemma {:induction false} JoinFront(k: Path)
    requires |k| > 1
    ensures Join(k) == Join(Front(k)) + "/" + Last(k)
  {
    if |k| > 2 {
      JoinFront(k[1..]);
      assert Front(k[1..]) == Front(k)[1..];
    }
  }

  /** The directory part of an absolute path, trailing slash and all, resolves to the parent. */
  lemma {:induction false} CleanTrailingSlash(k: Path)
    requires CleanPath(k)
    ensures Clean(Abs(k) + "/") == Abs(k)
  {
    SplitConcat(Abs(k), "");
    assert Abs(k) + "/" + "" == Abs(k) + "/";
    ResolveAppend(true, [], Split(Abs(k)), [""]);
    ResolveAbs(true, k);
    assert Resolve(true, k, [""]) == Resolve(true, k, []);
  }

  lemma {:induction false} DirPartAbs(k: Path)
    requires CleanPath(k) && k != []
    ensures DirPart(Abs(k)) == if |k| == 1 then "/" else Abs(Front(k)) + "/"
  {
    if |k| == 1 {
      assert Abs(k) == "" + "/" + k[0];
      DirPartSlashFree("", k[0]);
    } else {
      JoinFront(k);
      assert Abs(k) == Abs(Front(k)) + "/" + Last(k);
      DirPartSlashFree(Abs(Front(k)), Last(k));
    }
  }

  /** path.Dir steps up to the parent, and stays at "/". */
  lemma {:induction false} DirIsParent(k: Path)
    requires CleanPath(k)
    ensures Dir(Abs(k)) == Abs(if k == [] then [] else Front(k))
  {
    ComponentsAbs([]);
    assert Abs([]) == "/";
    if k == [] {
      assert DirPart("/") == "/";
    } else {
      DirPartAbs(k);
      if |k| == 1 {
        assert Front(k) == [];
      } else {
        CleanTrailingSlash(Front(k));
      }
    }
  }
}
