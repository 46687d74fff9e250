/**
 parsePath (guest/9pfuse/client.go:672-706). Paths are byte strings; appending string(path[i]) to a Go
 string appends the UTF-8 encoding of the character whose number is that byte.
 */
module GuestPaths {
  import opened Bytes

  const SLASH: byte := 47

  /** string(b) for a byte b */
  function Utf8(b: byte): seq<byte> {
    if b < 0x80 then [b] else [0xC0 + b / 64, 0x80 + b % 64]
  }

  function Widen(c: seq<byte>): seq<byte> {
    if c == [] then [] else Utf8(c[0]) + Widen(c[1..])
  }

  function Trimmed(path: seq<byte>): seq<byte>
    requires path != []
  {
    var p := path[1..];
    if p != [] && p[|p| - 1] == SLASH then p[..|p| - 1] else p
  }

  /** The parts of s that its slashes delimit, empty ones dropped, the first one appended to `current`. */
  function Parts(s: seq<byte>, current: seq<byte>): seq<seq<byte>>
    decreases |s|
  {
    var done := if current == [] then [] else [current];
    if s == [] then done
    else if s[0] == SLASH then done + Parts(s[1..], [])
    else Parts(s[1..], current + Utf8(s[0]))
  }

  /** One byte stands for itself; two are what UTF-8 decodes to the byte: a leading C2 to DF, a continuation. */
  lemma Utf8Decodes(b: byte)
    ensures var u := Utf8(b);
      if b < 0x80 then u == [b]
      else |u| == 2 && 0xC2 <= u[0] <= 0xDF && 0x80 <= u[1] <= 0xBF && (u[0] - 0xC0) * 0x40 + (u[1] - 0x80) == b
  {
  }

  /** A doubled slash is one slash, and one at the end is none. */
  lemma {:induction false} SlashesMerge(a: seq<byte>, b: seq<byte>, current: seq<byte>)
    ensures Parts(a + [SLASH, SLASH] + b, current) == Parts(a + [SLASH] + b, current)
    ensures Parts(a + [SLASH], current) == Parts(a, current)
    decreases |a|
  {
    if a == [] {
      assert [] + [SLASH, SLASH] + b == [SLASH] + ([SLASH] + b) && ([SLASH] + ([SLASH] + b))[1..] == [SLASH] + b;
      assert [] + [SLASH] + b == [SLASH] + b && ([SLASH] + b)[1..] == b;
      assert [] + Parts(b, []) == Parts(b, []);
      assert [] + [SLASH] == [SLASH] && [SLASH][1..] == [];
    } else {
      assert (a + [SLASH, SLASH] + b)[1..] == a[1..] + [SLASH, SLASH] + b;
      assert (a + [SLASH] + b)[1..] == a[1..] + [SLASH] + b && (a + [SLASH])[1..] == a[1..] + [SLASH];
      SlashesMerge(a[1..], b, if a[0] == SLASH then [] else current + Utf8(a[0]));
    }
  }

  method ParsePath(path: seq<byte>) returns (parts: seq<seq<byte>>)
    ensures parts == if path == [] then [] else Parts(Trimmed(path), [])
  {
    if path == [] || path == [SLASH] {
      return [];
    }
    var p := Trimmed(path);
    if p == [] {
      return [];
    }
    parts := [];
    var current := [];
    assert p[0..] == p;
    for i := 0 to |p|
      invariant parts + Parts(p[i..], current) == Parts(p, [])
    {
      assert p[i..][1..] == p[i + 1..] && p[i..][0] == p[i];
      if p[i] == SLASH {
        if current != [] {
          assert parts + ([current] + Parts(p[i + 1..], [])) == (parts + [current]) + Parts(p[i + 1..], []);
          parts := parts + [current];
          current := [];
        } else {
          assert [] + Parts(p[i + 1..], []) == Parts(p[i + 1..], []);
        }
      } else {
        current := current + Utf8(p[i]);
      }
    }
    assert p[|p|..] == [];
    if current != [] {
      parts := parts + [current];
    } else {
      assert parts + [] == parts;
    }
  }

  // ---------------------------------------------------------------- when it reads back a path

  type Name = seq<byte>

  predicate ProperName(c: Name) {
    c != [] && SLASH !in c
  }

  function Print(names: seq<Name>): seq<byte> {
    if names == [] then [] else [SLASH] + names[0] + Print(names[1..])
  }

  predicate Ascii(names: seq<Name>) {
    forall i, j :: 0 <= i < |names| && 0 <= j < |names[i]| ==> names[i][j] < 0x80
  }

  /** Where the client walks for a path: each name widened. */
  function WidenAll(names: seq<Name>): (walked: seq<Name>)
    ensures |walked| == |names| && forall i :: 0 <= i < |names| ==> walked[i] == Widen(names[i])
  {
    seq(|names|, i requires 0 <= i < |names| => Widen(names[i]))
  }

  lemma {:induction false} PartsName(c: Name, rest: seq<byte>, current: seq<byte>)
    requires SLASH !in c
    ensures Parts(c + rest, current) == Parts(rest, current + Widen(c))
    decreases |c|
  {
    if c == [] {
      assert c + rest == rest && current + [] == current;
    } else {
      assert (c + rest)[1..] == c[1..] + rest && (c + rest)[0] == c[0] && c[0] in c;
      PartsName(c[1..], rest, current + Utf8(c[0]));
      assert current + Utf8(c[0]) + Widen(c[1..]) == current + Widen(c);
    }
  }

  lemma {:induction false} WidenNotEmpty(c: Name)
    requires c != []
    ensures Widen(c) != []
  {
  }

  lemma {:induction false} PartsPrint(names: seq<Name>, current: seq<byte>)
    requires forall i :: 0 <= i < |names| ==> ProperName(names[i])
    ensures Parts(Print(names), current) == (if current == [] then [] else [current]) + WidenAll(names)
    decreases |names|
  {
    var done := if current == [] then [] else [current];
    if names == [] {
      assert done + [] == done;
    } else {
      var tail := names[0] + Print(names[1..]);
      assert Print(names) == [SLASH] + tail && Print(names)[1..] == tail;
      PartsName(names[0], Print(names[1..]), []);
      assert [] + Widen(names[0]) == Widen(names[0]);
      WidenNotEmpty(names[0]);
      PartsPrint(names[1..], Widen(names[0]));
      WidenFirst(names);
    }
  }

  lemma WidenFirst(names: seq<Name>)
    requires names != []
    ensures WidenAll(names) == [Widen(names[0])] + WidenAll(names[1..])
  {
  }

  lemma {:induction false} WidenLonger(c: Name)
    ensures |Widen(c)| >= |c|
    ensures (forall j :: 0 <= j < |c| ==> c[j] < 0x80) ==> Widen(c) == c
    ensures (exists j :: 0 <= j < |c| && c[j] >= 0x80) ==> |Widen(c)| > |c|
  {
    if c != [] {
      WidenLonger(c[1..]);
      assert c == [c[0]] + c[1..];
      if c[0] < 0x80 {
        if j :| 0 <= j < |c| && c[j] >= 0x80 {
          assert c[1..][j - 1] >= 0x80;
        }
      }
    }
  }

  lemma {:induction false} WidenAllSame(names: seq<Name>)
    ensures WidenAll(names) == names <==> Ascii(names)
  {
    forall i | 0 <= i < |names|
      ensures Widen(names[i]) == names[i] <==> forall j :: 0 <= j < |names[i]| ==> names[i][j] < 0x80
    {
      WidenLonger(names[i]);
    }
    if WidenAll(names) == names {
      assert forall i :: 0 <= i < |names| ==> WidenAll(names)[i] == names[i];
    }
  }

  /** Names that differ are still different when widened. */
  lemma {:induction false} WidenInjective(a: Name, b: Name)
    requires Widen(a) == Widen(b)
    ensures a == b
    decreases |a|
  {
    if a == [] {
      if b != [] {
        WidenNotEmpty(b);
      }
    } else if b == [] {
      WidenNotEmpty(a);
    } else {
      var n := |Utf8(a[0])|;
      assert Widen(a)[0] == Utf8(a[0])[0] && Widen(b)[0] == Utf8(b[0])[0];
      assert a[0] >= 0x80 ==> Widen(a)[1] == Utf8(a[0])[1];
      assert b[0] >= 0x80 ==> Widen(b)[1] == Utf8(b[0])[1];
      assert a[0] == b[0];
      assert Widen(a)[n..] == Widen(a[1..]) && Widen(b)[n..] == Widen(b[1..]);
      WidenInjective(a[1..], b[1..]);
      assert a == [a[0]] + a[1..] && b == [b[0]] + b[1..];
    }
  }

  /** Walking keeps which path lies below which, and never identifies two paths. */
  lemma WalkKeepsOrder(p: seq<Name>, q: seq<Name>)
    ensures p <= q <==> WidenAll(p) <= WidenAll(q)
    ensures p == q <==> WidenAll(p) == WidenAll(q)
  {
    forall i | 0 <= i < |p| && i < |q| && Widen(p[i]) == Widen(q[i])
      ensures p[i] == q[i]
    {
      WidenInjective(p[i], q[i]);
    }
    if WidenAll(p) <= WidenAll(q) {
      assert forall i :: 0 <= i < |p| ==> WidenAll(p)[i] == WidenAll(q)[i];
    }
  }

  /** parsePath, given a printed path, yields its names widened. */
  lemma {:induction false} ParsesToWidened(names: seq<Name>)
    requires names != [] && forall i :: 0 <= i < |names| ==> ProperName(names[i])
    ensures Parts(Trimmed(Print(names)), []) == WidenAll(names)
  {
    var p := Print(names);
    PrintEnd(names);
    assert Trimmed(p) == p[1..];
    assert Parts(p, []) == [] + Parts(p[1..], []) == Parts(p[1..], []);
    PartsPrint(names, []);
  }

  /** A printed path is parsed back into its names just when it is plain ASCII. */
  lemma {:induction false} ParsesBackIffAscii(names: seq<Name>)
    requires names != [] && forall i :: 0 <= i < |names| ==> ProperName(names[i])
    ensures Parts(Trimmed(Print(names)), []) == names <==> Ascii(names)
  {
    ParsesToWidened(names);
    WidenAllSame(names);
  }

  /** "/é", two bytes in UTF-8, is parsed into a name of four bytes. */
  lemma NonAsciiIsWidened()
    ensures Parts(Trimmed(Print([[0xC3, 0xA9]])), []) == [[0xC3, 0x83, 0xC2, 0xA9]]
  {
    var names: seq<Name> := [[0xC3, 0xA9]];
    PrintEnd(names);
    assert Print(names)[1..] == names[0] + Print([]);
    assert Trimmed(Print(names)) == Print(names)[1..] == names[0];
    PartsName(names[0], [], []);
    assert names[0] + [] == names[0];
    assert Widen([0xA9]) == [0xC2, 0xA9] && names[0][1..] == [0xA9];
    assert Widen(names[0]) == [0xC3, 0x83, 0xC2, 0xA9];
    assert [] + Widen(names[0]) == Widen(names[0]);
  }

  lemma {:induction false} PrintEnd(names: seq<Name>)
    requires names != [] && forall i :: 0 <= i < |names| ==> ProperName(names[i])
    ensures |Print(names)| > 1 && Print(names)[0] == SLASH && Print(names)[|Print(names)| - 1] != SLASH
    decreases |names|
  {
    if |names| == 1 {
      assert Print(names) == [SLASH] + names[0];
      assert names[0][|names[0]| - 1] in names[0];
    } else {
      PrintEnd(names[1..]);
    }
  }
}
