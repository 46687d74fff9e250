/**
 The line-buffered writer that streams a VM's boot output to the client (internal/daemon/server.go:493-534).
 `emitted` stands for the log frames sent, one line each.
 */
module EventWriter {

  predicate NewlineFree(s: string) {
    '\n' !in s
  }

  predicate AllNewlineFree(lines: seq<string>) {
    forall i :: 0 <= i < |lines| ==> NewlineFree(lines[i])
  }

  /** Every line followed by its newline. */
  function Unlines(lines: seq<string>): string {
    if lines == [] then "" else lines[0] + "\n" + Unlines(lines[1..])
  }

  function Concat(chunks: seq<string>): string {
    if chunks == [] then "" else chunks[0] + Concat(chunks[1..])
  }

  /** lines and rest are the newline-split of s: what is terminated, and what is not. */
  ghost predicate IsSplit(s: string, lines: seq<string>, rest: string) {
    AllNewlineFree(lines) && NewlineFree(rest) && Unlines(lines) + rest == s
  }

  lemma {:induction false} UnlinesAppend(a: seq<string>, b: seq<string>)
    ensures Unlines(a + b) == Unlines(a) + Unlines(b)
    decreases |a|
  {
    if a == [] {
      assert a + b == b;
    } else {
      assert (a + b)[1..] == a[1..] + b;
      UnlinesAppend(a[1..], b);
    }
  }

  /** The split of a stream is unique, so it cannot depend on how the stream was cut into writes. */
  lemma {:induction false} SplitUnique(s: string, a: seq<string>, arest: string, b: seq<string>, brest: string)
    requires IsSplit(s, a, arest) && IsSplit(s, b, brest)
    ensures a == b && arest == brest
    decreases |a|
  {
    NewlineSplits(s, a, arest);
    NewlineSplits(s, b, brest);
    if a != [] {
      FirstLine(s, a, arest);
      FirstLine(s, b, brest);
      SameFirst(s, a[0], b[0]);
      SplitUnique(s[|a[0]| + 1..], a[1..], arest, b[1..], brest);
      assert a == [a[0]] + a[1..] && b == [b[0]] + b[1..];
    }
  }

  lemma NewlineSplits(s: string, lines: seq<string>, rest: string)
    requires IsSplit(s, lines, rest)
    ensures lines == [] <==> NewlineFree(s)
    ensures lines == [] ==> rest == s
  {
    if lines == [] {
      assert "" + rest == rest;
    } else {
      assert s[|lines[0]|] == '\n';
    }
  }

  lemma FirstLine(s: string, lines: seq<string>, rest: string)
    requires IsSplit(s, lines, rest) && lines != []
    ensures |lines[0]| < |s| && s[..|lines[0]|] == lines[0] && s[|lines[0]|] == '\n'
    ensures IsSplit(s[|lines[0]| + 1..], lines[1..], rest)
  {
    assert s == lines[0] + ("\n" + (Unlines(lines[1..]) + rest));
    assert s[|lines[0]| + 1..] == Unlines(lines[1..]) + rest;
  }

  lemma SameFirst(s: string, a: string, b: string)
    requires |a| < |s| && s[..|a|] == a && s[|a|] == '\n' && NewlineFree(a)
    requires |b| < |s| && s[..|b|] == b && s[|b|] == '\n' && NewlineFree(b)
    ensures a == b
  {
    Earliest(s, a, |b|);
    Earliest(s, b, |a|);
  }

  /** No newline comes before the end of the first line. */
  lemma Earliest(s: string, line: string, i: nat)
    requires |line| < |s| && s[..|line|] == line && NewlineFree(line)
    requires i < |s| && s[i] == '\n'
    ensures |line| <= i
  {
    assert forall j :: 0 <= j < |line| ==> s[j] == line[j] && line[j] in line;
  }

  class EventWriter {
    var buf: string
    var emitted: seq<string>
    ghost var input: string

    /** Emitted lines, their newlines and the buffer make up exactly what was written so far. */
    ghost predicate Valid()
      reads this
    {
      IsSplit(input, emitted, buf)
    }

    constructor ()
      ensures Valid() && input == "" && emitted == []
    {
      buf, emitted, input := "", [], "";
    }

    /** bytes.IndexByte */
    method IndexNewline() returns (i: int)
      ensures -1 <= i < |buf|
      ensures i < 0 <==> NewlineFree(buf)
      ensures i >= 0 ==> buf[i] == '\n' && NewlineFree(buf[..i])
    {
      i := 0;
      while i < |buf|
        invariant 0 <= i <= |buf| && NewlineFree(buf[..i])
      {
        if buf[i] == '\n' {
          return;
        }
        i := i + 1;
      }
      i := -1;
    }

    method Write(p: string)
      requires Valid()
      modifies this
      ensures Valid() && input == old(input) + p && old(emitted) <= emitted
    {
      buf := buf + p;
      input := input + p;
      assert input == Unlines(emitted) + buf;
      while true
        invariant AllNewlineFree(emitted) && Unlines(emitted) + buf == input && old(emitted) <= emitted
        invariant input == old(input) + p
        decreases |buf|
      {
        var i := IndexNewline();
        if i < 0 {
          break;
        }
        ghost var was := buf;
        UnlinesAppend(emitted, [buf[..i]]);
        assert Unlines([buf[..i]]) == buf[..i] + "\n" + Unlines([]);
        emitted := emitted + [buf[..i]];
        buf := buf[i + 1..];
        assert was == was[..i] + "\n" + buf;
      }
    }

    /** Emits the partial line, if there is one. */
    method Flush()
      requires Valid()
      modifies this
      ensures buf == "" && input == old(input) && AllNewlineFree(emitted)
      ensures emitted == if old(buf) == "" then old(emitted) else old(emitted) + [old(buf)]
      ensures exists lines, rest ::
                IsSplit(input, lines, rest) && emitted == if rest == "" then lines else lines + [rest]
    {
      assert IsSplit(input, emitted, buf);
      if |buf| > 0 {
        emitted := emitted + [buf];
        buf := "";
      }
    }

    /** However a stream is cut into writes, the frames are its lines, in order, the unterminated one last. */
    static method WriteAll(chunks: seq<string>) returns (w: EventWriter)
      ensures forall lines, rest :: IsSplit(Concat(chunks), lines, rest) ==>
                w.emitted == if rest == "" then lines else lines + [rest]
    {
      w := new EventWriter();
      assert chunks[..0] == [];
      for i := 0 to |chunks|
        invariant w.Valid() && fresh(w) && w.input == Concat(chunks[..i])
      {
        w.Write(chunks[i]);
        ConcatAppend(chunks, i);
      }
      assert chunks[..|chunks|] == chunks;
      w.Flush();
      forall lines, rest | IsSplit(Concat(chunks), lines, rest)
        ensures w.emitted == if rest == "" then lines else lines + [rest]
      {
        var l, r :| IsSplit(w.input, l, r) && w.emitted == if r == "" then l else l + [r];
        SplitUnique(w.input, l, r, lines, rest);
      }
    }
  }

  lemma {:induction false} ConcatAppend(chunks: seq<string>, i: nat)
    requires i < |chunks|
    ensures Concat(chunks[..i + 1]) == Concat(chunks[..i]) + chunks[i]
    decreases i
  {
    if i == 0 {
      assert chunks[..1][1..] == [] && chunks[..0] == [];
    } else {
      assert chunks[..i + 1][1..] == chunks[1..][..i] && chunks[..i][1..] == chunks[1..][..i - 1];
      ConcatAppend(chunks[1..], i - 1);
    }
  }
}
