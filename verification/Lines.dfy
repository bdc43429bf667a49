/** Bytes split at newlines. */
module Lines {

  newtype Byte = b: int | 0 <= b < 256

  type Bytes = seq<Byte>

  const NEWLINE: Byte := 10

  /** Complete lines without their newlines, and what follows the last newline. */
  datatype Text = Text(lines: seq<Bytes>, rest: Bytes)

  const NOTHING: Text := Text([], [])

  ghost function Split(s: Bytes): Text {
    if s == [] then NOTHING
    else
      var t, b := Split(s[..|s| - 1]), s[|s| - 1];
      if b == NEWLINE then Text(t.lines + [t.rest], []) else Text(t.lines, t.rest + [b])
  }

  ghost function Unlines(lines: seq<Bytes>): Bytes {
    if lines == [] then [] else Unlines(lines[..|lines| - 1]) + lines[|lines| - 1] + [NEWLINE]
  }

  ghost predicate NewlineFree(t: Text) {
    NEWLINE !in t.rest && forall i :: 0 <= i < |t.lines| ==> NEWLINE !in t.lines[i]
  }

  /** Splitting loses nothing and leaves no newline inside a line. */
  lemma {:induction false} SplitInverse(s: Bytes)
    ensures NewlineFree(Split(s))
    ensures Unlines(Split(s).lines) + Split(s).rest == s
    decreases |s|
  {
    if s != [] {
      var t, b := Split(s[..|s| - 1]), s[|s| - 1];
      SplitInverse(s[..|s| - 1]);
      assert s == s[..|s| - 1] + [b];
      if b == NEWLINE {
        assert (t.lines + [t.rest])[..|t.lines|] == t.lines;
      }
    }
  }

  lemma SplitSnoc(s: Bytes, b: Byte)
    ensures Split(s + [b])
         == if b == NEWLINE then Text(Split(s).lines + [Split(s).rest], []) else Text(Split(s).lines, Split(s).rest + [b])
  {
    assert (s + [b])[..|s|] == s;
  }

  /** Splitting can be resumed from the rest. */
  lemma {:induction false} SplitResumes(a: Bytes, b: Bytes)
    ensures var t := Split(Split(a).rest + b); Split(a + b) == Text(Split(a).lines + t.lines, t.rest)
    decreases |b|
  {
    var r := Split(a).rest;
    if b == [] {
      assert a + b == a && r + b == r;
      RestAlone(a);
    } else {
      var c, last := b[..|b| - 1], b[|b| - 1];
      SplitResumes(a, c);
      SplitSnoc(a + c, last);
      SplitSnoc(r + c, last);
      assert a + b == (a + c) + [last] && r + b == (r + c) + [last];
    }
  }

  lemma {:induction false} NoNewline(s: Bytes)
    requires NEWLINE !in s
    ensures Split(s) == Text([], s)
    decreases |s|
  {
    if s != [] {
      NoNewline(s[..|s| - 1]);
    }
  }

  lemma RestAlone(s: Bytes)
    ensures Split(Split(s).rest) == Text([], Split(s).rest)
  {
    SplitInverse(s);
    NoNewline(Split(s).rest);
  }

  /** After a complete line splitting starts afresh. */
  lemma SplitAfterLine(a: Bytes, b: Bytes)
    requires Split(a).rest == []
    ensures Split(a + b) == Text(Split(a).lines + Split(b).lines, Split(b).rest)
  {
    hide Split;
    SplitResumes(a, b);
    assert [] + b == b;
  }

  lemma OneLine(line: Bytes)
    requires NEWLINE !in line
    ensures Split(line + [NEWLINE]) == Text([line], [])
  {
    hide Split;
    NoNewline(line);
    SplitSnoc(line, NEWLINE);
  }

  lemma FirstLine(line: Bytes, tail: Bytes)
    requires NEWLINE !in line
    ensures Split(line + [NEWLINE] + tail) == Text([line] + Split(tail).lines, Split(tail).rest)
  {
    hide Split;
    OneLine(line);
    SplitAfterLine(line + [NEWLINE], tail);
  }

  /** A complete line after complete lines. */
  lemma LineAppended(s: Bytes, line: Bytes)
    requires Split(s).rest == [] && NEWLINE !in line
    ensures Split(s + (line + [NEWLINE])) == Text(Split(s).lines + [line], [])
  {
    hide Split;
    OneLine(line);
    SplitAfterLine(s, line + [NEWLINE]);
  }

  lemma UnlinesLast(lines: seq<Bytes>)
    ensures Unlines([]) == [] && Split([]) == NOTHING
    ensures lines != [] ==>
              Unlines(lines) == Unlines(lines[..|lines| - 1]) + (lines[|lines| - 1] + [NEWLINE])
  {
  }

  lemma {:induction false} SplitUnlines(lines: seq<Bytes>)
    requires forall i :: 0 <= i < |lines| ==> NEWLINE !in lines[i]
    ensures Split(Unlines(lines)) == Text(lines, [])
    decreases |lines|
  {
    hide Split, Unlines;
    UnlinesLast(lines);
    if lines != [] {
      var init, last := lines[..|lines| - 1], lines[|lines| - 1];
      SplitUnlines(init);
      LineAppended(Unlines(init), last);
      assert lines == init + [last];
    }
  }

  predicate EndsLine(s: Bytes) {
    s == [] || s[|s| - 1] == NEWLINE
  }

  lemma EndsLineIff(s: Bytes)
    ensures EndsLine(s) <==> Split(s).rest == []
  {
  }
}
