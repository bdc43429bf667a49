/** Following a log file: bytes arrive in chunks of any size, complete lines go out, and at most one
    partial line is kept. The emitted lines are those of the byte stream split at newlines, however the
    stream is cut, exactly when no line is longer than the limit. */
module Tailer {
  import opened Lines
  import opened Rotation
  import opened Wrappers

  const READ_CHUNK: nat := 64 * 1024
  const MAX_LINE: nat := 16 * 1024
  const MAX_BATCH_BYTES: nat := 1024 * 1024

  // ----- feeding chunks -----

  /** One chunk: its lines are complete, and an over-long rest is thrown away. */
  ghost function FeedChunk(t: Text, chunk: Bytes): Text {
    var q := Split(t.rest + chunk);
    Text(t.lines + q.lines, if |q.rest| > MAX_LINE then [] else q.rest)
  }

  ghost function Feed(chunks: seq<Bytes>): (t: Text)
    ensures |t.rest| <= MAX_LINE
  {
    if chunks == [] then NOTHING else FeedChunk(Feed(chunks[..|chunks| - 1]), chunks[|chunks| - 1])
  }

  ghost function Joined(chunks: seq<Bytes>): Bytes {
    if chunks == [] then [] else Joined(chunks[..|chunks| - 1]) + chunks[|chunks| - 1]
  }

  /** No line, and no unfinished line, exceeds the limit. */
  ghost predicate ShortLines(s: Bytes) {
    && |Split(s).rest| <= MAX_LINE
    && forall i :: 0 <= i < |Split(s).lines| ==> |Split(s).lines[i]| <= MAX_LINE
  }

  /** A rest is the beginning of what follows it. */
  lemma {:induction false} RestIsPrefix(r: Bytes, b: Bytes)
    requires NEWLINE !in r
    ensures var t := Split(r + b); |r| <= if t.lines == [] then |t.rest| else |t.lines[0]|
    decreases |b|
  {
    if b == [] {
      assert r + b == r;
      NoNewline(r);
    } else {
      RestIsPrefix(r, b[..|b| - 1]);
      assert r + b == (r + b[..|b| - 1]) + [b[|b| - 1]];
      SplitSnoc(r + b[..|b| - 1], b[|b| - 1]);
    }
  }

  lemma ShortPrefix(a: Bytes, b: Bytes)
    requires ShortLines(a + b)
    ensures ShortLines(a)
  {
    SplitResumes(a, b);
    SplitInverse(a);
    var p, t := Split(a), Split(Split(a).rest + b);
    RestIsPrefix(p.rest, b);
    if t.lines != [] {
      assert (p.lines + t.lines)[|p.lines|] == t.lines[0];
    }
    forall i | 0 <= i < |p.lines|
      ensures |p.lines[i]| <= MAX_LINE
    {
      assert (p.lines + t.lines)[i] == p.lines[i];
    }
  }

  /** With short lines the cuts do not matter. */
  lemma {:induction false} FeedIsSplit(chunks: seq<Bytes>)
    requires ShortLines(Joined(chunks))
    ensures Feed(chunks) == Split(Joined(chunks))
    decreases |chunks|
  {
    if chunks != [] {
      var before, last := chunks[..|chunks| - 1], chunks[|chunks| - 1];
      ShortPrefix(Joined(before), last);
      FeedIsSplit(before);
      SplitResumes(Joined(before), last);
    }
  }

  // ----- and only then -----

  ghost function Singles(s: Bytes): (chunks: seq<Bytes>)
    ensures |chunks| == |s|
  {
    if s == [] then [] else Singles(s[..|s| - 1]) + [[s[|s| - 1]]]
  }

  lemma {:induction false} SinglesJoin(s: Bytes)
    ensures Joined(Singles(s)) == s
    decreases |s|
  {
    if s != [] {
      SinglesJoin(s[..|s| - 1]);
      var c := Singles(s);
      assert c[..|c| - 1] == Singles(s[..|s| - 1]);
      assert s == s[..|s| - 1] + [s[|s| - 1]];
    }
  }

  /** Bytes accounted for, newlines included. */
  ghost function Weight(t: Text): nat {
    |Unlines(t.lines)| + |t.rest|
  }

  lemma FeedByte(t: Text, b: Byte)
    requires NEWLINE !in t.rest
    ensures FeedChunk(t, [b])
         == if b == NEWLINE then Text(t.lines + [t.rest], [])
            else Text(t.lines, if |t.rest| >= MAX_LINE then [] else t.rest + [b])
  {
    NoNewline(t.rest);
    SplitSnoc(t.rest, b);
    hide Split;
    assert [] + [t.rest] == [t.rest];
    assert t.lines + [] == t.lines;
  }

  lemma WeightOfFeed(t: Text, b: Byte)
    requires NEWLINE !in t.rest
    ensures var f := FeedChunk(t, [b]);
            && NEWLINE !in f.rest && Weight(f) <= Weight(t) + 1
            && (b != NEWLINE && |t.rest| >= MAX_LINE ==> Weight(f) < Weight(t) + 1)
  {
    hide FeedChunk;
    FeedByte(t, b);
    assert (t.lines + [t.rest])[..|t.lines|] == t.lines;
  }

  lemma FeedOfSingles(a: Bytes, b: Byte)
    ensures Feed(Singles(a + [b])) == FeedChunk(Feed(Singles(a)), [b])
  {
    var s := a + [b];
    assert s[..|s| - 1] == a;
    var c := Singles(s);
    assert c[..|c| - 1] == Singles(a);
  }

  lemma ShortStep(a: Bytes, b: Byte)
    requires ShortLines(a) && (b == NEWLINE || |Split(a).rest| < MAX_LINE)
    ensures ShortLines(a + [b])
  {
    SplitSnoc(a, b);
    hide Split;
    var t, more := Split(a), Split(a + [b]);
    forall i | 0 <= i < |more.lines|
      ensures |more.lines[i]| <= MAX_LINE
    {
      assert more.lines[i] == if i < |t.lines| then t.lines[i] else t.rest;
    }
  }

  /** One byte fed to an exact text of short lines. */
  lemma ByteFed(a: Bytes, b: Byte)
    requires ShortLines(a)
    ensures var f := FeedChunk(Split(a), [b]);
            || (f == Split(a + [b]) && ShortLines(a + [b]))
            || Weight(f) < Weight(Split(a)) + 1
  {
    SplitInverse(a);
    WeightOfFeed(Split(a), b);
    hide Split, FeedChunk, Weight;
    if b == NEWLINE || |Split(a).rest| < MAX_LINE {
      ShortStep(a, b);
      hide ShortLines;
      FeedByte(Split(a), b);
      SplitSnoc(a, b);
    }
  }

  /** Byte by byte, a stream with an over-long line loses something. */
  lemma {:induction false} SinglesDetectLongLines(s: Bytes)
    ensures NEWLINE !in Feed(Singles(s)).rest
    ensures || (Feed(Singles(s)) == Split(s) && ShortLines(s))
            || Weight(Feed(Singles(s))) < |s|
    decreases |s|
  {
    hide Feed, Singles, FeedChunk, Split, ShortLines, Weight;
    NothingIsShort();
    if s != [] {
      var a, b := s[..|s| - 1], s[|s| - 1];
      assert s == a + [b];
      SinglesDetectLongLines(a);
      FeedOfSingles(a, b);
      WeightOfFeed(Feed(Singles(a)), b);
      if Feed(Singles(a)) == Split(a) && ShortLines(a) {
        SplitWeight(a);
        ByteFed(a, b);
      }
    }
  }

  lemma SplitWeight(s: Bytes)
    ensures Weight(Split(s)) == |s|
  {
    SplitInverse(s);
    assert |Unlines(Split(s).lines) + Split(s).rest| == |s|;
  }

  lemma NothingIsShort()
    ensures Feed(Singles([])) == Split([]) == NOTHING && ShortLines([])
  {
  }

  ghost predicate CutsDoNotMatter(s: Bytes) {
    forall chunks :: Joined(chunks) == s ==> Feed(chunks) == Split(s)
  }

  /** The condition on line lengths is exact. */
  lemma CutsDoNotMatterIffShort(s: Bytes)
    ensures CutsDoNotMatter(s) <==> ShortLines(s)
  {
    if ShortLines(s) {
      forall chunks | Joined(chunks) == s
        ensures Feed(chunks) == Split(s)
      {
        FeedIsSplit(chunks);
      }
    }
    if CutsDoNotMatter(s) {
      SinglesJoin(s);
      SinglesDetectLongLines(s);
      SplitInverse(s);
      assert |s| == Weight(Split(s));
    }
  }

  /** An input: a line of one byte more than the limit comes out whole if it is read at once, and as an empty
      line if its newline comes in a read of its own. */
  lemma LongLineDependsOnCut(line: Bytes)
    requires |line| == 16 * 1024 + 1 && NEWLINE !in line
    ensures Joined([line + [NEWLINE]]) == Joined([line, [NEWLINE]]) == line + [NEWLINE]
    ensures Feed([line + [NEWLINE]]) == Text([line], [])
    ensures Feed([line, [NEWLINE]]) == Text([[]], [])
  {
    hide Feed, Joined, FeedChunk;
    var all := line + [NEWLINE];
    NothingFed();
    LongLineChunks(line);
    FeedSnoc([], all);
    FeedSnoc([], line);
    FeedSnoc([line], [NEWLINE]);
    JoinedSnoc([], all);
    JoinedSnoc([], line);
    JoinedSnoc([line], [NEWLINE]);
    assert [] + all == all && [] + line == line;
    assert [] + [all] == [all] && [] + [line] == [line] && [line] + [[NEWLINE]] == [line, [NEWLINE]];
  }

  lemma LongLineChunks(line: Bytes)
    requires |line| == MAX_LINE + 1 && NEWLINE !in line
    ensures FeedChunk(NOTHING, line + [NEWLINE]) == Text([line], [])
    ensures FeedChunk(NOTHING, line) == NOTHING && FeedChunk(NOTHING, [NEWLINE]) == Text([[]], [])
  {
    hide Split;
    OneLine(line);
    NoNewline(line);
    OneLine([]);
    var all := line + [NEWLINE];
    assert [] + all == all && [] + line == line && [] + [NEWLINE] == [NEWLINE];
  }

  lemma FedRest(chunks: seq<Bytes>)
    ensures NEWLINE !in Feed(chunks).rest && |Feed(chunks).rest| <= MAX_LINE
  {
    if chunks != [] {
      SplitInverse(Feed(chunks[..|chunks| - 1]).rest + chunks[|chunks| - 1]);
    }
  }

  lemma FeedSnoc(chunks: seq<Bytes>, chunk: Bytes)
    ensures Feed(chunks + [chunk]) == FeedChunk(Feed(chunks), chunk)
  {
    assert (chunks + [chunk])[..|chunks|] == chunks;
  }

  lemma JoinedSnoc(chunks: seq<Bytes>, chunk: Bytes)
    ensures Joined(chunks + [chunk]) == Joined(chunks) + chunk
  {
    assert (chunks + [chunk])[..|chunks|] == chunks;
  }

  // ----- the follower of one file -----

  /** The bytes of a file between two positions it has. */
  ghost function ReadBytes(file: Option<File>, from: nat, to: nat): Bytes {
    if file.Some? && from <= to <= |file.value.content| then file.value.content[from..to] else []
  }

  lemma ReadBytesConcat(file: Option<File>, a: nat, b: nat, c: nat)
    requires file.Some? && a <= b <= c
    requires b == a || b <= |file.value.content|
    requires c == b || c <= |file.value.content|
    ensures ReadBytes(file, a, b) + ReadBytes(file, b, c) == ReadBytes(file, a, c)
  {
  }

  lemma ReadNothing(file: Option<File>, at: nat)
    ensures ReadBytes(file, at, at) == []
  {
  }

  lemma ReadOnce(file: Option<File>, at: nat, n: nat)
    requires file.Some? && at + n <= |file.value.content|
    ensures ReadBytes(file, at, at + n) == file.value.content[at..at + n]
  {
  }

  /** A line leaves the chunk. */
  lemma LineTaken(whole: Text, out: seq<Bytes>, partial: Bytes, chunk: Bytes, nl: nat)
    requires whole == Text(out + Split(partial + chunk).lines, Split(partial + chunk).rest)
    requires nl < |chunk| && chunk[nl] == NEWLINE && NEWLINE !in chunk[..nl] && NEWLINE !in partial
    ensures var tail := [] + chunk[nl + 1..];
            whole == Text(out + [partial + chunk[..nl]] + Split(tail).lines, Split(tail).rest)
  {
    hide Split;
    var line, tail := partial + chunk[..nl], chunk[nl + 1..];
    FirstLine(line, tail);
    assert partial + chunk == line + [NEWLINE] + tail;
    assert [] + tail == tail;
  }

  /** No line is left in the chunk. */
  lemma RestTaken(whole: Text, out: seq<Bytes>, partial: Bytes, chunk: Bytes)
    requires whole == Text(out + Split(partial + chunk).lines, Split(partial + chunk).rest)
    requires NEWLINE !in chunk && NEWLINE !in partial
    ensures whole == Text(out, partial + chunk) && (chunk == [] ==> partial + chunk == partial)
  {
    hide Split;
    NoNewline(partial + chunk);
  }

  /** What lies behind a position. */
  ghost function Unread(content: Bytes, at: nat): Bytes {
    if at <= |content| then content[at..] else []
  }

  lemma WholeRead(content: Bytes, base: nat, at: nat)
    requires base <= at <= |content|
    ensures content[base..at] + Unread(content, at) == content[base..]
  {
  }

  lemma ReadToEnd(file: File, from: nat, to: nat)
    requires to == from || from <= to <= |file.content|
    ensures to >= |file.content| ==> ReadBytes(Some(file), from, to) == Unread(file.content, from)
  {
  }

  lemma ReadSome(path: File, from: nat, to: nat)
    ensures from <= to <= |path.content| ==> ReadBytes(Some(path), from, to) == path.content[from..to]
  {
  }

  lemma NothingFed()
    ensures Feed([]) == NOTHING && Joined([]) == []
  {
  }

  ghost predicate AllShort(gens: seq<Bytes>) {
    forall g :: 0 <= g < |gens| ==> ShortLines(gens[g])
  }

  /** A poll that reads from one position to another: to the end, or as far as the budget goes, which leaves a
      backlog. */
  ghost predicate Reached(content: Bytes, from: nat, to: nat, backlog: bool) {
    && to == Min(|content|, from + MAX_BATCH_BYTES)
    && (backlog <==> to == from + MAX_BATCH_BYTES)
  }

  // ----- following from a position on -----

  /** The generations of a log from an offset in the oldest one on. */
  ghost function FromOffset(gens: seq<Bytes>, start: nat): seq<Bytes>
    requires gens != [] ==> start <= |gens[0]|
  {
    if gens == [] then [] else [gens[0][start..]] + gens[1..]
  }

  /** Where the reading of the newest of `n` generations begins. */
  function Base(n: nat, start: nat): nat {
    if n == 1 then start else 0
  }

  lemma NewestFrom(gens: seq<Bytes>, start: nat)
    requires gens != [] && start <= |gens[0]|
    ensures |FromOffset(gens, start)| == |gens| && Base(|gens|, start) <= |gens[|gens| - 1]|
    ensures FromOffset(gens, start)[|gens| - 1] == gens[|gens| - 1][Base(|gens|, start)..]
  {
  }

  /** What growth does to the generations before the newest one. */
  lemma OlderFrom(a: Log, b: Log, start: nat)
    requires Evolves(a, b) && a.gens != [] && start <= |a.gens[0]|
    ensures |b.inos| == |b.gens| >= |a.gens| && start <= |b.gens[0]|
    ensures var n := |a.gens|;
            FromOffset(b.gens, start)[..n - 1] == FromOffset(a.gens, start)[..n - 1]
            && (|b.gens| == n + 1 ==>
                  FromOffset(b.gens, start)[..n] == FromOffset(a.gens, start)[..n - 1] + [b.gens[n - 1][Base(n, start)..]])
  {
    var n := |a.gens|;
    var x, y := FromOffset(a.gens, start), FromOffset(b.gens, start);
    assert a.gens[0] <= b.gens[0] by {
      if n > 1 {
        assert a.gens[..n - 1][0] == b.gens[..n - 1][0];
      }
    }
    forall g | 0 <= g < n - 1
      ensures y[g] == x[g]
    {
      assert b.gens[..n - 1][g] == a.gens[..n - 1][g];
    }
    assert y[..n - 1] == x[..n - 1];
    if |b.gens| == n + 1 {
      assert y[n - 1] == b.gens[n - 1][Base(n, start)..];
      assert y[..n] == y[..n - 1] + [y[n - 1]];
    }
  }

  class FileState {
    /** The open file, with the bytes its inode holds now. */
    var file: Option<File>
    var pos: nat
    var partial: Bytes

    /** The chunks read since the file was opened, and every line delivered since then. */
    ghost var chunks: seq<Bytes>
    ghost var delivered: seq<Bytes>
    /** The lines of files that have been closed, and the chunks of the last of them. */
    ghost var earlier: seq<Bytes>
    ghost var closed: seq<Bytes>

    ghost predicate Valid()
      reads this
    {
      && Feed(chunks) == Text(delivered, partial)
      && (file == None ==> chunks == [])
    }

    constructor ()
      ensures Valid() && file == None && pos == 0 && chunks == [] && delivered == [] && earlier == []
    {
      file, pos, partial := None, 0, [];
      chunks, delivered, earlier, closed := [], [], [], [];
    }

    /** The operating system hands out between 1 and `want` of the bytes that are there, nothing at the
        end of the file, or, if the file is not healthy, an error. */
    method Read(want: nat, healthy: bool) returns (chunk: Option<Bytes>)
      requires file.Some? && want > 0
      ensures healthy ==> chunk.Some?
      ensures chunk.Some? ==>
                if pos >= |file.value.content| then chunk.value == []
                else 1 <= |chunk.value| <= want && pos + |chunk.value| <= |file.value.content|
                     && chunk.value == file.value.content[pos..pos + |chunk.value|]
    {
      var failed: bool := *;
      if !healthy && failed {
        return None;
      }
      if pos >= |file.value.content| {
        return Some([]);
      }
      var n: nat :| 1 <= n <= want && pos + n <= |file.value.content|;
      return Some(file.value.content[pos..pos + n]);
    }

    /** The position of the first newline. */
    static method FindNewline(chunk: Bytes) returns (at: Option<nat>)
      ensures at == None ==> NEWLINE !in chunk
      ensures at.Some? ==> 0 <= at.value < |chunk| && chunk[at.value] == NEWLINE && NEWLINE !in chunk[..at.value]
    {
      for i := 0 to |chunk|
        invariant NEWLINE !in chunk[..i]
      {
        if chunk[i] == NEWLINE {
          return Some(i);
        }
      }
      return None;
    }

    /** Splits one chunk: complete lines go out, the rest is kept unless it has grown too long. */
    method TakeChunk(bytes: Bytes) returns (out: seq<Bytes>)
      requires Valid() && bytes != [] && file.Some?
      modifies `partial, `chunks, `delivered
      ensures Valid() && chunks == old(chunks) + [bytes] && delivered == old(delivered) + out
    {
      hide Feed, Split;
      var chunk := bytes;
      out := [];
      ghost var whole := Split(partial + bytes);
      FedRest(chunks);
      var nl := FindNewline(chunk);
      while nl.Some?
        invariant nl == None ==> NEWLINE !in chunk
        invariant nl.Some? ==> 0 <= nl.value < |chunk| && chunk[nl.value] == NEWLINE && NEWLINE !in chunk[..nl.value]
        invariant chunks == old(chunks) && delivered == old(delivered)
        invariant NEWLINE !in partial
        invariant chunk == [] ==> partial == []
        invariant whole == Text(out + Split(partial + chunk).lines, Split(partial + chunk).rest)
        decreases |chunk|
      {
        LineTaken(whole, out, partial, chunk, nl.value);
        out := out + [partial + chunk[..nl.value]];
        partial := [];
        chunk := chunk[nl.value + 1..];
        nl := FindNewline(chunk);
      }
      RestTaken(whole, out, partial, chunk);
      if chunk != [] {
        if |partial| + |chunk| > MAX_LINE {
          partial := [];
        } else {
          partial := partial + chunk;
        }
      }
      FeedSnoc(chunks, bytes);
      chunks := chunks + [bytes];
      delivered := delivered + out;
    }

    /** Reads what is there, up to the budget. True means that the budget was used up exactly. */
    method ReadAvailable(healthy: bool) returns (out: seq<Bytes>, more: bool, failed: bool)
      requires Valid()
      modifies `pos, `partial, `chunks, `delivered
      ensures healthy ==> !failed
      ensures Valid() && delivered == old(delivered) + out
      ensures old(pos) <= pos <= old(pos) + 1024 * 1024
      ensures file == None ==> !more && pos == old(pos)
      ensures more ==> !failed && pos == old(pos) + MAX_BATCH_BYTES
      ensures file.Some? && !more && !failed ==> pos >= |file.value.content| && pos < old(pos) + MAX_BATCH_BYTES
      ensures old(chunks) <= chunks && Joined(chunks) == old(Joined(chunks)) + ReadBytes(file, old(pos), pos)
      ensures |partial| <= MAX_LINE
      ensures pos == old(pos) || (file.Some? && pos <= |file.value.content|)
    {
      hide Feed, Joined, ReadBytes;
      out, failed := [], false;
      FedRest(chunks);
      ReadNothing(file, pos);
      if file == None {
        return out, false, failed;
      }
      var budget := MAX_BATCH_BYTES;
      while true
        invariant Valid() && delivered == old(delivered) + out && !failed
        invariant 0 <= budget <= MAX_BATCH_BYTES && pos == old(pos) + (MAX_BATCH_BYTES - budget)
        invariant old(chunks) <= chunks && Joined(chunks) == old(Joined(chunks)) + ReadBytes(file, old(pos), pos)
        invariant |partial| <= MAX_LINE
        invariant pos == old(pos) || pos <= |file.value.content|
        decreases budget
      {
        if budget == 0 {
          return out, true, failed;
        }
        var chunk := Read(Min(budget, READ_CHUNK), healthy);
        if chunk == None {
          return out, false, true;
        }
        if chunk.value == [] {
          return out, false, failed;
        }
        ReadBytesConcat(file, old(pos), pos, pos + |chunk.value|);
        ReadOnce(file, pos, |chunk.value|);
        JoinedSnoc(chunks, chunk.value);
        FedRest(chunks + [chunk.value]);
        budget := budget - |chunk.value|;
        pos := pos + |chunk.value|;
        var lines := TakeChunk(chunk.value);
        out := out + lines;
      }
    }

    /** Reads an old file to its end. */
    method Drain(healthy: bool) returns (out: seq<Bytes>, failed: bool)
      requires Valid() && file.Some?
      modifies `pos, `partial, `chunks, `delivered
      ensures healthy ==> !failed
      ensures Valid() && delivered == old(delivered) + out
      ensures old(pos) <= pos && (pos == old(pos) || pos <= |file.value.content|)
      ensures old(chunks) <= chunks && Joined(chunks) == old(Joined(chunks)) + ReadBytes(file, old(pos), pos)
      ensures !failed ==> pos >= |file.value.content|
    {
      hide Feed, Joined, ReadBytes;
      var lines, more, bad := ReadAvailable(healthy);
      out, failed := lines, bad;
      while more
        invariant Valid() && delivered == old(delivered) + out && old(pos) <= pos
        invariant old(chunks) <= chunks && Joined(chunks) == old(Joined(chunks)) + ReadBytes(file, old(pos), pos)
        invariant pos == old(pos) || pos <= |file.value.content|
        invariant healthy ==> !failed
        invariant more ==> !failed && pos <= |file.value.content|
        invariant !more && !failed ==> pos >= |file.value.content|
        decreases more, |file.value.content| - pos
      {
        ghost var before := pos;
        lines, more, bad := ReadAvailable(healthy);
        ReadBytesConcat(file, old(pos), before, pos);
        out, failed := out + lines, bad;
      }
    }

    /** The path names another file than the open one, or the file is shorter than what was read of it. */
    predicate Rotated(path: File)
      reads `file, `pos
    {
      file.Some? && (path.ino != file.value.ino || |path.content| < pos)
    }

    /** Reads the open file to its end and lets go of it; an unfinished line is dropped. */
    method Close(healthy: bool) returns (out: seq<Bytes>, failed: bool)
      requires Valid() && file.Some?
      modifies this
      ensures healthy ==> !failed
      ensures Valid() && file == None && chunks == [] && delivered == []
      ensures Feed(closed).lines == old(delivered) + out && earlier == old(earlier) + Feed(closed).lines
      ensures !failed ==> Joined(closed) == old(Joined(chunks)) + Unread(old(file).value.content, old(pos))
    {
      hide Feed, Joined;
      NothingFed();
      ghost var was, from := file.value, pos;
      out, failed := Drain(healthy);
      ReadToEnd(was, from, pos);
      closed, earlier := chunks, earlier + delivered;
      file, partial := None, [];
      chunks, delivered := [], [];
    }

    /** Opens the file a path names, at its start or at its end. */
    method Open(path: File, atEnd: bool, healthy: bool) returns (ok: bool)
      requires Valid() && file == None
      modifies `file, `pos
      ensures Valid() && (healthy ==> ok)
      ensures if ok then file == Some(path) && pos == (if atEnd then |path.content| else 0)
              else file == None && pos == old(pos)
    {
      var fails: bool := *;
      ok := healthy || !fails;
      if ok {
        file, pos := Some(path), if atEnd then |path.content| else 0;
      }
    }

    /** Where a poll begins to read the file that the path names. */
    ghost function From(path: File, seekEnd: bool): nat
      reads `file, `pos
    {
      if file.Some? && path.ino == file.value.ino && pos <= |path.content| then pos
      else if file == None && seekEnd then |path.content|
      else 0
    }

    /** One poll: `path` is what the path names now, and `held` what the open file holds now. A rotated file
        is read to its end before the new one is opened, and that one is read from its start. */
    method Poll(path: Option<File>, held: Bytes, seekEnd: bool, healthy: bool)
      returns (out: seq<Bytes>, backlog: bool, failed: bool)
      requires Valid()
      requires file.Some? && path.Some? && path.value.ino == file.value.ino ==> path.value.content == held
      modifies this
      ensures Valid() && earlier + delivered == old(earlier) + old(delivered) + out && (healthy ==> !failed)
      ensures path == None ==> file == None && !backlog && pos == 0 && partial == []
      ensures path == None && old(file).Some? ==>
                && earlier == old(earlier) + Feed(closed).lines
                && (!failed ==> Joined(closed) == old(Joined(chunks)) + Unread(held, old(pos)))
      ensures path.Some? && old(file).Some? && path.value.ino == old(file).value.ino && old(pos) <= |path.value.content| ==>
                && file == path && earlier == old(earlier) && old(pos) <= pos <= |path.value.content|
                && Joined(chunks) == old(Joined(chunks)) + path.value.content[old(pos)..pos]
      ensures path.Some? && old(file).Some? && !failed
              && (path.value.ino != old(file).value.ino || |path.value.content| < old(pos)) ==>
                && file == path && pos <= |path.value.content| && Joined(chunks) == path.value.content[..pos]
                && earlier == old(earlier) + Feed(closed).lines
                && Joined(closed) == old(Joined(chunks)) + Unread(held, old(pos))
      ensures path.Some? && old(file) == None && !failed ==>
                var start := if seekEnd then |path.value.content| else 0;
                && file == path && earlier == old(earlier) && start <= pos <= |path.value.content|
                && Joined(chunks) == path.value.content[start..pos]
      ensures path.Some? && !failed ==> Reached(path.value.content, old(From(path.value, seekEnd)), pos, backlog)
      ensures path.Some? && old(file).Some? && path.value.ino == old(file).value.ino && old(pos) <= |path.value.content| ==>
                pos <= old(pos) + MAX_BATCH_BYTES
    {
      hide Feed, Joined, ReadBytes, Unread;
      if file.Some? {
        file := Some(File(file.value.ino, held));
      }
      NothingFed();
      out, failed := [], false;
      if path == None {
        if file.Some? {
          out, failed := Close(healthy);
        }
        pos := 0;
        return out, false, failed;
      }
      var rotated := Rotated(path.value);
      if rotated {
        out, failed := Close(healthy);
      }
      if file == None {
        var ok := Open(path.value, seekEnd && !rotated, healthy);
        if !ok {
          return out, false, true;
        }
      }
      ghost var start := pos;
      var lines, more, bad := ReadAvailable(healthy);
      ReadSome(path.value, start, pos);
      return out + lines, more, failed || bad;
    }

    /** The open file is the current generation, read up to the position, and the closed ones are the earlier
        generations; the oldest one counts from an offset on. */
    ghost predicate Following(log: Log, start: nat)
      reads this
    {
      var n := |log.gens|;
      && Valid() && n > 0 && |log.inos| == n && start <= |log.gens[0]|
      && file == Some(File(log.inos[n - 1], log.gens[n - 1])) && Base(n, start) <= pos <= |log.gens[n - 1]|
      && Joined(chunks) == log.gens[n - 1][Base(n, start)..pos]
      && earlier == AllLines(FromOffset(log.gens, start)[..n - 1])
    }

    lemma FollowingMeans(log: Log, start: nat)
      requires Following(log, start)
      ensures var n := |log.gens|;
              && Valid() && n > 0 && |log.inos| == n && start <= |log.gens[0]|
              && file == Some(File(log.inos[n - 1], log.gens[n - 1])) && Base(n, start) <= pos <= |log.gens[n - 1]|
              && Joined(chunks) == log.gens[n - 1][Base(n, start)..pos]
              && earlier == AllLines(FromOffset(log.gens, start)[..n - 1])
    {
    }

    lemma FollowingAt(log: Log, start: nat)
      requires Following(log, start)
      ensures log.gens != [] && pos <= |log.gens[|log.gens| - 1]|
    {
    }

    lemma FollowsIf(log: Log, start: nat)
      requires var n := |log.gens|;
               && Valid() && n > 0 && |log.inos| == n && start <= |log.gens[0]|
               && file == Some(File(log.inos[n - 1], log.gens[n - 1])) && Base(n, start) <= pos <= |log.gens[n - 1]|
               && Joined(chunks) == log.gens[n - 1][Base(n, start)..pos]
               && earlier == AllLines(FromOffset(log.gens, start)[..n - 1])
      ensures Following(log, start)
    {
    }

    lemma FollowsFirst(log: Log, start: nat)
      requires Valid() && |log.gens| == 1 && |log.inos| == 1
      requires file == Some(File(log.inos[0], log.gens[0])) && start <= pos <= |log.gens[0]|
      requires Joined(chunks) == log.gens[0][start..pos] && earlier == []
      ensures Following(log, start)
    {
    }

    /** What has been delivered while following a log: every line of the earlier generations, and of what
        has been read of the current one. */
    lemma FollowedLines(log: Log, start: nat)
      requires Following(log, start) && log.gens != [] && start <= |log.gens[0]| && AllShort(FromOffset(log.gens, start))
      ensures var n, gens := |log.gens|, FromOffset(log.gens, start);
              && |gens| == n && 0 <= pos - Base(n, start) <= |gens[n - 1]|
              && earlier + delivered == AllLines(gens[..n - 1]) + Split(gens[n - 1][..pos - Base(n, start)]).lines
              && (pos == |log.gens[n - 1]| ==> earlier + delivered == AllLines(gens))
    {
      hide Feed, Joined, Split, ShortLines, FromOffset;
      NewestFrom(log.gens, start);
      var n, gens := |log.gens|, FromOffset(log.gens, start);
      var last, at := gens[n - 1], pos - Base(n, start);
      assert last == last[..at] + last[at..];
      assert last[..at] == log.gens[n - 1][Base(n, start)..pos];
      ShortPrefix(last[..at], last[at..]);
      FeedIsSplit(chunks);
      assert at == |last| ==> last[..at] == last;
    }

    /** A poll after the log has grown, with at most one rotation, goes on following it. Only a failure at a
        rotation can stop that. */
    method Follow(ghost before: Log, now: Log, held: Bytes, ghost start: nat, seekEnd: bool, healthy: bool)
      returns (out: seq<Bytes>, backlog: bool, failed: bool)
      requires Following(before, start) && Evolves(before, now) && now.Distinct()
      requires start <= |now.gens[0]| && AllShort(FromOffset(now.gens, start))
      requires held == now.gens[|before.gens| - 1]
      modifies this
      ensures earlier + delivered == old(earlier) + old(delivered) + out && (healthy ==> !failed)
      ensures healthy || |now.gens| == |before.gens| ==> Following(now, start)
      ensures var from := if |now.gens| == |before.gens| then old(pos) else 0;
              && (!failed ==> Reached(now.gens[|now.gens| - 1], from, pos, backlog))
              && (|now.gens| == |before.gens| ==> old(pos) <= pos <= old(pos) + MAX_BATCH_BYTES)
    {
      hide Feed, Joined, Split, ShortLines, AllLines, Following, Unread, FromOffset;
      FollowingMeans(before, start);
      OlderFrom(before, now, start);
      NewestFrom(before.gens, start);
      NewestFrom(now.gens, start);
      var m := |now.gens|;
      ghost var n, at, base := |before.gens|, pos, Base(|before.gens|, start);
      assert now.inos[n - 1] == now.inos[..n][n - 1];
      assert before.gens[n - 1][base..at] == now.gens[n - 1][base..at];
      out, backlog, failed := Poll(Some(File(now.inos[m - 1], now.gens[m - 1])), held, seekEnd, healthy);
      if m == n {
        assert now.gens[n - 1][base..at] + now.gens[n - 1][at..pos] == now.gens[n - 1][base..pos];
        FollowsIf(now, start);
      } else if !failed {
        WholeRead(held, base, at);
        assert held[base..] == FromOffset(now.gens, start)[..n][n - 1];
        FeedIsSplit(closed);
        AllLinesSnoc(FromOffset(before.gens, start)[..n - 1], held[base..]);
        assert now.gens[m - 1][0..pos] == now.gens[m - 1][..pos];
        FollowsIf(now, start);
      }
    }

    /** With short lines, what has been delivered and kept is the stream read so far, split at newlines. */
    lemma DeliveredIsSplit()
      requires Valid() && ShortLines(Joined(chunks))
      ensures Text(delivered, partial) == Split(Joined(chunks))
    {
      FeedIsSplit(chunks);
    }
  }

  /** What a log looks like at each poll: it grows, is rotated at most once between two polls, and has short
      lines from the offset on at which it is followed. */
  ghost predicate Unfolds(logs: seq<Log>, start: nat) {
    && logs != [] && |logs[0].gens| == 1 && start <= |logs[0].gens[0]|
    && (forall i :: 0 <= i < |logs| ==> logs[i].Distinct())
    && (forall i :: 0 < i < |logs| ==> Evolves(logs[i - 1], logs[i]))
    && (forall i :: 0 <= i < |logs| && logs[i].gens != [] && start <= |logs[i].gens[0]| ==>
          AllShort(FromOffset(logs[i].gens, start)))
  }

  lemma {:induction false} UnfoldsAt(logs: seq<Log>, start: nat, i: nat)
    requires Unfolds(logs, start) && i < |logs|
    ensures logs[i].Distinct() && |logs[i].gens| > 0 && start <= |logs[i].gens[0]|
    ensures AllShort(FromOffset(logs[i].gens, start))
    ensures i > 0 ==> Evolves(logs[i - 1], logs[i])
  {
    hide AllShort;
    if i > 0 {
      UnfoldsAt(logs, start, i - 1);
      assert Evolves(logs[i - 1], logs[i]);
      OlderFrom(logs[i - 1], logs[i], start);
    }
  }

  lemma UnfoldsFirst(logs: seq<Log>, start: nat)
    requires Unfolds(logs, start)
    ensures logs != [] && |logs[0].gens| == 1
  {
  }

  /** Nothing fails at a poll that is the first one or finds the log rotated. */
  ghost predicate LuckyPoll(logs: seq<Log>, healthy: seq<bool>, i: nat)
    requires |healthy| == |logs| && i < |logs|
  {
    (i == 0 || |logs[i].gens| != |logs[i - 1].gens|) ==> healthy[i]
  }

  ghost predicate Lucky(logs: seq<Log>, healthy: seq<bool>)
    requires |healthy| == |logs|
  {
    forall i :: 0 <= i < |logs| ==> LuckyPoll(logs, healthy, i)
  }

  /** Where poll `i` begins to read the newest generation, given where the earlier polls ended. */
  ghost function FromAt(logs: seq<Log>, start: nat, at: seq<nat>, i: nat): nat
    requires i < |logs| && i <= |at|
  {
    if i == 0 then start else if |logs[i].gens| == |logs[i - 1].gens| then at[i - 1] else 0
  }

  /** Poll `i` ends at `at[i]`: a healthy one at the end of the newest generation or as far as its budget goes, an
      unhealthy one anywhere up to there. */
  ghost predicate PollReads(logs: seq<Log>, start: nat, healthy: seq<bool>, at: seq<nat>, i: nat)
    requires |healthy| == |logs| && i < |logs| && i < |at|
  {
    var from := FromAt(logs, start, at, i);
    && logs[i].gens != []
    && var goal := Min(|logs[i].gens[|logs[i].gens| - 1]|, from + MAX_BATCH_BYTES);
       if healthy[i] then at[i] == goal else from <= at[i] <= goal
  }

  ghost predicate PollsRead(logs: seq<Log>, start: nat, healthy: seq<bool>, at: seq<nat>)
    requires |healthy| == |logs| && |at| <= |logs|
  {
    forall i :: 0 <= i < |at| ==> PollReads(logs, start, healthy, at, i)
  }

  lemma PollsReadSnoc(logs: seq<Log>, start: nat, healthy: seq<bool>, at: seq<nat>, to: nat)
    requires |healthy| == |logs| && |at| < |logs| && PollsRead(logs, start, healthy, at)
    requires PollReads(logs, start, healthy, at + [to], |at|)
    ensures PollsRead(logs, start, healthy, at + [to])
  {
    var more := at + [to];
    forall i | 0 <= i < |more|
      ensures PollReads(logs, start, healthy, more, i)
    {
      if i < |at| {
        assert PollReads(logs, start, healthy, at, i);
      }
    }
  }

  /** A log that stands still is read to its end, a budget at a time. */
  lemma {:induction false} StandingLogIsRead(logs: seq<Log>, start: nat, healthy: seq<bool>, at: seq<nat>, i: nat, k: nat)
    requires |healthy| == |at| == |logs| && PollsRead(logs, start, healthy, at) && i + k < |logs|
    requires forall j :: i < j <= i + k ==> logs[j] == logs[i] && healthy[j]
    ensures logs[i].gens != []
    ensures at[i + k] == Min(|logs[i].gens[|logs[i].gens| - 1]|, at[i] + k * MAX_BATCH_BYTES)
  {
    assert PollReads(logs, start, healthy, at, i + k);
    if k > 0 {
      StandingLogIsRead(logs, start, healthy, at, i, k - 1);
      assert logs[i + k] == logs[i] && healthy[i + k];
      assert k > 1 ==> logs[i + k - 1] == logs[i];
    }
  }

  /** The first poll, of a log that has not been rotated yet. */
  method StartFollowing(log: Log, seekEnd: bool, healthy: bool)
    returns (st: FileState, out: seq<Bytes>, backlog: bool, failed: bool)
    requires log.Distinct() && |log.gens| == 1
    ensures fresh(st) && out == st.earlier + st.delivered && (healthy ==> !failed)
    ensures var start := if seekEnd then |log.gens[0]| else 0;
            healthy ==> st.Following(log, start) && Reached(log.gens[0], start, st.pos, backlog)
  {
    hide AllLines, Split, Feed, Joined, FileState.Following, FileState.Rotated, Unread, ShortLines, Reached;
    st := new FileState();
    NothingFed();
    out, backlog, failed := st.Poll(Some(File(log.inos[0], log.gens[0])), [], seekEnd, healthy);
    if !failed {
      st.FollowsFirst(log, if seekEnd then |log.gens[0]| else 0);
    }
  }

  method FollowAll(logs: seq<Log>, ghost start: nat, seekEnd: bool, healthy: seq<bool>)
    returns (st: FileState, out: seq<Bytes>, backlog: bool, ghost at: seq<nat>)
    requires Unfolds(logs, start) && |healthy| == |logs| && Lucky(logs, healthy)
    requires start == if seekEnd then |logs[0].gens[0]| else 0
    ensures var n := |logs|;
            && st.Following(logs[n - 1], start) && out == st.earlier + st.delivered && logs[n - 1].gens != []
            && |at| == n && PollsRead(logs, start, healthy, at) && st.pos == at[n - 1]
            && (healthy[n - 1] ==> (backlog <==> at[n - 1] == FromAt(logs, start, at, n - 1) + MAX_BATCH_BYTES))
  {
    hide FileState.Following, FileState.Valid, FromOffset, Base, Split, AllLines, Evolves, AllShort, Unfolds, PollsRead;
    UnfoldsFirst(logs, start);
    UnfoldsAt(logs, start, 0);
    NoPolls(logs, start, healthy);
    assert LuckyPoll(logs, healthy, 0);
    var failed;
    st, out, backlog, failed := StartFollowing(logs[0], seekEnd, healthy[0]);
    PollsReadSnoc(logs, start, healthy, [], st.pos);
    at := [] + [st.pos];
    for i := 1 to |logs|
      invariant fresh(st) && |logs[i - 1].gens| > 0 && st.Following(logs[i - 1], start) && out == st.earlier + st.delivered
      invariant |at| == i && PollsRead(logs, start, healthy, at) && st.pos == at[i - 1]
      invariant healthy[i - 1] ==> (backlog <==> at[i - 1] == FromAt(logs, start, at, i - 1) + MAX_BATCH_BYTES)
    {
      UnfoldsAt(logs, start, i);
      HeldStays(logs[i - 1], logs[i]);
      assert LuckyPoll(logs, healthy, i);
      var lines;
      lines, backlog, failed :=
        st.Follow(logs[i - 1], logs[i], logs[i].gens[|logs[i - 1].gens| - 1], start, seekEnd, healthy[i]);
      out := out + lines;
      st.FollowingAt(logs[i], start);
      PollsReadSnoc(logs, start, healthy, at, st.pos);
      at := at + [st.pos];
    }
    UnfoldsAt(logs, start, |logs| - 1);
  }

  lemma NoPolls(logs: seq<Log>, start: nat, healthy: seq<bool>)
    requires |healthy| == |logs|
    ensures PollsRead(logs, start, healthy, [])
  {
  }

  /** Any run of polls on a log with short lines, from its end or its start as it is found. Every healthy poll
      reads to the end or as far as its budget goes, and what has come out is, over all generations, every line
      behind the starting point and before the place reached, once and in order, whatever each read returns.
      Failing reads in between only delay the lines. */
  method FollowLog(logs: seq<Log>, seekEnd: bool, healthy: seq<bool>)
    returns (st: FileState, out: seq<Bytes>, backlog: bool, ghost at: seq<nat>)
    requires logs != [] && |logs[0].gens| == 1 && |healthy| == |logs|
    requires Unfolds(logs, if seekEnd then |logs[0].gens[0]| else 0) && Lucky(logs, healthy)
    ensures var start, k := if seekEnd then |logs[0].gens[0]| else 0, |logs| - 1;
            && |at| == |logs| && PollsRead(logs, start, healthy, at) && st.pos == at[k]
            && (healthy[k] ==> (backlog <==> at[k] == FromAt(logs, start, at, k) + MAX_BATCH_BYTES))
    ensures var start, log := if seekEnd then |logs[0].gens[0]| else 0, logs[|logs| - 1];
            var n := |log.gens|;
            && st.Following(log, start)
            && var gens := FromOffset(log.gens, start);
               && |gens| == n && st.pos - Base(n, start) <= |gens[n - 1]|
               && out == AllLines(gens[..n - 1]) + Split(gens[n - 1][..st.pos - Base(n, start)]).lines
               && (st.pos == |log.gens[n - 1]| ==> out == AllLines(gens))
  {
    hide FileState.Following, FileState.Valid, FromOffset, Base, Split, AllLines, Evolves, AllShort, Unfolds, Lucky,
         PollsRead, FromAt;
    ghost var start := if seekEnd then |logs[0].gens[0]| else 0;
    st, out, backlog, at := FollowAll(logs, start, seekEnd, healthy);
    UnfoldsAt(logs, start, |logs| - 1);
    st.FollowedLines(logs[|logs| - 1], start);
  }

  lemma HeldStays(a: Log, b: Log)
    requires Evolves(a, b)
    ensures |b.inos| == |b.gens| >= |a.gens|
  {
  }
}
