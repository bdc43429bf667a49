/** Reading new automatic bans from the daemon's event log: a byte cursor that survives appends and one
    rotation of the log between two reads. */
module EventReader {
  import opened Lines
  import opened Nets
  import opened Rotation
  import opened Wrappers

  type CheckedNet = n: Net | n.Valid() witness Net(V4, 0, 32)

  /** A ban line. `net` is absent when its text is not a network. */
  datatype BanEvent = BanEvent(ts: nat, net: Option<CheckedNet>, filter: string, ttl: nat, hits: nat, escalation: nat,
                               manual: bool)

  /** What a line of the log turns out to be: not a tagged object, an object of another kind, or a ban
      that has all its fields or not. */
  datatype Record = Garbled | Other | Ban(event: Option<BanEvent>)

  type Decoder = Bytes -> Record

  datatype Cursor = Cursor(ino: nat, offset: nat)

  const NO_CURSOR: Cursor := Cursor(0, 0)

  datatype NewEvents = NewEvents(bans: seq<BanEvent>, cursor: Cursor)

  // ----- what is to be read -----

  function BanIn(decode: Decoder, line: Bytes): seq<BanEvent> {
    match decode(line)
    case Ban(Some(ev)) => if ev.manual then [] else [ev]
    case _ => []
  }

  ghost function BansOf(decode: Decoder, lines: seq<Bytes>): seq<BanEvent> {
    if lines == [] then [] else BansOf(decode, lines[..|lines| - 1]) + BanIn(decode, lines[|lines| - 1])
  }

  lemma {:induction false} BansOfConcat(decode: Decoder, a: seq<Bytes>, b: seq<Bytes>)
    ensures BansOf(decode, a + b) == BansOf(decode, a) + BansOf(decode, b)
    decreases |b|
  {
    if b == [] {
      assert a + b == a;
    } else {
      assert (a + b)[..|a + b| - 1] == a + b[..|b| - 1];
      BansOfConcat(decode, a, b[..|b| - 1]);
    }
  }

  /** A line that holds a ban with all its fields, not a manual one. */
  ghost predicate HoldsAutoBan(decode: Decoder, line: Bytes) {
    var record := decode(line);
    record.Ban? && record.event.Some? && !record.event.value.manual
  }

  lemma BanInExact(decode: Decoder, line: Bytes)
    ensures BanIn(decode, line) == if HoldsAutoBan(decode, line) then [decode(line).event.value] else []
  {
  }

  /** Every ban read is that of a line. */
  lemma {:induction false} BansSound(decode: Decoder, lines: seq<Bytes>, ev: BanEvent)
    requires ev in BansOf(decode, lines)
    ensures exists i :: 0 <= i < |lines| && HoldsAutoBan(decode, lines[i]) && decode(lines[i]).event.value == ev
    decreases |lines|
  {
    hide BanIn;
    var n := |lines| - 1;
    BanInExact(decode, lines[n]);
    if ev in BansOf(decode, lines[..n]) {
      BansSound(decode, lines[..n], ev);
      var i :| 0 <= i < n && HoldsAutoBan(decode, lines[..n][i]) && decode(lines[..n][i]).event.value == ev;
      assert lines[i] == lines[..n][i];
    } else {
      assert HoldsAutoBan(decode, lines[n]) && decode(lines[n]).event.value == ev;
    }
  }

  /** The ban of every line is read, once: ban `k` is that of the line with `k` such lines before it. */
  lemma {:induction false} BansComplete(decode: Decoder, lines: seq<Bytes>, i: nat)
    requires i < |lines| && HoldsAutoBan(decode, lines[i])
    ensures |BansOf(decode, lines[..i])| < |BansOf(decode, lines)|
    ensures BansOf(decode, lines)[|BansOf(decode, lines[..i])|] == decode(lines[i]).event.value
    decreases |lines|
  {
    hide BanIn, HoldsAutoBan;
    var n := |lines| - 1;
    BanInExact(decode, lines[n]);
    if i < n {
      BansComplete(decode, lines[..n], i);
      assert lines[..n][..i] == lines[..i];
    }
  }

  /** There are as many bans as lines that hold one. */
  lemma {:induction false} BansCount(decode: Decoder, lines: seq<Bytes>)
    ensures |BansOf(decode, lines)| == |set i | 0 <= i < |lines| && HoldsAutoBan(decode, lines[i])|
    decreases |lines|
  {
    hide BanIn, HoldsAutoBan;
    if lines != [] {
      var n := |lines| - 1;
      BanInExact(decode, lines[n]);
      BansCount(decode, lines[..n]);
      var before := set i | 0 <= i < n && HoldsAutoBan(decode, lines[..n][i]);
      var all := set i | 0 <= i < |lines| && HoldsAutoBan(decode, lines[i]);
      assert all == before + (if HoldsAutoBan(decode, lines[n]) then {n} else {});
    }
  }

  /** The bans in the complete lines from an offset on, and the offset after the last complete line. */
  ghost function ReadFrom(decode: Decoder, content: Bytes, offset: nat): (seq<BanEvent>, nat) {
    if offset > |content| then ([], offset)
    else
      SplitLength(content[offset..]);
      (BansOf(decode, Split(content[offset..]).lines), |content| - |Split(content[offset..]).rest|)
  }

  lemma SplitLength(s: Bytes)
    ensures |Split(s).rest| <= |s|
    ensures s[|s| - |Split(s).rest|..] == Split(s).rest
    ensures Split(s[..|s| - |Split(s).rest|]) == Text(Split(s).lines, [])
  {
    SplitInverse(s);
    var t := Split(s);
    var head := s[..|s| - |t.rest|];
    assert head == Unlines(t.lines);
    assert s == head + t.rest;
    SplitUnlines(t.lines);
  }

  /** An offset between lines. */
  ghost predicate Boundary(content: Bytes, offset: nat) {
    offset <= |content| && Split(content[..offset]).rest == []
  }

  /** Reading up to a boundary and on from there is reading all at once. */
  lemma ReadInTwo(decode: Decoder, content: Bytes, from: nat, mid: nat)
    requires from <= mid <= |content| && Split(content[from..mid]).rest == []
    ensures ReadFrom(decode, content, from)
         == (BansOf(decode, Split(content[from..mid]).lines) + ReadFrom(decode, content, mid).0,
             ReadFrom(decode, content, mid).1)
  {
    hide Split, BansOf;
    var a, b := content[from..mid], content[mid..];
    assert content[from..] == a + b;
    SplitAfterLine(a, b);
    BansOfConcat(decode, Split(a).lines, Split(b).lines);
  }

  /** Reading to a returned offset and resuming there after more has been written equals one read. */
  lemma ReadResumes(decode: Decoder, content: Bytes, more: Bytes, from: nat)
    requires from <= |content|
    ensures var (bans, end) := ReadFrom(decode, content, from);
            var (later, last) := ReadFrom(decode, content + more, end);
            ReadFrom(decode, content + more, from) == (bans + later, last)
  {
    var end := ReadFrom(decode, content, from).1;
    SplitLength(content[from..]);
    assert content[from..][..end - from] == (content + more)[from..end];
    ReadInTwo(decode, content + more, from, end);
  }

  lemma BansOfSnoc(decode: Decoder, lines: seq<Bytes>, line: Bytes)
    ensures BansOf(decode, lines + [line]) == BansOf(decode, lines) + BanIn(decode, line)
  {
    assert (lines + [line])[..|lines|] == lines;
  }

  lemma NothingRead(decode: Decoder, content: Bytes, offset: nat)
    ensures Split([]) == NOTHING && BansOf(decode, []) == []
    ensures offset > |content| ==> ReadFrom(decode, content, offset) == ([], offset)
  {
  }

  /** After the last complete line the reading ends. */
  lemma ReadingEnds(decode: Decoder, content: Bytes, offset: nat, end: nat)
    requires offset <= end <= |content| && forall k :: end <= k < |content| ==> content[k] != NEWLINE
    requires Split(content[offset..end]).rest == []
    ensures ReadFrom(decode, content, offset) == (BansOf(decode, Split(content[offset..end]).lines), end)
  {
    assert ReadFrom(decode, content, end) == ([], end) by {
      NoNewline(content[end..]);
    }
    hide Split, BansOf, ReadFrom;
    ReadInTwo(decode, content, offset, end);
    assert forall bans: seq<BanEvent> :: bans + [] == bans;
  }

  /** One more line. */
  lemma ReadingGoesOn(decode: Decoder, content: Bytes, offset: nat, end: nat, stop: nat)
    requires offset <= end <= stop < |content| && content[stop] == NEWLINE
    requires forall k :: end <= k < stop ==> content[k] != NEWLINE
    requires Split(content[offset..end]).rest == []
    ensures var t, more := Split(content[offset..end]), Split(content[offset..stop + 1]);
            && more.rest == []
            && BansOf(decode, more.lines) == BansOf(decode, t.lines) + BanIn(decode, content[end..stop])
  {
    hide Split, BansOf;
    var before, line := content[offset..end], content[end..stop];
    LineAppended(before, line);
    assert content[offset..stop + 1] == before + (line + [NEWLINE]);
    BansOfSnoc(decode, Split(before).lines, line);
  }

  // ----- the reader -----

  /** Reads complete lines from `offset` on; a line without a newline is left for the next run. */
  method ReadBansFrom(decode: Decoder, content: Bytes, offset: nat) returns (bans: seq<BanEvent>, end: nat)
    ensures (bans, end) == ReadFrom(decode, content, offset)
  {
    hide Split, BansOf, ReadFrom, BanIn;
    NothingRead(decode, content, offset);
    bans, end := [], offset;
    if offset > |content| {
      return;
    }
    assert content[offset..offset] == [];
    while true
      invariant offset <= end <= |content| && Split(content[offset..end]).rest == []
      invariant bans == BansOf(decode, Split(content[offset..end]).lines)
      decreases |content| - end
    {
      var stop := end;
      while stop < |content| && content[stop] != NEWLINE
        invariant end <= stop <= |content| && forall k :: end <= k < stop ==> content[k] != NEWLINE
      {
        stop := stop + 1;
      }
      if stop == |content| {
        ReadingEnds(decode, content, offset, end);
        break;
      }
      ReadingGoesOn(decode, content, offset, end, stop);
      bans, end := bans + BanIn(decode, content[end..stop]), stop + 1;
    }
  }

  /** The cursor decides where the current log is resumed and whether a rotated one is finished first. */
  ghost function Reading(decode: Decoder, disk: Disk, cursor: Option<Cursor>): NewEvents {
    match disk.current
    case None => NewEvents([], cursor.GetOr(NO_CURSOR))
    case Some(cur) =>
      var same := cursor.Some? && cursor.value.ino == cur.ino;
      var start := if same && cursor.value.offset <= |cur.content| then cursor.value.offset else 0;
      var finished :=
        if !same && cursor.Some? && disk.rotated.Some? && disk.rotated.value.ino == cursor.value.ino then
          ReadFrom(decode, disk.rotated.value.content, cursor.value.offset).0
        else [];
      var (bans, end) := ReadFrom(decode, cur.content, start);
      NewEvents(finished + bans, Cursor(cur.ino, end))
  }

  method ReadNew(decode: Decoder, disk: Disk, cursor: Option<Cursor>) returns (r: NewEvents)
    ensures r == Reading(decode, disk, cursor)
  {
    if disk.current == None {
      return NewEvents([], cursor.GetOr(NO_CURSOR));
    }
    var cur := disk.current.value;
    var bans := [];
    var start := 0;
    match cursor {
      case Some(c) =>
        if c.ino == cur.ino {
          start := c.offset;
        } else if disk.rotated.Some? && disk.rotated.value.ino == c.ino {
          var more, _ := ReadBansFrom(decode, disk.rotated.value.content, c.offset);
          bans := bans + more;
        }
      case None =>
    }
    if start > |cur.content| {
      start := 0;
    }
    var more, end := ReadBansFrom(decode, cur.content, start);
    return NewEvents(bans + more, Cursor(cur.ino, end));
  }

  /** Without a log nothing is read and the cursor stays; a cursor past the end of its file, or in a file that is gone,
      starts the current file over. */
  lemma ReadingEdges(decode: Decoder, disk: Disk, cursor: Option<Cursor>)
    ensures disk.current == None ==>
              Reading(decode, disk, cursor) == NewEvents([], if cursor.Some? then cursor.value else Cursor(0, 0))
    ensures disk.current.Some? ==>
              var cur, r := disk.current.value, Reading(decode, disk, cursor);
              && r.cursor.ino == cur.ino
              && (cursor == None
                  || (if cursor.value.ino == cur.ino then cursor.value.offset > |cur.content|
                      else disk.rotated == None || disk.rotated.value.ino != cursor.value.ino) ==>
                    && r.bans == BansOf(decode, Split(cur.content).lines)
                    && r.cursor.offset == |cur.content| - |Split(cur.content).rest|)
  {
    hide Split, BansOf;
    if disk.current.Some? {
      var cur := disk.current.value;
      ReadWhole(decode, cur.content);
      var bans := ReadFrom(decode, cur.content, 0).0;
      assert [] + bans == bans;
    }
  }

  // ----- the log over time -----

  /** A place in the log: an offset in one generation. */
  datatype Place = Place(gen: nat, offset: nat)

  /** The cursor denotes the place, and the place is between lines. */
  ghost predicate At(log: Log, cursor: Cursor, place: Place) {
    && place.gen < |log.gens| == |log.inos|
    && cursor == Cursor(log.inos[place.gen], place.offset)
    && Boundary(log.gens[place.gen], place.offset)
  }

  /** The lines before a place. */
  ghost function LinesBefore(log: Log, place: Place): seq<Bytes>
    requires place.gen < |log.gens| && place.offset <= |log.gens[place.gen]|
  {
    AllLines(log.gens[..place.gen]) + Split(log.gens[place.gen][..place.offset]).lines
  }

  /** Where a read leaves the cursor. */
  ghost function EndPlace(log: Log): Place
    requires log.gens != []
  {
    var last := log.gens[|log.gens| - 1];
    SplitLength(last);
    Place(|log.gens| - 1, |last| - |Split(last).rest|)
  }

  lemma EndPlaceIsEnd(log: Log, cursor: Cursor)
    requires log.Valid() && log.gens != []
    requires cursor == Cursor(log.inos[|log.inos| - 1], EndPlace(log).offset)
    ensures At(log, cursor, EndPlace(log)) && LinesBefore(log, EndPlace(log)) == AllLines(log.gens)
  {
    hide Split;
    SplitLength(log.gens[|log.gens| - 1]);
  }

  /** Reading a file from a boundary yields the bans of the complete lines behind it. */
  lemma ReadRest(decode: Decoder, content: Bytes, offset: nat)
    requires Boundary(content, offset)
    ensures BansOf(decode, Split(content[..offset]).lines) + ReadFrom(decode, content, offset).0
         == BansOf(decode, Split(content).lines)
    ensures ReadFrom(decode, content, offset).1 == |content| - |Split(content).rest|
  {
    assert content[0..offset] == content[..offset] && content[0..] == content;
    ReadInTwo(decode, content, 0, offset);
  }

  /** A read from a cursor in the current or the rotated file yields every ban that is still to come, and
      moves to the end of the complete lines. */
  lemma ReadIsExact(decode: Decoder, log: Log, cursor: Cursor, place: Place)
    requires log.Valid() && At(log, cursor, place) && |log.gens| <= place.gen + 2
    ensures var r := Reading(decode, log.OnDisk(), Some(cursor));
            && BansOf(decode, LinesBefore(log, place)) + r.bans == BansOf(decode, AllLines(log.gens))
            && At(log, r.cursor, EndPlace(log))
            && LinesBefore(log, EndPlace(log)) == AllLines(log.gens)
  {
    hide Split, BansOf, ReadFrom;
    var n, g := |log.gens|, place.gen;
    var r := Reading(decode, log.OnDisk(), Some(cursor));
    var cur := log.gens[n - 1];
    BansOfConcat(decode, AllLines(log.gens[..g]), Split(log.gens[g][..place.offset]).lines);
    ReadRest(decode, log.gens[g], place.offset);
    BansOfConcat(decode, AllLines(log.gens[..g]), Split(log.gens[g]).lines);
    if g == n - 1 {
    } else {
      assert log.gens[..n - 1][..g] == log.gens[..g] && log.gens[..n - 1][g] == log.gens[g];
      assert AllLines(log.gens[..n - 1]) == AllLines(log.gens[..g]) + Split(log.gens[g]).lines;
      BansOfConcat(decode, AllLines(log.gens[..n - 1]), Split(cur).lines);
      ReadWhole(decode, cur);
    }
    EndPlaceIsEnd(log, r.cursor);
  }

  lemma ReadWhole(decode: Decoder, content: Bytes)
    ensures ReadFrom(decode, content, 0) == (BansOf(decode, Split(content).lines), |content| - |Split(content).rest|)
  {
    assert content[0..] == content;
  }

  /** A first read, or one after a first read that found no log, sees the log from its start as long as
      there has been no rotation. */
  lemma FirstReadIsExact(decode: Decoder, log: Log, cursor: Option<Cursor>)
    requires log.Valid() && |log.gens| == 1
    requires cursor == None || cursor == Some(NO_CURSOR)
    ensures var r := Reading(decode, log.OnDisk(), cursor);
            && r.bans == BansOf(decode, AllLines(log.gens))
            && At(log, r.cursor, EndPlace(log))
            && LinesBefore(log, EndPlace(log)) == AllLines(log.gens)
  {
    hide Split, BansOf, ReadFrom;
    ReadWhole(decode, log.gens[0]);
    assert log.gens[..0] == [] && [] + Split(log.gens[0]).lines == Split(log.gens[0]).lines;
    EndPlaceIsEnd(log, Reading(decode, log.OnDisk(), cursor).cursor);
  }

  lemma PlaceStays(a: Log, b: Log, cursor: Cursor, place: Place)
    requires a.Valid() && b.Valid() && Grown(a, b) && At(a, cursor, place)
    ensures At(b, cursor, place) && LinesBefore(b, place) == LinesBefore(a, place)
  {
    var n, g := |a.gens|, place.gen;
    assert b.inos[g] == b.inos[..n][g];
    assert a.gens[..g] == a.gens[..n - 1][..g] && b.gens[..g] == b.gens[..n - 1][..g];
    if g < n - 1 {
      assert b.gens[g] == b.gens[..n - 1][g];
    } else {
      assert b.gens[g][..place.offset] == a.gens[g][..place.offset];
    }
  }

  /** A run of reads, each from the cursor the one before returned. */
  ghost function ReadAll(decode: Decoder, logs: seq<Log>): (seq<BanEvent>, Option<Cursor>)
    requires forall i :: 0 <= i < |logs| ==> logs[i].Valid()
  {
    if logs == [] then ([], None)
    else
      assert logs[|logs| - 1].Valid();
      var (bans, cursor) := ReadAll(decode, logs[..|logs| - 1]);
      var r := Reading(decode, logs[|logs| - 1].OnDisk(), cursor);
      (bans + r.bans, Some(r.cursor))
  }

  ghost predicate History(logs: seq<Log>) {
    && (forall i :: 0 <= i < |logs| ==> logs[i].Valid())
    && (forall i :: 0 < i < |logs| ==> Evolves(logs[i - 1], logs[i]))
    && (logs != [] ==> |logs[0].gens| <= 1)
  }

  /** The cursor is at the end of the complete lines, or nothing has been there to read. */
  ghost predicate CaughtUp(log: Log, cursor: Cursor)
    requires log.Valid()
  {
    if log.gens == [] then cursor == NO_CURSOR else At(log, cursor, EndPlace(log))
  }

  lemma ReadCatchesUp(decode: Decoder, a: Log, b: Log, cursor: Cursor)
    requires a.Valid() && b.Valid() && Evolves(a, b) && CaughtUp(a, cursor)
    ensures var r := Reading(decode, b.OnDisk(), Some(cursor));
            && BansOf(decode, AllLines(a.gens)) + r.bans == BansOf(decode, AllLines(b.gens))
            && CaughtUp(b, r.cursor)
  {
    hide Split, ReadFrom;
    if a.gens != [] {
      EndPlaceIsEnd(a, cursor);
      PlaceStays(a, b, cursor, EndPlace(a));
      ReadIsExact(decode, b, cursor, EndPlace(a));
    } else if b.gens != [] {
      FirstReadIsExact(decode, b, Some(cursor));
    }
  }

  /** Chained reads yield every automatic ban of the complete lines exactly once, in the order written:
      what one pass over everything ever written yields. */
  lemma {:induction false} ChainedReadsAreOnePass(decode: Decoder, logs: seq<Log>)
    requires History(logs) && logs != []
    ensures var (bans, cursor) := ReadAll(decode, logs);
            && bans == BansOf(decode, AllLines(logs[|logs| - 1].gens))
            && cursor.Some? && CaughtUp(logs[|logs| - 1], cursor.value)
    decreases |logs|
  {
    hide Split, ReadFrom, EndPlace, Reading, BansOf, AllLines, CaughtUp, Log.OnDisk;
    var n := |logs|;
    var before, last := logs[..n - 1], logs[n - 1];
    if n == 1 {
      assert before == [];
      FirstReadAny(decode, last);
    } else {
      ChainedReadsAreOnePass(decode, before);
      assert before[n - 2] == logs[n - 2];
      ReadCatchesUp(decode, logs[n - 2], last, ReadAll(decode, before).1.value);
    }
  }

  lemma FirstReadAny(decode: Decoder, log: Log)
    requires log.Valid() && |log.gens| <= 1
    ensures var r := Reading(decode, log.OnDisk(), None);
            [] + r.bans == BansOf(decode, AllLines(log.gens)) && CaughtUp(log, r.cursor)
  {
    hide Split, ReadFrom;
    if log.gens != [] {
      FirstReadIsExact(decode, log, None);
    }
  }

  // ----- late readers -----

  /** The lines behind a place, up to generation `k`. */
  ghost function MissedLines(log: Log, place: Place, k: nat): seq<Bytes>
    requires place.gen < k < |log.gens| && place.offset <= |log.gens[place.gen]|
  {
    Split(log.gens[place.gen][place.offset..]).lines + AllLines(log.gens[place.gen + 1..k])
  }

  /** Where a late reader goes on: at the start of the current file, or at the old offset in a file that has the
      inode of the cursor again. */
  ghost function Landing(log: Log, cursor: Cursor): (at: Place)
    requires |log.inos| == |log.gens| >= 2
    ensures |log.gens| - 2 <= at.gen < |log.gens| && at.offset <= |log.gens[at.gen]|
  {
    var n := |log.gens|;
    if cursor.ino == log.inos[n - 1] then Place(n - 1, if cursor.offset <= |log.gens[n - 1]| then cursor.offset else 0)
    else if cursor.ino == log.inos[n - 2] && cursor.offset <= |log.gens[n - 2]| then Place(n - 2, cursor.offset)
    else Place(n - 1, 0)
  }

  /** A reading that starts within a line: the bans in the whole of that line, and in the part that is read. */
  ghost function CutLine(decode: Decoder, content: Bytes, offset: nat): (seq<BanEvent>, seq<BanEvent>)
    requires offset <= |content|
  {
    var q, t := Split(content[..offset]).rest, Split(content[offset..]).lines;
    if t == [] then ([], []) else (BanIn(decode, q + t[0]), BanIn(decode, t[0]))
  }

  lemma {:induction false} SplitCut(q: Bytes, b: Bytes)
    requires NEWLINE !in q
    ensures var t := Split(b).lines;
            Split(q + b).lines == if t == [] then [] else [q + t[0]] + t[1..]
    ensures Split(q + b).rest == if Split(b).lines == [] then q + Split(b).rest else Split(b).rest
    decreases |b|
  {
    hide Split;
    if b == [] {
      assert q + b == q;
      NoNewline(q);
      NoNewline([]);
    } else {
      var init, last := b[..|b| - 1], b[|b| - 1];
      SplitCut(q, init);
      SplitSnoc(q + init, last);
      SplitSnoc(init, last);
      assert q + b == (q + init) + [last] && b == init + [last];
    }
  }

  lemma BansOfFirst(decode: Decoder, lines: seq<Bytes>)
    requires lines != []
    ensures BansOf(decode, lines) == BanIn(decode, lines[0]) + BansOf(decode, lines[1..])
  {
    assert lines == [lines[0]] + lines[1..];
    BansOfConcat(decode, [lines[0]], lines[1..]);
    assert BansOf(decode, [lines[0]]) == BanIn(decode, lines[0]) by {
      assert [lines[0]][..0] == [];
      assert [] + BanIn(decode, lines[0]) == BanIn(decode, lines[0]);
    }
  }

  /** What a reading from anywhere in a file yields, against the whole file. */
  lemma ReadFromAnywhere(decode: Decoder, content: Bytes, offset: nat) returns (after: seq<BanEvent>)
    requires offset <= |content|
    ensures var (whole, part) := CutLine(decode, content, offset);
            && ReadFrom(decode, content, offset).0 == part + after
            && BansOf(decode, Split(content).lines) == BansOf(decode, Split(content[..offset]).lines) + (whole + after)
  {
    hide Split, BansOf;
    var a, b := content[..offset], content[offset..];
    var q, t := Split(a).rest, Split(b).lines;
    assert content == a + b;
    SplitInverse(a);
    SplitResumes(a, b);
    SplitCut(q, b);
    BansOfConcat(decode, Split(a).lines, Split(q + b).lines);
    if t == [] {
      NothingRead(decode, content, offset);
      after := [];
    } else {
      BansOfFirst(decode, t);
      BansOfFirst(decode, [q + t[0]] + t[1..]);
      after := BansOf(decode, t[1..]);
    }
  }

  /** What a late reader reads. */
  lemma LateReading(decode: Decoder, log: Log, cursor: Cursor)
    requires log.Valid() && |log.gens| >= 2
    ensures var at := Landing(log, cursor);
            Reading(decode, log.OnDisk(), Some(cursor)).bans
            == ReadFrom(decode, log.gens[at.gen], at.offset).0 + BansOf(decode, AllLines(log.gens[at.gen + 1..]))
  {
    hide Split, ReadFrom, BansOf, AllLines;
    var n := |log.gens|;
    LaterLines(decode, log);
    NothingRead(decode, log.gens[n - 2], cursor.offset);
    var bans := ReadFrom(decode, log.gens[n - 1], Landing(log, cursor).offset).0;
    assert bans + [] == bans && [] + bans == bans;
  }

  /** The lines behind the current file, and behind the rotated one. */
  lemma LaterLines(decode: Decoder, log: Log)
    requires |log.gens| >= 2
    ensures var n := |log.gens|;
            && BansOf(decode, AllLines(log.gens[n..])) == []
            && BansOf(decode, AllLines(log.gens[n - 1..])) == ReadFrom(decode, log.gens[n - 1], 0).0
  {
    hide Split, BansOf, AllLines;
    var n := |log.gens|;
    var cur := log.gens[n - 1];
    NothingRead(decode, cur, 0);
    NothingListed();
    assert log.gens[n..] == [];
    assert log.gens[n - 1..] == [] + [cur];
    AllLinesSnoc([], cur);
    assert AllLines(log.gens[n - 1..]) == Split(cur).lines;
    ReadWhole(decode, cur);
  }

  lemma NothingListed()
    ensures AllLines([]) == []
  {
  }

  lemma Cancel<T>(a: seq<T>, x: seq<T>, y: seq<T>, c: seq<T>)
    ensures a + x + c == a + y + c <==> x == y
  {
    if a + x + c == a + y + c {
      assert |a + x + c| == |a| + |x| + |c| && |a + y + c| == |a| + |y| + |c|;
      assert x == (a + x + c)[|a|..|a| + |x|] && y == (a + y + c)[|a|..|a| + |y|];
    }
  }

  /** The bans in the lines missed, and in those before the place where a late reader lands, are what it makes of
      the remainder of a line that it lands in. */
  ghost predicate NothingLost(decode: Decoder, log: Log, cursor: Cursor, place: Place)
    requires log.Valid() && |log.gens| > place.gen + 2 && place.offset <= |log.gens[place.gen]|
  {
    var at := Landing(log, cursor);
    var (whole, part) := CutLine(decode, log.gens[at.gen], at.offset);
    Missed(decode, log, cursor, place) + whole == part
  }

  ghost function Missed(decode: Decoder, log: Log, cursor: Cursor, place: Place): seq<BanEvent>
    requires log.Valid() && |log.gens| > place.gen + 2 && place.offset <= |log.gens[place.gen]|
  {
    var at := Landing(log, cursor);
    BansOf(decode, MissedLines(log, place, at.gen)) + BansOf(decode, Split(log.gens[at.gen][..at.offset]).lines)
  }

  ghost predicate LandsBetweenLines(log: Log, cursor: Cursor)
    requires log.Valid() && |log.gens| >= 2
  {
    var at := Landing(log, cursor);
    Split(log.gens[at.gen][..at.offset]).rest == []
  }

  /** After two rotations or more a read is exact if and only if nothing is lost. If it lands between lines, which
      it does at the start of a file, that is so exactly if no line missed holds an automatic ban. */
  lemma LateReadExactIff(decode: Decoder, log: Log, cursor: Cursor, place: Place)
    requires log.Valid() && At(log, cursor, place) && |log.gens| > place.gen + 2
    ensures var r := Reading(decode, log.OnDisk(), Some(cursor));
            BansOf(decode, LinesBefore(log, place)) + r.bans == BansOf(decode, AllLines(log.gens))
            <==> NothingLost(decode, log, cursor, place)
    ensures LandsBetweenLines(log, cursor) ==>
              (NothingLost(decode, log, cursor, place) <==> Missed(decode, log, cursor, place) == [])
  {
    hide Split, BansOf, ReadFrom, AllLines, Landing, Reading, MissedLines, LinesBefore, CutLine, Log.OnDisk;
    var at := Landing(log, cursor);
    var file := log.gens[at.gen];
    LateReading(decode, log, cursor);
    var after := ReadFromAnywhere(decode, file, at.offset);
    AllLinesSplit(log, place, at.gen);
    var past, lines := LinesBefore(log, place), MissedLines(log, place, at.gen);
    var later := AllLines(log.gens[at.gen + 1..]);
    BansOfConcat(decode, past, lines);
    BansOfConcat(decode, past + lines, Split(file).lines);
    BansOfConcat(decode, past + lines + Split(file).lines, later);
    var p, m, l := BansOf(decode, past), BansOf(decode, lines), BansOf(decode, later);
    var passed := BansOf(decode, Split(file[..at.offset]).lines);
    var (whole, part) := CutLine(decode, file, at.offset);
    assert p + (part + after + l) == p + part + (after + l);
    assert p + m + (passed + (whole + after)) + l == p + (m + passed + whole) + (after + l);
    Cancel(p, part, m + passed + whole, after + l);
    UncutLine(decode, file, at.offset);
    Cancel([], m + passed, [], whole);
    assert [] + (m + passed) + whole == m + passed + whole && [] + [] + whole == whole;
  }

  lemma UncutLine(decode: Decoder, content: Bytes, offset: nat)
    requires offset <= |content|
    ensures Split(content[..offset]).rest == [] ==>
              CutLine(decode, content, offset).0 == CutLine(decode, content, offset).1
  {
    hide Split;
    var t := Split(content[offset..]).lines;
    if t != [] {
      assert [] + t[0] == t[0];
    }
  }

  lemma AllLinesSplit(log: Log, place: Place, k: nat)
    requires place.gen < k < |log.gens| && Boundary(log.gens[place.gen], place.offset)
    ensures AllLines(log.gens)
         == LinesBefore(log, place) + MissedLines(log, place, k) + Split(log.gens[k]).lines + AllLines(log.gens[k + 1..])
  {
    hide Split, AllLines;
    var g := place.gen;
    var gen := log.gens[g];
    var a, b := gen[..place.offset], gen[place.offset..];
    assert gen == a + b;
    SplitAfterLine(a, b);
    var init, mid, rest := log.gens[..g], log.gens[g + 1..k], log.gens[k + 1..];
    assert log.gens == (init + [gen] + mid) + [log.gens[k]] + rest;
    AllLinesConcat(init + [gen] + mid + [log.gens[k]], rest);
    AllLinesSnoc(init + [gen] + mid, log.gens[k]);
    AllLinesConcat(init + [gen], mid);
    AllLinesSnoc(init, gen);
    SeqAssoc(AllLines(init), Split(a).lines, Split(b).lines, AllLines(mid));
  }

  lemma SeqAssoc<T>(a: seq<T>, b: seq<T>, c: seq<T>, d: seq<T>)
    ensures a + (b + c) + d == a + b + (c + d)
  {
  }

  /** An input: a ban is written, and the log is rotated twice before it is read. */
  lemma TwoRotationsLoseABan(decode: Decoder, line: Bytes, ev: BanEvent)
    requires NEWLINE !in line && decode(line) == Ban(Some(ev)) && !ev.manual
    ensures var log := Log([line + [NEWLINE], [], []], [1, 2, 3]);
            && log.Valid() && At(log, Cursor(1, 0), Place(0, 0))
            && Reading(decode, log.OnDisk(), Some(Cursor(1, 0))).bans == []
            && BansOf(decode, AllLines(log.gens)) == [ev]
  {
    hide Split, BansOf, AllLines, Reading, At, BanIn;
    RotatedTwice(decode, line);
    BansOfSnoc(decode, [], line);
    NothingRead(decode, [], 0);
    assert [] + [line] == [line];
    BanInExact(decode, line);
  }

  lemma RotatedTwice(decode: Decoder, line: Bytes)
    requires NEWLINE !in line
    ensures var log := Log([line + [NEWLINE], [], []], [1, 2, 3]);
            && log.Valid() && At(log, Cursor(1, 0), Place(0, 0))
            && Reading(decode, log.OnDisk(), Some(Cursor(1, 0))).bans == []
            && AllLines(log.gens) == [line]
  {
    hide Split, BansOf, AllLines;
    var log := Log([line + [NEWLINE], [], []], [1, 2, 3]);
    OneLine(line);
    NothingRead(decode, [], 0);
    NothingListed();
    ReadWhole(decode, []);
    assert log.gens[0][..0] == [];
    assert log.gens == (([] + [line + [NEWLINE]]) + [[]]) + [[]];
    AllLinesSnoc([], line + [NEWLINE]);
    AllLinesSnoc([] + [line + [NEWLINE]], []);
    AllLinesSnoc([] + [line + [NEWLINE]] + [[]], []);
  }
}
