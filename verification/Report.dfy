/** The report protocol: new automatic bans are normalized and submitted in batches under increasing
    sequence numbers, and the log cursor is persisted only after every batch was accepted. Crashes, lost
    replies and refused submissions may happen between any two steps; the log keeps growing meanwhile. */
module Report {
  import opened EventReader
  import opened Lines
  import opened Nets
  import opened Rotation
  import opened Wrappers

  const MAX_EVENT_AGE: nat := 23 * 3600
  const SEQ_JUMP: nat := 86_400
  const MAX_BATCH_ITEMS: nat := 1000

  // ----- normalization -----

  datatype Report = Report(ts: nat, net: Net, filter: string, count: nat, banTtl: nat, escalation: nat)

  predicate ValidFilter(name: string) {
    && name != [] && |name| <= 64
    && forall i :: 0 <= i < |name| ==>
         'a' <= name[i] <= 'z' || '0' <= name[i] <= '9' || name[i] == '.' || name[i] == '_' || name[i] == '-'
  }

  /** The network to report for a banned one. */
  function ReportedNet(net: Net): Option<Net>
    requires net.Valid()
  {
    match net.family
    case V4 => if net.len < 24 then None else Some(net)
    case V6 =>
      if net.len < 48 then None
      else if net.len > 64 then Some(Net(V6, net.addr, 64).Trunc())
      else Some(net)
  }

  function ToReport(ev: BanEvent, now: nat): Option<Report> {
    if ev.manual || ev.ts + MAX_EVENT_AGE < now || ev.ts > now + 60 then None
    else if ev.net == None then None
    else
      var net := ReportedNet(ev.net.value);
      if net == None || !ValidFilter(ev.filter) then None
      else
        Some(Report(ev.ts, net.value.Trunc(), ev.filter, Max(ev.hits, 1), ev.ttl, Min(ev.escalation, 255)))
  }

  /** A name of 1 to 64 small letters, digits, hyphens, dots and underscores, by their ASCII codes. */
  ghost predicate PlainName(name: string) {
    && 1 <= |name| <= 64
    && forall c :: c in name ==>
         0x61 <= c as int <= 0x7A || 0x30 <= c as int <= 0x39 || c as int in {0x2D, 0x2E, 0x5F}
  }

  lemma ValidFilterExact(name: string)
    ensures ValidFilter(name) <==> PlainName(name)
  {
    assert forall i :: 0 <= i < |name| ==> name[i] in name;
  }

  /** What the server checks on every report. */
  ghost predicate WireRules(r: Report, now: nat) {
    && now <= r.ts + 23 * 3600 && r.ts <= now + 60
    && r.net.Canonical()
    && (if r.net.family == V4 then 24 <= r.net.len else 48 <= r.net.len <= 64)
    && PlainName(r.filter) && r.count >= 1 && r.escalation <= 255
  }

  /** Fresh automatic bans of narrow networks by well-named filters are reported, and no others. */
  ghost predicate Reportable(ev: BanEvent, now: nat) {
    && !ev.manual && now <= ev.ts + 23 * 3600 && ev.ts <= now + 60
    && ev.net.Some? && PlainName(ev.filter)
    && ev.net.value.len >= (if ev.net.value.family == V4 then 24 else 48)
  }

  /** The addresses reported: those of the banned network, or of the one /64 that holds it if it is narrower. */
  ghost predicate ReportsRange(net: Net, reported: Net)
    requires net.Valid() && reported.Valid()
  {
    && reported.family == net.family
    && if net.family == V6 && net.len > 64 then reported.len == 64 && reported.Covers(net)
       else reported.First() == net.First() && reported.Last() == net.Last()
  }

  lemma WidenedCovers(net: Net)
    requires net.Valid() && net.family == V6 && net.len > 64
    ensures var wide := Net(V6, net.addr, 64);
            wide.Valid() && wide.Trunc().Canonical() && wide.Trunc().Covers(net)
  {
    var wide := Net(V6, net.addr, 64);
    NetBounds(wide);
    NetBounds(net);
    var ip := Ip(V6, net.addr);
    Nesting(wide, net, ip);
  }

  /** A report exists exactly for the reportable bans. It passes the server's checks, its network has the range of
      the banned one or is the /64 around it, and its other fields are those of the ban. */
  lemma ToReportExact(ev: BanEvent, now: nat)
    ensures ToReport(ev, now).Some? <==> Reportable(ev, now)
    ensures ToReport(ev, now).Some? ==>
              var r := ToReport(ev, now).value;
              && WireRules(r, now) && ReportsRange(ev.net.value, r.net)
              && r.ts == ev.ts && r.filter == ev.filter && r.banTtl == ev.ttl
              && r.count == (if ev.hits == 0 then 1 else ev.hits)
              && r.escalation == (if ev.escalation <= 255 then ev.escalation else 255)
  {
    hide ValidFilter, PlainName, Pow2, ClearLow;
    ValidFilterExact(ev.filter);
    if Reportable(ev, now) {
      var net := ev.net.value;
      NetBounds(net);
      if net.family == V6 && net.len > 64 {
        WidenedCovers(net);
        NetBounds(Net(V6, net.addr, 64));
        NetBounds(Net(V6, net.addr, 64).Trunc());
      } else {
        NetBounds(net.Trunc());
      }
    }
  }

  ghost function Reports(bans: seq<BanEvent>, now: nat): seq<Report> {
    if bans == [] then []
    else
      var r := ToReport(bans[|bans| - 1], now);
      Reports(bans[..|bans| - 1], now) + if r.Some? then [r.value] else []
  }

  lemma {:induction false} ReportsComplete(bans: seq<BanEvent>, now: nat, i: nat)
    requires i < |bans| && ToReport(bans[i], now).Some?
    ensures ToReport(bans[i], now).value in Reports(bans, now)
    decreases |bans|
  {
    if i < |bans| - 1 {
      ReportsComplete(bans[..|bans| - 1], now, i);
    }
  }

  /** Nothing but bans is reported. */
  lemma {:induction false} ReportsSound(bans: seq<BanEvent>, now: nat, r: Report)
    requires r in Reports(bans, now)
    ensures exists i :: 0 <= i < |bans| && ToReport(bans[i], now) == Some(r)
    decreases |bans|
  {
    hide ToReport;
    var n := |bans| - 1;
    if r in Reports(bans[..n], now) {
      ReportsSound(bans[..n], now, r);
      var i :| 0 <= i < n && ToReport(bans[..n][i], now) == Some(r);
      assert ToReport(bans[i], now) == Some(r);
    } else {
      assert ToReport(bans[n], now) == Some(r);
    }
  }

  /** No ban is reported twice: there are as many reports as reportable bans. */
  lemma {:induction false} ReportsCount(bans: seq<BanEvent>, now: nat)
    ensures |Reports(bans, now)| == |set i | 0 <= i < |bans| && Reportable(bans[i], now)|
    decreases |bans|
  {
    hide ToReport, Reportable;
    if bans != [] {
      var n := |bans| - 1;
      ReportsCount(bans[..n], now);
      ToReportExact(bans[n], now);
      var before := set i | 0 <= i < n && Reportable(bans[..n][i], now);
      var all := set i | 0 <= i < |bans| && Reportable(bans[i], now);
      assert all == before + (if Reportable(bans[n], now) then {n} else {});
    }
  }

  method Normalize(bans: seq<BanEvent>, now: nat) returns (reports: seq<Report>)
    ensures reports == Reports(bans, now)
  {
    reports := [];
    for i := 0 to |bans|
      invariant reports == Reports(bans[..i], now)
    {
      assert bans[..i + 1][..i] == bans[..i];
      var r := ToReport(bans[i], now);
      if r.Some? {
        reports := reports + [r.value];
      }
    }
    assert bans[..|bans|] == bans;
  }

  // ----- the server -----

  datatype Batch = Batch(number: nat, reports: seq<Report>)

  /** The server's answer, or a failure that says nothing about what the server did. */
  datatype Reply = Failed | Answer(duplicate: bool)

  /** What becomes of a request on the network. */
  datatype Fate = RequestLost | ReplyLost | Answered

  /** The server's side: the highest number accepted so far, the batches accepted, and every request made,
      the lost ones included. */
  datatype Desk = Desk(last: Option<nat>, received: seq<Batch>, requests: seq<Batch>)
  {
    predicate Duplicate(number: nat) {
      last.Some? && number <= last.value
    }

    ghost predicate Sound() {
      && (last == None <==> received == [])
      && (forall i :: 0 <= i < |received| ==> last.Some? && received[i].number <= last.value)
      && (forall i, j :: 0 <= i < j < |received| ==> received[i].number < received[j].number)
      && (forall i :: 0 <= i < |received| ==> received[i] in requests)
    }
  }

  const EMPTY_DESK: Desk := Desk(None, [], [])

  /** One request: a number that is not larger than the last one accepted is a duplicate. */
  function Submitted(d: Desk, batch: Batch, fate: Fate): (Desk, Reply) {
    var asked := d.(requests := d.requests + [batch]);
    if fate.RequestLost? then (asked, Failed)
    else if d.Duplicate(batch.number) then (asked, if fate.ReplyLost? then Failed else Answer(true))
    else (asked.(last := Some(batch.number), received := d.received + [batch]),
          if fate.ReplyLost? then Failed else Answer(false))
  }

  /** Numbers only grow, a batch is accepted at most once, and an answer tells whether it was accepted. */
  lemma SubmittedSound(d: Desk, batch: Batch, fate: Fate)
    requires d.Sound()
    ensures var (after, reply) := Submitted(d, batch, fate);
            && after.Sound() && after.requests == d.requests + [batch]
            && after.received == d.received
               + (if !fate.RequestLost? && !d.Duplicate(batch.number) then [batch] else [])
            && (reply == Answer(false) ==> after.received == d.received + [batch])
            && (reply == Answer(true) ==> after.received == d.received)
  {
  }

  class Server {
    var last: Option<nat>
    var received: seq<Batch>
    ghost var requests: seq<Batch>

    ghost function View(): Desk
      reads this
    {
      Desk(last, received, requests)
    }

    constructor ()
      ensures View() == EMPTY_DESK
    {
      last, received, requests := None, [], [];
    }

    method Submit(batch: Batch, fate: Fate) returns (reply: Reply)
      modifies this
      ensures (View(), reply) == Submitted(old(View()), batch, fate)
    {
      requests := requests + [batch];
      if fate.RequestLost? {
        return Failed;
      }
      if last.Some? && batch.number <= last.value {
        reply := Answer(true);
      } else {
        last := Some(batch.number);
        received := received + [batch];
        reply := Answer(false);
      }
      if fate.ReplyLost? {
        reply := Failed;
      }
    }
  }

  ghost predicate Accepted(received: seq<Batch>, r: Report) {
    exists i :: 0 <= i < |received| && r in received[i].reports
  }

  lemma AcceptedStays(received: seq<Batch>, later: seq<Batch>, r: Report)
    requires Accepted(received, r) && received <= later
    ensures Accepted(later, r)
  {
    var i :| 0 <= i < |received| && r in received[i].reports;
    assert later[i] == received[i];
  }

  // ----- cursors while the log grows -----

  /** A persisted cursor: nothing has been read yet, or it denotes a place. */
  ghost predicate CursorAt(log: Log, cursor: Option<Cursor>, place: Option<Place>) {
    match place
    case None => cursor == None || cursor == Some(NO_CURSOR)
    case Some(p) => cursor.Some? && At(log, cursor.value, p)
  }

  /** The place is in the current file or in the one rotated away last. */
  predicate InReach(log: Log, place: Option<Place>) {
    |log.gens| <= if place.Some? then place.value.gen + 2 else 1
  }

  ghost function Before(log: Log, place: Option<Place>): seq<Bytes> {
    match place
    case None => []
    case Some(p) => if p.gen < |log.gens| && p.offset <= |log.gens[p.gen]| then LinesBefore(log, p) else []
  }

  ghost function After(log: Log): Option<Place> {
    if log.gens == [] then None else Some(EndPlace(log))
  }

  /** A read from a cursor within reach yields the bans up to the new cursor. */
  lemma ReadMoves(decode: Decoder, log: Log, cursor: Option<Cursor>, place: Option<Place>)
    requires log.Valid() && CursorAt(log, cursor, place) && InReach(log, place)
    ensures var r := Reading(decode, log.OnDisk(), cursor);
            && CursorAt(log, Some(r.cursor), After(log))
            && Before(log, After(log)) == AllLines(log.gens)
            && BansOf(decode, Before(log, place)) + r.bans == BansOf(decode, AllLines(log.gens))
  {
    hide Split, ReadFrom;
    if place.Some? {
      ReadIsExact(decode, log, cursor.value, place.value);
    } else if log.gens != [] {
      FirstReadIsExact(decode, log, cursor);
    }
  }

  /** What the daemon does to its log: it appends to it, creates it, and rotates it between lines onto an
      inode other than the current one. */
  datatype Write = Append(more: Bytes) | Rotate(ino: nat)

  predicate CanRotate(log: Log, ino: nat) {
    && ino > 0 && |log.inos| == |log.gens|
    && (log.gens != [] ==> EndsLine(log.gens[|log.gens| - 1]) && ino != log.inos[|log.inos| - 1])
  }

  function Wrote(log: Log, w: Write): Log {
    match w
    case Append(more) => if log.gens == [] then log else log.Append(more)
    case Rotate(ino) => if CanRotate(log, ino) then log.Rotate(ino) else log
  }

  function Written(log: Log, writes: seq<Write>): Log {
    if writes == [] then log else Wrote(Written(log, writes[..|writes| - 1]), writes[|writes| - 1])
  }

  lemma WroteGrows(a: Log, w: Write)
    requires a.Valid()
    ensures Wrote(a, w).Valid() && Grown(a, Wrote(a, w))
  {
    if a.gens != [] {
      EndsLineIff(a.gens[|a.gens| - 1]);
    }
    hide Split;
    var b, n := Wrote(a, w), |a.gens|;
    forall g | 0 <= g < |b.gens| - 1
      ensures Split(b.gens[g]).rest == []
    {
      assert b.gens[g] == a.gens[g];
    }
  }

  lemma {:induction false} WrittenGrows(a: Log, writes: seq<Write>)
    requires a.Valid()
    ensures Written(a, writes).Valid() && Grown(a, Written(a, writes))
    decreases |writes|
  {
    if writes != [] {
      hide Wrote;
      var b := Written(a, writes[..|writes| - 1]);
      WrittenGrows(a, writes[..|writes| - 1]);
      WroteGrows(b, writes[|writes| - 1]);
      GrownTwice(a, b, Written(a, writes));
    }
  }

  lemma GrowthKeepsCursor(a: Log, b: Log, cursor: Option<Cursor>, place: Option<Place>)
    requires a.Valid() && b.Valid() && Grown(a, b) && CursorAt(a, cursor, place)
    ensures CursorAt(b, cursor, place) && Before(b, place) == Before(a, place)
  {
    hide Split;
    if place.Some? {
      PlaceStays(a, b, cursor.value, place.value);
    }
  }

  // ----- the protocol -----

  /** The persisted state, as far as reporting uses it. */
  datatype State = State(nextSeq: nat, cursor: Option<Cursor>)

  /** How the submission of one batch ends, under which number, and whether it was a retry. */
  datatype Outcome = Done(number: nat, retried: bool) | Lost(number: nat, retried: bool) | Rejected(number: nat, retried: bool)

  /** Requests sent, and numbers acknowledged and persisted, in order. */
  datatype Step = Sent(batch: Batch) | Acked(number: nat)

  /** An event before the persisted cursor, with the time at which it was read. */
  datatype Settled = Settled(event: BanEvent, readAt: nat)

  /** Everything at one moment: the log, the state file, the server, what has happened so far, and the events
      before the persisted cursor with the place it denotes. */
  datatype World = World(log: Log, disk: State, desk: Desk, trace: seq<Step>, settled: seq<Settled>, place: Option<Place>)

  /** What happens around one batch: the daemon's writes, the clock, the fate of the request and of its retry,
      and whether the state file is written or the client dies before. */
  datatype Weather = Weather(writes: seq<Write>, clock: nat, first: Fate, retry: Fate, saved: bool)

  /** What happens around one run: the clock after the read, the weather of the batch that starts at each
      report, the daemon's writes at the end, and whether the cursor is written. */
  datatype Surroundings = Surroundings(now: nat, sky: nat -> Weather, writes: seq<Write>, saved: bool)

  /** One batch: a number at least as large as the stored one and the clock, and one retry a day ahead if the
      server calls it a duplicate. */
  function SentChunk(d: Desk, nextSeq: nat, chunk: seq<Report>, sky: Weather): (Desk, seq<Step>, Outcome) {
    var number := Max(nextSeq, sky.clock);
    var (d1, reply) := Submitted(d, Batch(number, chunk), sky.first);
    var steps := [Sent(Batch(number, chunk))];
    if reply.Failed? then (d1, steps, Lost(number, false))
    else if !reply.duplicate then (d1, steps, Done(number, false))
    else
      var jump := number + SEQ_JUMP;
      var (d2, again) := Submitted(d1, Batch(jump, chunk), sky.retry);
      (d2, steps + [Sent(Batch(jump, chunk))],
       if again.Failed? then Lost(jump, true) else if again.duplicate then Rejected(jump, true) else Done(jump, true))
  }

  /** All batches from report `k` on: the number is persisted after each. */
  ghost function SentFrom(w: World, reports: seq<Report>, k: nat, sky: nat -> Weather): (World, bool, seq<Outcome>)
    decreases |reports| - k
  {
    if k >= |reports| then (w, true, [])
    else
      var next := Min(k + MAX_BATCH_ITEMS, |reports|);
      var (desk, steps, o) := SentChunk(w.desk, w.disk.nextSeq, reports[k..next], sky(k));
      var x := w.(log := Written(w.log, sky(k).writes), desk := desk, trace := w.trace + steps);
      if !o.Done? || !sky(k).saved then (x, false, [o])
      else
        var (y, done, os) := SentFrom(Persisted(x, o.number), reports, next, sky);
        (y, done, [o] + os)
  }

  ghost function Persisted(w: World, number: nat): World {
    w.(disk := w.disk.(nextSeq := number + 1), trace := w.trace + [Acked(number)])
  }

  /** One run of the client, from loading the state to saving the cursor. */
  ghost function Ran(decode: Decoder, w: World, env: Surroundings): (World, bool, seq<Outcome>)
    requires w.log.Valid()
  {
    var fetched := Reading(decode, w.log.OnDisk(), w.disk.cursor);
    var (x, done, os) := SentFrom(w, Reports(fetched.bans, env.now), 0, env.sky);
    if !done then (x, false, os)
    else
      var y := x.(log := Written(x.log, env.writes));
      if !env.saved then (y, false, os)
      else (y.(disk := y.disk.(cursor := Some(fetched.cursor)), settled := y.settled + Stamped(fetched.bans, env.now),
               place := After(w.log)), true, os)
  }

  datatype Move = Daemon(write: Write) | Client(env: Surroundings)

  /** Any sequence of moves. */
  ghost function Reached(decode: Decoder, w: World, moves: seq<Move>): (x: World)
    requires w.log.Valid()
    ensures x.log.Valid()
  {
    if moves == [] then w
    else
      var x := Reached(decode, w, moves[..|moves| - 1]);
      match moves[|moves| - 1]
      case Daemon(write) =>
        WroteGrows(x.log, write);
        x.(log := Wrote(x.log, write))
      case Client(env) =>
        RanGrows(decode, x, env);
        Ran(decode, x, env).0
  }

  /** A fresh installation next to a log. */
  ghost function Installed(log: Log): World {
    World(log, State(0, None), EMPTY_DESK, [], [], None)
  }

  // ----- what every run keeps -----

  ghost function Events(settled: seq<Settled>): (evs: seq<BanEvent>)
    ensures |evs| == |settled|
  {
    seq(|settled|, i requires 0 <= i < |settled| => settled[i].event)
  }

  ghost function Stamped(bans: seq<BanEvent>, now: nat): (s: seq<Settled>)
    ensures Events(s) == bans
    ensures forall i :: 0 <= i < |s| ==> s[i].readAt == now
  {
    var s := seq(|bans|, i requires 0 <= i < |bans| => Settled(bans[i], now));
    assert Events(s) == bans;
    s
  }

  /** Nothing has been lost: what was reportable when it was read is in an accepted batch. */
  ghost predicate AtLeastOnce(settled: seq<Settled>, received: seq<Batch>) {
    forall i :: 0 <= i < |settled| ==>
      var r := ToReport(settled[i].event, settled[i].readAt);
      r.Some? ==> Accepted(received, r.value)
  }

  /** Every number sent exceeds every number acknowledged and persisted before. */
  ghost predicate Ordered(trace: seq<Step>) {
    forall i, j :: 0 <= i < j < |trace| && trace[i].Acked? && trace[j].Sent? ==> trace[i].number < trace[j].batch.number
  }

  ghost predicate AckedBelow(trace: seq<Step>, bound: nat) {
    forall i :: 0 <= i < |trace| && trace[i].Acked? ==> trace[i].number < bound
  }

  /** The batches of the requests in a trace. */
  ghost function Requests(trace: seq<Step>): seq<Batch> {
    if trace == [] then []
    else Requests(trace[..|trace| - 1]) + if trace[|trace| - 1].Sent? then [trace[|trace| - 1].batch] else []
  }

  lemma RequestsSnoc(trace: seq<Step>, step: Step)
    ensures Requests(trace + [step]) == Requests(trace) + if step.Sent? then [step.batch] else []
  {
    assert (trace + [step])[..|trace|] == trace;
  }

  lemma OrderedSent(trace: seq<Step>, bound: nat, batch: Batch)
    requires Ordered(trace) && AckedBelow(trace, bound) && bound <= batch.number
    ensures Ordered(trace + [Sent(batch)]) && AckedBelow(trace + [Sent(batch)], bound)
  {
  }

  lemma OrderedAcked(trace: seq<Step>, bound: nat, number: nat)
    requires Ordered(trace) && AckedBelow(trace, bound) && bound <= number
    ensures Ordered(trace + [Acked(number)]) && AckedBelow(trace + [Acked(number)], number + 1)
  {
  }

  /** The trace is in order, and is what the server was asked. */
  ghost predicate TraceSound(trace: seq<Step>, d: Desk, bound: nat) {
    Ordered(trace) && AckedBelow(trace, bound) && Requests(trace) == d.requests && d.Sound()
  }

  lemma OneRequest(trace: seq<Step>, d: Desk, bound: nat, batch: Batch, fate: Fate)
    requires TraceSound(trace, d, bound) && bound <= batch.number
    ensures var (after, reply) := Submitted(d, batch, fate);
            && TraceSound(trace + [Sent(batch)], after, bound) && d.received <= after.received
            && (reply == Answer(false) ==> after.received == d.received + [batch] && after.last == Some(batch.number))
  {
    hide Ordered, AckedBelow, Desk.Sound;
    SubmittedSound(d, batch, fate);
    OrderedSent(trace, bound, batch);
    RequestsSnoc(trace, Sent(batch));
  }

  /** One batch: if it is done, the server has it under a number that has not been used up. */
  lemma ChunkKeeps(trace: seq<Step>, d: Desk, nextSeq: nat, chunk: seq<Report>, sky: Weather)
    requires TraceSound(trace, d, nextSeq)
    ensures var (after, steps, o) := SentChunk(d, nextSeq, chunk, sky);
            && TraceSound(trace + steps, after, nextSeq) && d.received <= after.received
            && (o.Done? ==> after.received == d.received + [Batch(o.number, chunk)] && after.last == Some(o.number)
                            && nextSeq <= o.number)
  {
    hide TraceSound, Desk.Sound, Submitted;
    var number := Max(nextSeq, sky.clock);
    var first := Batch(number, chunk);
    OneRequest(trace, d, nextSeq, first, sky.first);
    var (d1, reply) := Submitted(d, first, sky.first);
    if reply == Answer(true) {
      var again := Batch(number + SEQ_JUMP, chunk);
      OneRequest(trace + [Sent(first)], d1, nextSeq, again, sky.retry);
      assert trace + [Sent(first)] + [Sent(again)] == trace + ([Sent(first)] + [Sent(again)]);
      DuplicateLeaves(d, first, sky.first);
    }
  }

  lemma DuplicateLeaves(d: Desk, batch: Batch, fate: Fate)
    ensures var (after, reply) := Submitted(d, batch, fate);
            && (reply == Answer(true) ==> after.received == d.received && after.last == d.last)
            && (reply.Answer? ==> (reply.duplicate <==> d.Duplicate(batch.number)))
            && (fate.Answered? <==> reply.Answer?)
  {
  }

  /** A batch is retried exactly if the server answers and has seen its number. When the server answers
      twice, the retry fails exactly if the server is itself a day ahead. */
  lemma RetryIff(d: Desk, nextSeq: nat, chunk: seq<Report>, sky: Weather)
    ensures var (after, _, o) := SentChunk(d, nextSeq, chunk, sky);
            var number := Max(nextSeq, sky.clock);
            && (o.retried <==> sky.first.Answered? && d.Duplicate(number))
            && o.number == number + (if o.retried then 24 * 3600 else 0)
            && (sky.first.Answered? && sky.retry.Answered? ==> (o.Done? <==> !d.Duplicate(number + 24 * 3600)))
  {
    hide Submitted;
    var number := Max(nextSeq, sky.clock);
    DuplicateLeaves(d, Batch(number, chunk), sky.first);
    DuplicateLeaves(Submitted(d, Batch(number, chunk), sky.first).0, Batch(number + SEQ_JUMP, chunk), sky.retry);
  }

  lemma AtLeastOnceStays(settled: seq<Settled>, received: seq<Batch>, later: seq<Batch>)
    requires AtLeastOnce(settled, received) && received <= later
    ensures AtLeastOnce(settled, later)
  {
    forall i | 0 <= i < |settled| && ToReport(settled[i].event, settled[i].readAt).Some?
      ensures Accepted(later, ToReport(settled[i].event, settled[i].readAt).value)
    {
      AcceptedStays(received, later, ToReport(settled[i].event, settled[i].readAt).value);
    }
  }

  /** The first `k` reports are in accepted batches. */
  ghost predicate AllAccepted(reports: seq<Report>, k: nat, received: seq<Batch>) {
    forall i :: 0 <= i < k && i < |reports| ==> Accepted(received, reports[i])
  }

  lemma AllAcceptedMore(reports: seq<Report>, k: nat, l: nat, received: seq<Batch>, number: nat)
    requires AllAccepted(reports, k, received) && k <= l <= |reports|
    ensures AllAccepted(reports, l, received + [Batch(number, reports[k..l])])
  {
    var later := received + [Batch(number, reports[k..l])];
    forall i | 0 <= i < l
      ensures Accepted(later, reports[i])
    {
      if i < k {
        AcceptedStays(received, later, reports[i]);
      } else {
        assert reports[i] == reports[k..l][i - k];
        assert later[|received|].reports == reports[k..l];
      }
    }
  }

  lemma BatchSettles(settled: seq<Settled>, received: seq<Batch>, bans: seq<BanEvent>, now: nat)
    requires AtLeastOnce(settled, received)
    requires AllAccepted(Reports(bans, now), |Reports(bans, now)|, received)
    ensures AtLeastOnce(settled + Stamped(bans, now), received)
    ensures Events(settled + Stamped(bans, now)) == Events(settled) + bans
  {
    var more := Stamped(bans, now);
    forall i | 0 <= i < |more|
      ensures more[i] == Settled(bans[i], now)
    {
      assert Events(more)[i] == bans[i];
    }
    forall i | 0 <= i < |bans| && ToReport(bans[i], now).Some?
      ensures Accepted(received, ToReport(bans[i], now).value)
    {
      ReportsComplete(bans, now, i);
    }
  }

  /** What the batches of a run change: the log grows, the server and the trace go on in order, the stored
      number grows, and nothing else moves. */
  ghost predicate Underway(a: World, b: World) {
    && b.log.Valid() && Grown(a.log, b.log)
    && TraceSound(b.trace, b.desk, b.disk.nextSeq)
    && a.desk.received <= b.desk.received && a.disk.nextSeq <= b.disk.nextSeq && a.disk.cursor == b.disk.cursor
    && a.settled == b.settled && a.place == b.place
  }

  lemma UnderwayTwice(a: World, b: World, c: World)
    requires Underway(a, b) && Underway(b, c)
    ensures Underway(a, c)
  {
    hide TraceSound;
    GrownTwice(a.log, b.log, c.log);
  }

  lemma GrownSame(log: Log)
    ensures |log.gens| == |log.inos| ==> Grown(log, log)
  {
  }

  /** One batch of a run. */
  lemma BatchUnderway(w: World, chunk: seq<Report>, sky: Weather)
    requires w.log.Valid() && TraceSound(w.trace, w.desk, w.disk.nextSeq)
    ensures var (desk, steps, o) := SentChunk(w.desk, w.disk.nextSeq, chunk, sky);
            var x := w.(log := Written(w.log, sky.writes), desk := desk, trace := w.trace + steps);
            && Underway(w, x)
            && (o.Done? ==> Underway(w, Persisted(x, o.number)) && desk.last == Some(o.number)
                            && desk.received == w.desk.received + [Batch(o.number, chunk)])
  {
    hide Ordered, AckedBelow, Desk.Sound, SentChunk, Grown;
    var (desk, steps, o) := SentChunk(w.desk, w.disk.nextSeq, chunk, sky);
    ChunkKeeps(w.trace, w.desk, w.disk.nextSeq, chunk, sky);
    WrittenGrows(w.log, sky.writes);
    if o.Done? {
      OrderedAcked(w.trace + steps, w.disk.nextSeq, o.number);
      RequestsSnoc(w.trace + steps, Acked(o.number));
    }
  }

  /** All batches from report `k` on. Only the first batch attempted can be a duplicate, and not even that
      one if the server has seen nothing above the stored number. */
  lemma {:induction false} SentFromKeeps(w: World, reports: seq<Report>, k: nat, sky: nat -> Weather)
    requires w.log.Valid() && TraceSound(w.trace, w.desk, w.disk.nextSeq)
    requires k <= |reports| && AllAccepted(reports, k, w.desk.received)
    ensures var (x, done, os) := SentFrom(w, reports, k, sky);
            && Underway(w, x) && (done ==> AllAccepted(reports, |reports|, x.desk.received))
            && (forall i :: 0 < i < |os| ==> !os[i].retried)
            && (os != [] && !w.desk.Duplicate(w.disk.nextSeq) ==> !os[0].retried)
            && (x.disk.nextSeq == w.disk.nextSeq || exists i :: 0 <= i < |os| && os[i].Done? && x.disk.nextSeq == os[i].number + 1)
    decreases |reports| - k
  {
    hide TraceSound, AllAccepted, SentChunk, Grown, Written;
    if k < |reports| {
      var next := Min(k + MAX_BATCH_ITEMS, |reports|);
      var (desk, steps, o) := SentChunk(w.desk, w.disk.nextSeq, reports[k..next], sky(k));
      var x := w.(log := Written(w.log, sky(k).writes), desk := desk, trace := w.trace + steps);
      BatchUnderway(w, reports[k..next], sky(k));
      RetryIff(w.desk, w.disk.nextSeq, reports[k..next], sky(k));
      if o.Done? && sky(k).saved {
        var y := Persisted(x, o.number);
        AllAcceptedMore(reports, k, next, w.desk.received, o.number);
        SentFromKeeps(y, reports, next, sky);
        UnderwayTwice(w, y, SentFrom(y, reports, next, sky).0);
        var (x, _, os) := SentFrom(y, reports, next, sky);
        assert ([o] + os)[0] == o && forall i :: 0 <= i < |os| ==> ([o] + os)[i + 1] == os[i];
      }
    } else {
      GrownSame(w.log);
    }
  }

  /** The reports of some batches, in order. */
  ghost function AllReports(batches: seq<Batch>): seq<Report> {
    if batches == [] then [] else batches[0].reports + AllReports(batches[1..])
  }

  /** Each report goes out in one batch, in order: a run that completes has every report accepted exactly once, in
      batches of at most 1000. */
  lemma {:induction false} BatchesExact(w: World, reports: seq<Report>, k: nat, sky: nat -> Weather) returns (added: seq<Batch>)
    requires w.desk.Sound() && k <= |reports| && SentFrom(w, reports, k, sky).1
    ensures SentFrom(w, reports, k, sky).0.desk.received == w.desk.received + added
    ensures AllReports(added) == reports[k..]
    ensures forall i :: 0 <= i < |added| ==> 1 <= |added[i].reports| <= 1000
    decreases |reports| - k
  {
    hide SentChunk, Written, Desk.Sound;
    added := [];
    if k < |reports| {
      var next := Min(k + MAX_BATCH_ITEMS, |reports|);
      var (desk, steps, o) := SentChunk(w.desk, w.disk.nextSeq, reports[k..next], sky(k));
      var x := w.(log := Written(w.log, sky(k).writes), desk := desk, trace := w.trace + steps);
      DoneAddsOne(w.desk, w.disk.nextSeq, reports[k..next], sky(k));
      var more := BatchesExact(Persisted(x, o.number), reports, next, sky);
      var first := Batch(o.number, reports[k..next]);
      added := [first] + more;
      assert added[1..] == more && reports[k..next] + reports[next..] == reports[k..];
      assert w.desk.received + [first] + more == w.desk.received + added;
    }
  }

  lemma DoneAddsOne(d: Desk, nextSeq: nat, chunk: seq<Report>, sky: Weather)
    requires d.Sound()
    ensures var (after, _, o) := SentChunk(d, nextSeq, chunk, sky);
            o.Done? ==> after.received == d.received + [Batch(o.number, chunk)] && after.Sound()
  {
    hide Desk.Sound, Submitted;
    var number := Max(nextSeq, sky.clock);
    var first, again := Batch(number, chunk), Batch(number + SEQ_JUMP, chunk);
    SubmittedSound(d, first, sky.first);
    SubmittedSound(Submitted(d, first, sky.first).0, again, sky.retry);
  }

  /** The whole protocol invariant: the events before the persisted cursor are settled, and none is lost. */
  ghost predicate Safe(decode: Decoder, w: World) {
    && w.log.Valid() && TraceSound(w.trace, w.desk, w.disk.nextSeq)
    && CursorAt(w.log, w.disk.cursor, w.place)
    && Events(w.settled) == BansOf(decode, Before(w.log, w.place))
    && AtLeastOnce(w.settled, w.desk.received)
  }

  lemma UnderwaySafe(decode: Decoder, a: World, b: World)
    requires Safe(decode, a) && Underway(a, b)
    ensures Safe(decode, b)
  {
    hide TraceSound, Before, AtLeastOnce, CursorAt, Grown;
    GrowthKeepsCursor(a.log, b.log, a.disk.cursor, a.place);
    AtLeastOnceStays(a.settled, a.desk.received, b.desk.received);
  }

  lemma NothingSent(reports: seq<Report>, received: seq<Batch>)
    ensures AllAccepted(reports, 0, received)
  {
  }

  lemma WritesUnderway(w: World, writes: seq<Write>)
    requires w.log.Valid() && TraceSound(w.trace, w.desk, w.disk.nextSeq)
    ensures Underway(w, w.(log := Written(w.log, writes)))
  {
    hide TraceSound, Written;
    WrittenGrows(w.log, writes);
  }

  /** A run never loses anything, wherever it is cut short. One that completes settles exactly the bans that
      were complete in the log when it began; one that does not leaves the cursor where it was. */
  lemma RunKeeps(decode: Decoder, w: World, env: Surroundings)
    requires Safe(decode, w) && InReach(w.log, w.place)
    ensures var (x, done, os) := Ran(decode, w, env);
            && Safe(decode, x) && w.desk.received <= x.desk.received && w.disk.nextSeq <= x.disk.nextSeq
            && (forall i :: 0 < i < |os| ==> !os[i].retried)
            && (done ==> Events(x.settled) == BansOf(decode, AllLines(w.log.gens)))
            && (!done ==> x.settled == w.settled && x.disk.cursor == w.disk.cursor && x.place == w.place)
  {
    hide Reading, Reports, SentFrom, Written, BansOf, CursorAt, AtLeastOnce, TraceSound, AllAccepted, Before, After,
         AllLines, Events, Stamped, InReach, Grown;
    var fetched := Reading(decode, w.log.OnDisk(), w.disk.cursor);
    var reports := Reports(fetched.bans, env.now);
    ReadMoves(decode, w.log, w.disk.cursor, w.place);
    NothingSent(reports, w.desk.received);
    SentFromKeeps(w, reports, 0, env.sky);
    var (x, done, os) := SentFrom(w, reports, 0, env.sky);
    UnderwaySafe(decode, w, x);
    if done {
      var y := x.(log := Written(x.log, env.writes));
      WritesUnderway(x, env.writes);
      UnderwayTwice(w, x, y);
      UnderwaySafe(decode, w, y);
      GrowthKeepsCursor(w.log, y.log, Some(fetched.cursor), After(w.log));
      GrowthKeepsCursor(w.log, y.log, w.disk.cursor, w.place);
      BatchSettles(y.settled, y.desk.received, fetched.bans, env.now);
    }
  }

  lemma {:induction false} SentFromGrows(w: World, reports: seq<Report>, k: nat, sky: nat -> Weather)
    requires w.log.Valid()
    ensures SentFrom(w, reports, k, sky).0.log.Valid()
    decreases |reports| - k
  {
    hide SentChunk, Written;
    if k < |reports| {
      var next := Min(k + MAX_BATCH_ITEMS, |reports|);
      var (desk, steps, o) := SentChunk(w.desk, w.disk.nextSeq, reports[k..next], sky(k));
      WrittenGrows(w.log, sky(k).writes);
      var x := w.(log := Written(w.log, sky(k).writes), desk := desk, trace := w.trace + steps);
      SentFromGrows(Persisted(x, o.number), reports, next, sky);
    }
  }

  lemma RanGrows(decode: Decoder, w: World, env: Surroundings)
    requires w.log.Valid()
    ensures Ran(decode, w, env).0.log.Valid()
  {
    hide Reading, Reports, SentFrom, Written;
    var reports := Reports(Reading(decode, w.log.OnDisk(), w.disk.cursor).bans, env.now);
    SentFromGrows(w, reports, 0, env.sky);
    WrittenGrows(SentFrom(w, reports, 0, env.sky).0.log, env.writes);
  }

  /** The server answers every request, and the client survives. */
  ghost predicate Calm(env: Surroundings) {
    env.saved && forall k :: env.sky(k).first.Answered? && env.sky(k).retry.Answered? && env.sky(k).saved
  }

  lemma {:induction false} SentFromCompletes(w: World, reports: seq<Report>, k: nat, env: Surroundings)
    requires w.log.Valid() && Calm(env)
    ensures SentFrom(w, reports, k, env.sky).1
       <==> k >= |reports| || !w.desk.Duplicate(Max(w.disk.nextSeq, env.sky(k).clock) + SEQ_JUMP)
    decreases |reports| - k
  {
    hide SentChunk, Written;
    if k < |reports| {
      var next := Min(k + MAX_BATCH_ITEMS, |reports|);
      var (desk, steps, o) := SentChunk(w.desk, w.disk.nextSeq, reports[k..next], env.sky(k));
      var x := w.(log := Written(w.log, env.sky(k).writes), desk := desk, trace := w.trace + steps);
      WrittenGrows(w.log, env.sky(k).writes);
      DoneIsLast(w.desk, w.disk.nextSeq, reports[k..next], env.sky(k));
      RetryIff(w.desk, w.disk.nextSeq, reports[k..next], env.sky(k));
      assert env.sky(k).saved;
      if o.Done? {
        SentFromCompletes(Persisted(x, o.number), reports, next, env);
      }
    }
  }

  lemma DoneIsLast(d: Desk, nextSeq: nat, chunk: seq<Report>, sky: Weather)
    ensures var (after, _, o) := SentChunk(d, nextSeq, chunk, sky); o.Done? ==> after.last == Some(o.number)
  {
  }

  /** In calm surroundings a run completes if and only if it has nothing to report or the server is less
      than a day ahead of both the stored number and the clock. The state file may be any, a lost or a restored
      one included. */
  lemma RunCompletesIff(decode: Decoder, w: World, env: Surroundings)
    requires w.log.Valid() && Calm(env)
    ensures Ran(decode, w, env).1
       <==> || Reports(Reading(decode, w.log.OnDisk(), w.disk.cursor).bans, env.now) == []
            || !w.desk.Duplicate(Max(w.disk.nextSeq, env.sky(0).clock) + SEQ_JUMP)
  {
    hide SentFrom, Written, Reading, Reports;
    SentFromCompletes(w, Reports(Reading(decode, w.log.OnDisk(), w.disk.cursor).bans, env.now), 0, env);
  }

  // ----- all runs -----

  /** No run finds its cursor in a file that is already gone. */
  ghost predicate NeverLate(decode: Decoder, w: World, moves: seq<Move>)
    requires w.log.Valid()
  {
    forall i :: 0 <= i < |moves| && moves[i].Client? ==>
      InReach(Reached(decode, w, moves[..i]).log, Reached(decode, w, moves[..i]).place)
  }

  /** Any sequence of runs and daemon writes keeps the protocol invariant. */
  lemma {:induction false} MovesKeep(decode: Decoder, w: World, moves: seq<Move>)
    requires Safe(decode, w) && NeverLate(decode, w, moves)
    ensures Safe(decode, Reached(decode, w, moves))
    decreases |moves|
  {
    hide Safe, Ran, InReach, Wrote;
    SafeLog(decode, w);
    if moves != [] {
      var n := |moves| - 1;
      var before := moves[..n];
      forall i | 0 <= i < n && before[i].Client?
        ensures InReach(Reached(decode, w, before[..i]).log, Reached(decode, w, before[..i]).place)
      {
        assert before[..i] == moves[..i] && moves[i].Client?;
      }
      MovesKeep(decode, w, before);
      var x := Reached(decode, w, before);
      match moves[n]
      case Daemon(write) => WriteKeeps(decode, x, write);
      case Client(env) => RunKeeps(decode, x, env);
    }
  }

  lemma SafeLog(decode: Decoder, w: World)
    requires Safe(decode, w)
    ensures w.log.Valid()
  {
  }

  lemma WriteKeeps(decode: Decoder, w: World, write: Write)
    requires Safe(decode, w)
    ensures Safe(decode, w.(log := Wrote(w.log, write)))
  {
    hide TraceSound, Before, AtLeastOnce, CursorAt, Grown, Wrote;
    WroteGrows(w.log, write);
    GrowthKeepsCursor(w.log, Wrote(w.log, write), w.disk.cursor, w.place);
  }

  lemma InstalledSafe(decode: Decoder, log: Log)
    requires log.Valid()
    ensures Safe(decode, Installed(log))
  {
    assert BansOf(decode, []) == [];
  }

  /** From a fresh installation, over any runs with crashes, lost requests and replies, and a daemon at work:
      the events before the persisted cursor are known, each of them that was reportable when it was read is
      in a batch that the server accepted, and every number in a request to the server exceeds every number
      acknowledged and persisted before. */
  lemma AtLeastOnceOverRuns(decode: Decoder, log: Log, moves: seq<Move>)
    requires log.Valid() && NeverLate(decode, Installed(log), moves)
    ensures var w := Reached(decode, Installed(log), moves);
            && CursorAt(w.log, w.disk.cursor, w.place)
            && Events(w.settled) == BansOf(decode, Before(w.log, w.place))
            && AtLeastOnce(w.settled, w.desk.received)
            && Requests(w.trace) == w.desk.requests && Ordered(w.trace)
  {
    hide CursorAt, AtLeastOnce, Ordered, Before, NeverLate;
    InstalledSafe(decode, log);
    MovesKeep(decode, Installed(log), moves);
  }

  // ----- the client -----

  class Agent {
    const decode: Decoder
    const server: Server
    /** The event log, written by the daemon. */
    var log: Log
    /** The state file. */
    var disk: State

    /** The events before the persisted cursor, and where the cursor is. */
    ghost var settled: seq<Settled>
    ghost var place: Option<Place>
    ghost var trace: seq<Step>

    ghost function View(): World
      reads this, server
    {
      World(log, disk, server.View(), trace, settled, place)
    }

    constructor (decode: Decoder, log: Log)
      requires log.Valid()
      ensures View() == Installed(log) && this.decode == decode && fresh(server)
    {
      this.decode, this.log := decode, log;
      disk := State(0, None);
      settled, place, trace := [], None, [];
      server := new Server();
    }

    method SendChunk(nextSeq: nat, chunk: seq<Report>, sky: Weather) returns (outcome: Outcome)
      modifies server, `trace
      ensures var (desk, steps, o) := SentChunk(old(server.View()), nextSeq, chunk, sky);
              server.View() == desk && trace == old(trace) + steps && outcome == o
    {
      var number := Max(nextSeq, sky.clock);
      trace := trace + [Sent(Batch(number, chunk))];
      var reply := server.Submit(Batch(number, chunk), sky.first);
      if reply.Failed? {
        return Lost(number, false);
      }
      if !reply.duplicate {
        return Done(number, false);
      }
      number := number + SEQ_JUMP;
      trace := trace + [Sent(Batch(number, chunk))];
      reply := server.Submit(Batch(number, chunk), sky.retry);
      if reply.Failed? {
        return Lost(number, true);
      }
      return if reply.duplicate then Rejected(number, true) else Done(number, true);
    }

    method SubmitAll(reports: seq<Report>, sky: nat -> Weather) returns (done: bool, outcomes: seq<Outcome>)
      modifies `log, `disk, `trace, server
      ensures (View(), done, outcomes) == SentFrom(old(View()), reports, 0, sky)
    {
      hide SentChunk, Written;
      done, outcomes := false, [];
      var k := 0;
      assert forall os: seq<Outcome> :: outcomes + os == os;
      while k < |reports|
        invariant 0 <= k <= |reports|
        invariant settled == old(settled) && place == old(place)
        invariant var (x, d, os) := SentFrom(View(), reports, k, sky);
                  SentFrom(old(View()), reports, 0, sky) == (x, d, outcomes + os)
      {
        var next := Min(k + MAX_BATCH_ITEMS, |reports|);
        ghost var w := View();
        log := Written(log, sky(k).writes);
        var outcome := SendChunk(disk.nextSeq, reports[k..next], sky(k));
        ghost var before := outcomes;
        outcomes := outcomes + [outcome];
        assert forall os: seq<Outcome> :: before + ([outcome] + os) == outcomes + os;
        if !outcome.Done? || !sky(k).saved {
          return;
        }
        disk := disk.(nextSeq := outcome.number + 1);
        trace := trace + [Acked(outcome.number)];
        k := next;
      }
      assert outcomes + [] == outcomes;
      done := true;
    }

    method Run(env: Surroundings) returns (done: bool, outcomes: seq<Outcome>)
      requires log.Valid()
      modifies this, server
      ensures (View(), done, outcomes) == Ran(decode, old(View()), env)
    {
      hide SentFrom, Written, Reading, Reports, After, Stamped;
      ghost var end := After(log);
      var fetched := ReadNew(decode, log.OnDisk(), disk.cursor);
      var reports := Normalize(fetched.bans, env.now);
      done, outcomes := SubmitAll(reports, env.sky);
      if !done {
        return;
      }
      log := Written(log, env.writes);
      if !env.saved {
        return false, outcomes;
      }
      disk := disk.(cursor := Some(fetched.cursor));
      settled := settled + Stamped(fetched.bans, env.now);
      place := end;
    }
  }

  /** The client and the daemon make their moves on a fresh installation. */
  method AnyRuns(decode: Decoder, log: Log, moves: seq<Move>) returns (agent: Agent)
    requires log.Valid()
    ensures agent.View() == Reached(decode, Installed(log), moves)
    ensures NeverLate(decode, Installed(log), moves) ==> Safe(decode, agent.View())
  {
    hide Safe, NeverLate, Ran, Wrote;
    agent := new Agent(decode, log);
    for i := 0 to |moves|
      invariant fresh(agent) && fresh(agent.server) && agent.decode == decode
      invariant agent.View() == Reached(decode, Installed(log), moves[..i])
    {
      assert moves[..i + 1][..i] == moves[..i];
      match moves[i] {
        case Daemon(write) =>
          agent.log := Wrote(agent.log, write);
        case Client(env) =>
          var _, _ := agent.Run(env);
      }
    }
    assert moves[..|moves|] == moves;
    InstalledSafe(decode, log);
    if NeverLate(decode, Installed(log), moves) {
      MovesKeep(decode, Installed(log), moves);
    }
  }
}
