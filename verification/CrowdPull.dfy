/** Pulling the crowd blocklist of one address family into its kernel sets: full listings, deltas and
    unchanged answers, with a kernel timeout on every element that only a full replace restarts. */
module CrowdPull {
  import opened Firewall
  import opened Nets
  import opened Wrappers

  /** How long an element lives in the kernel, and how old a full replace may get, in seconds. */
  const CROWD_TIMEOUT: nat := 24 * 60 * 60
  const FULL_REFRESH_SECS: nat := 12 * 60 * 60

  /** What the text of a feed line reads as: a bare address, an address with a prefix length, or neither. */
  datatype Form = Address(ip: Ip) | Block(ip: Ip, len: nat) | Garbage

  /** One line of a feed. Lines are told apart by their text. */
  datatype FeedLine = FeedLine(text: string, form: Form)

  /** The line is a way of writing the network. */
  predicate Names(line: FeedLine, net: Net) {
    && net.Valid()
    && match line.form
       case Address(ip) => net == Net(ip.family, ip.addr, Width(ip.family))
       case Block(ip, len) => net == Net(ip.family, ip.addr, len)
       case Garbage => false
  }

  /** Validation of a line for a family. */
  function ParseEntry(line: FeedLine, family: Family): (net: Option<Net>)
    ensures forall n :: net == Some(n) <==> Names(line, n) && n.family == family
  {
    if line.form.Garbage? then None
    else
      var ip := line.form.ip;
      var net := Net(ip.family, ip.addr, if line.form.Address? then Width(ip.family) else line.form.len);
      if net.Valid() && net.family == family then Some(net) else None
  }

  /** A parsed feed. Zero stands for a missing tag or snapshot number. */
  datatype Feed =
    | Full(family: Family, snapshot: nat, entries: seq<FeedLine>)
    | Delta(family: Family, from: nat, to: nat, added: seq<FeedLine>, removed: seq<FeedLine>)

  datatype Fetch = Broken | NotModified | Body(feed: Feed, etag: nat)

  datatype FeedCursor = FeedCursor(etag: nat, snapshot: nat, lastFull: nat)

  // ----- snapshots and elements -----

  type Snapshot = set<FeedLine>

  /** Every snapshot the server has published for the tier and family. */
  type Published = map<nat, Snapshot>

  /** The kernel elements of the valid lines. */
  ghost function ElementsOf(lines: Snapshot, family: Family): set<Element> {
    set l | l in lines && ParseEntry(l, family).Some? :: PlaceCrowd(ParseEntry(l, family).value)
  }

  ghost function Lines(s: seq<FeedLine>): Snapshot {
    set l | l in s
  }

  lemma ElementsUnion(a: Snapshot, b: Snapshot, family: Family)
    ensures ElementsOf(a + b, family) == ElementsOf(a, family) + ElementsOf(b, family)
  {
    hide PlaceCrowd, ParseEntry;
  }

  /** Elements in agreement with a snapshot find exactly the sources that lie in one of its networks. */
  lemma ElementsMeanSnapshot(lines: Snapshot, family: Family, v6: nat, ip: Ip)
    requires ip.Valid()
    ensures (exists e :: e in ElementsOf(lines, family) && FoundIn(e, RuleFor(e.name, v6), ip))
       <==> exists l :: l in lines && ParseEntry(l, family).Some? && ParseEntry(l, family).value.Contains(ip)
  {
    hide PlaceCrowd, ParseEntry, FoundIn, RuleFor;
    forall l | l in lines && ParseEntry(l, family).Some?
      ensures var e := PlaceCrowd(ParseEntry(l, family).value);
              e in ElementsOf(lines, family)
              && (FoundIn(e, RuleFor(e.name, v6), ip) <==> ParseEntry(l, family).value.Contains(ip))
    {
      CrowdLookup(ParseEntry(l, family).value, v6, ip);
    }
  }

  /** The networks of the valid lines, one for each. */
  ghost function Parsed(lines: seq<FeedLine>, family: Family): seq<Net> {
    if lines == [] then []
    else
      var net := ParseEntry(lines[|lines| - 1], family);
      Parsed(lines[..|lines| - 1], family) + if net.Some? then [net.value] else []
  }

  // ----- kernel transactions -----

  /** The elements of the crowd sets with their expiry times. */
  type Sets = map<Element, nat>

  /** What the kernel makes of one pull: elements whose removal fails unnoticed, a refusal of the additions or
      of the replacement, and damage that the check afterwards notices. */
  datatype Weather = Weather(stuck: set<Element>, addsRefused: bool, damage: Option<Sets>,
                             replaceRefused: bool, replaceDamage: Option<Sets>)

  /** The additions of a delta are refused. */
  const REFUSED: Weather := Weather({}, true, None, false, None)

  /** Removals one at a time, their errors ignored. */
  function Without(sets: Sets, gone: set<Element>, stuck: set<Element>): Sets {
    map e | e in sets && (e !in gone || e in stuck) :: sets[e]
  }

  /** Additions in one transaction; an element that is there already keeps its timeout. */
  function With(sets: Sets, more: set<Element>, at: nat): Sets {
    map e | e in sets.Keys + more :: if e in sets then sets[e] else at + CROWD_TIMEOUT
  }

  /** A flushed and refilled set: every element starts its timeout anew. */
  function Filled(elements: set<Element>, at: nat): Sets {
    map e | e in elements :: at + CROWD_TIMEOUT
  }

  /** A delta: removals, then additions, then a look for damage. */
  function AfterDelta(sets: Sets, added: set<Element>, removed: set<Element>, sky: Weather, at: nat): (Sets, bool) {
    var less := Without(sets, removed, sky.stuck);
    if added != {} && sky.addsRefused then (less, false)
    else if sky.damage.Some? then (sky.damage.value, false)
    else (With(less, added, at), true)
  }

  /** A full replace in one transaction, then a look for damage. */
  function AfterReplace(sets: Sets, elements: set<Element>, sky: Weather, at: nat): (Sets, bool) {
    if sky.replaceRefused then (sets, false)
    else if sky.replaceDamage.Some? then (sky.replaceDamage.value, false)
    else (Filled(elements, at), true)
  }

  /** An accepted delta, element by element: what was there and was not removed keeps its expiry, what is new gets a
      day. An accepted replacement: exactly the listing, with a day each. */
  lemma TransactionsExact(sets: Sets, added: set<Element>, removed: set<Element>, sky: Weather, at: nat)
    ensures var (x, ok) := AfterDelta(sets, added, removed, sky, at);
            ok ==> forall e ::
              && (e in x <==> e in added || (e in sets && (e !in removed || e in sky.stuck)))
              && (e in x ==> x[e] == if e in sets && (e !in removed || e in sky.stuck) then sets[e] else at + 24 * 3600)
    ensures var (x, ok) := AfterReplace(sets, added, sky, at);
            ok ==> x.Keys == added && forall e :: e in x ==> x[e] == at + 24 * 3600
  {
  }

  // ----- when a delta is right -----

  /** The delta from `a` to `b` does what it should if no removal takes along an element that stays, and no
      removal sticks unless its element is wanted again. */
  ghost predicate DeltaFits(a: Snapshot, b: Snapshot, family: Family, stuck: set<Element>) {
    var gone := ElementsOf(a - b, family);
    && (gone * ElementsOf(a * b, family)) - stuck <= ElementsOf(b - a, family)
    && gone * stuck <= ElementsOf(b, family)
  }

  /** Applied to the elements of `a`, the delta from `a` to `b` gives the elements of `b` if and only if it
      fits. */
  lemma DeltaExactIff(sets: Sets, a: Snapshot, b: Snapshot, family: Family, stuck: set<Element>, at: nat)
    requires sets.Keys == ElementsOf(a, family)
    ensures With(Without(sets, ElementsOf(a - b, family), stuck), ElementsOf(b - a, family), at).Keys
            == ElementsOf(b, family)
       <==> DeltaFits(a, b, family, stuck)
  {
    hide ElementsOf;
    var kept, gone, more := ElementsOf(a * b, family), ElementsOf(a - b, family), ElementsOf(b - a, family);
    ElementsUnion(a * b, a - b, family);
    ElementsUnion(a * b, b - a, family);
    assert a * b + (a - b) == a && a * b + (b - a) == b;
    var got := With(Without(sets, gone, stuck), more, at).Keys;
    assert got == ((kept + gone) - (gone - stuck)) + more;
    if got == kept + more {
      forall e | e in gone * kept && e !in stuck
        ensures e in more
      {
        assert e in got;
      }
      forall e | e in gone * stuck
        ensures e in kept + more
      {
        assert e in got;
      }
    }
  }

  /** 203.0.113.7, written in two ways. */
  const EXAMPLE: Net := Net(V4, 0xCB00_7107, 32)
  const BARE: FeedLine := FeedLine("203.0.113.7", Address(Ip(V4, 0xCB00_7107)))
  const BLOCK: FeedLine := FeedLine("203.0.113.7/32", Block(Ip(V4, 0xCB00_7107), 32))

  /** Another address. */
  const OTHER: FeedLine := FeedLine("203.0.113.8", Address(Ip(V4, 0xCB00_7108)))

  /** Two spellings of one network are two lines and one element: when one of them is withdrawn, the delta
      takes the element away although the other line is still listed. */
  lemma SpellingsBreakDelta(sets: Sets, at: nat)
    requires sets.Keys == ElementsOf({BARE, BLOCK}, V4)
    ensures ParseEntry(BARE, V4) == ParseEntry(BLOCK, V4) == Some(EXAMPLE)
    ensures sets.Keys == ElementsOf({BARE}, V4) == {Element(Crowd4, Single(0xCB00_7107))}
    ensures var a, b := {BARE, BLOCK}, {BARE};
            && !DeltaFits(a, b, V4, {})
            && With(Without(sets, ElementsOf(a - b, V4), {}), ElementsOf(b - a, V4), at) == map[]
  {
    hide ElementsOf, PlaceCrowd, DeltaFits;
    Pow32();
    OneElement(BARE, V4, EXAMPLE);
    OneElement(BLOCK, V4, EXAMPLE);
    HostElement(EXAMPLE);
    ElementsUnion({BARE}, {BLOCK}, V4);
    assert {BARE} + {BLOCK} == {BARE, BLOCK};
    assert BARE.form != BLOCK.form;
    var a, b := {BARE, BLOCK}, {BARE};
    assert a - b == {BLOCK} && b - a == {};
    NoElements(V4);
    DeltaExactIff(sets, a, b, V4, {}, at);
  }

  lemma HostElement(net: Net)
    requires net.Valid() && net.family == V4 && net.len == 32
    ensures PlaceCrowd(net) == Element(Crowd4, Single(net.addr))
  {
  }

  lemma NoElements(family: Family)
    ensures ElementsOf({}, family) == {}
  {
  }

  lemma OneElement(line: FeedLine, family: Family, net: Net)
    requires Names(line, net) && net.family == family
    ensures ParseEntry(line, family) == Some(net) && ElementsOf({line}, family) == {PlaceCrowd(net)}
  {
    hide PlaceCrowd;
  }

  /** One spelling for each network, and canonical networks only, make every delta fit. */
  lemma OneSpellingFits(a: Snapshot, b: Snapshot, family: Family)
    requires forall l :: l in a + b && ParseEntry(l, family).Some? ==> ParseEntry(l, family).value.Canonical()
    requires forall l, m :: l in a + b && m in a + b && ParseEntry(l, family).Some? ==>
               ParseEntry(l, family) == ParseEntry(m, family) ==> l == m
    ensures DeltaFits(a, b, family, {})
  {
    hide PlaceCrowd, ParseEntry;
    if e :| e in ElementsOf(a - b, family) * ElementsOf(a * b, family) {
      var l :| l in a - b && ParseEntry(l, family).Some? && PlaceCrowd(ParseEntry(l, family).value) == e;
      var m :| m in a * b && ParseEntry(m, family).Some? && PlaceCrowd(ParseEntry(m, family).value) == e;
      PlaceInjective(Crowd, ParseEntry(l, family).value, ParseEntry(m, family).value, 64);
      assert false;
    }
  }

  /** A delta that was cut short after its removals leaves a hole: the next delta from the old snapshot gives
      the right elements if and only if everything removed that is wanted again is among its additions. */
  lemma InterruptedDelta(sets: Sets, held: Snapshot, missed: Snapshot, next: Snapshot, family: Family, t: nat, at: nat)
    requires sets.Keys == ElementsOf(held, family)
    ensures var hole := AfterDelta(sets, ElementsOf(missed - held, family), ElementsOf(held - missed, family),
                                   REFUSED, t).0;
            var removed := ElementsOf(held - next, family);
            ElementsOf(missed - held, family) != {} ==>
              (With(Without(hole, removed, {}), ElementsOf(next - held, family), at).Keys == ElementsOf(next, family)
               <==> (ElementsOf(held - missed, family) + removed) * ElementsOf(held * next, family)
                    <= ElementsOf(next - held, family))
  {
    hide ElementsOf;
    var kept, gone, more := ElementsOf(held * next, family), ElementsOf(held - next, family), ElementsOf(next - held, family);
    var lost := ElementsOf(held - missed, family);
    ElementsUnion(held * next, held - next, family);
    ElementsUnion(held * next, next - held, family);
    assert held * next + (held - next) == held && held * next + (next - held) == next;
    if ElementsOf(missed - held, family) != {} {
      var hole := AfterDelta(sets, ElementsOf(missed - held, family), lost, REFUSED, t).0;
      var got := With(Without(hole, gone, {}), more, at).Keys;
      assert got == (((kept + gone) - lost) - gone) + more;
      if got == kept + more {
        forall e | e in (lost + gone) * kept
          ensures e in more
        {
          assert e in got;
        }
      }
    }
  }

  /** An input: the update from {203.0.113.7} to {203.0.113.8} is cut short, and the first address comes back
      before the client has reached the server again. The next delta is empty, and so is the set. */
  lemma InterruptedDeltaLoses(sets: Sets, t: nat, at: nat)
    requires sets.Keys == ElementsOf({BARE}, V4)
    ensures var a, b := {BARE}, {OTHER};
            var hole := AfterDelta(sets, ElementsOf(b - a, V4), ElementsOf(a - b, V4), REFUSED, t).0;
            && With(Without(hole, ElementsOf(a - a, V4), {}), ElementsOf(a - a, V4), at) == map[]
            && ElementsOf(a, V4) == {Element(Crowd4, Single(0xCB00_7107))}
  {
    hide ElementsOf, PlaceCrowd;
    Pow32();
    OneElement(BARE, V4, EXAMPLE);
    OneElement(OTHER, V4, Net(V4, 0xCB00_7108, 32));
    HostElement(EXAMPLE);
    assert BARE.form != OTHER.form;
    assert {BARE} - {OTHER} == {BARE} && {OTHER} - {BARE} == {OTHER} && {BARE} - {BARE} == {};
    NoElements(V4);
  }

  // ----- one pull -----

  /** The persisted cursor and the kernel's sets. */
  datatype Client = Client(cursor: FeedCursor, sets: Sets)

  /** What a pull did. */
  datatype Action = Failed | Unchanged | Replaced | Patched

  /** A server, as a function of the tag and the snapshot number in the request. */
  type Server = (nat, nat) -> Fetch

  /** What one pull meets: the snapshots published so far, the current one, the server, the times at which the
      pull begins, writes the sets and records a full fetch, and the kernel's behaviour. */
  datatype Round = Round(news: Published, current: nat, server: Server, b: nat, a: nat, l: nat, sky: Weather)

  /** Fetches the whole listing, without a tag, and replaces the sets with it. */
  ghost function Fetched(c: Client, family: Family, r: Round): (Client, Action) {
    var reply := r.server(0, 0);
    if !reply.Body? || reply.feed.family != family then (c, Failed)
    else
      var entries := if reply.feed.Full? then reply.feed.entries else [];
      var (sets, ok) := AfterReplace(c.sets, ElementsOf(Lines(entries), family), r.sky, r.a);
      if ok then (Client(FeedCursor(reply.etag, if reply.feed.Full? then reply.feed.snapshot else 0, r.l), sets), Replaced)
      else (c.(sets := sets), Failed)
  }

  /** One pull: unconditional when the last full replace has become too old, else by the cursor. */
  ghost function Pulled(c: Client, family: Family, r: Round): (Client, Action) {
    if SatSub(r.b, c.cursor.lastFull) >= FULL_REFRESH_SECS then Fetched(c, family, r)
    else
      match r.server(c.cursor.etag, c.cursor.snapshot)
      case Broken => (c, Failed)
      case NotModified => (c, Unchanged)
      case Body(feed, etag) =>
        if feed.family != family then (c, Failed)
        else if feed.Delta? then
          var (sets, ok) := AfterDelta(c.sets, ElementsOf(Lines(feed.added), family), ElementsOf(Lines(feed.removed), family),
                                       r.sky, r.a);
          if ok then (Client(FeedCursor(etag, feed.to, c.cursor.lastFull), sets), Patched)
          else Fetched(c.(sets := sets), family, r)
        else
          var (sets, ok) := AfterReplace(c.sets, ElementsOf(Lines(feed.entries), family), r.sky, r.a);
          if ok then (Client(FeedCursor(etag, feed.snapshot, r.b), sets), Replaced)
          else (c.(sets := sets), Failed)
  }

  // ----- honest servers -----

  /** The server answers with its current snapshot: that it is unchanged since the given tag, the whole of
      it, or the exact difference from the given snapshot. */
  ghost predicate Honest(published: Published, current: nat, etag: nat, since: nat, reply: Fetch) {
    && current > 0 && current in published
    && match reply
       case Broken => true
       case NotModified => etag == current
       case Body(Full(_, snapshot, entries), tag) =>
         snapshot == current && (tag == 0 || tag == current) && Lines(entries) == published[current]
       case Body(Delta(_, from, to, added, removed), tag) =>
         && since > 0 && from == since && since in published && to == current && (tag == 0 || tag == current)
         && Lines(added) == published[current] - published[since]
         && Lines(removed) == published[since] - published[current]
  }

  /** A round with an honest server, in which a pull lasts at most `lag`. */
  ghost predicate Meets(r: Round, lag: nat) {
    && (forall etag, since :: Honest(r.news, r.current, etag, since, r.server(etag, since)))
    && r.b <= r.a <= r.l <= r.b + lag
  }

  /** Even damage gives no element more than a day. */
  ghost predicate Bounded(r: Round) {
    && (r.sky.damage.Some? ==> NoneBeyond(r.sky.damage.value, r.a + CROWD_TIMEOUT))
    && (r.sky.replaceDamage.Some? ==> NoneBeyond(r.sky.replaceDamage.value, r.a + CROWD_TIMEOUT))
  }

  ghost predicate NoneBeyond(sets: Sets, t: nat) {
    forall e :: e in sets ==> sets[e] <= t
  }

  /** A reply that the client can use. */
  predicate Usable(reply: Fetch, family: Family) {
    !reply.Broken? && (reply.Body? ==> reply.feed.family == family)
  }

  /** The pull does not ask for the whole listing at once. */
  predicate Conditional(c: Client, r: Round) {
    SatSub(r.b, c.cursor.lastFull) < FULL_REFRESH_SECS
  }

  /** The answer to a conditional request is a delta of the family. */
  predicate GetsDelta(c: Client, family: Family, r: Round) {
    var reply := r.server(c.cursor.etag, c.cursor.snapshot);
    Conditional(c, r) && reply.Body? && reply.feed.family == family && reply.feed.Delta?
  }

  lemma MeetsAt(r: Round, lag: nat, etag: nat, since: nat)
    requires Meets(r, lag)
    ensures Honest(r.news, r.current, etag, since, r.server(etag, since))
    ensures r.b <= r.a <= r.l <= r.b + lag
  {
  }

  /** A pull succeeds when the requests that it makes get usable replies and the kernel accepts a replacement;
      it replaces everything if the last full replace has become too old. */
  lemma AnsweredPullSucceeds(c: Client, family: Family, r: Round, lag: nat)
    requires Meets(r, lag) && !r.sky.replaceRefused && r.sky.replaceDamage == None
    requires Conditional(c, r) ==> Usable(r.server(c.cursor.etag, c.cursor.snapshot), family)
    requires !Conditional(c, r) || (GetsDelta(c, family, r) && (r.sky.addsRefused || r.sky.damage.Some?)) ==>
               Usable(r.server(0, 0), family)
    ensures Pulled(c, family, r).1 != Failed
    ensures !Conditional(c, r) ==> Pulled(c, family, r).1 == Replaced
  {
    hide ElementsOf, Meets;
    MeetsAt(r, lag, 0, 0);
    MeetsAt(r, lag, c.cursor.etag, c.cursor.snapshot);
  }

  /** A pull that fails leaves the client as it was, unless it had begun a delta or a replacement was damaged. */
  lemma FailedPullLeaves(c: Client, family: Family, r: Round)
    requires Pulled(c, family, r).1 == Failed && !GetsDelta(c, family, r) && r.sky.replaceDamage == None
    ensures Pulled(c, family, r).0 == c
  {
    hide ElementsOf;
  }

  /** What a pull records: a full listing with its tag and number and a time within the pull; a delta with its tag and
      number and the old time; otherwise nothing. */
  lemma CursorRecords(c: Client, family: Family, r: Round, lag: nat)
    requires Meets(r, lag)
    ensures var (x, action) := Pulled(c, family, r);
            && (action in {Failed, Unchanged} ==> x.cursor == c.cursor)
            && (action == Replaced ==>
                  && r.b <= x.cursor.lastFull <= r.l
                  && exists etag: nat, since: nat ::
                       var reply := r.server(etag, since);
                       && ((etag, since) == (0, 0) || (Conditional(c, r) && (etag, since) == (c.cursor.etag, c.cursor.snapshot)))
                       && reply.Body? && reply.feed.Full?
                       && x.cursor.etag == reply.etag && x.cursor.snapshot == reply.feed.snapshot)
            && (action == Patched ==>
                  var reply := r.server(c.cursor.etag, c.cursor.snapshot);
                  && GetsDelta(c, family, r) && x.cursor == FeedCursor(reply.etag, reply.feed.to, c.cursor.lastFull))
  {
    hide ElementsOf, Meets;
    MeetsAt(r, lag, 0, 0);
    MeetsAt(r, lag, c.cursor.etag, c.cursor.snapshot);
  }

  /** For twelve hours after a full replace, and not longer, a pull asks by tag and number: when the answer is that
      nothing has changed, the client is left alone. */
  lemma UnchangedWithinRefresh(c: Client, family: Family, r: Round)
    ensures Conditional(c, r) <==> r.b < c.cursor.lastFull + 43_200
    ensures Conditional(c, r) && r.server(c.cursor.etag, c.cursor.snapshot) == NotModified ==>
              Pulled(c, family, r) == (c, Unchanged)
    ensures !Conditional(c, r) ==> Pulled(c, family, r) == Fetched(c, family, r)
  {
  }

  /** A reply that is broken or for another family fails a pull and changes nothing, and so does the answer that nothing
      has changed to a request for the whole listing. */
  lemma BadReplyFails(c: Client, family: Family, r: Round)
    ensures Conditional(c, r) && (var reply := r.server(c.cursor.etag, c.cursor.snapshot);
                                  reply.Broken? || (reply.Body? && reply.feed.family != family)) ==>
              Pulled(c, family, r) == (c, Failed)
    ensures !Conditional(c, r) && (var reply := r.server(0, 0);
                                   !reply.Body? || reply.feed.family != family) ==>
              Pulled(c, family, r) == (c, Failed)
  {
  }

  // ----- in step with the server -----

  /** After the pull of round `r`: the sets are the server's current snapshot, and with pulls at most `period`
      apart no element reaches its timeout before the next pull can have written. */
  ghost predicate InStep(c: Client, family: Family, r: Round, period: nat, lag: nat) {
    && r.current in r.news && c.cursor.snapshot == r.current && (c.cursor.etag == 0 || c.cursor.etag == r.current)
    && c.sets.Keys == ElementsOf(r.news[r.current], family)
    && c.cursor.lastFull <= r.l
    && forall e :: e in c.sets ==> c.sets[e] + lag >= c.cursor.lastFull + CROWD_TIMEOUT && c.sets[e] > r.b + period + lag
  }

  /** Published snapshots do not change. */
  ghost predicate Grows(a: Published, b: Published) {
    forall n :: n in a ==> n in b && b[n] == a[n]
  }

  ghost predicate Follows(p: Round, r: Round) {
    p.l <= r.b && Grows(p.news, r.news)
  }

  /** From any set contents and any cursor, a full replace brings the client into step. */
  lemma ReplaceRestores(c: Client, family: Family, r: Round, period: nat, lag: nat)
    requires Meets(r, lag) && period + 2 * lag <= FULL_REFRESH_SECS && Pulled(c, family, r).1 == Replaced
    ensures InStep(Pulled(c, family, r).0, family, r, period, lag)
  {
    hide ElementsOf, Meets;
    MeetsAt(r, lag, 0, 0);
    MeetsAt(r, lag, c.cursor.etag, c.cursor.snapshot);
  }

  /** An unchanged answer keeps a client in step that pulls in time. */
  lemma UnchangedKeeps(c: Client, family: Family, p: Round, r: Round, period: nat, lag: nat)
    requires Meets(r, lag) && period + 2 * lag <= FULL_REFRESH_SECS && Follows(p, r) && r.b <= p.b + period
    requires InStep(c, family, p, period, lag) && Pulled(c, family, r).1 == Unchanged
    ensures InStep(Pulled(c, family, r).0, family, r, period, lag)
  {
    hide ElementsOf, Meets;
    MeetsAt(r, lag, c.cursor.etag, c.cursor.snapshot);
  }

  /** A delta keeps a client in step if and only if it fits. */
  lemma DeltaKeepsIff(c: Client, family: Family, p: Round, r: Round, period: nat, lag: nat)
    requires Meets(r, lag) && period + 2 * lag <= FULL_REFRESH_SECS && Follows(p, r) && r.b <= p.b + period
    requires InStep(c, family, p, period, lag) && Pulled(c, family, r).1 == Patched
    ensures p.current in r.news && r.current in r.news
    ensures InStep(Pulled(c, family, r).0, family, r, period, lag)
       <==> DeltaFits(r.news[p.current], r.news[r.current], family, r.sky.stuck)
  {
    hide ElementsOf, Meets, DeltaFits;
    MeetsAt(r, lag, c.cursor.etag, c.cursor.snapshot);
    DeltaExactIff(c.sets, r.news[p.current], r.news[r.current], family, r.sky.stuck, r.a);
  }

  // ----- all pulls -----

  ghost function Pulls(c: Client, family: Family, rounds: seq<Round>): (r: (Client, seq<Action>))
    ensures |r.1| == |rounds|
  {
    if rounds == [] then (c, [])
    else
      var (x, actions) := Pulls(c, family, rounds[..|rounds| - 1]);
      var (y, action) := Pulled(x, family, rounds[|rounds| - 1]);
      (y, actions + [action])
  }

  ghost predicate WellOrdered(rounds: seq<Round>, lag: nat) {
    && (forall i :: 0 <= i < |rounds| ==> Meets(rounds[i], lag))
    && (forall i :: 0 < i < |rounds| ==> Follows(rounds[i - 1], rounds[i]))
  }

  /** The last pull that succeeded, or a negative number. */
  ghost function LastGood(actions: seq<Action>): (g: int)
    ensures -1 <= g < |actions|
    ensures g >= 0 ==> actions[g] != Failed
  {
    if actions == [] then -1
    else if actions[|actions| - 1] != Failed then |actions| - 1
    else LastGood(actions[..|actions| - 1])
  }

  /** Pull `i` does no harm: if it fails, it leaves the client as it was; if it changes less than everything,
      it begins in time after the last one that succeeded; and a delta fits. */
  ghost predicate Uneventful(c: Client, family: Family, rounds: seq<Round>, period: nat, i: nat)
    requires i < |rounds|
  {
    var (x, actions) := Pulls(c, family, rounds[..i]);
    var r, g := rounds[i], LastGood(actions);
    var (y, action) := Pulled(x, family, r);
    match action
    case Failed => y == x
    case Replaced => true
    case Unchanged => g >= 0 && r.b <= rounds[g].b + period
    case Patched =>
      && g >= 0 && r.b <= rounds[g].b + period
      && (rounds[g].current in r.news && r.current in r.news ==>
            DeltaFits(r.news[rounds[g].current], r.news[r.current], family, r.sky.stuck))
  }

  lemma {:induction false} FollowsLater(rounds: seq<Round>, lag: nat, p: nat, i: nat)
    requires WellOrdered(rounds, lag) && p < i < |rounds|
    ensures Follows(rounds[p], rounds[i])
  {
    assert Follows(rounds[i - 1], rounds[i]);
    if p < i - 1 {
      FollowsLater(rounds, lag, p, i - 1);
      assert Meets(rounds[i - 1], lag);
    }
  }

  /** Any run of pulls, whatever happened up to a full replace at pull `j`: from then on, as long as the pulls do
      no harm, the sets are the snapshot that was current at the last pull that succeeded, and none of its
      elements reaches its timeout within the time in which the next one has to write. */
  lemma {:induction false} PullsStayInStep(c: Client, family: Family, rounds: seq<Round>, j: nat, period: nat, lag: nat)
    requires WellOrdered(rounds, lag) && period + 2 * lag <= FULL_REFRESH_SECS && j < |rounds|
    requires Pulls(c, family, rounds).1[j] == Replaced
    requires forall i :: j < i < |rounds| ==> Uneventful(c, family, rounds, period, i)
    ensures var (x, actions) := Pulls(c, family, rounds);
            && j <= LastGood(actions) < |rounds|
            && InStep(x, family, rounds[LastGood(actions)], period, lag)
    decreases |rounds|
  {
    hide InStep, Pulled, Meets, Follows, DeltaFits;
    var n := |rounds| - 1;
    var before, r := rounds[..n], rounds[n];
    var (x, actions) := Pulls(c, family, before);
    assert Meets(r, lag);
    assert Pulls(c, family, rounds).1[..n] == actions;
    if j == n {
      ReplaceRestores(x, family, r, period, lag);
    } else {
      WellOrderedBefore(rounds, lag, n);
      forall i | j < i < n
        ensures Uneventful(c, family, before, period, i)
      {
        assert before[..i] == rounds[..i];
        UneventfulBefore(c, family, rounds, period, n, i);
      }
      PullsStayInStep(c, family, before, j, period, lag);
      var g := LastGood(actions);
      assert Uneventful(c, family, rounds, period, n);
      FollowsLater(rounds, lag, g, n);
      match Pulled(x, family, r).1
      case Failed =>
      case Replaced => ReplaceRestores(x, family, r, period, lag);
      case Unchanged => UnchangedKeeps(x, family, rounds[g], r, period, lag);
      case Patched => DeltaKeepsIff(x, family, rounds[g], r, period, lag);
    }
  }

  lemma WellOrderedBefore(rounds: seq<Round>, lag: nat, n: nat)
    requires WellOrdered(rounds, lag) && n <= |rounds|
    ensures WellOrdered(rounds[..n], lag)
  {
    hide Meets, Follows;
    forall i | 0 < i < n
      ensures Follows(rounds[..n][i - 1], rounds[..n][i])
    {
      assert Follows(rounds[i - 1], rounds[i]);
    }
  }

  lemma UneventfulBefore(c: Client, family: Family, rounds: seq<Round>, period: nat, n: nat, i: nat)
    requires i < n <= |rounds| && Uneventful(c, family, rounds, period, i)
    ensures Uneventful(c, family, rounds[..n], period, i)
  {
    hide Pulled, Pulls, DeltaFits;
    assert rounds[..n][..i] == rounds[..i];
  }

  lemma {:induction false} FirstAction(c: Client, family: Family, rounds: seq<Round>)
    requires rounds != []
    ensures Pulls(c, family, rounds).1[0] == Pulled(c, family, rounds[0]).1
    decreases |rounds|
  {
    hide Pulled;
    var before := rounds[..|rounds| - 1];
    if before != [] {
      FirstAction(c, family, before);
    } else {
      assert Pulls(c, family, before) == (c, []);
    }
  }

  /** A first pull, whose cursor has never seen a full replace, is unconditional. When it is answered and its
      replacement accepted, it starts a run of pulls in step, whatever the sets held before. */
  lemma PullsFromFirst(c: Client, family: Family, rounds: seq<Round>, period: nat, lag: nat)
    requires WellOrdered(rounds, lag) && period + 2 * lag <= FULL_REFRESH_SECS && rounds != []
    requires !Conditional(c, rounds[0]) && Usable(rounds[0].server(0, 0), family)
    requires !rounds[0].sky.replaceRefused && rounds[0].sky.replaceDamage == None
    requires forall i :: 0 < i < |rounds| ==> Uneventful(c, family, rounds, period, i)
    ensures var (x, actions) := Pulls(c, family, rounds);
            0 <= LastGood(actions) < |rounds| && InStep(x, family, rounds[LastGood(actions)], period, lag)
  {
    hide InStep, Pulled, Meets, Follows, Uneventful;
    assert Meets(rounds[0], lag);
    AnsweredPullSucceeds(c, family, rounds[0], lag);
    FirstAction(c, family, rounds);
    PullsStayInStep(c, family, rounds, 0, period, lag);
  }

  /** The server puts the current tag on every body, and says so when a request carries it. */
  ghost predicate Tags(r: Round) {
    forall etag, since ::
      var reply := r.server(etag, since);
      (reply.Body? ==> reply.etag == r.current) && (etag == r.current ==> reply == NotModified)
  }

  lemma TagsAt(r: Round, etag: nat, since: nat)
    requires Tags(r)
    ensures var reply := r.server(etag, since);
            (reply.Body? ==> reply.etag == r.current) && (etag == r.current ==> reply == NotModified)
  {
  }

  /** While a feed stands still, the pulls within twelve hours of a full replace fetch nothing and touch nothing. */
  lemma {:induction false} StandingFeedIsLeftAlone(c: Client, family: Family, rounds: seq<Round>, j: nat, lag: nat, i: nat)
    requires WellOrdered(rounds, lag) && j <= i < |rounds| && Pulls(c, family, rounds[..j + 1]).1[j] == Replaced
    requires forall k :: j <= k <= i ==> Tags(rounds[k]) && rounds[k].current == rounds[j].current
    requires forall k :: j < k <= i ==> rounds[k].b < rounds[j].b + 12 * 3600
    ensures var (x, actions) := Pulls(c, family, rounds[..i + 1]);
            && x == Pulls(c, family, rounds[..j + 1]).0 && (i > j ==> actions[i] == Unchanged)
            && x.cursor.etag == rounds[j].current && rounds[j].b <= x.cursor.lastFull
  {
    hide Pulled, Follows, Meets, Tags;
    var r := rounds[i];
    assert rounds[..i + 1][..i] == rounds[..i] && rounds[..i + 1][i] == r;
    var x := Pulls(c, family, rounds[..i]).0;
    assert Meets(r, lag) && Tags(r);
    CursorRecords(x, family, r, lag);
    TagsAt(r, 0, 0);
    TagsAt(r, x.cursor.etag, x.cursor.snapshot);
    if i > j {
      StandingFeedIsLeftAlone(c, family, rounds, j, lag, i - 1);
      assert rounds[i].b < rounds[j].b + 12 * 3600;
      UnchangedWithinRefresh(x, family, r);
    }
  }

  /** Whatever happens in a pull, it gives no element more than a day from its writing. */
  lemma PullBound(c: Client, family: Family, r: Round, t: nat)
    requires Bounded(r) && NoneBeyond(c.sets, t) && t <= r.a + CROWD_TIMEOUT
    ensures NoneBeyond(Pulled(c, family, r).0.sets, r.a + CROWD_TIMEOUT)
  {
    hide ElementsOf;
  }

  /** If pulls stop, every crowd set is empty a day after the last of them wrote, whatever the pulls did and
      whatever the server said. */
  lemma {:induction false} DrainsWhenPullsStop(c: Client, family: Family, rounds: seq<Round>, t: nat)
    requires rounds != [] && NoneBeyond(c.sets, t) && t <= rounds[0].a + CROWD_TIMEOUT
    requires forall i :: 0 <= i < |rounds| ==> Bounded(rounds[i])
    requires forall i :: 0 < i < |rounds| ==> rounds[i - 1].a <= rounds[i].a
    ensures NoneBeyond(Pulls(c, family, rounds).0.sets, rounds[|rounds| - 1].a + 24 * 3600)
    decreases |rounds|
  {
    hide Pulled, NoneBeyond, Bounded;
    var n := |rounds| - 1;
    var before, r := rounds[..n], rounds[n];
    assert Bounded(r);
    if n == 0 {
      assert Pulls(c, family, before) == (c, []);
      PullBound(c, family, r, t);
    } else {
      DrainsWhenPullsStop(c, family, before, t);
      assert rounds[n - 1].a <= r.a;
      PullBound(Pulls(c, family, before).0, family, r, rounds[n - 1].a + CROWD_TIMEOUT);
    }
  }

  // ----- the client -----

  class Sync {
    const family: Family
    var cursor: FeedCursor
    var sets: Sets

    ghost function State(): Client
      reads this
    {
      Client(cursor, sets)
    }

    constructor (fam: Family)
      ensures family == fam && State() == Client(FeedCursor(0, 0, 0), map[])
    {
      family, cursor, sets := fam, FeedCursor(0, 0, 0), map[];
    }

    /** The valid networks of some lines, and the number of the others. */
    method Parse(lines: seq<FeedLine>) returns (nets: seq<Net>, invalid: nat)
      ensures nets == Parsed(lines, family) && |nets| + invalid == |lines|
      ensures AllValid(nets) && Placements(nets) == ElementsOf(Lines(lines), family)
    {
      hide PlaceCrowd, ParseEntry;
      nets, invalid := [], 0;
      NothingParsed(family);
      for i := 0 to |lines|
        invariant AllValid(nets)
        invariant nets == Parsed(lines[..i], family) && |nets| + invalid == i
        invariant Placements(nets) == ElementsOf(Lines(lines[..i]), family)
      {
        LinesSnoc(lines, i);
        assert lines[..i + 1][..i] == lines[..i];
        var net := ParseEntry(lines[i], family);
        ElementsSnoc(Lines(lines[..i]), lines[i], family);
        if net.Some? {
          ParsedValid(lines[i], family);
          PlacementsSnoc(nets, net.value);
          nets := nets + [net.value];
        } else {
          invalid := invalid + 1;
        }
      }
      assert lines[..|lines|] == lines;
    }

    /** Flush and refill in one transaction, then the check. */
    method Replace(nets: seq<Net>, sky: Weather, at: nat) returns (ok: bool)
      requires AllValid(nets)
      modifies `sets
      ensures (sets, ok) == AfterReplace(old(sets), Placements(nets), sky, at)
    {
      hide PlaceCrowd;
      if sky.replaceRefused {
        return false;
      }
      NoPlacements();
      var filled: Sets := map[];
      for i := 0 to |nets|
        invariant filled == Filled(Placements(nets[..i]), at)
      {
        assert nets[..i + 1] == nets[..i] + [nets[i]];
        PlacementsSnoc(nets[..i], nets[i]);
        filled := filled[PlaceCrowd(nets[i]) := at + CROWD_TIMEOUT];
      }
      assert nets[..|nets|] == nets;
      sets := filled;
      if sky.replaceDamage.Some? {
        sets := sky.replaceDamage.value;
        return false;
      }
      return true;
    }

    /** Removals one at a time, their errors ignored. */
    method Remove(removed: seq<Net>, stuck: set<Element>)
      requires AllValid(removed)
      modifies `sets
      ensures sets == Without(old(sets), Placements(removed), stuck)
    {
      hide PlaceCrowd;
      NoPlacements();
      for i := 0 to |removed|
        invariant sets == Without(old(sets), Placements(removed[..i]), stuck)
      {
        assert removed[..i + 1] == removed[..i] + [removed[i]];
        PlacementsSnoc(removed[..i], removed[i]);
        var e := PlaceCrowd(removed[i]);
        if e !in stuck {
          sets := map f | f in sets && f != e :: sets[f];
        }
      }
      assert removed[..|removed|] == removed;
    }

    /** Additions in one transaction. */
    method Add(added: seq<Net>, at: nat)
      requires AllValid(added)
      modifies `sets
      ensures sets == With(old(sets), Placements(added), at)
    {
      hide PlaceCrowd;
      NoPlacements();
      for i := 0 to |added|
        invariant sets == With(old(sets), Placements(added[..i]), at)
      {
        assert added[..i + 1] == added[..i] + [added[i]];
        PlacementsSnoc(added[..i], added[i]);
        var e := PlaceCrowd(added[i]);
        if e !in sets {
          sets := sets[e := at + CROWD_TIMEOUT];
        }
      }
      assert added[..|added|] == added;
    }

    /** Removals, then additions if there are any, then the check. */
    method Patch(added: seq<Net>, removed: seq<Net>, sky: Weather, at: nat) returns (ok: bool)
      requires AllValid(added) && AllValid(removed)
      modifies `sets
      ensures (sets, ok) == AfterDelta(old(sets), Placements(added), Placements(removed), sky, at)
    {
      hide PlaceCrowd;
      Remove(removed, sky.stuck);
      NoPlacements();
      SomePlacements(added);
      if added != [] {
        if sky.addsRefused {
          return false;
        }
        Add(added, at);
      }
      assert added == [] ==> sets == With(sets, {}, at);
      if sky.damage.Some? {
        sets := sky.damage.value;
        return false;
      }
      return true;
    }

    method FetchFull(r: Round) returns (action: Action)
      modifies this
      ensures (State(), action) == Fetched(old(State()), family, r)
    {
      hide ElementsOf, AfterReplace;
      var reply := r.server(0, 0);
      if !reply.Body? || reply.feed.family != family {
        return Failed;
      }
      var entries, snapshot := [], 0;
      if reply.feed.Full? {
        entries, snapshot := reply.feed.entries, reply.feed.snapshot;
      }
      var nets, _ := Parse(entries);
      var ok := Replace(nets, r.sky, r.a);
      if !ok {
        return Failed;
      }
      cursor := FeedCursor(reply.etag, snapshot, r.l);
      return Replaced;
    }

    method PullFamily(r: Round) returns (action: Action)
      modifies this
      ensures (State(), action) == Pulled(old(State()), family, r)
    {
      hide ElementsOf, AfterReplace, AfterDelta, Fetched;
      if SatSub(r.b, cursor.lastFull) >= FULL_REFRESH_SECS {
        action := FetchFull(r);
        return;
      }
      match r.server(cursor.etag, cursor.snapshot) {
        case Broken =>
          return Failed;
        case NotModified =>
          return Unchanged;
        case Body(feed, etag) =>
          if feed.family != family {
            return Failed;
          }
          if feed.Delta? {
            var added, _ := Parse(feed.added);
            var removed, _ := Parse(feed.removed);
            var ok := Patch(added, removed, r.sky, r.a);
            if !ok {
              action := FetchFull(r);
              return;
            }
            cursor := FeedCursor(etag, feed.to, cursor.lastFull);
            return Patched;
          }
          var nets, _ := Parse(feed.entries);
          var ok := Replace(nets, r.sky, r.a);
          if !ok {
            return Failed;
          }
          cursor := FeedCursor(etag, feed.snapshot, r.b);
          return Replaced;
      }
    }
  }

  method AnyPulls(sync: Sync, rounds: seq<Round>) returns (actions: seq<Action>)
    modifies sync
    ensures (sync.State(), actions) == Pulls(old(sync.State()), sync.family, rounds)
  {
    hide Pulled;
    actions := [];
    for k := 0 to |rounds|
      invariant (sync.State(), actions) == Pulls(old(sync.State()), sync.family, rounds[..k])
    {
      assert rounds[..k + 1][..k] == rounds[..k];
      var action := sync.PullFamily(rounds[k]);
      actions := actions + [action];
    }
    assert rounds[..|rounds|] == rounds;
  }

  lemma NothingParsed(family: Family)
    ensures Placements([]) == {} == ElementsOf(Lines([]), family)
  {
  }

  lemma ParsedValid(line: FeedLine, family: Family)
    requires ParseEntry(line, family).Some?
    ensures ParseEntry(line, family).value.Valid()
  {
    assert Names(line, ParseEntry(line, family).value);
  }

  lemma SomePlacements(nets: seq<Net>)
    requires AllValid(nets)
    ensures nets == [] <==> Placements(nets) == {}
  {
    hide PlaceCrowd;
    if nets != [] {
      assert PlaceCrowd(nets[0]) in Placements(nets);
    }
  }

  ghost predicate AllValid(nets: seq<Net>) {
    forall i :: 0 <= i < |nets| ==> nets[i].Valid()
  }

  ghost function Placements(nets: seq<Net>): set<Element>
    requires AllValid(nets)
  {
    set i | 0 <= i < |nets| :: PlaceCrowd(nets[i])
  }

  lemma NoPlacements()
    ensures Placements([]) == {}
  {
  }

  lemma PlacementsSnoc(nets: seq<Net>, net: Net)
    requires net.Valid() && AllValid(nets)
    ensures Placements(nets + [net]) == Placements(nets) + {PlaceCrowd(net)}
  {
    hide PlaceCrowd;
    var more := nets + [net];
    forall e
      ensures e in Placements(more) <==> e in Placements(nets) || e == PlaceCrowd(net)
    {
      assert more[|nets|] == net;
      if e in Placements(nets) {
        var i :| 0 <= i < |nets| && PlaceCrowd(nets[i]) == e;
        assert more[i] == nets[i];
      }
    }
  }

  lemma LinesSnoc(lines: seq<FeedLine>, i: nat)
    requires i < |lines|
    ensures Lines(lines[..i + 1]) == Lines(lines[..i]) + {lines[i]}
  {
  }

  lemma ElementsSnoc(lines: Snapshot, line: FeedLine, family: Family)
    ensures ElementsOf(lines + {line}, family)
         == ElementsOf(lines, family)
            + (if ParseEntry(line, family).Some? then {PlaceCrowd(ParseEntry(line, family).value)} else {})
  {
    hide PlaceCrowd, ParseEntry;
  }
}
