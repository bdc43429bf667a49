/** Bounded failure tracking: per key a fixed ring of the most recent hit stamps, and a capped map of
    rings. The rings are shown to give the verdicts of the unbounded hit history they stand for, the map
    to stay within its cap, and its evictions to cost a constant number of inspected entries per hit. */
module Tracker {
  import opened Wrappers
  import opened Nets

  const MAX_RETRY_CAP: nat := 32
  const EVICT_DIVISOR: nat := 32

  // ----- hit histories -----

  ghost predicate Sorted(h: seq<nat>) {
    forall i, j :: 0 <= i <= j < |h| ==> h[i] <= h[j]
  }

  /** How many stamps are `since` or later. */
  ghost function CountSince(h: seq<nat>, since: nat): (n: nat)
    ensures n <= |h|
  {
    if h == [] then 0 else CountSince(h[..|h| - 1], since) + (if h[|h| - 1] >= since then 1 else 0)
  }

  /** The `cap` most recent stamps. */
  ghost function Recent(h: seq<nat>, cap: nat): seq<nat> {
    if |h| <= cap then h else h[|h| - cap..]
  }

  lemma {:induction false} CountSinceConcat(a: seq<nat>, b: seq<nat>, since: nat)
    ensures CountSince(a + b, since) == CountSince(a, since) + CountSince(b, since)
    decreases |b|
  {
    if b == [] {
      assert a + b == a;
    } else {
      assert (a + b)[..|a + b| - 1] == a + b[..|b| - 1];
      CountSinceConcat(a, b[..|b| - 1], since);
    }
  }

  lemma {:induction false} CountSinceAll(h: seq<nat>, since: nat)
    requires forall i :: 0 <= i < |h| ==> h[i] >= since
    ensures CountSince(h, since) == |h|
    decreases |h|
  {
    if h != [] {
      CountSinceAll(h[..|h| - 1], since);
    }
  }

  lemma {:induction false} CountSinceNone(h: seq<nat>, since: nat)
    requires forall i :: 0 <= i < |h| ==> h[i] < since
    ensures CountSince(h, since) == 0
    decreases |h|
  {
    if h != [] {
      CountSinceNone(h[..|h| - 1], since);
    }
  }

  lemma {:induction false} CountSinceLater(h: seq<nat>, early: nat, late: nat)
    requires early <= late
    ensures CountSince(h, late) <= CountSince(h, early)
    decreases |h|
  {
    if h != [] {
      CountSinceLater(h[..|h| - 1], early, late);
    }
  }

  /** With at most `cap` stamps in the window, none of them lies outside the `cap` most recent ones. */
  lemma RecentSuffices(h: seq<nat>, cap: nat, since: nat)
    requires Sorted(h) && CountSince(h, since) <= cap
    ensures CountSince(Recent(h, cap), since) == CountSince(h, since)
  {
    if |h| > cap {
      var past, recent := h[..|h| - cap], h[|h| - cap..];
      assert h == past + recent;
      CountSinceConcat(past, recent, since);
      hide CountSince;
      if i :| 0 <= i < |past| && past[i] >= since {
        LaterStampsCount(h, i, since);
      }
      CountSinceNone(past, since);
    }
  }

  lemma LaterStampsCount(h: seq<nat>, i: nat, since: nat)
    requires Sorted(h) && i < |h| && h[i] >= since
    ensures CountSince(h, since) >= |h| - i
  {
    hide CountSince;
    var tail := h[i..];
    assert h == h[..i] + tail;
    CountSinceConcat(h[..i], tail, since);
    CountSinceAll(tail, since);
  }

  /** Forgetting a history that has left the window changes no later count. */
  lemma ForgettingIdleIsHarmless(idle: seq<nat>, later: seq<nat>, cutoff: nat, since: nat)
    requires forall i :: 0 <= i < |idle| ==> idle[i] < cutoff
    requires cutoff <= since
    ensures CountSince(idle + later, since) == CountSince(later, since)
  {
    CountSinceConcat(idle, later, since);
    CountSinceNone(idle, since);
  }

  // ----- the ring -----

  /** The contents of a window object. */
  datatype Ring = Ring(ts: seq<nat>, head: nat, len: nat)

  const EMPTY_RING: Ring := Ring(seq(MAX_RETRY_CAP, _ => 0), 0, 0)

  /** Position `i` of a ring of `cap` slots that starts at `head`. */
  function Slot(head: nat, i: nat, cap: nat): (s: nat)
    requires head < cap && i <= cap
    ensures s == if head + i < cap then head + i else head + i - cap
  {
    (head + i) % cap
  }

  /** A ring used with capacity `cap`: it starts at slot 0 until it is full, and never touches the
      slots from `cap` on. */
  ghost predicate IsRing(r: Ring, cap: nat) {
    && |r.ts| == MAX_RETRY_CAP && 1 <= cap <= MAX_RETRY_CAP
    && r.head < cap && r.len <= cap
    && (r.len < cap ==> r.head == 0)
    && forall j :: cap <= j < MAX_RETRY_CAP ==> r.ts[j] == 0
  }

  /** The stamps held, oldest first. */
  ghost function Stamps(r: Ring, cap: nat): (s: seq<nat>)
    requires IsRing(r, cap)
    ensures |s| == r.len
  {
    seq(r.len, i requires 0 <= i < r.len => r.ts[Slot(r.head, i, cap)])
  }

  ghost function Pushed(r: Ring, now: nat, cap: nat): (p: Ring)
    requires IsRing(r, cap)
  {
    if r.len < cap then
      Ring(r.ts[Slot(r.head, r.len, cap) := now], r.head, r.len + 1)
    else
      Ring(r.ts[r.head := now], Slot(r.head, 1, cap), r.len)
  }

  /** What `last` reads when it is told the capacity is `cap`, right or wrong. */
  function LastRead(r: Ring, cap: nat): nat
    requires |r.ts| == MAX_RETRY_CAP && 1 <= cap <= MAX_RETRY_CAP
  {
    if r.len == 0 then 0 else r.ts[(r.head + r.len - 1) % cap]
  }

  /** A push appends the stamp and drops the oldest one from a full ring. */
  lemma PushAppends(r: Ring, now: nat, cap: nat)
    requires IsRing(r, cap)
    ensures IsRing(Pushed(r, now, cap), cap)
    ensures Stamps(Pushed(r, now, cap), cap)
         == (if r.len < cap then Stamps(r, cap) else Stamps(r, cap)[1..]) + [now]
  {
    var p := Pushed(r, now, cap);
    var kept := if r.len < cap then Stamps(r, cap) else Stamps(r, cap)[1..];
    forall i | 0 <= i < p.len
      ensures Stamps(p, cap)[i] == (kept + [now])[i]
    {
    }
  }

  /** The ring holds the most recent stamps of `h`, and has wrapped only if there are more. */
  ghost predicate Follows(r: Ring, cap: nat, h: seq<nat>) {
    IsRing(r, cap) && Stamps(r, cap) == Recent(h, cap) && (r.head > 0 ==> |h| > cap)
  }

  lemma RecentPush(h: seq<nat>, now: nat, cap: nat)
    requires cap >= 1
    ensures Recent(h + [now], cap) == (if |h| < cap then h else Recent(h, cap)[1..]) + [now]
  {
  }

  lemma PushFollows(r: Ring, cap: nat, h: seq<nat>, now: nat)
    requires Follows(r, cap, h)
    ensures Follows(Pushed(r, now, cap), cap, h + [now])
  {
    PushAppends(r, now, cap);
    RecentPush(h, now, cap);
    assert |Recent(h, cap)| == r.len;
  }

  lemma EmptyFollows(cap: nat)
    requires 1 <= cap <= MAX_RETRY_CAP
    ensures Follows(EMPTY_RING, cap, [])
  {
    assert Stamps(EMPTY_RING, cap) == [] == Recent([], cap);
  }

  lemma RingShape(r: Ring, cap: nat)
    requires IsRing(r, cap)
    ensures |r.ts| == MAX_RETRY_CAP
  {
  }

  /** Told its own capacity, a ring knows its newest stamp. */
  lemma LastReadNewest(r: Ring, cap: nat)
    requires IsRing(r, cap) && r.len > 0
    ensures LastRead(r, cap) == Stamps(r, cap)[r.len - 1]
  {
    assert Slot(r.head, r.len - 1, cap) == (r.head + r.len - 1) % cap;
  }

  /** The slot that `last` reads when it is told the maximal capacity. */
  lemma MisreadSlot(r: Ring, cap: nat)
    requires IsRing(r, cap) && r.len > 0 && r.head > 0 && cap < MAX_RETRY_CAP
    ensures r.len == cap
    ensures var read := r.head + cap - 1;
            LastRead(r, MAX_RETRY_CAP)
            == if read < MAX_RETRY_CAP then 0 else Stamps(r, cap)[read - MAX_RETRY_CAP + cap - r.head]
  {
    var read := r.head + cap - 1;
    if read >= MAX_RETRY_CAP {
      assert read % MAX_RETRY_CAP == read - MAX_RETRY_CAP;
      assert Slot(r.head, read - MAX_RETRY_CAP + cap - r.head, cap) == read - MAX_RETRY_CAP;
    }
  }

  /** Read with the maximal capacity instead, the newest stamp comes out of every ring that has not
      wrapped, and never a later stamp than the newest one. */
  lemma LastReadAtMaxCap(r: Ring, cap: nat)
    requires IsRing(r, cap) && r.len > 0 && Sorted(Stamps(r, cap))
    ensures LastRead(r, MAX_RETRY_CAP) <= Stamps(r, cap)[r.len - 1]
    ensures r.head == 0 || cap == MAX_RETRY_CAP ==> LastRead(r, MAX_RETRY_CAP) == Stamps(r, cap)[r.len - 1]
  {
    LastReadNewest(r, cap);
    if r.head > 0 && cap < MAX_RETRY_CAP {
      MisreadSlot(r, cap);
    }
  }

  predicate KeptAt(stamp: nat, cutoff: nat) {
    stamp >= cutoff
  }

  /** A sweep judges a window right for every cutoff. */
  ghost predicate JudgedByNewest(r: Ring, cap: nat)
    requires IsRing(r, cap) && r.len > 0
  {
    forall cutoff: nat :: KeptAt(LastRead(r, MAX_RETRY_CAP), cutoff) <==> KeptAt(Stamps(r, cap)[r.len - 1], cutoff)
  }

  /** What `last` reads under the maximal capacity is the newest stamp: the ring has not wrapped, or uses all
      slots, or holds the newest stamp in the slot that is read instead as well. */
  ghost predicate ReadsNewest(r: Ring, cap: nat)
    requires IsRing(r, cap) && r.len > 0
  {
    || r.head == 0 || cap == MAX_RETRY_CAP
    || (if r.head + cap <= MAX_RETRY_CAP then Stamps(r, cap)[cap - 1] == 0
        else Stamps(r, cap)[2 * cap - 33] == Stamps(r, cap)[cap - 1])
  }

  lemma ReadsNewestIff(r: Ring, cap: nat)
    requires IsRing(r, cap) && r.len > 0 && Sorted(Stamps(r, cap))
    ensures LastRead(r, MAX_RETRY_CAP) == Stamps(r, cap)[r.len - 1] <==> ReadsNewest(r, cap)
  {
    if r.head > 0 && cap < MAX_RETRY_CAP {
      MisreadSlot(r, cap);
    } else {
      LastReadAtMaxCap(r, cap);
    }
  }

  /** Sweeping and evicting by age is meant to look at the newest hit. It does so exactly if the ring has not
      wrapped, or uses all slots, or holds the newest stamp in the slot that is read instead as well: a slot
      never written if the ring ends early, else the one of its stamp number 2 * cap - 32. */
  lemma JudgedByNewestIff(r: Ring, cap: nat)
    requires IsRing(r, cap) && r.len > 0 && Sorted(Stamps(r, cap))
    ensures JudgedByNewest(r, cap) <==> ReadsNewest(r, cap)
  {
    hide ReadsNewest;
    var newest := Stamps(r, cap)[r.len - 1];
    ReadsNewestIff(r, cap);
    LastReadAtMaxCap(r, cap);
    assert KeptAt(newest, newest);
    assert LastRead(r, MAX_RETRY_CAP) < newest ==> !KeptAt(LastRead(r, MAX_RETRY_CAP), newest);
  }

  /** The failing family in one input: with two retries, three hits far apart leave a wrapped ring whose
      newest hit a sweep takes for a hit at time zero. */
  lemma SweepMisjudgesWrappedRing()
    ensures IsRing(EMPTY_RING, 2)
            && IsRing(Pushed(EMPTY_RING, 1000, 2), 2)
            && IsRing(Pushed(Pushed(EMPTY_RING, 1000, 2), 2000, 2), 2)
            && var r := Pushed(Pushed(Pushed(EMPTY_RING, 1000, 2), 2000, 2), 3000, 2);
               IsRing(r, 2) && Stamps(r, 2) == [2000, 3000] && LastRead(r, MAX_RETRY_CAP) == 0
  {
    var r0 := EMPTY_RING;
    PushAppends(r0, 1000, 2);
    var r1 := Pushed(r0, 1000, 2);
    PushAppends(r1, 2000, 2);
    var r2 := Pushed(r1, 2000, 2);
    PushAppends(r2, 3000, 2);
    var r3 := Pushed(r2, 3000, 2);
    assert Stamps(r1, 2) == [1000] && Stamps(r2, 2) == [1000, 2000];
    assert Stamps(r3, 2) == [2000, 3000];
    assert r3.head == 1 && r3.len == 2;
  }

  class Window {
    const ts: array<nat>
    var head: nat
    var len: nat

    function View(): Ring
      reads this, ts
    {
      Ring(ts[..], head, len)
    }

    /** A window object with given contents. */
    constructor Load(r: Ring)
      requires |r.ts| == MAX_RETRY_CAP
      ensures fresh(ts) && View() == r
    {
      ts := new nat[MAX_RETRY_CAP](i requires 0 <= i < |r.ts| => r.ts[i]);
      head, len := r.head, r.len;
    }

    method Push(now: nat, cap: nat)
      requires IsRing(View(), cap)
      modifies this, ts
      ensures View() == Pushed(old(View()), now, cap)
    {
      if len < cap {
        var idx := (head + len) % cap;
        ts[idx] := now;
        len := len + 1;
      } else {
        ts[head] := now;
        head := (head + 1) % cap;
      }
    }

    /** Counting over the ring is counting over the stamps it holds. */
    method CountFrom(since: nat, cap: nat) returns (n: nat)
      requires IsRing(View(), cap)
      ensures n == CountSince(Stamps(View(), cap), since)
    {
      hide Slot;
      n := 0;
      ghost var s := Stamps(View(), cap);
      for i := 0 to len
        invariant n == CountSince(s[..i], since)
      {
        assert s[..i + 1][..i] == s[..i];
        if ts[Slot(head, i, cap)] >= since {
          n := n + 1;
        }
      }
      assert s[..len] == s;
    }

    method Clear()
      modifies this
      ensures View() == old(View()).(head := 0, len := 0)
    {
      len, head := 0, 0;
    }
  }

  // ----- the map of rings -----

  datatype TrackKey = TrackKey(filter: nat, net: Net)

  /** What a filter asks for; its `maxretry` is checked when the configuration is loaded. */
  datatype Policy = Policy(findtime: nat, maxretry: nat) {
    predicate Valid() {
      1 <= maxretry <= MAX_RETRY_CAP
    }
  }

  datatype Verdict = Below(hits: nat) | Ban(hits: nat)

  /** The first second that still counts at `now`. */
  function WindowStart(now: nat, findtime: nat): nat {
    SatSub(now, Min(findtime, U32_MAX))
  }

  /** The verdict on an unbounded history of hits, the one at `now` included. */
  ghost function Decide(h: seq<nat>, now: nat, p: Policy): Verdict {
    var n := CountSince(h, WindowStart(now, p.findtime));
    if n >= p.maxretry then Ban(n) else Below(n)
  }

  /** The hits of a history, by position, that are at most `findtime` seconds old. */
  ghost function RecentHits(h: seq<nat>, now: nat, findtime: nat): set<nat> {
    set i: nat | i < |h| && h[i] + findtime >= now
  }

  lemma {:induction false} CountIsRecentHits(h: seq<nat>, now: nat, findtime: nat)
    requires findtime <= U32_MAX || now <= U32_MAX
    ensures CountSince(h, WindowStart(now, findtime)) == |RecentHits(h, now, findtime)|
    decreases |h|
  {
    if h != [] {
      var n := |h| - 1;
      CountIsRecentHits(h[..n], now, findtime);
      assert RecentHits(h, now, findtime)
          == RecentHits(h[..n], now, findtime) + (if h[n] + findtime >= now then {n} else {});
    }
  }

  /** The verdict is a ban exactly if at least `maxretry` hits are at most `findtime` seconds old, and it tells how
      many there are. */
  lemma VerdictExact(h: seq<nat>, now: nat, p: Policy)
    requires p.findtime <= U32_MAX || now <= U32_MAX
    ensures var v, n := Decide(h, now, p), |RecentHits(h, now, p.findtime)|;
            v.hits == n && (v.Ban? <==> n >= p.maxretry)
  {
    CountIsRecentHits(h, now, p.findtime);
  }

  /** A ring and the unbounded history it stands for, none of whose hits was a ban. */
  ghost predicate Tracked(r: Ring, h: seq<nat>, p: Policy, clock: nat) {
    && p.Valid() && h != [] && Sorted(h) && h[|h| - 1] <= clock
    && Follows(r, p.maxretry, h)
    && Decide(h, h[|h| - 1], p).Below?
  }

  /** One hit: the ring counts what the unbounded history counts. */
  lemma RingDecides(r: Ring, h: seq<nat>, p: Policy, clock: nat, now: nat)
    requires clock <= now && p.Valid()
    requires if h == [] then r == EMPTY_RING else Tracked(r, h, p, clock)
    ensures IsRing(r, p.maxretry) && |r.ts| == MAX_RETRY_CAP && IsRing(Pushed(r, now, p.maxretry), p.maxretry)
    ensures var n := CountSince(Stamps(Pushed(r, now, p.maxretry), p.maxretry), WindowStart(now, p.findtime));
            Decide(h + [now], now, p) == if n >= p.maxretry then Ban(n) else Below(n)
    ensures Decide(h + [now], now, p).Below? ==> Tracked(Pushed(r, now, p.maxretry), h + [now], p, now)
  {
    hide CountSince, Stamps, Recent, Pushed, IsRing;
    var cap, since := p.maxretry, WindowStart(now, p.findtime);
    if h == [] {
      EmptyFollows(cap);
    } else {
      CountSinceLater(h, WindowStart(h[|h| - 1], p.findtime), since);
    }
    PushFollows(r, cap, h, now);
    RingShape(r, cap);
    CountSinceConcat(h, [now], since);
    assert Sorted(h + [now]);
    RecentSuffices(h + [now], cap, since);
  }

  // ----- choosing the oldest -----

  lemma {:induction false} LeastExists<K>(age: map<K, nat>, rest: set<K>) returns (least: K)
    requires rest != {} && rest <= age.Keys
    ensures least in rest && forall k :: k in rest ==> age[least] <= age[k]
    decreases rest
  {
    least :| least in rest;
    if rest != {least} {
      var other := LeastExists(age, rest - {least});
      if age[other] < age[least] {
        least := other;
      }
    }
  }

  /** No key that stays is older than one that goes. */
  ghost predicate OldestFirst<K>(age: map<K, nat>, gone: set<K>) {
    && gone <= age.Keys
    && forall g, s :: g in gone && s in age.Keys && s !in gone ==> age[g] <= age[s]
  }

  lemma SomeStay<K>(all: set<K>, gone: set<K>)
    requires gone <= all && |gone| < |all|
    ensures all - gone != {}
  {
    assert (all - gone) + gone == all;
  }

  /** Some choice of the `n` oldest keys, ties broken in any way. */
  method SelectOldest<K>(age: map<K, nat>, n: nat) returns (gone: set<K>)
    requires n <= |age|
    ensures |gone| == n && OldestFirst(age, gone)
  {
    gone := {};
    while |gone| < n
      invariant |gone| <= n && OldestFirst(age, gone)
    {
      SomeStay(age.Keys, gone);
      ghost var least := LeastExists(age, age.Keys - gone);
      var k :| k in age.Keys && k !in gone && forall s :: s in age.Keys && s !in gone ==> age[k] <= age[s];
      gone := gone + {k};
    }
  }

  /** A map without the entries of `gone`. */
  function Without<K(!new), V>(m: map<K, V>, gone: set<K>): (r: map<K, V>)
    ensures forall k :: k in r <==> k in m && k !in gone
    ensures forall k :: k in r ==> r[k] == m[k]
  {
    map k | k in m && k !in gone :: m[k]
  }

  lemma WithoutSize<K(!new), V>(m: map<K, V>, gone: set<K>)
    requires gone <= m.Keys
    ensures |Without(m, gone)| == |m| - |gone|
  {
    assert Without(m, gone).Keys == m.Keys - gone;
    assert |m| == |m.Keys| && |Without(m, gone)| == |Without(m, gone).Keys|;
  }

  lemma WithoutShrinks<K(!new), V>(m: map<K, V>, gone: set<K>)
    ensures |Without(m, gone)| <= |m|
  {
    var present := set k | k in m && k in gone;
    assert Without(m, gone) == Without(m, present);
    WithoutSize(m, present);
  }

  lemma NoneGone<K>(age: map<K, nat>)
    ensures OldestFirst(age, {})
  {
  }

  function BatchSize(len: nat): (n: nat)
    ensures n >= 1 && (len >= 1 ==> n <= len)
    ensures len >= 16 ==> len <= 63 * n
    ensures if len < 32 then n == 1 else 32 * n <= len < 32 * n + 32
  {
    Max(len / EVICT_DIVISOR, 1)
  }

  type Windows = map<TrackKey, Ring>
  type Histories = map<TrackKey, seq<nat>>

  /** Every ring stands for the unbounded history of its key. */
  ghost predicate Faithful(windows: Windows, history: Histories, policy: nat -> Policy, clock: nat) {
    && history.Keys == windows.Keys
    && (forall f :: policy(f).Valid())
    && forall k :: k in windows ==> Tracked(windows[k], history[k], policy(k.filter), clock)
  }

  lemma FaithfulAt(windows: Windows, history: Histories, policy: nat -> Policy, clock: nat, key: TrackKey)
    requires Faithful(windows, history, policy, clock)
    ensures policy(key.filter).Valid()
    ensures key in windows <==> key in history
    ensures key in windows ==> Tracked(windows[key], history[key], policy(key.filter), clock)
  {
  }

  lemma FaithfulWithout(windows: Windows, history: Histories, policy: nat -> Policy, clock: nat, gone: set<TrackKey>)
    requires Faithful(windows, history, policy, clock)
    ensures Faithful(Without(windows, gone), Without(history, gone), policy, clock)
  {
    hide Tracked;
  }

  lemma FaithfulLater(windows: Windows, history: Histories, policy: nat -> Policy, clock: nat, now: nat)
    requires Faithful(windows, history, policy, clock) && clock <= now
    ensures Faithful(windows, history, policy, now)
  {
    forall k | k in windows
      ensures Tracked(windows[k], history[k], policy(k.filter), now)
    {
    }
  }

  lemma FaithfulWith(windows: Windows, history: Histories, policy: nat -> Policy, clock: nat,
                     key: TrackKey, r: Ring, h: seq<nat>)
    requires Faithful(windows, history, policy, clock)
    requires Tracked(r, h, policy(key.filter), clock)
    ensures Faithful(windows[key := r], history[key := h], policy, clock)
  {
    hide Tracked;
  }

  /** Ages against newest hits. */
  lemma AgeOfTracked(r: Ring, h: seq<nat>, p: Policy, clock: nat)
    requires Tracked(r, h, p, clock)
    ensures h != [] && Age(r) <= h[|h| - 1]
    ensures IsRing(r, p.maxretry) && r.len > 0 && (Age(r) == h[|h| - 1] <==> ReadsNewest(r, p.maxretry))
    ensures r.head > 0 ==> |h| > p.maxretry
  {
    var s := Stamps(r, p.maxretry);
    assert s[r.len - 1] == h[|h| - 1];
    assert Sorted(s);
    LastReadAtMaxCap(r, p.maxretry);
    ReadsNewestIff(r, p.maxretry);
  }

  /** The age by which a window is swept and evicted. */
  function Age(r: Ring): nat {
    if |r.ts| == MAX_RETRY_CAP then LastRead(r, MAX_RETRY_CAP) else 0
  }

  function Ages(windows: Windows): (ages: map<TrackKey, nat>)
    ensures ages.Keys == windows.Keys
  {
    map k | k in windows :: Age(windows[k])
  }

  /** While every ring reads its newest stamp, the entries chosen by age are those whose newest hits are the
      oldest. */
  lemma EvictionFollowsNewestHits(windows: Windows, history: Histories, policy: nat -> Policy, clock: nat,
                                  gone: set<TrackKey>, g: TrackKey, s: TrackKey)
    requires Faithful(windows, history, policy, clock) && OldestFirst(Ages(windows), gone)
    requires forall k :: k in windows ==>
               var cap := policy(k.filter).maxretry;
               IsRing(windows[k], cap) && windows[k].len > 0 && ReadsNewest(windows[k], cap)
    requires g in gone && s in windows && s !in gone
    ensures g in history && s in history && history[g] != [] && history[s] != []
    ensures history[g][|history[g]| - 1] <= history[s][|history[s]| - 1]
  {
    hide Tracked, ReadsNewest, IsRing;
    AgeOfTracked(windows[g], history[g], policy(g.filter), clock);
    AgeOfTracked(windows[s], history[s], policy(s.filter), clock);
  }

  /** What hits at 1000, 2000 and 3000 leave of a window of two, and what a hit at 10 leaves. */
  const WRAPPED: Ring := Ring([3000, 2000] + seq(MAX_RETRY_CAP - 2, _ => 0), 1, 2)
  const ONCE: Ring := Ring([10] + seq(MAX_RETRY_CAP - 1, _ => 0), 0, 1)

  lemma ExampleRings()
    ensures IsRing(WRAPPED, 2) && Stamps(WRAPPED, 2) == [2000, 3000] && Age(WRAPPED) == 0
    ensures IsRing(ONCE, 2) && Stamps(ONCE, 2) == [10] && Age(ONCE) == 10
  {
  }

  /** A full map in which an eviction takes the key with the newest hit, whichever choice it makes among the
      oldest by age. */
  lemma EvictionMisjudgesWrappedRing(busy: TrackKey, quiet: set<TrackKey>, gone: set<TrackKey>)
    requires busy !in quiet && |quiet| == 15
    ensures var w := map k | k in quiet + {busy} :: if k == busy then WRAPPED else ONCE;
            |w| == 16 && (OldestFirst(Ages(w), gone) && |gone| == BatchSize(16) ==> gone == {busy})
  {
    hide Age;
    var w := map k | k in quiet + {busy} :: if k == busy then WRAPPED else ONCE;
    assert w.Keys == quiet + {busy} && |w| == |w.Keys|;
    ExampleRings();
    if OldestFirst(Ages(w), gone) && |gone| == 1 {
      var g :| g in gone;
      assert |gone - {g}| == 0 && gone == {g};
      if busy !in gone {
        OldestGoes(Ages(w), gone, g, busy);
        assert false;
      }
    }
  }

  lemma OldestGoes<K>(age: map<K, nat>, gone: set<K>, g: K, s: K)
    requires OldestFirst(age, gone) && g in gone && s in age && s !in gone
    ensures age[g] <= age[s]
  {
  }

  ghost predicate Idle(h: seq<nat>, cutoff: nat) {
    h == [] || h[|h| - 1] < cutoff
  }

  /** The ring of a key has wrapped without using all slots. */
  ghost predicate HasWrapped(h: seq<nat>, p: Policy) {
    p.maxretry < MAX_RETRY_CAP && |h| > p.maxretry
  }

  /** What a hit leaves of the histories: a ban forgets the key, a lesser verdict adds the hit. */
  ghost function Settled(kept: Histories, key: TrackKey, h: seq<nat>, v: Verdict): Histories {
    if v.Ban? then Without(kept, {key}) else kept[key := h]
  }

  lemma SettledFaithful(windows: Windows, history: Histories, policy: nat -> Policy, clock: nat,
                        key: TrackKey, w: Ring, h: seq<nat>, now: nat, v: Verdict)
    requires Faithful(windows, history, policy, clock) && clock <= now
    requires v == Decide(h, now, policy(key.filter))
    requires v.Below? ==> Tracked(w, h, policy(key.filter), now)
    ensures var after := if v.Ban? then Without(windows, {key}) else windows[key := w];
            && Faithful(after, Settled(history, key, h, v), policy, now)
            && |after| <= |windows| + (if key in windows then 0 else 1)
  {
    hide Faithful, Tracked, Without, Decide;
    FaithfulLater(windows, history, policy, clock, now);
    if v.Ban? {
      FaithfulWithout(windows, history, policy, now, {key});
      WithoutShrinks(windows, {key});
    } else {
      FaithfulWith(windows, history, policy, now, key, w, h);
    }
  }

  /** Works a hit into the window of a key: stamp, count, and reset when the count reaches the line. */
  method Slide(r: Ring, now: nat, p: Policy) returns (w: Ring, n: nat)
    requires IsRing(r, p.maxretry) && IsRing(Pushed(r, now, p.maxretry), p.maxretry)
    ensures n == CountSince(Stamps(Pushed(r, now, p.maxretry), p.maxretry), WindowStart(now, p.findtime))
    ensures n < p.maxretry ==> w == Pushed(r, now, p.maxretry)
    ensures n >= p.maxretry ==> w.len == 0 && w.head == 0
  {
    var window := new Window.Load(r);
    window.Push(now, p.maxretry);
    n := window.CountFrom(WindowStart(now, p.findtime), p.maxretry);
    if n >= p.maxretry {
      window.Clear();
    }
    w := window.View();
  }

  class Tracker {
    var entries: map<TrackKey, Ring>
    const maxEntries: nat

    /** The policy of each filter. */
    ghost const policies: nat -> Policy
    /** For each tracked key, every hit since the key was last dropped. */
    ghost var history: Histories
    ghost var clock: nat
    /** Hits recorded, and entries that evictions have looked at. */
    ghost var hits: nat
    ghost var inspected: nat
    /** How many entries an eviction leaves. */
    ghost const low: nat

    ghost predicate Valid()
      reads this
    {
      && Faithful(entries, history, policies, clock)
      && 16 <= maxEntries && |entries| <= maxEntries
      && low == maxEntries - BatchSize(maxEntries)
      // Evictions have been paid for by hits, 63 inspected entries each, with as much left over for
      // every entry above the level that an eviction leaves behind.
      && inspected <= 63 * hits && inspected + 63 * (|entries| - low) <= 63 * hits
    }

    constructor (max: nat, ghost policy: nat -> Policy)
      requires forall f :: policy(f).Valid()
      ensures Valid()
      ensures entries == map[] && history == map[] && clock == 0 && hits == 0 && inspected == 0
      ensures maxEntries == Max(max, 16) && policies == policy
    {
      entries := map[];
      maxEntries := Max(max, 16);
      low := Max(max, 16) - BatchSize(Max(max, 16));
      policies := policy;
      history := map[];
      clock, hits, inspected := 0, 0, 0;
    }

    /** Making room for a new key when the map is full: one look at every entry, and the oldest go. */
    method EvictBatch() returns (ghost gone: set<TrackKey>)
      requires Valid() && |entries| == maxEntries
      modifies `entries, `history, `inspected
      ensures Valid()
      ensures |gone| == BatchSize(maxEntries) && OldestFirst(Ages(old(entries)), gone)
      ensures entries == Without(old(entries), gone) && history == Without(old(history), gone)
      ensures |entries| == low && inspected == old(inspected) + maxEntries
    {
      hide Faithful, BatchSize;
      var all := Ages(entries);
      assert |all| == |entries| by {
        assert |all| == |all.Keys| && |entries| == |entries.Keys|;
      }
      var oldest := SelectOldest(all, BatchSize(|entries|));
      WithoutSize(entries, oldest);
      FaithfulWithout(entries, history, policies, clock, oldest);
      inspected := inspected + |all|;
      gone := oldest;
      entries := Without(entries, oldest);
      history := Without(history, oldest);
    }

    /** The promises of a valid tracker on its size and its work. */
    lemma Bounded()
      requires Valid()
      ensures |entries| <= maxEntries && inspected <= 63 * hits
    {
    }

    ghost function HistoryOf(key: TrackKey): seq<nat>
      reads this
    {
      if key in history then history[key] else []
    }

    /** A new key makes room first: only when the map is full, and then by dropping the oldest entries. */
    method MakeRoom(key: TrackKey) returns (ghost gone: set<TrackKey>)
      requires Valid()
      modifies `entries, `history, `inspected
      ensures Valid() && (key in entries || |entries| < maxEntries)
      ensures key in entries <==> key in old(entries)
      ensures HistoryOf(key) == old(HistoryOf(key)) && history == Without(old(history), gone)
      ensures OldestFirst(Ages(old(entries)), gone)
      ensures if key !in old(entries) && |old(entries)| == maxEntries then |gone| == BatchSize(maxEntries) else gone == {}
      ensures inspected == old(inspected) + if gone == {} then 0 else maxEntries
    {
      gone := {};
      assert Without(history, gone) == history;
      hide Faithful, OldestFirst, Ages, BatchSize;
      FaithfulAt(entries, history, policies, clock, key);
      assert OldestFirst(Ages(entries), gone) by {
        NoneGone(Ages(entries));
      }
      if key !in entries && |entries| >= maxEntries {
        gone := EvictBatch();
      }
    }

    /** A hit with room for its key: write the stamp, count the window, and reset it on a ban. */
    method Record(key: TrackKey, now: nat, p: Policy) returns (v: Verdict)
      requires Valid() && clock <= now && policies(key.filter) == p
      requires key in entries || |entries| < maxEntries
      modifies `entries, `history, `clock, `hits
      ensures Valid()
      ensures v == Decide(old(HistoryOf(key)) + [now], now, p)
      ensures history == Settled(old(history), key, old(HistoryOf(key)) + [now], v)
      ensures clock == now && hits == old(hits) + 1
    {
      hide Faithful, IsRing, Tracked, Stamps, Pushed, CountSince, Without, Decide, Settled, BatchSize;
      ghost var h := HistoryOf(key) + [now];
      FaithfulAt(entries, history, policies, clock, key);
      var r := if key in entries then entries[key] else EMPTY_RING;
      RingDecides(r, HistoryOf(key), p, clock, now);
      var w, n := Slide(r, now, p);
      v := if n >= p.maxretry then Ban(n) else Below(n);
      SettledFaithful(entries, history, policies, clock, key, w, h, now, v);
      clock, hits := now, hits + 1;
      history := Settled(history, key, h, v);
      entries := if v.Ban? then Without(entries, {key}) else entries[key := w];
    }

    /** Records a hit and decides as the unbounded history of the key would. */
    method Hit(key: TrackKey, now: nat, findtime: nat, maxretry: nat) returns (v: Verdict, ghost gone: set<TrackKey>)
      requires Valid() && clock <= now && policies(key.filter) == Policy(findtime, maxretry)
      modifies `entries, `history, `clock, `hits, `inspected
      ensures Valid()
      ensures v == Decide(old(HistoryOf(key)) + [now], now, Policy(findtime, maxretry))
      ensures findtime <= U32_MAX || now <= U32_MAX ==>
                var n := |RecentHits(old(HistoryOf(key)) + [now], now, findtime)|;
                v.hits == n && (v.Ban? <==> n >= maxretry)
      ensures history == Settled(Without(old(history), gone), key, old(HistoryOf(key)) + [now], v)
      ensures OldestFirst(Ages(old(entries)), gone)
      ensures if key !in old(entries) && |old(entries)| == maxEntries then |gone| == BatchSize(maxEntries) else gone == {}
      ensures clock == now && hits == old(hits) + 1
      ensures inspected == old(inspected) + if gone == {} then 0 else maxEntries
    {
      hide Faithful, OldestFirst, Ages, Settled, Without, Decide, BatchSize, Tracked, HistoryOf, RecentHits;
      if findtime <= U32_MAX || now <= U32_MAX {
        VerdictExact(HistoryOf(key) + [now], now, Policy(findtime, maxretry));
      }
      FaithfulAt(entries, history, policies, clock, key);
      gone := MakeRoom(key);
      v := Record(key, now, Policy(findtime, Min(Max(maxretry, 1), MAX_RETRY_CAP)));
    }

    /** Drops the entries whose age is below the cutoff, and counts them. Every entry that has been idle
        goes; a busy one goes only when its ring has wrapped without using all slots. */
    method Sweep(now: nat, idle: nat) returns (dropped: nat)
      requires Valid() && clock <= now
      modifies `entries, `history, `clock
      ensures Valid() && clock == now
      ensures var cutoff := WindowStart(now, idle);
              var gone := set k | k in old(entries) && Age(old(entries)[k]) < cutoff;
              && entries == Without(old(entries), gone) && history == Without(old(history), gone)
              && dropped == |gone|
              && forall k :: k in old(history) ==>
                   && (Idle(old(history)[k], cutoff) ==> k in gone)
                   && (k in gone && !Idle(old(history)[k], cutoff) ==>
                         old(entries)[k].head > 0 && HasWrapped(old(history)[k], policies(k.filter)))
      ensures idle <= U32_MAX || now <= U32_MAX ==>
                forall k :: k in old(history) ==>
                  var h := old(history)[k];
                  && h != [] && (h[|h| - 1] + idle < now ==> k !in history)
                  && (k !in history && h[|h| - 1] + idle >= now ==>
                        |h| > policies(k.filter).maxretry && policies(k.filter).maxretry < 32)
    {
      hide Faithful, Tracked, Without;
      var cutoff := WindowStart(now, idle);
      var before := |entries|;
      var gone := set k | k in entries && Age(entries[k]) < cutoff;
      forall k | k in history
        ensures k in entries && history[k] != []
        ensures Idle(history[k], cutoff) ==> k in gone
        ensures k in gone && !Idle(history[k], cutoff) ==> entries[k].head > 0 && HasWrapped(history[k], policies(k.filter))
      {
        FaithfulAt(entries, history, policies, clock, k);
        AgeOfTracked(entries[k], history[k], policies(k.filter), clock);
      }
      WithoutSize(entries, gone);
      FaithfulLater(entries, history, policies, clock, now);
      FaithfulWithout(entries, history, policies, now, gone);
      entries, history, clock := Without(entries, gone), Without(history, gone), now;
      dropped := before - |entries|;
    }

    method Forget(key: TrackKey)
      requires Valid()
      modifies `entries, `history
      ensures Valid()
      ensures entries == Without(old(entries), {key}) && history == Without(old(history), {key})
    {
      hide Faithful, Without;
      WithoutShrinks(entries, {key});
      FaithfulWithout(entries, history, policies, clock, {key});
      entries, history := Without(entries, {key}), Without(history, {key});
    }
  }

  // ----- runs -----

  datatype Op = Hit(key: TrackKey, now: nat) | Sweep(now: nat, idle: nat) | Forget(key: TrackKey, now: nat)

  ghost function HistoryAt(h: Histories, key: TrackKey): seq<nat> {
    if key in h then h[key] else []
  }

  /** One operation on the histories of a tracker of a given size: what it drops beside, and its verdict. */
  ghost predicate Stepped(policy: nat -> Policy, size: nat, s: Histories, op: Op, gone: set<TrackKey>, t: Histories,
                          v: Option<Verdict>)
  {
    match op
    case Hit(key, now) =>
      var h := HistoryAt(s, key) + [now];
      && (if key !in s && |s| == size then |gone| == BatchSize(size) && gone <= s.Keys else gone == {})
      && v == Some(Decide(h, now, policy(key.filter)))
      && t == Settled(Without(s, gone), key, h, v.value)
    case Sweep(now, idle) =>
      && v == None && gone <= s.Keys && t == Without(s, gone)
      && forall k :: k in s ==>
           && (Idle(s[k], WindowStart(now, idle)) ==> k in gone)
           && (k in gone && !Idle(s[k], WindowStart(now, idle)) ==> HasWrapped(s[k], policy(k.filter)))
    case Forget(key, _) =>
      v == None && gone == {} && t == Without(s, {key})
  }

  /** A run from an empty tracker: the histories after each operation, what was dropped, and the verdicts. */
  datatype Run = Run(states: seq<Histories>, drops: seq<set<TrackKey>>, verdicts: seq<Option<Verdict>>)

  ghost predicate IsRun(policy: nat -> Policy, size: nat, ops: seq<Op>, run: Run) {
    && |run.states| == |ops| + 1 && |run.drops| == |run.verdicts| == |ops| && run.states[0] == map[]
    && forall i :: 0 <= i < |ops| ==>
         Stepped(policy, size, run.states[i], ops[i], run.drops[i], run.states[i + 1], run.verdicts[i])
  }

  ghost predicate InTime(ops: seq<Op>) {
    forall i :: 0 < i < |ops| ==> ops[i - 1].now <= ops[i].now
  }

  /** The histories that nothing but a ban or a request to forget would ever end. */
  ghost function Whole(policy: nat -> Policy, ops: seq<Op>): Histories {
    if ops == [] then map[]
    else
      var w := Whole(policy, ops[..|ops| - 1]);
      match ops[|ops| - 1]
      case Hit(key, now) =>
        var h := HistoryAt(w, key) + [now];
        Settled(w, key, h, Decide(h, now, policy(key.filter)))
      case Sweep(_, _) => w
      case Forget(key, _) => Without(w, {key})
  }

  /** The verdict on hit `i` by the history that is never swept or evicted. */
  ghost function WholeVerdict(policy: nat -> Policy, ops: seq<Op>, i: nat): Verdict
    requires i < |ops| && ops[i].Hit?
  {
    Decide(HistoryAt(Whole(policy, ops[..i]), ops[i].key) + [ops[i].now], ops[i].now, policy(ops[i].key.filter))
  }

  /** Every key that is dropped has left its own window. */
  ghost predicate Harmless(policy: nat -> Policy, s: Histories, gone: set<TrackKey>, now: nat) {
    forall k :: k in gone && k in s ==> Idle(s[k], WindowStart(now, policy(k.filter).findtime))
  }

  /** What is kept of a whole history is its end; the beginning lies before the window. */
  ghost predicate EndOf(w: seq<nat>, h: seq<nat>, since: nat) {
    && |h| <= |w| && w[|w| - |h|..] == h
    && forall i :: 0 <= i < |w| - |h| ==> w[i] < since
  }

  ghost predicate Shadows(policy: nat -> Policy, w: Histories, s: Histories, clock: nat) {
    forall k :: EndOf(HistoryAt(w, k), HistoryAt(s, k), WindowStart(clock, policy(k.filter).findtime))
  }

  ghost predicate AllSorted(s: Histories, clock: nat) {
    forall k :: k in s ==> Sorted(s[k]) && forall i :: 0 <= i < |s[k]| ==> s[k][i] <= clock
  }

  lemma EndDecides(w: seq<nat>, h: seq<nat>, now: nat, p: Policy)
    requires EndOf(w, h, WindowStart(now, p.findtime))
    ensures Decide(w + [now], now, p) == Decide(h + [now], now, p)
    ensures EndOf(w + [now], h + [now], WindowStart(now, p.findtime))
  {
    var n := |w| - |h|;
    assert w == w[..n] + h;
    assert w + [now] == w[..n] + (h + [now]);
    ForgettingIdleIsHarmless(w[..n], h + [now], WindowStart(now, p.findtime), WindowStart(now, p.findtime));
  }

  /** A key that has left its window may be dropped. */
  lemma EndGone(w: seq<nat>, h: seq<nat>, since: nat)
    requires EndOf(w, h, since) && Idle(h, since) && Sorted(h)
    ensures EndOf(w, [], since)
  {
    forall i | 0 <= i < |w|
      ensures w[i] < since
    {
      if i >= |w| - |h| {
        assert w[i] == h[i - (|w| - |h|)];
      }
    }
  }

  lemma StepSorted(policy: nat -> Policy, size: nat, s: Histories, op: Op, gone: set<TrackKey>, t: Histories,
                   v: Option<Verdict>, clock: nat)
    requires Stepped(policy, size, s, op, gone, t, v) && AllSorted(s, clock) && clock <= op.now
    ensures AllSorted(t, op.now)
  {
    hide Decide;
  }

  lemma WithoutAt(s: Histories, gone: set<TrackKey>, k: TrackKey)
    ensures HistoryAt(Without(s, gone), k) == if k in gone then [] else HistoryAt(s, k)
  {
  }

  lemma SettledAt(s: Histories, key: TrackKey, h: seq<nat>, v: Verdict, k: TrackKey)
    ensures HistoryAt(Settled(s, key, h, v), k) == if k != key then HistoryAt(s, k) else if v.Ban? then [] else h
  {
  }

  /** Harmless drops leave the ends of the whole histories. */
  lemma DropShadows(policy: nat -> Policy, w: Histories, s: Histories, gone: set<TrackKey>, clock: nat, now: nat)
    requires AllSorted(s, clock) && clock <= now && Shadows(policy, w, s, clock) && Harmless(policy, s, gone, now)
    ensures Shadows(policy, w, Without(s, gone), now)
  {
    hide Idle, EndOf, Sorted, Without, HistoryAt;
    forall k: TrackKey
      ensures EndOf(HistoryAt(w, k), HistoryAt(Without(s, gone), k), WindowStart(now, policy(k.filter).findtime))
    {
      var since := WindowStart(now, policy(k.filter).findtime);
      EndLater(HistoryAt(w, k), HistoryAt(s, k), WindowStart(clock, policy(k.filter).findtime), since);
      WithoutAt(s, gone, k);
      HistoryAtSorted(s, k, clock);
      if k in gone {
        HarmlessAt(policy, s, gone, now, k);
        EndGone(HistoryAt(w, k), HistoryAt(s, k), since);
      }
    }
  }

  lemma HistoryAtSorted(s: Histories, k: TrackKey, clock: nat)
    requires AllSorted(s, clock)
    ensures Sorted(HistoryAt(s, k))
  {
  }

  lemma HarmlessAt(policy: nat -> Policy, s: Histories, gone: set<TrackKey>, now: nat, k: TrackKey)
    requires Harmless(policy, s, gone, now) && k in gone
    ensures Idle(HistoryAt(s, k), WindowStart(now, policy(k.filter).findtime))
  {
  }

  /** One operation whose drops are harmless: the verdict is that of the whole history, which what is kept
      goes on being the end of. */
  lemma StepShadows(policy: nat -> Policy, size: nat, w: Histories, s: Histories, op: Op, gone: set<TrackKey>, t: Histories,
                    v: Option<Verdict>, clock: nat)
    requires Stepped(policy, size, s, op, gone, t, v) && AllSorted(s, clock) && clock <= op.now
    requires Shadows(policy, w, s, clock) && Harmless(policy, s, gone, op.now)
    ensures op.Hit? ==>
              var h := HistoryAt(w, op.key) + [op.now];
              && v == Some(Decide(h, op.now, policy(op.key.filter)))
              && Shadows(policy, Settled(w, op.key, h, v.value), t, op.now)
    ensures op.Sweep? ==> Shadows(policy, w, t, op.now)
    ensures op.Forget? ==> Shadows(policy, Without(w, {op.key}), t, op.now)
  {
    hide Decide, Idle, EndOf, BatchSize, HasWrapped, Sorted, AllSorted, Harmless, Without, HistoryAt, Settled;
    DropShadows(policy, w, s, gone, clock, op.now);
    var kept := Without(s, gone);
    EndOfNothing();
    if op.Hit? {
      var key, p := op.key, policy(op.key.filter);
      var h := HistoryAt(s, key) + [op.now];
      EndLater(HistoryAt(w, key), HistoryAt(s, key), WindowStart(clock, p.findtime), WindowStart(op.now, p.findtime));
      EndDecides(HistoryAt(w, key), HistoryAt(s, key), op.now, p);
      forall k: TrackKey
        ensures EndOf(HistoryAt(Settled(w, key, HistoryAt(w, key) + [op.now], v.value), k), HistoryAt(t, k),
                      WindowStart(op.now, policy(k.filter).findtime))
      {
        SettledAt(w, key, HistoryAt(w, key) + [op.now], v.value, k);
        SettledAt(kept, key, h, v.value, k);
      }
    } else if op.Forget? {
      forall k: TrackKey
        ensures EndOf(HistoryAt(Without(w, {op.key}), k), HistoryAt(t, k), WindowStart(op.now, policy(k.filter).findtime))
      {
        WithoutAt(w, {op.key}, k);
        WithoutAt(s, {op.key}, k);
        WithoutAt(s, gone, k);
      }
    }
  }

  lemma EndLater(w: seq<nat>, h: seq<nat>, early: nat, late: nat)
    requires EndOf(w, h, early) && early <= late
    ensures EndOf(w, h, late)
  {
  }

  lemma EndOfNothing()
    ensures forall since: nat :: EndOf([], [], since)
  {
  }

  function ClockAt(ops: seq<Op>, n: nat): nat
    requires n <= |ops|
  {
    if n == 0 then 0 else ops[n - 1].now
  }

  ghost predicate HarmlessUpTo(policy: nat -> Policy, ops: seq<Op>, run: Run, n: nat)
    requires n <= |ops| && |run.states| == |ops| + 1 && |run.drops| == |ops|
  {
    forall i :: 0 <= i < n ==> Harmless(policy, run.states[i], run.drops[i], ops[i].now)
  }

  lemma {:induction false} RunShadows(policy: nat -> Policy, size: nat, ops: seq<Op>, run: Run, n: nat)
    requires IsRun(policy, size, ops, run) && InTime(ops) && n <= |ops| && HarmlessUpTo(policy, ops, run, n)
    ensures Shadows(policy, Whole(policy, ops[..n]), run.states[n], ClockAt(ops, n))
    ensures AllSorted(run.states[n], ClockAt(ops, n))
  {
    hide Shadows, AllSorted, Stepped, Harmless, Settled;
    if n == 0 {
      EmptyShadows(policy);
    } else {
      RunShadows(policy, size, ops, run, n - 1);
      var s, op := run.states[n - 1], ops[n - 1];
      var w := Whole(policy, ops[..n - 1]);
      assert ops[..n][..n - 1] == ops[..n - 1];
      assert Stepped(policy, size, s, op, run.drops[n - 1], run.states[n], run.verdicts[n - 1]);
      StepSorted(policy, size, s, op, run.drops[n - 1], run.states[n], run.verdicts[n - 1], ClockAt(ops, n - 1));
      StepShadows(policy, size, w, s, op, run.drops[n - 1], run.states[n], run.verdicts[n - 1], ClockAt(ops, n - 1));
    }
  }

  lemma EmptyShadows(policy: nat -> Policy)
    ensures Shadows(policy, map[], map[], 0) && AllSorted(map[], 0)
  {
  }

  /** Sweeps and evictions do not matter: as long as they have only dropped keys that had left their own
      windows, a hit gets the verdict of a history that is never swept or evicted. */
  lemma DropsDoNotMatter(policy: nat -> Policy, size: nat, ops: seq<Op>, run: Run, i: nat)
    requires IsRun(policy, size, ops, run) && InTime(ops) && i < |ops| && ops[i].Hit?
    requires HarmlessUpTo(policy, ops, run, i)
    ensures run.verdicts[i] == Some(WholeVerdict(policy, ops, i))
  {
    hide AllSorted, Settled, Whole, EndOf, Decide, Without, BatchSize, HistoryAt;
    RunShadows(policy, size, ops, run, i);
    var key, now, p := ops[i].key, ops[i].now, policy(ops[i].key.filter);
    var w, h := HistoryAt(Whole(policy, ops[..i]), key), HistoryAt(run.states[i], key);
    assert Stepped(policy, size, run.states[i], ops[i], run.drops[i], run.states[i + 1], run.verdicts[i]);
    EndLater(w, h, WindowStart(ClockAt(ops, i), p.findtime), WindowStart(now, p.findtime));
    EndDecides(w, h, now, p);
  }

  // ----- the cost of evictions -----

  /** The entries that evictions look at in a run: all of a full map, each time. */
  ghost function Inspected(size: nat, ops: seq<Op>, drops: seq<set<TrackKey>>, n: nat): nat
    requires n <= |ops| == |drops|
  {
    if n == 0 then 0
    else Inspected(size, ops, drops, n - 1) + if ops[n - 1].Hit? && drops[n - 1] != {} then size else 0
  }

  lemma StepSize(policy: nat -> Policy, size: nat, s: Histories, op: Op, gone: set<TrackKey>, t: Histories, v: Option<Verdict>)
    requires Stepped(policy, size, s, op, gone, t, v) && |s| <= size && size >= 16
    ensures |t| <= size
    ensures if !op.Hit? then |t| <= |s|
            else if gone == {} then |t| <= |s| + 1
            else |s| == size && |t| <= size - BatchSize(size) + 1
  {
    hide Decide, Idle, HasWrapped, BatchSize;
    match op
    case Hit(key, now) =>
      WithoutSize(s, gone);
      SettledSize(Without(s, gone), key, HistoryAt(s, key) + [now], v.value);
      assert gone == {} ==> Without(s, gone) == s;
    case Sweep(_, _) => WithoutShrinks(s, gone);
    case Forget(key, _) => WithoutShrinks(s, {key});
  }

  lemma SettledSize(s: Histories, key: TrackKey, h: seq<nat>, v: Verdict)
    ensures |Settled(s, key, h, v)| <= |s| + (if key in s then 0 else 1)
  {
    WithoutShrinks(s, {key});
    if v.Below? && key in s {
      assert s[key := h].Keys == s.Keys;
      assert |s[key := h]| == |s[key := h].Keys| && |s| == |s.Keys|;
    }
  }

  /** In every run evictions look at no more than 63 entries per hit, and no map outgrows its size. */
  lemma {:induction false} EvictionsAreCheap(policy: nat -> Policy, size: nat, ops: seq<Op>, run: Run, n: nat)
    requires IsRun(policy, size, ops, run) && size >= 16 && n <= |ops|
    ensures |run.states[n]| <= size
    ensures Inspected(size, ops, run.drops, n) + 63 * (|run.states[n]| - (size - BatchSize(size))) <= 63 * HitCount(ops[..n])
    ensures Inspected(size, ops, run.drops, n) <= 63 * HitCount(ops[..n])
  {
    hide Stepped, BatchSize;
    if n > 0 {
      EvictionsAreCheap(policy, size, ops, run, n - 1);
      assert ops[..n][..n - 1] == ops[..n - 1];
      assert Stepped(policy, size, run.states[n - 1], ops[n - 1], run.drops[n - 1], run.states[n], run.verdicts[n - 1]);
      StepSize(policy, size, run.states[n - 1], ops[n - 1], run.drops[n - 1], run.states[n], run.verdicts[n - 1]);
    }
  }

  ghost function HitCount(ops: seq<Op>): nat {
    if ops == [] then 0 else HitCount(ops[..|ops| - 1]) + if ops[|ops| - 1].Hit? then 1 else 0
  }

  /** A sweep over the longest window is harmless unless a busy key has had more hits than its limit, which is
      below 32. */
  lemma SweepHarmless(policy: nat -> Policy, size: nat, s: Histories, op: Op, gone: set<TrackKey>, t: Histories)
    requires Stepped(policy, size, s, op, gone, t, None) && op.Sweep?
    requires forall k :: k in s ==> policy(k.filter).findtime <= op.idle && !HasWrapped(s[k], policy(k.filter))
    ensures Harmless(policy, s, gone, op.now)
  {
  }

  lemma SameSize(windows: Windows, history: Histories, policy: nat -> Policy, clock: nat)
    requires Faithful(windows, history, policy, clock)
    ensures history.Keys == windows.Keys && |history| == |windows|
  {
    assert |history| == |history.Keys| && |windows| == |windows.Keys|;
  }

  /** One operation on a tracker. */
  method Do(t: Tracker, policy: nat -> Policy, op: Op) returns (v: Option<Verdict>, ghost gone: set<TrackKey>)
    requires t.Valid() && t.clock <= op.now && t.policies == policy
    modifies t
    ensures t.Valid() && t.clock <= op.now && t.hits == old(t.hits) + if op.Hit? then 1 else 0
    ensures t.inspected == old(t.inspected) + if op.Hit? && gone != {} then t.maxEntries else 0
    ensures Stepped(policy, t.maxEntries, old(t.history), op, gone, t.history, v)
  {
    hide Faithful, BatchSize, Decide, Settled, OldestFirst, Ages, Age, Without, Idle, HasWrapped;
    SameSize(t.entries, t.history, policy, t.clock);
    gone, v := {}, None;
    match op {
      case Hit(key, now) =>
        var verdict;
        assert forall k: TrackKey :: t.HistoryOf(k) == HistoryAt(t.history, k);
        GoneAreKeys(t.entries);
        verdict, gone := t.Hit(key, now, policy(key.filter).findtime, policy(key.filter).maxretry);
        v := Some(verdict);
      case Sweep(now, idle) =>
        gone := set k | k in t.entries && Age(t.entries[k]) < WindowStart(now, idle);
        var _ := t.Sweep(now, idle);
      case Forget(key, _) =>
        t.Forget(key);
    }
  }

  lemma GoneAreKeys(windows: Windows)
    ensures forall gone :: OldestFirst(Ages(windows), gone) ==> gone <= windows.Keys
  {
  }

  /** Any run of hits, sweeps and requests to forget, from an empty tracker: the map stays within its cap, and
      evictions inspect at most 63 entries per hit. */
  method Replay(max: nat, policy: nat -> Policy, ops: seq<Op>)
    returns (t: Tracker, verdicts: seq<Option<Verdict>>, ghost run: Run)
    requires (forall f :: policy(f).Valid()) && InTime(ops)
    ensures t.Valid() && t.maxEntries == Max(max, 16) && |t.entries| <= t.maxEntries
    ensures IsRun(policy, Max(max, 16), ops, run) && verdicts == run.verdicts && t.history == run.states[|ops|]
    ensures t.hits == HitCount(ops) && t.inspected == Inspected(Max(max, 16), ops, run.drops, |ops|)
    ensures Inspected(Max(max, 16), ops, run.drops, |ops|) <= 63 * HitCount(ops)
  {
    hide Policy.Valid, Stepped, Tracker.Valid, IsRun, HitCount, Inspected;
    var size := Max(max, 16);
    t := new Tracker(max, policy);
    verdicts, run := [], Run([map[]], [], []);
    RunEmpty(policy, size);
    for i := 0 to |ops|
      invariant t.Valid() && t.policies == policy && t.maxEntries == size && fresh(t)
      invariant |run.states| == i + 1 && |run.drops| == i
      invariant t.inspected == Inspected(size, ops[..i], run.drops, i) && t.hits == HitCount(ops[..i])
      invariant if i == 0 then t.clock == 0 else t.clock <= ops[i - 1].now
      invariant IsRun(policy, size, ops[..i], run) && verdicts == run.verdicts && t.history == run.states[i]
    {
      ghost var before := run;
      var v;
      ghost var gone;
      v, gone := Do(t, policy, ops[i]);
      verdicts := verdicts + [v];
      run := Run(run.states + [t.history], run.drops + [gone], verdicts);
      RunSnoc(policy, size, ops[..i], before, ops[i], gone, t.history, v);
      InspectedSnoc(size, ops[..i], before.drops, ops[i], gone);
      assert ops[..i] + [ops[i]] == ops[..i + 1];
    }
    assert ops[..|ops|] == ops;
    EvictionsAreCheap(policy, size, ops, run, |ops|);
    t.Bounded();
  }

  lemma RunEmpty(policy: nat -> Policy, size: nat)
    ensures IsRun(policy, size, [], Run([map[]], [], [])) && Inspected(size, [], [], 0) == 0 == HitCount([])
  {
  }

  lemma InspectedSnoc(size: nat, ops: seq<Op>, drops: seq<set<TrackKey>>, op: Op, gone: set<TrackKey>)
    requires |ops| == |drops|
    ensures Inspected(size, ops + [op], drops + [gone], |ops| + 1)
         == Inspected(size, ops, drops, |ops|) + if op.Hit? && gone != {} then size else 0
    ensures HitCount(ops + [op]) == HitCount(ops) + if op.Hit? then 1 else 0
  {
    InspectedStay(size, ops, drops, op, gone, |ops|);
    assert (ops + [op])[..|ops|] == ops;
  }

  lemma {:induction false} InspectedStay(size: nat, ops: seq<Op>, drops: seq<set<TrackKey>>, op: Op, gone: set<TrackKey>, n: nat)
    requires n <= |ops| == |drops|
    ensures Inspected(size, ops + [op], drops + [gone], n) == Inspected(size, ops, drops, n)
  {
    if n > 0 {
      InspectedStay(size, ops, drops, op, gone, n - 1);
    }
  }

  lemma RunSnoc(policy: nat -> Policy, size: nat, ops: seq<Op>, run: Run, op: Op, gone: set<TrackKey>, t: Histories,
                v: Option<Verdict>)
    requires IsRun(policy, size, ops, run) && Stepped(policy, size, run.states[|ops|], op, gone, t, v)
    ensures IsRun(policy, size, ops + [op], Run(run.states + [t], run.drops + [gone], run.verdicts + [v]))
  {
    hide Stepped;
    var more, all := Run(run.states + [t], run.drops + [gone], run.verdicts + [v]), ops + [op];
    forall i | 0 <= i < |all|
      ensures Stepped(policy, size, more.states[i], all[i], more.drops[i], more.states[i + 1], more.verdicts[i])
    {
      if i < |ops| {
        assert Stepped(policy, size, run.states[i], ops[i], run.drops[i], run.states[i + 1], run.verdicts[i]);
      }
    }
  }
}
