/** The ban history that escalation looks at, against the event log that it can be rebuilt from. */
module History {
  import opened Nets
  import opened Tracker
  import opened Wrappers

  datatype Event =
    | Started(ts: nat)
    | Banned(ts: nat, net: Net, filter: Option<nat>, ttl: nat, hits: nat, escalation: nat, manual: bool)
    | Unbanned(ts: nat, net: Net)

  datatype BanHistory = BanHistory(count: nat, last: nat)

  type Table = map<Net, BanHistory>

  predicate IsAutoBan(e: Event, net: Net) {
    e.Banned? && !e.manual && e.net == net
  }

  /** When a network was banned automatically, according to the log. */
  ghost function Times(log: seq<Event>, net: Net): seq<nat> {
    if log == [] then []
    else Times(log[..|log| - 1], net) + if IsAutoBan(log[|log| - 1], net) then [log[|log| - 1].ts] else []
  }

  lemma TimesSnoc(log: seq<Event>, e: Event, net: Net)
    ensures Times(log + [e], net) == Times(log, net) + if IsAutoBan(e, net) then [e.ts] else []
  {
    assert (log + [e])[..|log|] == log;
  }

  /** The table entry after one more ban at `ts`. */
  function Again(table: Table, net: Net, ts: nat): Table {
    table[net := BanHistory(if net in table then table[net].count + 1 else 1, ts)]
  }

  /** What a restart makes of the log: the automatic bans not older than the cutoff. */
  ghost function Rebuilt(log: seq<Event>, cutoff: nat): Table {
    if log == [] then map[]
    else
      var t, e := Rebuilt(log[..|log| - 1], cutoff), log[|log| - 1];
      if e.Banned? && !e.manual && e.ts >= cutoff then Again(t, e.net, e.ts) else t
  }

  lemma RebuiltSnoc(log: seq<Event>, e: Event, cutoff: nat)
    ensures Rebuilt(log + [e], cutoff)
         == if e.Banned? && !e.manual && e.ts >= cutoff then Again(Rebuilt(log, cutoff), e.net, e.ts)
            else Rebuilt(log, cutoff)
  {
    assert (log + [e])[..|log|] == log;
  }

  /** Stamps of the log in order, none later than the clock. */
  ghost predicate InOrder(log: seq<Event>, clock: nat) {
    && (forall i, j :: 0 <= i <= j < |log| ==> log[i].ts <= log[j].ts)
    && (forall i :: 0 <= i < |log| ==> log[i].ts <= clock)
  }

  lemma InOrderLater(log: seq<Event>, clock: nat, now: nat)
    requires InOrder(log, clock) && clock <= now
    ensures InOrder(log, now)
  {
  }

  lemma InOrderSnoc(log: seq<Event>, clock: nat, e: Event)
    requires InOrder(log, clock) && e.ts == clock
    ensures InOrder(log + [e], clock)
  {
  }

  lemma {:induction false} TimesInOrder(log: seq<Event>, clock: nat, net: Net)
    requires InOrder(log, clock)
    ensures Sorted(Times(log, net))
    ensures Times(log, net) != [] ==> log != [] && Times(log, net)[|Times(log, net)| - 1] <= log[|log| - 1].ts <= clock
    decreases |log|
  {
    if log != [] {
      var init := log[..|log| - 1];
      assert InOrder(init, clock);
      TimesInOrder(init, clock, net);
    }
  }

  lemma CountOne(h: seq<nat>, t: nat, since: nat)
    ensures CountSince(h + [t], since) == CountSince(h, since) + if t >= since then 1 else 0
  {
    assert (h + [t])[..|h|] == h;
  }

  lemma OldLogUncounted(log: seq<Event>, clock: nat, cutoff: nat, net: Net)
    requires InOrder(log, clock) && clock < cutoff
    ensures CountSince(Times(log, net), cutoff) == 0
  {
    hide Times;
    TimesInOrder(log, clock, net);
    CountSinceNone(Times(log, net), cutoff);
  }

  /** Rebuilding counts, for every network, its automatic bans not older than the cutoff. */
  lemma {:induction false} RebuiltCounts(log: seq<Event>, clock: nat, cutoff: nat, net: Net)
    requires InOrder(log, clock)
    ensures var t := Times(log, net);
            && (net in Rebuilt(log, cutoff) <==> CountSince(t, cutoff) > 0)
            && (net in Rebuilt(log, cutoff) ==>
                  Rebuilt(log, cutoff)[net] == BanHistory(CountSince(t, cutoff), t[|t| - 1]))
    decreases |log|
  {
    if log != [] {
      var init, e := log[..|log| - 1], log[|log| - 1];
      assert InOrder(init, clock);
      RebuiltCounts(init, clock, cutoff, net);
      if IsAutoBan(e, net) {
        CountOne(Times(init, net), e.ts, cutoff);
        if e.ts < cutoff {
          assert InOrder(init, e.ts);
          OldLogUncounted(init, e.ts, cutoff, net);
        }
      } else {
        assert Times(init, net) + [] == Times(init, net);
      }
    }
  }

  /** The live entry of a network against its bans in the log. */
  ghost predicate EntryAgrees(table: Table, t: seq<nat>, net: Net, cutoff: nat) {
    if net in table then
      t != [] && table[net].last == t[|t| - 1] && CountSince(t, cutoff) <= table[net].count <= |t|
    else
      CountSince(t, cutoff) == 0
  }

  /** The live table agrees with the log for every network that has not been trimmed away. */
  ghost predicate Agrees(table: Table, log: seq<Event>, cutoff: nat, trimmed: set<Net>) {
    forall net :: net !in trimmed ==> EntryAgrees(table, Times(log, net), net, cutoff)
  }

  lemma AgreesLater(table: Table, log: seq<Event>, cutoff: nat, later: nat, trimmed: set<Net>)
    requires Agrees(table, log, cutoff, trimmed) && cutoff <= later
    ensures Agrees(table, log, later, trimmed)
  {
    hide Times;
    forall net | net !in trimmed
      ensures EntryAgrees(table, Times(log, net), net, later)
    {
      CountSinceLater(Times(log, net), cutoff, later);
    }
  }

  /** Events other than automatic bans do not matter. */
  lemma AgreesOther(table: Table, log: seq<Event>, e: Event, cutoff: nat, trimmed: set<Net>)
    requires Agrees(table, log, cutoff, trimmed) && (e.Banned? ==> e.manual)
    ensures Agrees(table, log + [e], cutoff, trimmed)
  {
    hide CountSince;
    forall net | net !in trimmed
      ensures EntryAgrees(table, Times(log + [e], net), net, cutoff)
    {
      TimesSnoc(log, e, net);
      assert Times(log + [e], net) == Times(log, net);
    }
  }

  /** An automatic ban goes into the table and into the log. */
  lemma AgreesBan(table: Table, log: seq<Event>, e: Event, cutoff: nat, trimmed: set<Net>)
    requires Agrees(table, log, cutoff, trimmed)
    requires e.Banned? && !e.manual && cutoff <= e.ts
    ensures Agrees(Again(table, e.net, e.ts), log + [e], cutoff, trimmed)
  {
    hide CountSince, Times;
    forall net | net !in trimmed
      ensures EntryAgrees(Again(table, e.net, e.ts), Times(log + [e], net), net, cutoff)
    {
      TimesSnoc(log, e, net);
      CountOne(Times(log, net), e.ts, cutoff);
      assert Times(log, net) + [] == Times(log, net);
    }
  }

  /** Forgetting what is older than the cutoff. */
  lemma AgreesExpire(table: Table, log: seq<Event>, clock: nat, cutoff: nat, trimmed: set<Net>)
    requires Agrees(table, log, cutoff, trimmed) && InOrder(log, clock)
    ensures Agrees(map net | net in table && table[net].last >= cutoff :: table[net], log, cutoff, trimmed)
  {
    hide Times;
    var kept := map net | net in table && table[net].last >= cutoff :: table[net];
    forall net | net !in trimmed
      ensures EntryAgrees(kept, Times(log, net), net, cutoff)
    {
      if net in table && net !in kept {
        TimesInOrder(log, clock, net);
        CountSinceNone(Times(log, net), cutoff);
      }
    }
  }

  lemma AgreesTrim(table: Table, log: seq<Event>, cutoff: nat, trimmed: set<Net>, gone: set<Net>)
    requires Agrees(table, log, cutoff, trimmed)
    ensures Agrees(Without(table, gone), log, cutoff, trimmed + gone)
  {
    hide Times, CountSince;
  }

  /** A fresh table rebuilt from the log agrees with it. */
  lemma AgreesRebuilt(log: seq<Event>, clock: nat, cutoff: nat)
    requires InOrder(log, clock)
    ensures Agrees(Rebuilt(log, cutoff), log, cutoff, {})
  {
    forall net
      ensures EntryAgrees(Rebuilt(log, cutoff), Times(log, net), net, cutoff)
    {
      RebuiltCounts(log, clock, cutoff, net);
    }
  }

  /** After the old entries have been forgotten, rebuilding from the log gives the same networks and last
      stamps, counts that are no larger, and equal counts where the log holds no older bans. */
  lemma RebuildingIsFaithful(table: Table, log: seq<Event>, clock: nat, cutoff: nat, trimmed: set<Net>, net: Net)
    requires Agrees(table, log, cutoff, trimmed) && InOrder(log, clock) && net !in trimmed
    requires forall n :: n in table ==> table[n].last >= cutoff
    ensures var r := Rebuilt(log, cutoff);
            && (net in r <==> net in table)
            && (net in r ==> r[net].last == table[net].last && r[net].count <= table[net].count)
            && (net in r && (forall i :: 0 <= i < |Times(log, net)| ==> Times(log, net)[i] >= cutoff) ==>
                  r[net] == table[net])
  {
    RebuiltCounts(log, clock, cutoff, net);
    var t := Times(log, net);
    if net in table {
      assert t == t[..|t| - 1] + [t[|t| - 1]];
      CountOne(t[..|t| - 1], t[|t| - 1], cutoff);
    }
    if forall i :: 0 <= i < |t| ==> t[i] >= cutoff {
      CountSinceAll(t, cutoff);
    }
  }

  /** Reading the log at a start. */
  method RebuildTable(log: seq<Event>, cutoff: nat) returns (table: Table)
    ensures table == Rebuilt(log, cutoff)
  {
    table := map[];
    for i := 0 to |log|
      invariant table == Rebuilt(log[..i], cutoff)
    {
      assert log[..i + 1] == log[..i] + [log[i]];
      RebuiltSnoc(log[..i], log[i], cutoff);
      var e := log[i];
      if e.Banned? && !e.manual && e.ts >= cutoff {
        table := Again(table, e.net, e.ts);
      }
    }
    assert log[..|log|] == log;
  }

  /** What may be dropped from a table to keep it below its cap: nothing unless it is full, else the oldest
      entries down to 31/32 of the cap. */
  ghost predicate Trims(maxTracked: nat, table: Table, gone: set<Net>) {
    var cap := Max(maxTracked, 16);
    && gone <= table.Keys
    && (|table| < cap ==> gone == {})
    && (|table| >= cap ==> |Without(table, gone)| == cap - Max(cap / 32, 1))
    && forall g, s :: g in gone && s in table && s !in gone ==> table[g].last <= table[s].last
  }

  method TrimTable(table: Table, maxTracked: nat) returns (kept: Table, ghost gone: set<Net>)
    ensures kept == Without(table, gone) && Trims(maxTracked, table, gone) && |kept| < Max(maxTracked, 16)
    ensures var cap := if maxTracked < 16 then 16 else maxTracked;
            if |table| < cap then kept == table
            else if cap < 32 then |kept| == cap - 1
            else 32 * (cap - |kept|) <= cap < 32 * (cap - |kept|) + 32
  {
    var cap := Max(maxTracked, 16);
    if |table| < cap {
      gone := {};
      assert Without(table, gone) == table;
      return table, gone;
    }
    var keep := cap - Max(cap / 32, 1);
    var all := map n | n in table :: table[n].last;
    assert |all| == |table| by {
      assert all.Keys == table.Keys && |all| == |all.Keys| && |table| == |table.Keys|;
    }
    var oldest := SelectOldest(all, |table| - keep);
    WithoutSize(table, oldest);
    kept := Without(table, oldest);
    gone := oldest;
  }
}
