/** The engine: hits become bans, bans go to the firewall backend, and a mirror of the backend, an
    escalation history and an event log are kept beside it. */
module Engine {
  import opened Escalation
  import opened History
  import opened Nets
  import opened Tracker
  import opened Wrappers

  // ----- addresses and keys -----

  /** 127.0.0.0/8, 0.0.0.0, ::1 and ::. */
  predicate LoopbackOrUnspecified(ip: Ip) {
    match ip.family
    case V4 => 0x7F00_0000 <= ip.addr <= 0x7FFF_FFFF || ip.addr == 0
    case V6 => ip.addr <= 1
  }

  /** The network that is tracked and banned for an address. */
  function ToKey(ip: Ip, v6Prefix: nat): Net
    requires ip.Valid()
  {
    if ip.family == V4 then Host(ip) else Net(V6, ip.addr, Min(v6Prefix, 128)).Trunc()
  }

  lemma ToKeyCanonical(ip: Ip, v6Prefix: nat)
    requires ip.Valid()
    ensures ToKey(ip, v6Prefix).Canonical() && ToKey(ip, v6Prefix).Contains(ip)
  {
    if ip.family == V6 {
      NetBounds(Net(V6, ip.addr, Min(v6Prefix, 128)));
    }
  }

  /** The network of an address is the one block of its size that the address lies in: itself for IPv4, a block of
      the configured prefix for IPv6. */
  lemma ToKeyExact(ip: Ip, v6Prefix: nat, n: Net)
    requires ip.Valid() && v6Prefix <= 128
    ensures n == ToKey(ip, v6Prefix)
       <==> n.Canonical() && n.family == ip.family && n.len == (if ip.family == V4 then 32 else v6Prefix) && n.Contains(ip)
  {
    hide Pow2, ClearLow;
    var key := if ip.family == V4 then Host(ip) else Net(V6, ip.addr, v6Prefix);
    NetBounds(key);
    HostKey(ip);
    if n.Valid() {
      ContainsByMask(n, ip);
    }
  }

  lemma HostKey(ip: Ip)
    requires ip.Valid()
    ensures Host(ip).Canonical() && ClearLow(ip.addr, 0) == ip.addr
  {
  }

  /** 127.0.0.0/8, 0.0.0.0, ::1 and ::, as networks and addresses. */
  ghost predicate LocalAddress(ip: Ip) {
    || (Net(V4, 0x7F00_0000, 8).Valid() && Net(V4, 0x7F00_0000, 8).Contains(ip))
    || ip in {Ip(V4, 0), Ip(V6, 1), Ip(V6, 0)}
  }

  lemma LocalExact(ip: Ip)
    ensures LoopbackOrUnspecified(ip) <==> LocalAddress(ip)
  {
    Pow32();
    Block127();
    hide Pow2, ClearLow;
  }

  lemma Block127()
    ensures Pow2(24) == 0x100_0000 && ClearLow(0x7F00_0000, 24) == 0x7F00_0000
  {
    assert Pow2(8) == 0x100;
    assert Pow2(16) == 0x1_0000;
    assert ClearLow(0x7F00, 8) == 0x7F00;
    assert ClearLow(0x7F_0000, 16) == 0x7F_0000;
  }

  // ----- the guard -----

  ghost predicate AllNetsValid(nets: seq<Net>) {
    forall i :: 0 <= i < |nets| ==> nets[i].Valid()
  }

  predicate OverlapsAny(allow: seq<Net>, net: Net)
    requires AllNetsValid(allow) && net.Valid()
  {
    exists i :: 0 <= i < |allow| && Overlaps(allow[i], net)
  }

  /** No network handed to the backend contains an address of an allowed network. */
  ghost predicate Guarded(issued: seq<Net>, allow: seq<Net>) {
    && AllNetsValid(issued) && AllNetsValid(allow)
    && forall i, j :: 0 <= i < |issued| && 0 <= j < |allow| ==> !ShareAddress(allow[j], issued[i])
  }

  lemma GuardedMore(issued: seq<Net>, allow: seq<Net>, net: Net)
    requires Guarded(issued, allow) && net.Valid() && !OverlapsAny(allow, net)
    ensures Guarded(issued + [net], allow)
  {
    hide ShareAddress, Overlaps;
    forall j | 0 <= j < |allow|
      ensures !ShareAddress(allow[j], net)
    {
      OverlapsIffShareAddress(allow[j], net);
    }
  }

  // ----- the mirror -----

  /** A ban in the mirror, by the filter that caused it if any. */
  datatype ActiveBan = ActiveBan(until: nat, filter: Option<nat>)

  type Mirror = map<Net, ActiveBan>

  /** The bans of the kernel, by canonical network, with their expiry times; some have none. */
  type Kernel = map<Net, Option<nat>>

  predicate Live(kernel: Kernel, net: Net, now: nat) {
    net in kernel && (kernel[net] == None || kernel[net].value > now)
  }

  /** The time at which a mirror entry ends. */
  function Until(expiry: Option<nat>): nat {
    expiry.GetOr(U32_MAX)
  }

  predicate MirrorLive(mirror: Mirror, net: Net, now: nat) {
    net in mirror && mirror[net].until > now
  }

  /** Every live ban of the kernel is in the mirror, with its expiry. */
  ghost predicate Covers(mirror: Mirror, kernel: Kernel, now: nat) {
    forall n :: Live(kernel, n, now) ==> n in mirror && mirror[n].until == Until(kernel[n]) <= U32_MAX
  }

  /** Every live entry of the mirror is a live ban of the kernel, with its expiry. */
  ghost predicate Exact(mirror: Mirror, kernel: Kernel, now: nat) {
    forall n :: MirrorLive(mirror, n, now) ==> Live(kernel, n, now) && mirror[n].until == Until(kernel[n])
  }

  /** A ban whose expiry the mirror can represent. */
  predicate Representable(now: nat, ttl: nat) {
    1 <= ttl <= U32_MAX && now + ttl <= U32_MAX
  }

  function MirrorUntil(now: nat, ttl: nat): nat {
    SatAdd32(now, Low32(ttl))
  }

  lemma MirrorLater(mirror: Mirror, kernel: Kernel, clock: nat, now: nat)
    requires clock <= now < U32_MAX
    ensures Covers(mirror, kernel, clock) ==> Covers(mirror, kernel, now)
    ensures Exact(mirror, kernel, clock) ==> Exact(mirror, kernel, now)
  {
  }

  /** A ban that the backend accepted is entered on both sides. For a canonical network both sides agree on
      it exactly if the mirror can represent the expiry. */
  lemma MirrorBan(mirror: Mirror, kernel: Kernel, now: nat, net: Net, ttl: nat, filter: Option<nat>)
    requires net.Canonical() && now < U32_MAX
    ensures var m, k := mirror[net := ActiveBan(MirrorUntil(now, ttl), filter)], kernel[net := Some(now + Max(ttl, 1))];
            && (Representable(now, ttl) <==> Live(k, net, now) && MirrorLive(m, net, now) && m[net].until == Until(k[net]))
            && (Covers(mirror, kernel, now) ==> (Covers(m, k, now) <==> Representable(now, ttl)))
            && (Exact(mirror, kernel, now) && Representable(now, ttl) ==> Exact(m, k, now))
  {
  }

  /** The kernel knows networks by their canonical form only: a manual ban of a network with host bits
      splits the mirror from the kernel, and no other accepted, representable ban does. */
  lemma MirrorBanIffCanonical(mirror: Mirror, kernel: Kernel, now: nat, net: Net, ttl: nat)
    requires net.Valid() && now < U32_MAX && Representable(now, ttl)
    requires forall n :: n in kernel ==> n.Canonical()
    requires Covers(mirror, kernel, now) && Exact(mirror, kernel, now)
    ensures var m, k := mirror[net := ActiveBan(MirrorUntil(now, ttl), None)], kernel[net.Trunc() := Some(now + Max(ttl, 1))];
            Covers(m, k, now) && Exact(m, k, now) <==> net.Canonical()
  {
    hide Pow2, ClearLow, Covers, Live, MirrorLive;
    NetBounds(net);
    var m, k := mirror[net := ActiveBan(MirrorUntil(now, ttl), None)], kernel[net.Trunc() := Some(now + Max(ttl, 1))];
    if net.Canonical() {
      assert net.Trunc() == net;
      MirrorBan(mirror, kernel, now, net, ttl, None);
    } else {
      AbsentIsInexact(m, k, now, net);
    }
  }

  /** An input, as a program may send it over the control socket: 203.0.113.7/24 is banned, the kernel holds
      203.0.113.0/24, and neither side has the other's entry. */
  lemma HostBitsSplitMirror(now: nat, ttl: nat)
    requires now < U32_MAX && Representable(now, ttl)
    ensures var net, block := Net(V4, 0xCB00_7107, 24), Net(V4, 0xCB00_7100, 24);
            var m: Mirror := map[net := ActiveBan(MirrorUntil(now, ttl), None)];
            && net.Valid() && net.Trunc() == block
            && var k := KernelBan(map[], net, ttl, now, Works);
               && MirrorLive(m, net, now) && !Live(k, net, now)
               && Live(k, block, now) && !MirrorLive(m, block, now)
  {
    Pow32();
    assert ClearLow(0xCB00_7107, 8) == 0xCB00_7100;
  }

  /** An input: a ban of 2^32 seconds is in the kernel for that long, and has ended for the mirror when it is
      entered. */
  lemma LongBanIsNotMirrored(net: Net, now: nat)
    requires net.Canonical() && now < U32_MAX
    ensures var ttl := 0x1_0000_0000;
            var m: Mirror := map[net := ActiveBan(MirrorUntil(now, ttl), None)];
            var k := KernelBan(map[], net, ttl, now, Works);
            Live(k, net, now) && !MirrorLive(m, net, now) && !Covers(m, k, now)
  {
    CanonicalIsItself(net);
    var k := KernelBan(map[], net, 0x1_0000_0000, now, Works);
    assert Live(k, net, now);
  }

  lemma AbsentIsInexact(mirror: Mirror, kernel: Kernel, now: nat, net: Net)
    requires net in mirror && mirror[net].until > now && net !in kernel
    ensures !Exact(mirror, kernel, now)
  {
    assert MirrorLive(mirror, net, now);
  }

  function Unexpired(mirror: Mirror, now: nat): Mirror {
    map n | n in mirror && mirror[n].until > now :: mirror[n]
  }

  /** Expiring and reconciling the mirror. */
  lemma MirrorRetain(mirror: Mirror, kernel: Kernel, now: nat)
    requires now < U32_MAX
    ensures var m := Unexpired(mirror, now);
            && (Covers(mirror, kernel, now) ==> Covers(m, kernel, now))
            && (Exact(mirror, kernel, now) ==> Exact(m, kernel, now))
    ensures var m := map n | n in mirror && Live(kernel, n, now) :: mirror[n];
            && (Covers(mirror, kernel, now) ==> Covers(m, kernel, now) && Exact(m, kernel, now))
            && (Exact(mirror, kernel, now) ==> Exact(m, kernel, now))
  {
  }

  lemma CanonicalIsItself(net: Net)
    requires net.Canonical()
    ensures net.Trunc() == net
  {
  }

  /** The mirror that a start makes of the kernel. */
  function MirrorOf(kernel: Kernel, now: nat): Mirror
    requires now <= U32_MAX
  {
    map n | n in kernel && Live(kernel, n, now) ::
      ActiveBan(SatAdd32(now, if kernel[n].Some? then Low32(kernel[n].value - now) else U32_MAX - now), None)
  }

  /** No live ban outlasts the 32-bit clock. */
  ghost predicate InClockRange(kernel: Kernel, now: nat) {
    forall n :: Live(kernel, n, now) ==> Until(kernel[n]) <= U32_MAX
  }

  lemma MirrorOfKernel(kernel: Kernel, now: nat)
    requires now < U32_MAX && InClockRange(kernel, now)
    ensures Covers(MirrorOf(kernel, now), kernel, now) && Exact(MirrorOf(kernel, now), kernel, now)
  {
  }

  // ----- the backend -----

  /** What becomes of a call to the firewall. A ban that half works has deleted an older element and not added
      the new one; a deletion that half works is reported as done and is not. */
  datatype Fate = Works | HalfWorks | Fails

  /** Re-adding an element fails, so it is deleted first. */
  function KernelBan(kernel: Kernel, net: Net, ttl: nat, now: nat, fate: Fate): Kernel
    requires net.Valid()
  {
    match fate
    case Works => kernel[net.Trunc() := Some(now + Max(ttl, 1))]
    case HalfWorks => Without(kernel, {net.Trunc()})
    case Fails => kernel
  }

  /** The firewall, as far as the engine sees it: one element per canonical network. */
  class Backend {
    var bans: Kernel
    /** Every network that was to be banned, in order. */
    ghost var asked: seq<Net>

    ghost predicate Valid()
      reads this
    {
      forall n :: n in bans ==> n.Canonical()
    }

    constructor ()
      ensures Valid() && bans == map[] && asked == []
    {
      bans, asked := map[], [];
    }

    method Ban(net: Net, ttl: nat, now: nat, fate: Fate) returns (ok: bool)
      requires Valid() && net.Valid()
      modifies this
      ensures Valid() && bans == KernelBan(old(bans), net, ttl, now, fate) && asked == old(asked) + [net]
      ensures ok == fate.Works?
    {
      NetBounds(net);
      asked := asked + [net];
      if fate.Fails? {
        return false;
      }
      ghost var before := bans;
      bans := Without(bans, {net.Trunc()});
      if fate.HalfWorks? {
        return false;
      }
      bans := bans[net.Trunc() := Some(now + Max(ttl, 1))];
      assert bans == before[net.Trunc() := Some(now + Max(ttl, 1))];
      return true;
    }

    /** Deleting a missing element is not an error. */
    method Unban(net: Net, fate: Fate) returns (ok: bool)
      requires Valid() && net.Valid()
      modifies this
      ensures Valid() && bans == (if fate.Works? then Without(old(bans), {net.Trunc()}) else old(bans))
      ensures asked == old(asked) && ok == !fate.Fails?
    {
      if fate.Works? {
        bans := Without(bans, {net.Trunc()});
      }
      return !fate.Fails?;
    }

    /** The live bans with their remaining lifetimes. */
    method List(now: nat) returns (entries: map<Net, Option<nat>>)
      ensures entries == Listing(bans, now)
    {
      entries := map n | n in bans && Live(bans, n, now) :: if bans[n].Some? then Some(bans[n].value - now) else None;
    }
  }

  function Listing(kernel: Kernel, now: nat): map<Net, Option<nat>> {
    map n | n in kernel && Live(kernel, n, now) :: if kernel[n].Some? then Some(kernel[n].value - now) else None
  }

  // ----- the configuration -----

  datatype Filter = Filter(findtime: nat, maxretry: nat, bantime: nat)

  datatype Config = Config(
    filters: seq<Filter>,
    allow: seq<Net>,
    bantime: nat,
    escalate: bool, factor: nat, max: nat, memory: nat,
    v6Prefix: nat, maxTracked: nat)
  {
    /** What is checked when the configuration is loaded. */
    ghost predicate Valid() {
      && (forall i :: 0 <= i < |filters| ==>
            1 <= filters[i].maxretry <= MAX_RETRY_CAP && filters[i].bantime <= U64_MAX)
      && AllNetsValid(allow) && 1 <= v6Prefix <= 128
      && max <= U64_MAX && bantime <= U64_MAX
    }
  }

  datatype Decision = Decision(filter: nat, net: Net, banned: bool, hits: nat)

  /** The policy of each filter, as the tracker sees it. */
  function PolicyOf(filters: seq<Filter>): nat -> Policy {
    (f: nat) => if f < |filters| then Policy(filters[f].findtime, filters[f].maxretry) else Policy(0, 1)
  }

  /** Every ban length that the configuration can produce is representable at `now`. */
  ghost predicate FitsClock(cfg: Config, now: nat) {
    forall i :: 0 <= i < |cfg.filters| ==>
      1 <= cfg.filters[i].bantime && Representable(now, Max(cfg.filters[i].bantime, cfg.max))
  }

  lemma NextTtlFits(cfg: Config, table: Table, idx: nat, net: Net, now: nat)
    requires idx < |cfg.filters| && FitsClock(cfg, now)
    ensures Representable(now, NextTtl(cfg, table, cfg.filters[idx].bantime, net, now).0)
  {
  }

  /** The length of the next ban, and the number of earlier ones it is based on. */
  ghost function NextTtl(cfg: Config, table: Table, base: nat, net: Net, now: nat): (nat, nat) {
    if !cfg.escalate || net !in table || SatSub(now, table[net].last) > cfg.memory then (base, 0)
    else (Escalated(base, cfg.factor, cfg.max, table[net].count), table[net].count)
  }

  lemma FilterFacts(cfg: Config, idx: nat)
    requires cfg.Valid() && idx < |cfg.filters|
    ensures cfg.filters[idx].bantime <= U64_MAX
    ensures 1 <= cfg.filters[idx].maxretry <= MAX_RETRY_CAP && 1 <= cfg.v6Prefix <= 128
  {
  }

  lemma PoliciesValid(cfg: Config)
    requires cfg.Valid()
    ensures forall f :: PolicyOf(cfg.filters)(f).Valid()
  {
  }

  lemma AllowFacts(cfg: Config)
    requires cfg.Valid()
    ensures AllNetsValid(cfg.allow) && cfg.max <= U64_MAX
  {
  }

  /** The window that a sweep spares: the longest of any filter. */
  ghost predicate IsLongest(filters: seq<Filter>, idle: nat) {
    && (forall i :: 0 <= i < |filters| ==> filters[i].findtime <= idle)
    && if filters == [] then idle == 600 else exists i :: 0 <= i < |filters| && filters[i].findtime == idle
  }

  // ----- one step of the engine -----

  /** Everything at one moment: the kernel's bans, the mirror, the ban history with what was ever trimmed from
      it, the event log, the networks handed to the firewall, the hits of each key, the number of bans, and the
      time of the last housekeeping. */
  datatype Snapshot = Snapshot(kernel: Kernel, active: Mirror, table: Table, trimmed: set<Net>, log: seq<Event>,
                               asked: seq<Net>, hits: Histories, bans: nat, swept: nat)

  datatype Command =
    | Hit(filter: nat, ip: Ip)
    | Ban(net: Net, ttl: Option<nat>)
    | Lift(net: Net)
    | Housekeep
    | Show
    | Restart

  /** A command with the time at which it is carried out and the fate of its call to the firewall, if it makes
      one. */
  datatype Entry = Entry(command: Command, fate: Fate, now: nat)

  ghost predicate WellFormed(cfg: Config, e: Entry) {
    && e.now < U32_MAX
    && match e.command
       case Hit(f, ip) => f < |cfg.filters| && ip.Valid()
       case Ban(net, _) => net.Valid()
       case Lift(net) => net.Valid()
       case _ => true
  }

  predicate Allowed(cfg: Config, ip: Ip)
    requires AllNetsValid(cfg.allow)
  {
    LoopbackOrUnspecified(ip) || exists i :: 0 <= i < |cfg.allow| && cfg.allow[i].Contains(ip)
  }

  /** A hit is ignored if its address, or an address that its ban would include, is exempt. */
  predicate Ignored(cfg: Config, ip: Ip)
    requires AllNetsValid(cfg.allow) && ip.Valid()
  {
    ToKeyCanonical(ip, cfg.v6Prefix);
    Allowed(cfg, ip) || OverlapsAny(cfg.allow, ToKey(ip, cfg.v6Prefix))
  }

  predicate Exempt(cfg: Config, net: Net)
    requires AllNetsValid(cfg.allow) && net.Valid()
  {
    OverlapsAny(cfg.allow, net) || LoopbackOrUnspecified(Ip(net.family, net.addr))
  }

  /** A ban is handed to the firewall and, if it is accepted, entered into the mirror. */
  ghost function Issued(s: Snapshot, net: Net, ttl: nat, filter: Option<nat>, now: nat, fate: Fate): Snapshot
    requires net.Valid()
  {
    var u := s.(asked := s.asked + [net], kernel := KernelBan(s.kernel, net, ttl, now, fate));
    if fate.Works? then u.(active := s.active[net := ActiveBan(MirrorUntil(now, ttl), filter)], bans := s.bans + 1)
    else u
  }

  /** Room for a network in the history. */
  ghost predicate MakesRoom(cfg: Config, table: Table, net: Net, gone: set<Net>) {
    if net in table then gone == {} else Trims(cfg.maxTracked, table, gone)
  }

  /** An automatic ban is entered into the history and into the log. */
  ghost predicate Remembered(cfg: Config, s: Snapshot, e: Event, t: Snapshot)
    requires e.Banned?
  {
    exists gone :: MakesRoom(cfg, s.table, e.net, gone)
      && t == s.(table := Again(Without(s.table, gone), e.net, e.ts), trimmed := s.trimmed + gone, log := s.log + [e])
  }

  /** An automatic ban, of the length that the history asks for. */
  ghost predicate AutoBanned(cfg: Config, s: Snapshot, idx: nat, net: Net, hits: nat, fate: Fate, now: nat, t: Snapshot)
    requires idx < |cfg.filters| && net.Valid()
  {
    var (ttl, escalation) := NextTtl(cfg, s.table, cfg.filters[idx].bantime, net, now);
    var u := Issued(s, net, ttl, Some(idx), now, fate);
    if fate.Works? then Remembered(cfg, u, Banned(now, net, Some(idx), ttl, hits, escalation, false), t) else t == u
  }

  /** The verdict of the tracker on the hits of a key, this one included. */
  ghost function VerdictOn(cfg: Config, s: Snapshot, idx: nat, net: Net, now: nat): Verdict {
    Decide(HistoryAt(s.hits, TrackKey(idx, net)) + [now], now, PolicyOf(cfg.filters)(idx))
  }

  ghost predicate Counted(cfg: Config, s: Snapshot, op: Op, hits: Histories, v: Option<Verdict>) {
    exists gone :: Stepped(PolicyOf(cfg.filters), Max(cfg.maxTracked, 16), s.hits, op, gone, hits, v)
  }

  ghost predicate HitStep(cfg: Config, s: Snapshot, idx: nat, ip: Ip, fate: Fate, now: nat, t: Snapshot)
    requires cfg.Valid() && idx < |cfg.filters| && ip.Valid()
  {
    ToKeyCanonical(ip, cfg.v6Prefix);
    var net := ToKey(ip, cfg.v6Prefix);
    if Ignored(cfg, ip) || MirrorLive(s.active, net, now) then t == s
    else
      var v := VerdictOn(cfg, s, idx, net, now);
      var u := s.(hits := t.hits);
      && Counted(cfg, s, Op.Hit(TrackKey(idx, net), now), t.hits, Some(v))
      && if v.Ban? then AutoBanned(cfg, u, idx, net, v.hits, fate, now, t) else t == u
  }

  /** What a hit is answered with. */
  ghost function DecisionOn(cfg: Config, s: Snapshot, idx: nat, ip: Ip, now: nat): Option<Decision>
    requires cfg.Valid() && ip.Valid()
  {
    var net := ToKey(ip, cfg.v6Prefix);
    if Ignored(cfg, ip) then None
    else if MirrorLive(s.active, net, now) then Some(Decision(idx, net, false, 0))
    else
      var v := VerdictOn(cfg, s, idx, net, now);
      Some(Decision(idx, net, v.Ban?, v.hits))
  }

  /** A ban asked for by hand. */
  ghost function BanStep(cfg: Config, s: Snapshot, net: Net, ttl: Option<nat>, fate: Fate, now: nat): Snapshot
    requires cfg.Valid() && net.Valid()
  {
    if Exempt(cfg, net) then s
    else
      var secs := ttl.GetOr(cfg.bantime);
      var u := Issued(s, net, secs, None, now, fate);
      if fate.Works? then u.(log := s.log + [Banned(now, net, None, secs, 0, 0, true)]) else u
  }

  /** A ban is lifted, and the hits of the network are forgotten for every filter. */
  ghost function LiftStep(cfg: Config, s: Snapshot, net: Net, fate: Fate, now: nat): Snapshot
    requires net.Valid()
  {
    if fate.Fails? then s
    else
      s.(kernel := if fate.Works? then Without(s.kernel, {net.Trunc()}) else s.kernel,
         active := Without(s.active, {net}), log := s.log + [Unbanned(now, net)],
         hits := WithoutNet(s.hits, net, |cfg.filters|))
  }

  /** The histories without those of the first `n` filters for a network. */
  ghost function WithoutNet(hits: Histories, net: Net, n: nat): Histories {
    map k | k in hits && !(k.net == net && k.filter < n) :: hits[k]
  }

  /** The history entries within the escalation memory. */
  function RecentBans(table: Table, now: nat, memory: nat): Table {
    map n | n in table && SatSub(now, table[n].last) <= Low32(memory) :: table[n]
  }

  /** Expired mirror entries, idle keys and old history entries go; a full history loses its oldest part. */
  ghost predicate TickStep(cfg: Config, s: Snapshot, now: nat, t: Snapshot) {
    && (exists idle :: IsLongest(cfg.filters, idle) && Counted(cfg, s, Op.Sweep(now, idle), t.hits, None))
    && (exists gone :: Trims(cfg.maxTracked, RecentBans(s.table, now, cfg.memory), gone)
          && t == s.(active := Unexpired(s.active, now), swept := now, hits := t.hits,
                     table := Without(RecentBans(s.table, now, cfg.memory), gone), trimmed := s.trimmed + gone))
  }

  /** Mirror entries that the kernel does not have go. */
  ghost function ShowStep(s: Snapshot, now: nat): Snapshot {
    s.(active := map n | n in s.active && Live(s.kernel, n, now) :: s.active[n])
  }

  /** A start: the mirror is filled from the kernel, the history from the log. */
  ghost function StartStep(cfg: Config, s: Snapshot, now: nat): Snapshot
    requires now <= U32_MAX
  {
    Snapshot(s.kernel, MirrorOf(s.kernel, now), Rebuilt(s.log, SatSub(now, cfg.memory)), {}, s.log + [Started(now)],
             s.asked, map[], 0, 0)
  }

  ghost predicate StepOf(cfg: Config, s: Snapshot, e: Entry, t: Snapshot)
    requires cfg.Valid() && WellFormed(cfg, e)
  {
    match e.command
    case Hit(f, ip) => HitStep(cfg, s, f, ip, e.fate, e.now, t)
    case Ban(net, ttl) => t == BanStep(cfg, s, net, ttl, e.fate, e.now)
    case Lift(net) => t == LiftStep(cfg, s, net, e.fate, e.now)
    case Housekeep => TickStep(cfg, s, e.now, t)
    case Show => t == ShowStep(s, e.now)
    case Restart => t == StartStep(cfg, s, e.now)
  }

  lemma NothingMissing(table: Table)
    ensures Without(table, {}) == table
  {
  }

  lemma IssuedLog(s: Snapshot, net: Net, ttl: nat, filter: Option<nat>, now: nat, fate: Fate)
    requires net.Valid()
    ensures Issued(s, net, ttl, filter, now, fate).log == s.log
  {
  }

  lemma CountedAlike(cfg: Config, s: Snapshot, t: Snapshot, op: Op, hits: Histories, v: Option<Verdict>)
    requires Counted(cfg, s, op, hits, v) && s.hits == t.hits
    ensures Counted(cfg, t, op, hits, v)
  {
  }

  // ----- runs -----

  ghost predicate AllFormed(cfg: Config, script: seq<Entry>) {
    forall i :: 0 <= i < |script| ==> WellFormed(cfg, script[i])
  }

  /** The states of a run of commands, from `s` to `t`. */
  ghost predicate Chain(cfg: Config, s: Snapshot, script: seq<Entry>, states: seq<Snapshot>, t: Snapshot)
    requires cfg.Valid() && AllFormed(cfg, script)
  {
    && |states| == |script| + 1 && states[0] == s && states[|script|] == t
    && forall i :: 0 <= i < |script| ==> StepOf(cfg, states[i], script[i], states[i + 1])
  }

  lemma ChainEmpty(cfg: Config, s: Snapshot)
    requires cfg.Valid()
    ensures AllFormed(cfg, []) && Chain(cfg, s, [], [s], s)
  {
  }

  lemma ChainSnoc(cfg: Config, s: Snapshot, script: seq<Entry>, states: seq<Snapshot>, t: Snapshot, e: Entry, u: Snapshot)
    requires cfg.Valid() && AllFormed(cfg, script) && Chain(cfg, s, script, states, t)
    requires WellFormed(cfg, e) && StepOf(cfg, t, e, u)
    ensures AllFormed(cfg, script + [e]) && Chain(cfg, s, script + [e], states + [u], u)
  {
    hide StepOf, WellFormed, Config.Valid;
    var all, more := script + [e], states + [u];
    forall i | 0 <= i < |all|
      ensures WellFormed(cfg, all[i]) && StepOf(cfg, more[i], all[i], more[i + 1])
    {
      if i < |script| {
        assert all[i] == script[i] && more[i] == states[i] && more[i + 1] == states[i + 1];
      }
    }
  }

  /** A match of one log line: filter, address, and the fate of the ban it may lead to. */
  type Match = (nat, Ip, Fate)

  ghost predicate Matches(cfg: Config, hits: seq<Match>) {
    forall i :: 0 <= i < |hits| ==> hits[i].0 < |cfg.filters| && hits[i].1.Valid()
  }

  function LineHits(hits: seq<Match>, now: nat): (script: seq<Entry>)
    ensures |script| == |hits|
  {
    if hits == [] then []
    else
      var m := hits[|hits| - 1];
      LineHits(hits[..|hits| - 1], now) + [Entry(Command.Hit(m.0, m.1), m.2, now)]
  }

  /** What one line makes the engine do: its hits, and housekeeping if the last one is a minute old. */
  function LineScript(hits: seq<Match>, now: nat, swept: nat): seq<Entry> {
    LineHits(hits, now) + if SatSub(now, swept) >= 60 then [Entry(Housekeep, Works, now)] else []
  }

  /** The answers to the hits of a line that are not ignored. */
  ghost function LineDecisions(cfg: Config, states: seq<Snapshot>, hits: seq<Match>, now: nat): seq<Decision>
    requires cfg.Valid() && |states| >= |hits| && Matches(cfg, hits)
  {
    if hits == [] then []
    else
      var n := |hits| - 1;
      var d := DecisionOn(cfg, states[n], hits[n].0, hits[n].1, now);
      LineDecisions(cfg, states, hits[..n], now) + if d.Some? then [d.value] else []
  }

  lemma {:induction false} LineDecisionsStay(cfg: Config, states: seq<Snapshot>, s: Snapshot, hits: seq<Match>, now: nat)
    requires cfg.Valid() && |states| >= |hits| && Matches(cfg, hits)
    ensures LineDecisions(cfg, states + [s], hits, now) == LineDecisions(cfg, states, hits, now)
    decreases |hits|
  {
    hide DecisionOn, Config.Valid;
    if hits != [] {
      LineDecisionsStay(cfg, states, s, hits[..|hits| - 1], now);
    }
  }

  lemma {:induction false} LineFormed(cfg: Config, hits: seq<Match>, now: nat, swept: nat)
    requires Matches(cfg, hits) && now < U32_MAX
    ensures AllFormed(cfg, LineHits(hits, now)) && AllFormed(cfg, LineScript(hits, now, swept))
    decreases |hits|
  {
    if hits != [] {
      LineFormed(cfg, hits[..|hits| - 1], now, swept);
    }
  }

  // ----- the engine -----

  datatype ManualOutcome = Refused | Failed | Done

  /** The mirror that a start takes from the listing of the backend. */
  method Reconcile(firewall: Backend, now: nat) returns (mirror: Mirror)
    requires now <= U32_MAX
    ensures mirror == MirrorOf(firewall.bans, now)
  {
    var existing := firewall.List(now);
    mirror := map n | n in existing ::
      ActiveBan(SatAdd32(now, if existing[n].Some? then Low32(existing[n].value) else U32_MAX - now), None);
  }

  /** What the state of the firewall and the log of earlier runs look like before a start. */
  ghost function Stopped(kernel: Kernel, asked: seq<Net>, log: seq<Event>): Snapshot {
    Snapshot(kernel, map[], map[], {}, log, asked, map[], 0, 0)
  }

  class Engine {
    const cfg: Config
    const backend: Backend
    const tracker: Tracker
    var history: Table
    var active: Mirror
    var events: seq<Event>
    var bansTotal: nat
    var lastSweep: nat
    /** Networks that were trimmed from the history. */
    ghost var trimmed: set<Net>

    ghost function View(): Snapshot
      reads this, tracker, backend
    {
      Snapshot(backend.bans, active, history, trimmed, events, backend.asked, tracker.history, bansTotal, lastSweep)
    }

    ghost predicate TrackerSound()
      reads tracker
    {
      tracker.Valid() && tracker.policies == PolicyOf(cfg.filters) && tracker.maxEntries == Max(cfg.maxTracked, 16)
    }

    ghost predicate Valid()
      reads this, tracker, backend
    {
      cfg.Valid() && backend.Valid() && TrackerSound()
    }

    constructor (config: Config, firewall: Backend, log: seq<Event>, now: nat)
      requires config.Valid() && firewall.Valid() && now < U32_MAX
      ensures Valid() && fresh(tracker) && tracker.clock <= now && cfg == config && backend == firewall
      ensures View() == StartStep(config, Stopped(firewall.bans, firewall.asked, log), now)
    {
      hide Rebuilt, Config.Valid, Backend.Valid, Tracker.Valid, PolicyOf, MirrorOf;
      PoliciesValid(config);
      cfg, backend := config, firewall;
      tracker := new Tracker(config.maxTracked, PolicyOf(config.filters));
      bansTotal, lastSweep := 0, 0;
      trimmed := {};
      var mirror := Reconcile(firewall, now);
      active := mirror;
      var table := RebuildTable(log, SatSub(now, config.memory));
      history := table;
      events := log + [Started(now)];
    }

    /** The length of the next ban of a network, and the number of bans before it. */
    method EscalatedTtl(base: nat, net: Net, now: nat) returns (ttl: nat, escalation: nat)
      requires cfg.Valid() && base <= U64_MAX
      ensures (ttl, escalation) == NextTtl(cfg, history, base, net, now)
    {
      if !cfg.escalate || net !in history || SatSub(now, history[net].last) > cfg.memory {
        return base, 0;
      }
      ttl := EscalateLoop(base, cfg.factor, cfg.max, history[net].count);
      escalation := history[net].count;
    }

    /** Hands a ban to the backend and, if it is accepted, enters it into the mirror. */
    method Issue(net: Net, ttl: nat, filter: Option<nat>, now: nat, fate: Fate) returns (ok: bool)
      requires backend.Valid() && net.Valid()
      modifies `active, `bansTotal, backend
      ensures backend.Valid() && ok == fate.Works?
      ensures View() == Issued(old(View()), net, ttl, filter, now, fate)
    {
      hide KernelBan, MirrorUntil, Backend.Valid;
      ok := backend.Ban(net, ttl, now, fate);
      if ok {
        bansTotal := bansTotal + 1;
        active := active[net := ActiveBan(MirrorUntil(now, ttl), filter)];
      }
    }

    /** Enters an automatic ban into the history, making room if the network is new, and into the log. */
    method Remember(net: Net, filter: nat, ttl: nat, hits: nat, escalation: nat, now: nat)
      modifies `history, `trimmed, `events
      ensures Remembered(cfg, old(View()), Banned(now, net, Some(filter), ttl, hits, escalation, false), View())
    {
      hide Trims, Without;
      ghost var gone := {};
      ghost var s := View();
      NothingMissing(history);
      if net !in history {
        var kept;
        kept, gone := TrimTable(history, cfg.maxTracked);
        history := kept;
        trimmed := trimmed + gone;
      }
      assert MakesRoom(cfg, s.table, net, gone);
      history := Again(history, net, now);
      events := events + [Banned(now, net, Some(filter), ttl, hits, escalation, false)];
    }

    /** An automatic ban: escalated by the history, handed to the backend, and entered everywhere. */
    method ApplyBan(idx: nat, net: Net, hits: nat, now: nat, fate: Fate)
      requires cfg.Valid() && backend.Valid() && idx < |cfg.filters| && net.Valid()
      modifies `history, `active, `events, `bansTotal, `trimmed, backend
      ensures backend.Valid() && AutoBanned(cfg, old(View()), idx, net, hits, fate, now, View())
    {
      hide Config.Valid, Backend.Valid, Issued, Remembered, NextTtl;
      FilterFacts(cfg, idx);
      var ttl, escalation := EscalatedTtl(cfg.filters[idx].bantime, net, now);
      var ok := Issue(net, ttl, Some(idx), now, fate);
      if ok {
        Remember(net, idx, ttl, hits, escalation, now);
      }
    }

    method CountHit(idx: nat, net: Net, now: nat) returns (v: Verdict)
      requires TrackerSound() && tracker.clock <= now && idx < |cfg.filters|
      modifies tracker
      ensures TrackerSound() && tracker.clock <= now && v == VerdictOn(cfg, old(View()), idx, net, now)
      ensures Counted(cfg, old(View()), Op.Hit(TrackKey(idx, net), now), tracker.history, Some(v))
    {
      hide Tracker.Valid, Decide, Settled, Without, BatchSize;
      var r;
      ghost var gone;
      r, gone := Do(tracker, PolicyOf(cfg.filters), Op.Hit(TrackKey(idx, net), now));
      v := r.value;
    }

    /** One hit on a filter. A ban is issued exactly if the network is not exempt, not in the mirror, and
        over the line. */
    method RecordHit(idx: nat, ip: Ip, now: nat, fate: Fate) returns (d: Option<Decision>)
      requires Valid() && idx < |cfg.filters| && ip.Valid() && tracker.clock <= now
      modifies `history, `active, `events, `bansTotal, `trimmed, tracker, backend
      ensures Valid() && tracker.clock <= now
      ensures d == DecisionOn(cfg, old(View()), idx, ip, now)
      ensures HitStep(cfg, old(View()), idx, ip, fate, now, View())
    {
      hide TrackerSound, Backend.Valid, Config.Valid, OverlapsAny, ToKey, Allowed, VerdictOn, Counted, AutoBanned;
      AllowFacts(cfg);
      ToKeyCanonical(ip, cfg.v6Prefix);
      if Allowed(cfg, ip) {
        return None;
      }
      var net := ToKey(ip, cfg.v6Prefix);
      if OverlapsAny(cfg.allow, net) {
        return None;
      }
      if MirrorLive(active, net, now) {
        return Some(Decision(idx, net, false, 0));
      }
      var v := CountHit(idx, net, now);
      if v.Ban? {
        ApplyBan(idx, net, v.hits, now, fate);
      }
      return Some(Decision(idx, net, v.Ban?, v.hits));
    }

    /** A ban asked for by hand. Networks that overlap an exemption are refused. */
    method ManualBan(net: Net, ttl: Option<nat>, now: nat, fate: Fate) returns (r: ManualOutcome)
      requires Valid() && net.Valid()
      modifies `active, `events, `bansTotal, backend
      ensures Valid() && View() == BanStep(cfg, old(View()), net, ttl, fate, now)
      ensures r == if Exempt(cfg, net) then Refused else if fate.Works? then Done else Failed
    {
      hide TrackerSound, Backend.Valid, Config.Valid, OverlapsAny, Issued;
      AllowFacts(cfg);
      if OverlapsAny(cfg.allow, net) || LoopbackOrUnspecified(Ip(net.family, net.addr)) {
        return Refused;
      }
      var secs := ttl.GetOr(cfg.bantime);
      ghost var s := View();
      var ok := Issue(net, secs, None, now, fate);
      IssuedLog(s, net, secs, None, now, fate);
      if !ok {
        return Failed;
      }
      events := events + [Banned(now, net, None, secs, 0, 0, true)];
      return Done;
    }

    method ForgetHits(net: Net)
      requires TrackerSound()
      modifies tracker
      ensures TrackerSound() && tracker.clock == old(tracker.clock)
      ensures tracker.history == WithoutNet(old(tracker.history), net, |cfg.filters|)
    {
      hide Tracker.Valid;
      for i := 0 to |cfg.filters|
        invariant TrackerSound() && tracker.clock == old(tracker.clock)
        invariant tracker.history == WithoutNet(old(tracker.history), net, i)
      {
        tracker.Forget(TrackKey(i, net));
      }
    }

    /** Lifts a ban and forgets the hits of the network. */
    method Unban(net: Net, now: nat, fate: Fate) returns (ok: bool)
      requires Valid() && net.Valid()
      modifies `active, `events, tracker, backend
      ensures Valid() && tracker.clock == old(tracker.clock)
      ensures View() == LiftStep(cfg, old(View()), net, fate, now) && ok == !fate.Fails?
    {
      hide Config.Valid, Without, TrackerSound, Backend.Valid, WithoutNet;
      ok := backend.Unban(net, fate);
      if !ok {
        return;
      }
      active := Without(active, {net});
      ForgetHits(net);
      events := events + [Unbanned(now, net)];
    }

    /** The longest window of any filter. */
    method LongestFindtime() returns (idle: nat)
      ensures IsLongest(cfg.filters, idle) && (cfg.filters == [] ==> idle == 10 * 60)
    {
      if cfg.filters == [] {
        return 600;
      }
      idle := cfg.filters[0].findtime;
      for i := 1 to |cfg.filters|
        invariant forall j :: 0 <= j < i ==> cfg.filters[j].findtime <= idle
        invariant exists j :: 0 <= j < |cfg.filters| && cfg.filters[j].findtime == idle
      {
        idle := Max(idle, cfg.filters[i].findtime);
      }
    }

    method SweepTracker(now: nat, idle: nat)
      requires TrackerSound() && tracker.clock <= now
      modifies tracker
      ensures TrackerSound() && tracker.clock <= now
      ensures Counted(cfg, old(View()), Op.Sweep(now, idle), tracker.history, None)
    {
      hide Tracker.Valid, Decide, Settled, Without, BatchSize;
      var _, _ := Do(tracker, PolicyOf(cfg.filters), Op.Sweep(now, idle));
    }

    /** Housekeeping: expired mirror entries, idle trackers and old history entries go. */
    method Tick(now: nat)
      requires Valid() && tracker.clock <= now
      modifies `active, `history, `trimmed, `lastSweep, tracker
      ensures Valid() && tracker.clock <= now && TickStep(cfg, old(View()), now, View())
      ensures |history| < Max(cfg.maxTracked, 16) && lastSweep == now
    {
      hide Backend.Valid, Config.Valid, TrackerSound, Unexpired, RecentBans, Trims, Counted, IsLongest, Without;
      lastSweep := now;
      active := Unexpired(active, now);
      var idle := LongestFindtime();
      ghost var s := View();
      SweepTracker(now, idle);
      CountedAlike(cfg, s, old(View()), Op.Sweep(now, idle), tracker.history, None);
      var kept;
      ghost var gone;
      kept, gone := TrimTable(RecentBans(history, now, cfg.memory), cfg.maxTracked);
      history, trimmed := kept, trimmed + gone;
    }

    /** The active bans as the kernel tells them. Mirror entries that the kernel does not have are dropped. */
    method List(now: nat) returns (bans: map<Net, Option<nat>>)
      requires Valid()
      modifies `active
      ensures Valid() && bans == Listing(backend.bans, now) && View() == ShowStep(old(View()), now)
    {
      hide Backend.Valid, Config.Valid, Tracker.Valid;
      bans := backend.List(now);
      active := map n | n in active && n in bans :: active[n];
    }

    /** One log line: its hits, and housekeeping at most once a minute. */
    method HandleLine(hits: seq<Match>, now: nat) returns (ds: seq<Decision>, ghost states: seq<Snapshot>)
      requires Valid() && tracker.clock <= now < U32_MAX && Matches(cfg, hits)
      modifies `history, `active, `events, `bansTotal, `trimmed, `lastSweep, tracker, backend
      ensures Valid() && tracker.clock <= now && AllFormed(cfg, LineScript(hits, now, old(lastSweep)))
      ensures Chain(cfg, old(View()), LineScript(hits, now, old(lastSweep)), states, View())
      ensures ds == LineDecisions(cfg, states, hits, now)
      ensures lastSweep == if SatSub(now, old(lastSweep)) >= 60 then now else old(lastSweep)
    {
      hide Backend.Valid, Config.Valid, TrackerSound, HitStep, TickStep, DecisionOn, Chain, AllFormed;
      LineFormed(cfg, hits, now, lastSweep);
      ds, states := [], [View()];
      ChainEmpty(cfg, View());
      for i := 0 to |hits|
        invariant Valid() && tracker.clock <= now && lastSweep == old(lastSweep)
        invariant AllFormed(cfg, LineHits(hits[..i], now)) && |states| == i + 1 && states[i] == View()
        invariant Chain(cfg, old(View()), LineHits(hits[..i], now), states, View())
        invariant ds == LineDecisions(cfg, states, hits[..i], now)
      {
        ghost var s := View();
        var (f, ip, fate) := hits[i];
        var d := RecordHit(f, ip, now, fate);
        ChainSnoc(cfg, old(View()), LineHits(hits[..i], now), states, s, Entry(Command.Hit(f, ip), fate, now), View());
        LineDecisionsStay(cfg, states, View(), hits[..i], now);
        states := states + [View()];
        assert hits[..i + 1][..i] == hits[..i];
        if d.Some? {
          ds := ds + [d.value];
        }
      }
      assert hits[..|hits|] == hits && LineHits(hits, now) + [] == LineHits(hits, now);
      if SatSub(now, lastSweep) >= 60 {
        ghost var s := View();
        Tick(now);
        ChainSnoc(cfg, old(View()), LineHits(hits, now), states, s, Entry(Housekeep, Works, now), View());
        LineDecisionsStay(cfg, states, View(), hits, now);
        states := states + [View()];
      }
    }
  }

  // ----- mirror and kernel over runs -----

  /** The kernel's live bans are the live mirror entries, with equal expiries. */
  ghost predicate Agreement(s: Snapshot, now: nat) {
    (forall n :: n in s.kernel ==> n.Canonical()) && Covers(s.active, s.kernel, now) && Exact(s.active, s.kernel, now)
  }

  lemma AgreementMeans(s: Snapshot, now: nat)
    requires Agreement(s, now) && now < U32_MAX
    ensures forall n :: Live(s.kernel, n, now) <==> MirrorLive(s.active, n, now)
    ensures forall n :: MirrorLive(s.active, n, now) ==> s.active[n].until == Until(s.kernel[n])
  {
  }

  /** A hit that leads to a ban. */
  ghost predicate Bans(cfg: Config, s: Snapshot, idx: nat, ip: Ip, now: nat)
    requires cfg.Valid() && idx < |cfg.filters| && ip.Valid()
  {
    var net := ToKey(ip, cfg.v6Prefix);
    !Ignored(cfg, ip) && !MirrorLive(s.active, net, now) && VerdictOn(cfg, s, idx, net, now).Ban?
  }

  /** A ban that does not part mirror and kernel: it fails; or it half works and the mirror does not have the
      element that is lost; or it works, for a canonical network and a length that the clock can represent. There
      is one more case: a zero length, which the kernel rounds up to a second, for a network with host bits whose
      canonical form happens to end in just that second. */
  ghost predicate BanKeeps(s: Snapshot, net: Net, ttl: nat, now: nat, fate: Fate)
    requires net.Valid()
  {
    match fate
    case Fails => true
    case HalfWorks => !MirrorLive(s.active, net.Trunc(), now)
    case Works =>
      if net.Canonical() then Representable(now, ttl)
      else ttl == 0 && net.Trunc() in s.active && s.active[net.Trunc()].until == now + 1
  }

  /** A lifted ban that does not part them. */
  ghost predicate LiftKeeps(s: Snapshot, net: Net, now: nat, fate: Fate)
    requires net.Valid()
  {
    match fate
    case Fails => true
    case HalfWorks => !Live(s.kernel, net, now)
    case Works => net.Canonical() || !MirrorLive(s.active, net.Trunc(), now)
  }

  /** What keeps mirror and kernel together. */
  ghost predicate Clean(cfg: Config, s: Snapshot, e: Entry)
    requires cfg.Valid() && WellFormed(cfg, e)
  {
    match e.command
    case Hit(f, ip) =>
      ToKeyCanonical(ip, cfg.v6Prefix);
      var net := ToKey(ip, cfg.v6Prefix);
      Bans(cfg, s, f, ip, e.now) && e.fate.Works? ==>
        Representable(e.now, NextTtl(cfg, s.table, cfg.filters[f].bantime, net, e.now).0)
    case Ban(net, ttl) => Exempt(cfg, net) || BanKeeps(s, net, ttl.GetOr(cfg.bantime), e.now, e.fate)
    case Lift(net) => LiftKeeps(s, net, e.now, e.fate)
    case _ => true
  }

  /** Enough for that, whatever the state: configured lengths that fit the clock, canonical networks in manual
      commands, and no manual command that half works. */
  lemma PlainlyClean(cfg: Config, s: Snapshot, e: Entry)
    requires cfg.Valid() && WellFormed(cfg, e)
    requires e.command.Hit? ==> FitsClock(cfg, e.now)
    requires e.command.Ban? || e.command.Lift? ==> e.command.net.Canonical() && !e.fate.HalfWorks?
    requires e.command.Ban? ==> Representable(e.now, e.command.ttl.GetOr(cfg.bantime))
    ensures Clean(cfg, s, e)
  {
    hide Config.Valid, Bans, NextTtl, FitsClock, Representable, Exempt, ToKey;
    AllowFacts(cfg);
    if e.command.Hit? {
      NextTtlFits(cfg, s.table, e.command.filter, ToKey(e.command.ip, cfg.v6Prefix), e.now);
    }
  }

  lemma AgreementLater(s: Snapshot, clock: nat, now: nat)
    requires Agreement(s, clock) && clock <= now < U32_MAX
    ensures Agreement(s, now)
  {
    hide Covers, Exact;
    MirrorLater(s.active, s.kernel, clock, now);
  }

  /** A ban, accepted or not. */
  lemma IssuedAgreesIff(s: Snapshot, net: Net, ttl: nat, filter: Option<nat>, now: nat, fate: Fate)
    requires Agreement(s, now) && now < U32_MAX && net.Valid()
    ensures Agreement(Issued(s, net, ttl, filter, now, fate), now) <==> BanKeeps(s, net, ttl, now, fate)
  {
    hide Representable, MirrorUntil, Without, Covers, Exact, ClearLow, Pow2;
    NetBounds(net);
    match fate
    case Fails =>
    case HalfWorks =>
      WithoutCanonical(s.kernel, net.Trunc());
      LostElementIff(s.active, s.kernel, now, net.Trunc());
    case Works =>
      if net.Canonical() {
        CanonicalIsItself(net);
        MirrorBan(s.active, s.kernel, now, net, ttl, filter);
      } else {
        HostBitsIff(s, net, ttl, filter, now);
      }
  }

  lemma LostElementIff(mirror: Mirror, kernel: Kernel, now: nat, net: Net)
    requires Covers(mirror, kernel, now) && Exact(mirror, kernel, now)
    ensures Covers(mirror, Without(kernel, {net}), now)
    ensures Exact(mirror, Without(kernel, {net}), now) <==> !MirrorLive(mirror, net, now)
  {
  }

  lemma HostBitsIff(s: Snapshot, net: Net, ttl: nat, filter: Option<nat>, now: nat)
    requires Agreement(s, now) && now < U32_MAX && net.Valid() && !net.Canonical() && net.Trunc().Canonical()
    ensures var m, k := s.active[net := ActiveBan(MirrorUntil(now, ttl), filter)],
                        s.kernel[net.Trunc() := Some(now + Max(ttl, 1))];
            Covers(m, k, now) && Exact(m, k, now)
            <==> ttl == 0 && net.Trunc() in s.active && s.active[net.Trunc()].until == now + 1
  {
    hide Net.Canonical, Net.Trunc, Pow2, ClearLow;
    var m, k := s.active[net := ActiveBan(MirrorUntil(now, ttl), filter)], s.kernel[net.Trunc() := Some(now + Max(ttl, 1))];
    if Low32(ttl) > 0 {
      assert MirrorLive(m, net, now) && net !in k;
    } else {
      assert Live(k, net.Trunc(), now);
      if ttl == 0 && net.Trunc() in s.active && s.active[net.Trunc()].until == now + 1 {
        forall n | n != net && n != net.Trunc()
          ensures Live(k, n, now) == Live(s.kernel, n, now) && MirrorLive(m, n, now) == MirrorLive(s.active, n, now)
        {
        }
      }
    }
  }

  lemma WithoutCanonical(kernel: Kernel, net: Net)
    requires forall n :: n in kernel ==> n.Canonical()
    ensures forall n :: n in Without(kernel, {net}) ==> n.Canonical()
  {
  }

  lemma RememberedAgrees(cfg: Config, s: Snapshot, e: Event, t: Snapshot)
    requires e.Banned? && Remembered(cfg, s, e, t)
    ensures t.kernel == s.kernel && t.active == s.active && t.asked == s.asked && t.hits == s.hits
  {
  }

  lemma AutoBannedAgrees(cfg: Config, s: Snapshot, idx: nat, net: Net, hits: nat, fate: Fate, now: nat, t: Snapshot)
    requires idx < |cfg.filters| && net.Canonical() && AutoBanned(cfg, s, idx, net, hits, fate, now, t)
    requires Agreement(s, now) && now < U32_MAX && !MirrorLive(s.active, net, now)
    ensures Agreement(t, now)
       <==> (fate.Works? ==> Representable(now, NextTtl(cfg, s.table, cfg.filters[idx].bantime, net, now).0))
  {
    hide Covers, Exact, Representable, NextTtl, Issued, Remembered;
    CanonicalIsItself(net);
    var (ttl, escalation) := NextTtl(cfg, s.table, cfg.filters[idx].bantime, net, now);
    IssuedAgreesIff(s, net, ttl, Some(idx), now, fate);
    if fate.Works? {
      var u := Issued(s, net, ttl, Some(idx), now, fate);
      RememberedAgrees(cfg, u, Banned(now, net, Some(idx), ttl, hits, escalation, false), t);
    }
  }

  lemma HitAgrees(cfg: Config, s: Snapshot, idx: nat, ip: Ip, fate: Fate, now: nat, t: Snapshot)
    requires cfg.Valid() && idx < |cfg.filters| && ip.Valid() && HitStep(cfg, s, idx, ip, fate, now, t)
    requires Agreement(s, now) && now < U32_MAX
    ensures Agreement(t, now) <==> Clean(cfg, s, Entry(Command.Hit(idx, ip), fate, now))
  {
    hide Covers, Exact, ToKey, AutoBanned, Ignored, Counted, VerdictOn, Config.Valid, NextTtl, Representable;
    AllowFacts(cfg);
    ToKeyCanonical(ip, cfg.v6Prefix);
    var net := ToKey(ip, cfg.v6Prefix);
    if !Ignored(cfg, ip) && !MirrorLive(s.active, net, now) {
      var v := VerdictOn(cfg, s, idx, net, now);
      if v.Ban? {
        AutoBannedAgrees(cfg, s.(hits := t.hits), idx, net, v.hits, fate, now, t);
      }
    }
  }

  lemma LiftAgrees(cfg: Config, s: Snapshot, net: Net, fate: Fate, now: nat)
    requires net.Valid() && Agreement(s, now)
    ensures Agreement(LiftStep(cfg, s, net, fate, now), now) <==> LiftKeeps(s, net, now, fate)
  {
    hide WithoutNet, Without, Covers, Exact, Live, MirrorLive, ClearLow, Pow2;
    NetBounds(net);
    match fate
    case Fails =>
    case HalfWorks => ForgottenIff(s.active, s.kernel, now, net);
    case Works =>
      WithoutCanonical(s.kernel, net.Trunc());
      LiftedIff(s.active, s.kernel, now, net);
  }

  lemma ForgottenIff(mirror: Mirror, kernel: Kernel, now: nat, net: Net)
    requires Covers(mirror, kernel, now) && Exact(mirror, kernel, now)
    ensures Covers(Without(mirror, {net}), kernel, now) <==> !Live(kernel, net, now)
    ensures Exact(Without(mirror, {net}), kernel, now)
  {
  }

  lemma LiftedIff(mirror: Mirror, kernel: Kernel, now: nat, net: Net)
    requires Covers(mirror, kernel, now) && Exact(mirror, kernel, now)
    requires net.Valid() && net.Trunc().Canonical() && forall n :: n in kernel ==> n.Canonical()
    ensures Covers(Without(mirror, {net}), Without(kernel, {net.Trunc()}), now)
    ensures Exact(Without(mirror, {net}), Without(kernel, {net.Trunc()}), now)
       <==> net.Canonical() || !MirrorLive(mirror, net.Trunc(), now)
  {
    if net.Canonical() {
      CanonicalIsItself(net);
    }
  }

  lemma StartAgrees(cfg: Config, s: Snapshot, now: nat)
    requires (forall n :: n in s.kernel ==> n.Canonical()) && now < U32_MAX && InClockRange(s.kernel, now)
    ensures Agreement(StartStep(cfg, s, now), now)
  {
    hide Covers, Exact, InClockRange, Rebuilt;
    MirrorOfKernel(s.kernel, now);
  }

  lemma AgreementInRange(s: Snapshot, now: nat)
    requires Agreement(s, now)
    ensures InClockRange(s.kernel, now)
  {
  }

  /** A step keeps mirror and kernel together if and only if it is clean. */
  lemma StepAgreesIff(cfg: Config, s: Snapshot, e: Entry, t: Snapshot, clock: nat)
    requires cfg.Valid() && WellFormed(cfg, e) && StepOf(cfg, s, e, t)
    requires Agreement(s, clock) && clock <= e.now
    ensures Agreement(t, e.now) <==> Clean(cfg, s, e)
  {
    hide Agreement, HitStep, Exempt, LiftStep, StartStep, Config.Valid, Issued, InClockRange, TickStep, ShowStep, BanKeeps,
         LiftKeeps, Bans, NextTtl, Representable;
    AllowFacts(cfg);
    AgreementLater(s, clock, e.now);
    match e.command
    case Hit(f, ip) => HitAgrees(cfg, s, f, ip, e.fate, e.now, t);
    case Ban(net, ttl) => BanAgrees(cfg, s, net, ttl, e.fate, e.now);
    case Lift(net) => LiftAgrees(cfg, s, net, e.fate, e.now);
    case Housekeep => TickAgrees(cfg, s, e.now, t);
    case Show => ShowAgrees(s, e.now);
    case Restart =>
      AgreementInRange(s, e.now);
      AgreementCanonical(s, e.now);
      StartAgrees(cfg, s, e.now);
  }

  lemma AgreementCanonical(s: Snapshot, now: nat)
    requires Agreement(s, now)
    ensures forall n :: n in s.kernel ==> n.Canonical()
  {
  }

  lemma BanAgrees(cfg: Config, s: Snapshot, net: Net, ttl: Option<nat>, fate: Fate, now: nat)
    requires cfg.Valid() && net.Valid() && Agreement(s, now) && now < U32_MAX
    ensures Agreement(BanStep(cfg, s, net, ttl, fate, now), now)
       <==> AllNetsValid(cfg.allow) && (Exempt(cfg, net) || BanKeeps(s, net, ttl.GetOr(cfg.bantime), now, fate))
  {
    hide Covers, Exact, Exempt, BanKeeps, Issued, Config.Valid;
    AllowFacts(cfg);
    if !Exempt(cfg, net) {
      IssuedAgreesIff(s, net, ttl.GetOr(cfg.bantime), None, now, fate);
    }
  }

  lemma TickAgrees(cfg: Config, s: Snapshot, now: nat, t: Snapshot)
    requires TickStep(cfg, s, now, t) && Agreement(s, now) && now < U32_MAX
    ensures Agreement(t, now)
  {
    hide Covers, Exact, Unexpired, Counted, IsLongest, RecentBans, Trims, Without;
    MirrorRetain(s.active, s.kernel, now);
  }

  lemma ShowAgrees(s: Snapshot, now: nat)
    requires Agreement(s, now) && now < U32_MAX
    ensures Agreement(ShowStep(s, now), now)
  {
    hide Covers, Exact;
    MirrorRetain(s.active, s.kernel, now);
  }

  ghost function TimeAt(start: nat, script: seq<Entry>, i: nat): nat
    requires i <= |script|
  {
    if i == 0 then start else script[i - 1].now
  }

  ghost predicate Timed(start: nat, script: seq<Entry>) {
    forall i :: 0 <= i < |script| ==> TimeAt(start, script, i) <= script[i].now
  }

  /** In every run of clean commands at nondecreasing times mirror and kernel agree after every command. */
  lemma {:induction false} AgreementOverRuns(cfg: Config, s: Snapshot, script: seq<Entry>, states: seq<Snapshot>, t: Snapshot,
                                             start: nat, i: nat)
    requires cfg.Valid() && AllFormed(cfg, script) && Chain(cfg, s, script, states, t) && Timed(start, script)
    requires (forall k :: 0 <= k < |script| ==> Clean(cfg, states[k], script[k])) && Agreement(s, start)
    requires i <= |script|
    ensures Agreement(states[i], TimeAt(start, script, i))
  {
    hide Agreement, StepOf, Clean, Config.Valid, WellFormed;
    if i > 0 {
      AgreementOverRuns(cfg, s, script, states, t, start, i - 1);
      assert WellFormed(cfg, script[i - 1]) && Clean(cfg, states[i - 1], script[i - 1]);
      assert StepOf(cfg, states[i - 1], script[i - 1], states[i]);
      assert TimeAt(start, script, i - 1) <= script[i - 1].now;
      StepAgreesIff(cfg, states[i - 1], script[i - 1], states[i], TimeAt(start, script, i - 1));
    }
  }

  /** Mirror and kernel agree after every command of a run if and only if every step is clean. */
  lemma AgreementOverRunsIff(cfg: Config, s: Snapshot, script: seq<Entry>, states: seq<Snapshot>, t: Snapshot, start: nat)
    requires cfg.Valid() && AllFormed(cfg, script) && Chain(cfg, s, script, states, t) && Timed(start, script)
    requires Agreement(s, start)
    ensures (forall i :: 0 <= i <= |script| ==> Agreement(states[i], TimeAt(start, script, i)))
       <==> forall k :: 0 <= k < |script| ==> Clean(cfg, states[k], script[k])
  {
    hide Agreement, StepOf, Clean, Config.Valid, WellFormed, TimeAt;
    if forall k :: 0 <= k < |script| ==> Clean(cfg, states[k], script[k]) {
      forall i | 0 <= i <= |script|
        ensures Agreement(states[i], TimeAt(start, script, i))
      {
        AgreementOverRuns(cfg, s, script, states, t, start, i);
      }
    }
    if forall i :: 0 <= i <= |script| ==> Agreement(states[i], TimeAt(start, script, i)) {
      forall k | 0 <= k < |script|
        ensures Clean(cfg, states[k], script[k])
      {
        assert WellFormed(cfg, script[k]) && StepOf(cfg, states[k], script[k], states[k + 1]);
        assert Agreement(states[k], TimeAt(start, script, k)) && Agreement(states[k + 1], TimeAt(start, script, k + 1));
        TimeAfter(start, script, k);
        StepAgreesIff(cfg, states[k], script[k], states[k + 1], TimeAt(start, script, k));
      }
    }
  }

  lemma TimeAfter(start: nat, script: seq<Entry>, k: nat)
    requires k < |script| && Timed(start, script)
    ensures TimeAt(start, script, k) <= script[k].now == TimeAt(start, script, k + 1)
  {
  }

  /** In such a run no automatic ban is issued for a network that the kernel still bans: the hit changes
      nothing at all. */
  lemma NoBanWhileLive(cfg: Config, s: Snapshot, script: seq<Entry>, states: seq<Snapshot>, t: Snapshot, start: nat, i: nat)
    requires cfg.Valid() && AllFormed(cfg, script) && Chain(cfg, s, script, states, t) && Timed(start, script)
    requires (forall k :: 0 <= k < |script| ==> Clean(cfg, states[k], script[k])) && Agreement(s, start)
    requires i < |script| && script[i].command.Hit?
    ensures var e := script[i];
            WellFormed(cfg, e) && (Live(states[i].kernel, ToKey(e.command.ip, cfg.v6Prefix), e.now) ==> states[i + 1] == states[i])
  {
    hide Agreement, Clean, Config.Valid, Ignored, ToKey, Live, MirrorLive, AutoBanned, Counted, VerdictOn;
    var e := script[i];
    AgreementOverRuns(cfg, s, script, states, t, start, i);
    assert WellFormed(cfg, e) && TimeAt(start, script, i) <= e.now;
    AgreementLater(states[i], TimeAt(start, script, i), e.now);
    AgreementMeans(states[i], e.now);
    assert StepOf(cfg, states[i], e, states[i + 1]);
  }

  /** The hits of a key by position, this one included, that are within the findtime of the filter. */
  ghost function HitsInWindow(cfg: Config, s: Snapshot, idx: nat, net: Net, now: nat): set<nat>
    requires idx < |cfg.filters|
  {
    RecentHits(HistoryAt(s.hits, TrackKey(idx, net)) + [now], now, cfg.filters[idx].findtime)
  }

  lemma VerdictCounts(cfg: Config, s: Snapshot, idx: nat, net: Net, now: nat)
    requires idx < |cfg.filters| && now <= U32_MAX
    ensures var v, n := VerdictOn(cfg, s, idx, net, now), |HitsInWindow(cfg, s, idx, net, now)|;
            v.hits == n && (v.Ban? <==> n >= cfg.filters[idx].maxretry)
  {
    hide Decide, RecentHits;
    VerdictExact(HistoryAt(s.hits, TrackKey(idx, net)) + [now], now, PolicyOf(cfg.filters)(idx));
  }

  /** What an address must be for its hits to count: not local, and in no network that shares an address with an
      allowed one. */
  ghost predicate Countable(cfg: Config, ip: Ip)
    requires cfg.Valid() && ip.Valid()
  {
    AllowFacts(cfg);
    ToKeyCanonical(ip, cfg.v6Prefix);
    !LocalAddress(ip) && forall j :: 0 <= j < |cfg.allow| ==> !ShareAddress(cfg.allow[j], ToKey(ip, cfg.v6Prefix))
  }

  lemma IgnoredExact(cfg: Config, ip: Ip)
    requires cfg.Valid() && ip.Valid()
    ensures AllNetsValid(cfg.allow) && (Ignored(cfg, ip) <==> !Countable(cfg, ip))
  {
    hide LoopbackOrUnspecified, LocalAddress, ToKey, Overlaps, ShareAddress, Config.Valid, Pow2, ClearLow;
    AllowFacts(cfg);
    ToKeyCanonical(ip, cfg.v6Prefix);
    LocalExact(ip);
    var net := ToKey(ip, cfg.v6Prefix);
    forall j | 0 <= j < |cfg.allow|
      ensures Overlaps(cfg.allow[j], net) <==> ShareAddress(cfg.allow[j], net)
      ensures cfg.allow[j].Contains(ip) ==> ShareAddress(cfg.allow[j], net)
    {
      OverlapsIffShareAddress(cfg.allow[j], net);
      Shared(cfg.allow[j], net, ip);
    }
  }

  lemma Shared(a: Net, b: Net, ip: Ip)
    requires a.Valid() && b.Valid() && ip.Valid()
    ensures a.Contains(ip) && b.Contains(ip) ==> ShareAddress(a, b)
  {
  }

  /** A hit hands its network to the firewall exactly if it counts, the mirror has no live ban of the network, and at
      least `maxretry` hits are within the findtime. It is answered accordingly. */
  lemma HitAsksIff(cfg: Config, s: Snapshot, idx: nat, ip: Ip, fate: Fate, now: nat, t: Snapshot)
    requires cfg.Valid() && idx < |cfg.filters| && ip.Valid() && now <= U32_MAX
    requires HitStep(cfg, s, idx, ip, fate, now, t)
    ensures var net := ToKey(ip, cfg.v6Prefix);
            var counts := Countable(cfg, ip) && !(net in s.active && s.active[net].until > now);
            var n := |HitsInWindow(cfg, s, idx, net, now)|;
            var over := counts && n >= cfg.filters[idx].maxretry;
            && t.asked == (if over then s.asked + [net] else s.asked)
            && (!counts ==> t == s)
            && DecisionOn(cfg, s, idx, ip, now)
               == (if !Countable(cfg, ip) then None else Some(Decision(idx, net, over, if counts then n else 0)))
  {
    hide Config.Valid, Ignored, Countable, ToKey, Counted, VerdictOn, HitsInWindow, NextTtl, Remembered, KernelBan;
    AllowFacts(cfg);
    IgnoredExact(cfg, ip);
    ToKeyCanonical(ip, cfg.v6Prefix);
    var net := ToKey(ip, cfg.v6Prefix);
    VerdictCounts(cfg, s, idx, net, now);
    var v := VerdictOn(cfg, s, idx, net, now);
    if !Ignored(cfg, ip) && !MirrorLive(s.active, net, now) && v.Ban? {
      AutoBannedAsks(cfg, s.(hits := t.hits), idx, net, v.hits, fate, now, t);
    }
  }

  /** A hit over the line on a network that is neither exempt nor banned puts a ban of it into the kernel, if the
      firewall works: for at least the configured time, and at most the larger of that and the escalation limit. */
  lemma OverTheLineIsBanned(cfg: Config, s: Snapshot, idx: nat, ip: Ip, now: nat, t: Snapshot)
    requires cfg.Valid() && idx < |cfg.filters| && ip.Valid() && HitStep(cfg, s, idx, ip, Works, now, t)
    requires !Ignored(cfg, ip)
    requires !MirrorLive(s.active, ToKey(ip, cfg.v6Prefix), now)
    requires VerdictOn(cfg, s, idx, ToKey(ip, cfg.v6Prefix), now).Ban?
    ensures var net, base := ToKey(ip, cfg.v6Prefix), cfg.filters[idx].bantime;
            && net.Contains(ip) && Live(t.kernel, net, now) && t.kernel[net].Some? && net in t.table
            && now + base <= t.kernel[net].value <= now + Max(Max(base, cfg.max), 1)
            && t.asked == s.asked + [net]
  {
    hide Config.Valid, Ignored, ToKey, Counted, VerdictOn, Escalated, MirrorUntil, Trims, Without;
    AllowFacts(cfg);
    ToKeyCanonical(ip, cfg.v6Prefix);
    var net := ToKey(ip, cfg.v6Prefix);
    var base := cfg.filters[idx].bantime;
    if net in s.table {
      EscalatedMonotone(base, cfg.factor, cfg.max, s.table[net].count, s.table[net].count);
    }
  }

  /** What an accepted automatic ban leaves. Its length is the configured one, or, if escalation is on and the last ban
      of the network is within its memory, that times the factor to the number of bans remembered, at least the
      configured length and at most the larger of that and the maximum. The kernel keeps it for that long, and the log
      tells length, hits and number. */
  lemma AutoBanLength(cfg: Config, s: Snapshot, idx: nat, net: Net, hits: nat, now: nat, t: Snapshot)
    requires idx < |cfg.filters| && net.Canonical() && AutoBanned(cfg, s, idx, net, hits, Works, now, t)
    ensures var base := cfg.filters[idx].bantime;
            var escalates := cfg.escalate && net in s.table && now <= s.table[net].last + cfg.memory;
            var n := if escalates then s.table[net].count else 0;
            var scaled := base * Power(cfg.factor, if n <= 32 then n else 32);
            var ttl := if !escalates then base else if scaled <= base || cfg.max <= base then base
                       else if scaled <= cfg.max then scaled else cfg.max;
            && t.kernel == s.kernel[net := Some(now + if ttl == 0 then 1 else ttl)]
            && t.log == s.log + [Banned(now, net, Some(idx), ttl, hits, n, false)]
            && t.bans == s.bans + 1
            && net in t.table && t.table[net].last == now
  {
    hide Trims, Without, MirrorUntil, Scaled, Power;
    CanonicalIsItself(net);
    if net in s.table {
      ScaledIsPower(cfg.filters[idx].bantime, cfg.factor, Min(s.table[net].count, 32));
    }
  }

  /** A manual ban is refused for networks that hold an allowed address or have a local one as their address; else it
      is handed to the firewall, and, if that works, is in the kernel and in the log for the time asked for. */
  lemma ManualBanExact(cfg: Config, s: Snapshot, net: Net, ttl: Option<nat>, fate: Fate, now: nat)
    requires cfg.Valid() && net.Valid()
    ensures var t := BanStep(cfg, s, net, ttl, fate, now);
            var secs := if ttl.Some? then ttl.value else cfg.bantime;
            AllNetsValid(cfg.allow) &&
            var refused := LocalAddress(Ip(net.family, net.addr))
                           || exists j :: 0 <= j < |cfg.allow| && ShareAddress(cfg.allow[j], net);
            && (refused ==> t == s)
            && (!refused ==> t.asked == s.asked + [net])
            && (!refused && fate.Works? ==>
                  && t.kernel == s.kernel[net.Trunc() := Some(now + if secs == 0 then 1 else secs)]
                  && t.log == s.log + [Banned(now, net, None, secs, 0, 0, true)]
                  && t.bans == s.bans + 1 && t.table == s.table && t.hits == s.hits)
  {
    hide LoopbackOrUnspecified, LocalAddress, Overlaps, ShareAddress, Config.Valid, MirrorUntil;
    AllowFacts(cfg);
    LocalExact(Ip(net.family, net.addr));
    forall j | 0 <= j < |cfg.allow|
      ensures Overlaps(cfg.allow[j], net) <==> ShareAddress(cfg.allow[j], net)
    {
      OverlapsIffShareAddress(cfg.allow[j], net);
    }
  }

  /** A network that has been unbanned starts afresh with every filter, and no other key is touched. */
  lemma LiftForgets(cfg: Config, s: Snapshot, net: Net, fate: Fate, now: nat, k: TrackKey)
    requires net.Valid()
    ensures var t := LiftStep(cfg, s, net, fate, now);
            HistoryAt(t.hits, k)
            == if !fate.Fails? && k.net == net && k.filter < |cfg.filters| then [] else HistoryAt(s.hits, k)
    ensures var t := LiftStep(cfg, s, net, fate, now);
            && (fate.Works? ==> net.Trunc() !in t.kernel) && (!fate.Fails? ==> net !in t.active)
            && t.log == (if fate.Fails? then s.log else s.log + [Unbanned(now, net)])
            && forall n :: n != net && n != net.Trunc() ==>
                 (n in t.kernel <==> n in s.kernel) && (n in t.active <==> n in s.active)
  {
  }

  /** Housekeeping keeps exactly the mirror entries that have not ended. */
  lemma TickExact(cfg: Config, s: Snapshot, now: nat, t: Snapshot)
    requires TickStep(cfg, s, now, t)
    ensures t.kernel == s.kernel && t.log == s.log && t.asked == s.asked && t.swept == now
    ensures forall n :: n in t.active <==> n in s.active && s.active[n].until > now
    ensures forall n :: n in t.active ==> t.active[n] == s.active[n]
    ensures cfg.memory <= U32_MAX ==>
              forall n :: n in s.table && n !in t.trimmed && s.table[n].last + cfg.memory >= now ==>
                n in t.table && t.table[n] == s.table[n]
  {
    hide Trims, Counted, IsLongest;
  }

  /** Listing keeps exactly the mirror entries whose bans the kernel has, and tells the time left of each ban. */
  lemma ShowExact(s: Snapshot, now: nat)
    ensures var t := ShowStep(s, now);
            && t == s.(active := t.active)
            && (forall n :: n in t.active <==> n in s.active && Live(s.kernel, n, now))
            && (forall n :: n in t.active ==> t.active[n] == s.active[n])
    ensures var bans := Listing(s.kernel, now);
            forall n ::
              && (n in bans <==> n in s.kernel && (s.kernel[n].Some? ==> s.kernel[n].value > now))
              && (n in bans && s.kernel[n] == None ==> bans[n] == None)
              && (n in bans && s.kernel[n].Some? ==> bans[n] == Some(s.kernel[n].value - now))
  {
  }

  /** A start takes over kernel and log, mirrors every live ban without a filter, and begins without hits, so that the
      first line brings housekeeping. */
  lemma StartExact(cfg: Config, s: Snapshot, now: nat)
    requires now <= U32_MAX
    ensures var t := StartStep(cfg, s, now);
            && t.kernel == s.kernel && t.asked == s.asked && t.log == s.log + [Started(now)]
            && t.hits == map[] && t.bans == 0 && t.swept == 0 && t.trimmed == {}
            && (forall n :: n in t.active <==> Live(s.kernel, n, now))
            && forall n :: n in t.active ==> t.active[n].filter == None
  {
    hide Rebuilt;
  }

  /** The end of a mirror entry: the low 32 bits of the length from now on, at most the largest 32-bit second. */
  lemma MirrorUntilExact(now: nat, ttl: nat)
    ensures MirrorUntil(now, ttl)
         == if now + ttl % 0x1_0000_0000 <= 0xFFFF_FFFF then now + ttl % 0x1_0000_0000 else 0xFFFF_FFFF
  {
  }

  /** In every run, whatever the configuration and whatever the firewall does: a hit from 127.0.0.0/8, 0.0.0.0, ::1 or
      :: changes nothing, and neither does a manual ban of a network with such an address. */
  lemma LocalIsLeftAlone(cfg: Config, s: Snapshot, script: seq<Entry>, states: seq<Snapshot>, t: Snapshot, i: nat)
    requires cfg.Valid() && AllFormed(cfg, script) && Chain(cfg, s, script, states, t) && i < |script|
    requires match script[i].command
             case Hit(_, ip) => LocalAddress(ip)
             case Ban(net, _) => LocalAddress(Ip(net.family, net.addr))
             case _ => false
    ensures states[i + 1] == states[i]
  {
    hide Config.Valid, LoopbackOrUnspecified, LocalAddress, OverlapsAny, ToKey, Counted, VerdictOn, AutoBanned, Issued;
    AllowFacts(cfg);
    var e := script[i];
    assert WellFormed(cfg, e) && StepOf(cfg, states[i], e, states[i + 1]);
    match e.command
    case Hit(_, ip) => LocalExact(ip);
    case Ban(net, _) => LocalExact(Ip(net.family, net.addr));
  }

  // ----- the guard over runs -----

  /** At most one network is handed to the firewall in a step, and none that holds an allowed address. */
  lemma StepGuarded(cfg: Config, s: Snapshot, e: Entry, t: Snapshot)
    requires cfg.Valid() && WellFormed(cfg, e) && StepOf(cfg, s, e, t)
    ensures t.asked == s.asked
            || exists net: Net :: net.Valid() && !OverlapsAny(cfg.allow, net) && t.asked == s.asked + [net]
  {
    hide Config.Valid, OverlapsAny, ToKey, Live, MirrorLive, Counted, VerdictOn, KernelBan, Rebuilt, MirrorOf, WithoutNet,
         RecentBans, Unexpired, Trims, IsLongest, NextTtl, Remembered, Allowed, LoopbackOrUnspecified, Without;
    AllowFacts(cfg);
    match e.command {
      case Hit(f, ip) =>
        var net := ToKey(ip, cfg.v6Prefix);
        ToKeyCanonical(ip, cfg.v6Prefix);
        if !Ignored(cfg, ip) && !MirrorLive(s.active, net, e.now) && VerdictOn(cfg, s, f, net, e.now).Ban? {
          var u, v := s.(hits := t.hits), VerdictOn(cfg, s, f, net, e.now);
          AutoBannedAsks(cfg, u, f, net, v.hits, e.fate, e.now, t);
        }
      case _ =>
    }
  }

  lemma AutoBannedAsks(cfg: Config, s: Snapshot, idx: nat, net: Net, hits: nat, fate: Fate, now: nat, t: Snapshot)
    requires idx < |cfg.filters| && net.Valid() && AutoBanned(cfg, s, idx, net, hits, fate, now, t)
    ensures t.asked == s.asked + [net]
  {
    hide NextTtl, Remembered, KernelBan;
    if fate.Works? {
      var (ttl, escalation) := NextTtl(cfg, s.table, cfg.filters[idx].bantime, net, now);
      var u := Issued(s, net, ttl, Some(idx), now, fate);
      RememberedAgrees(cfg, u, Banned(now, net, Some(idx), ttl, hits, escalation, false), t);
    }
  }

  /** Whatever the commands and whatever the firewall does: no network that was handed to it during a run
      contains an address of an allowed network. */
  lemma {:induction false} GuardOverRuns(cfg: Config, s: Snapshot, script: seq<Entry>, states: seq<Snapshot>, t: Snapshot,
                                         i: nat)
    requires cfg.Valid() && AllFormed(cfg, script) && Chain(cfg, s, script, states, t) && i <= |script|
    ensures s.asked <= states[i].asked && Guarded(states[i].asked[|s.asked|..], cfg.allow)
  {
    hide StepOf, Config.Valid, WellFormed, ShareAddress, Overlaps, OverlapsAny, Guarded;
    AllowFacts(cfg);
    NothingGuarded(cfg.allow);
    assert s.asked[|s.asked|..] == [];
    if i > 0 {
      GuardOverRuns(cfg, s, script, states, t, i - 1);
      assert WellFormed(cfg, script[i - 1]) && StepOf(cfg, states[i - 1], script[i - 1], states[i]);
      StepGuarded(cfg, states[i - 1], script[i - 1], states[i]);
      if states[i].asked != states[i - 1].asked {
        var net: Net :| net.Valid() && !OverlapsAny(cfg.allow, net) && states[i].asked == states[i - 1].asked + [net];
        GuardedMore(states[i - 1].asked[|s.asked|..], cfg.allow, net);
        assert states[i].asked[|s.asked|..] == states[i - 1].asked[|s.asked|..] + [net];
      }
    }
  }

  lemma NothingGuarded(allow: seq<Net>)
    requires AllNetsValid(allow)
    ensures Guarded([], allow)
  {
  }

  // ----- the history over runs -----

  /** The ban history agrees with the log, except for networks that were trimmed from it. */
  ghost predicate HistoryAgrees(cfg: Config, s: Snapshot, clock: nat) {
    && InOrder(s.log, clock)
    && (cfg.memory <= U32_MAX ==> Agrees(s.table, s.log, SatSub(clock, cfg.memory), s.trimmed))
  }

  lemma HistoryLater(cfg: Config, s: Snapshot, clock: nat, now: nat)
    requires HistoryAgrees(cfg, s, clock) && clock <= now
    ensures HistoryAgrees(cfg, s, now)
  {
    hide Agrees, InOrder;
    InOrderLater(s.log, clock, now);
    if cfg.memory <= U32_MAX {
      AgreesLater(s.table, s.log, SatSub(clock, cfg.memory), SatSub(now, cfg.memory), s.trimmed);
    }
  }

  /** An event other than an automatic ban. */
  lemma HistoryNotes(cfg: Config, s: Snapshot, e: Event, t: Snapshot, now: nat)
    requires HistoryAgrees(cfg, s, now) && e.ts == now && (e.Banned? ==> e.manual)
    requires t.log == s.log + [e] && t.table == s.table && t.trimmed == s.trimmed
    ensures HistoryAgrees(cfg, t, now)
  {
    hide Agrees, InOrder;
    InOrderSnoc(s.log, now, e);
    if cfg.memory <= U32_MAX {
      AgreesOther(s.table, s.log, e, SatSub(now, cfg.memory), s.trimmed);
    }
  }

  lemma HistoryRemembers(cfg: Config, s: Snapshot, e: Event, t: Snapshot, now: nat)
    requires HistoryAgrees(cfg, s, now) && e.Banned? && !e.manual && e.ts == now && Remembered(cfg, s, e, t)
    ensures HistoryAgrees(cfg, t, now)
  {
    hide Agrees, InOrder, Trims, Without;
    InOrderSnoc(s.log, now, e);
    var gone :| MakesRoom(cfg, s.table, e.net, gone)
      && t == s.(table := Again(Without(s.table, gone), e.net, e.ts), trimmed := s.trimmed + gone, log := s.log + [e]);
    if cfg.memory <= U32_MAX {
      var cutoff := SatSub(now, cfg.memory);
      AgreesTrim(s.table, s.log, cutoff, s.trimmed, gone);
      AgreesBan(Without(s.table, gone), s.log, e, cutoff, s.trimmed + gone);
    }
  }

  lemma HistoryTicks(cfg: Config, s: Snapshot, now: nat, t: Snapshot)
    requires HistoryAgrees(cfg, s, now) && TickStep(cfg, s, now, t)
    ensures HistoryAgrees(cfg, t, now)
    ensures cfg.memory <= U32_MAX ==> forall n :: n in t.table ==> t.table[n].last >= SatSub(now, cfg.memory)
  {
    hide Agrees, InOrder, Trims, Counted, IsLongest, Unexpired;
    if cfg.memory <= U32_MAX {
      var cutoff := SatSub(now, cfg.memory);
      var recent := RecentBans(s.table, now, cfg.memory);
      var gone :| Trims(cfg.maxTracked, recent, gone)
        && t == s.(active := Unexpired(s.active, now), swept := now, hits := t.hits,
                   table := Without(recent, gone), trimmed := s.trimmed + gone);
      AgreesExpire(s.table, s.log, now, cutoff, s.trimmed);
      assert recent == map n | n in s.table && s.table[n].last >= cutoff :: s.table[n];
      AgreesTrim(recent, s.log, cutoff, s.trimmed, gone);
    }
  }

  lemma HistoryStarts(cfg: Config, s: Snapshot, now: nat)
    requires InOrder(s.log, now) && now <= U32_MAX
    ensures HistoryAgrees(cfg, StartStep(cfg, s, now), now)
  {
    hide Rebuilt, Agrees, InOrder, MirrorOf;
    var cutoff := SatSub(now, cfg.memory);
    AgreesRebuilt(s.log, now, cutoff);
    AgreesOther(Rebuilt(s.log, cutoff), s.log, Started(now), cutoff, {});
    InOrderSnoc(s.log, now, Started(now));
  }

  lemma HistoryHits(cfg: Config, s: Snapshot, idx: nat, ip: Ip, fate: Fate, now: nat, t: Snapshot)
    requires cfg.Valid() && idx < |cfg.filters| && ip.Valid() && HitStep(cfg, s, idx, ip, fate, now, t)
    requires HistoryAgrees(cfg, s, now)
    ensures HistoryAgrees(cfg, t, now)
  {
    hide Agrees, InOrder, ToKey, Ignored, Counted, VerdictOn, Config.Valid, MirrorLive, NextTtl, KernelBan, Remembered;
    AllowFacts(cfg);
    ToKeyCanonical(ip, cfg.v6Prefix);
    var net := ToKey(ip, cfg.v6Prefix);
    var v := VerdictOn(cfg, s, idx, net, now);
    if !Ignored(cfg, ip) && !MirrorLive(s.active, net, now) && v.Ban? && fate.Works? {
      var (ttl, escalation) := NextTtl(cfg, s.table, cfg.filters[idx].bantime, net, now);
      var u := Issued(s.(hits := t.hits), net, ttl, Some(idx), now, fate);
      HistoryRemembers(cfg, u, Banned(now, net, Some(idx), ttl, v.hits, escalation, false), t, now);
    }
  }

  lemma StepHistory(cfg: Config, s: Snapshot, e: Entry, t: Snapshot, clock: nat)
    requires cfg.Valid() && WellFormed(cfg, e) && StepOf(cfg, s, e, t) && HistoryAgrees(cfg, s, clock) && clock <= e.now
    ensures HistoryAgrees(cfg, t, e.now)
  {
    hide Agrees, InOrder, HitStep, TickStep, StartStep, Config.Valid, Exempt, KernelBan, Without, WithoutNet;
    HistoryLater(cfg, s, clock, e.now);
    match e.command
    case Hit(f, ip) => HistoryHits(cfg, s, f, ip, e.fate, e.now, t);
    case Ban(net, ttl) =>
      if t.log != s.log {
        HistoryNotes(cfg, s, Banned(e.now, net, None, ttl.GetOr(cfg.bantime), 0, 0, true), t, e.now);
      }
    case Lift(net) =>
      if !e.fate.Fails? {
        HistoryNotes(cfg, s, Unbanned(e.now, net), t, e.now);
      }
    case Housekeep => HistoryTicks(cfg, s, e.now, t);
    case Show =>
    case Restart => HistoryStarts(cfg, s, e.now);
  }

  lemma {:induction false} HistoryOverRuns(cfg: Config, s: Snapshot, script: seq<Entry>, states: seq<Snapshot>, t: Snapshot,
                                           start: nat, i: nat)
    requires cfg.Valid() && AllFormed(cfg, script) && Chain(cfg, s, script, states, t) && Timed(start, script)
    requires HistoryAgrees(cfg, s, start) && i <= |script|
    ensures HistoryAgrees(cfg, states[i], TimeAt(start, script, i))
  {
    hide HistoryAgrees, StepOf, Config.Valid, WellFormed;
    if i > 0 {
      HistoryOverRuns(cfg, s, script, states, t, start, i - 1);
      assert WellFormed(cfg, script[i - 1]) && StepOf(cfg, states[i - 1], script[i - 1], states[i]);
      assert TimeAt(start, script, i - 1) <= script[i - 1].now;
      StepHistory(cfg, states[i - 1], script[i - 1], states[i], TimeAt(start, script, i - 1));
    }
  }

  /** In any run, after housekeeping at any point, a restart at the same time rebuilds the history: the same
      networks with the same last bans, counts that are no larger, and equal counts for networks without older
      bans. Networks that were ever trimmed from the history are left aside. */
  lemma RestartRebuildsHistory(cfg: Config, s: Snapshot, script: seq<Entry>, states: seq<Snapshot>, t: Snapshot, start: nat,
                               i: nat, net: Net)
    requires cfg.Valid() && AllFormed(cfg, script) && Chain(cfg, s, script, states, t) && Timed(start, script)
    requires HistoryAgrees(cfg, s, start) && cfg.memory <= U32_MAX
    requires i < |script| && script[i].command.Housekeep? && net !in states[i + 1].trimmed
    ensures var now, u := script[i].now, states[i + 1];
            var cutoff := SatSub(now, cfg.memory);
            var r := StartStep(cfg, u, now).table;
            && (net in r <==> net in u.table)
            && (net in r ==> r[net].last == u.table[net].last && r[net].count <= u.table[net].count)
            && (net in r && (forall k :: 0 <= k < |Times(u.log, net)| ==> Times(u.log, net)[k] >= cutoff) ==>
                  r[net] == u.table[net])
  {
    hide Agrees, InOrder, TickStep, Config.Valid, Rebuilt, Times, MirrorOf;
    var now, u := script[i].now, states[i + 1];
    HistoryOverRuns(cfg, s, script, states, t, start, i);
    assert WellFormed(cfg, script[i]) && StepOf(cfg, states[i], script[i], u) && TimeAt(start, script, i) <= now;
    HistoryLater(cfg, states[i], TimeAt(start, script, i), now);
    HistoryTicks(cfg, states[i], now, u);
    RebuildingIsFaithful(u.table, u.log, now, SatSub(now, cfg.memory), u.trimmed, net);
  }

  // ----- any run -----

  lemma StartIgnoresRest(cfg: Config, s: Snapshot, now: nat)
    requires now <= U32_MAX
    ensures StartStep(cfg, Stopped(s.kernel, s.asked, s.log), now) == StartStep(cfg, s, now)
  {
  }

  /** One command; a restart makes a new engine on the same firewall and log. */
  method CarryOut(e: Engine, entry: Entry) returns (f: Engine)
    requires e.Valid() && WellFormed(e.cfg, entry) && e.tracker.clock <= entry.now
    modifies e, e.tracker, e.backend
    ensures f.Valid() && f.cfg == e.cfg && f.backend == e.backend && f.tracker.clock <= entry.now
    ensures (f == e || fresh(f)) && (f.tracker == e.tracker || fresh(f.tracker))
    ensures StepOf(e.cfg, old(e.View()), entry, f.View())
  {
    hide Config.Valid, Backend.Valid, Engine.TrackerSound, HitStep, TickStep, BanStep, LiftStep, ShowStep, StartStep;
    f := e;
    match entry.command {
      case Hit(idx, ip) =>
        var _ := e.RecordHit(idx, ip, entry.now, entry.fate);
      case Ban(net, ttl) =>
        var _ := e.ManualBan(net, ttl, entry.now, entry.fate);
      case Lift(net) =>
        var _ := e.Unban(net, entry.now, entry.fate);
      case Housekeep =>
        e.Tick(entry.now);
      case Show =>
        var _ := e.List(entry.now);
      case Restart =>
        StartIgnoresRest(e.cfg, e.View(), entry.now);
        f := new Engine(e.cfg, e.backend, e.events, entry.now);
    }
  }

  /** The engine carries out any script, restarts included, on any firewall that behaves as the script says. */
  method Serve(cfg: Config, firewall: Backend, log: seq<Event>, script: seq<Entry>, start: nat)
    returns (e: Engine, ghost states: seq<Snapshot>)
    requires cfg.Valid() && firewall.Valid() && start < U32_MAX && AllFormed(cfg, script) && Timed(start, script)
    modifies firewall
    ensures e.Valid() && e.cfg == cfg && e.backend == firewall
    ensures Chain(cfg, StartStep(cfg, Stopped(old(firewall.bans), old(firewall.asked), log), start), script, states, e.View())
  {
    hide Config.Valid, Engine.Valid, StepOf, WellFormed, StartStep, Chain, Engine.View;
    e := new Engine(cfg, firewall, log, start);
    ghost var first := e.View();
    states := [first];
    ChainEmpty(cfg, first);
    for i := 0 to |script|
      invariant e.Valid() && e.cfg == cfg && e.backend == firewall && fresh(e) && fresh(e.tracker)
      invariant e.tracker.clock <= TimeAt(start, script, i)
      invariant AllFormed(cfg, script[..i]) && Chain(cfg, first, script[..i], states, e.View())
    {
      var entry := script[i];
      assert WellFormed(cfg, entry) && TimeAt(start, script, i) <= entry.now;
      ghost var s := e.View();
      e := CarryOut(e, entry);
      ChainSnoc(cfg, first, script[..i], states, s, entry, e.View());
      states := states + [e.View()];
      assert script[..i + 1] == script[..i] + [entry];
    }
    assert script[..|script|] == script;
  }
}
