/** The layout of bans in the kernel: hash sets for single keys, IPv6 ones looked up by the masked source,
    and interval sets for every other network. The rules over these sets are shown to answer as plain CIDR
    membership does. */
module Firewall {
  import opened Nets
  import opened Wrappers

  /** IPv6 prefix of a crowd key. */
  const CROWD_V6_PREFIX: nat := 64

  datatype SetName =
    | Allow4 | Allow6
    | Ban4 | Ban6 | BanNet4 | BanNet6
    | Crowd4 | Crowd6 | CrowdNet4 | CrowdNet6

  /** An element key: an address in a hash set, a range in an interval set. */
  datatype Key = Single(addr: nat) | Range(lo: nat, hi: nat)

  datatype Element = Element(name: SetName, key: Key)

  // ----- placement -----

  function RangeOf(net: Net): Key
    requires net.Valid()
  {
    Range(net.First(), net.Last())
  }

  /** The set a ban belongs in, and its key there; `v6` is the configured IPv6 prefix. */
  function PlaceBan(net: Net, v6: nat): Element
    requires net.Valid()
  {
    if net.family == V4 && net.len == 32 then Element(Ban4, Single(net.addr))
    else if net.family == V6 && net.len == v6 then Element(Ban6, Single(net.Trunc().addr))
    else if net.family == V4 then Element(BanNet4, RangeOf(net))
    else Element(BanNet6, RangeOf(net))
  }

  /** The set a crowd entry belongs in, and its key there. */
  function PlaceCrowd(net: Net): Element
    requires net.Valid()
  {
    if net.family == V4 && net.len == 32 then Element(Crowd4, Single(net.addr))
    else if net.family == V6 && net.len == CROWD_V6_PREFIX then Element(Crowd6, Single(net.Trunc().addr))
    else if net.family == V4 then Element(CrowdNet4, RangeOf(net))
    else Element(CrowdNet6, RangeOf(net))
  }

  function PlaceAllow(net: Net): Element
    requires net.Valid()
  {
    Element(if net.family == V4 then Allow4 else Allow6, RangeOf(net))
  }

  // ----- rules -----

  datatype Action = Accept | Drop

  /** What a rule looks up in its set: the source address of one family, masked if a mask is given. */
  datatype Rule = Rule(family: Family, mask: Option<nat>, name: SetName, action: Action)

  /** The source expression for a hash set of network addresses. */
  function V6Mask(prefix: nat): Option<nat> {
    if prefix >= 128 then None
    else
      MaskExists(prefix);
      Some(Pow2(128) - Pow2(128 - prefix))
  }

  lemma MaskExists(prefix: nat)
    requires prefix < 128
    ensures Pow2(128 - prefix) <= Pow2(128)
  {
    if prefix > 0 {
      Pow2Monotone(128 - prefix, 128);
    }
  }

  /** The rule that reads a set: allow rules accept, the others drop. */
  function RuleFor(name: SetName, v6: nat): Rule {
    match name
    case Allow4 => Rule(V4, None, Allow4, Accept)
    case Allow6 => Rule(V6, None, Allow6, Accept)
    case Ban4 => Rule(V4, None, Ban4, Drop)
    case Ban6 => Rule(V6, V6Mask(v6), Ban6, Drop)
    case BanNet4 => Rule(V4, None, BanNet4, Drop)
    case BanNet6 => Rule(V6, None, BanNet6, Drop)
    case Crowd4 => Rule(V4, None, Crowd4, Drop)
    case Crowd6 => Rule(V6, V6Mask(CROWD_V6_PREFIX), Crowd6, Drop)
    case CrowdNet4 => Rule(V4, None, CrowdNet4, Drop)
    case CrowdNet6 => Rule(V6, None, CrowdNet6, Drop)
  }

  /** What an element stands for: an exemption, a local ban, or an entry of the crowd list. */
  datatype Purpose = Allow | Local | Crowd

  /** The sets of each class, in the order of their rules. */
  function SetsOf(purpose: Purpose): seq<SetName> {
    match purpose
    case Allow => [Allow4, Allow6]
    case Local => [Ban4, Ban6, BanNet4, BanNet6]
    case Crowd => [Crowd4, Crowd6, CrowdNet4, CrowdNet6]
  }

  /** The order of the rules in both chains. */
  const CHAIN: seq<SetName> := SetsOf(Allow) + SetsOf(Local) + SetsOf(Crowd)

  predicate Hits(key: Key, addr: nat) {
    match key
    case Single(a) => a == addr
    case Range(lo, hi) => lo <= addr <= hi
  }

  /** The lookup of a rule in one element. */
  predicate FoundIn(e: Element, rule: Rule, ip: Ip) {
    && ip.family == rule.family && e.name == rule.name
    && Hits(e.key, if rule.mask.Some? then BitAnd(ip.addr, rule.mask.value) else ip.addr)
  }

  /** The elements of all sets. */
  type Kernel = set<Element>

  predicate Found(kernel: Kernel, rule: Rule, ip: Ip) {
    exists e :: e in kernel && FoundIn(e, rule, ip)
  }

  /** The first rule of a chain that finds the source, if any; without one the chain accepts. */
  function FirstRule(kernel: Kernel, chain: seq<SetName>, v6: nat, ip: Ip): Option<SetName> {
    if chain == [] then None
    else if Found(kernel, RuleFor(chain[0], v6), ip) then Some(chain[0])
    else FirstRule(kernel, chain[1..], v6, ip)
  }

  /** What a chain does with a source; its policy is to accept. */
  function ChainAction(kernel: Kernel, v6: nat, ip: Ip): Action {
    match FirstRule(kernel, CHAIN, v6, ip)
    case None => Accept
    case Some(name) => RuleFor(name, v6).action
  }

  // ----- lookups are membership -----

  /** A masked source equals the network address exactly if the source lies in the network. */
  lemma MaskedLookup(net: Net, ip: Ip)
    requires net.Valid() && ip.Valid() && net.family == V6 == ip.family
    ensures var mask := V6Mask(net.len);
            net.Trunc().addr == (if mask.Some? then BitAnd(ip.addr, mask.value) else ip.addr) <==> net.Contains(ip)
  {
    hide Pow2, ClearLow, BitAnd;
    ContainsByMask(net, ip);
    if net.len == 128 {
      HostRange(net);
    } else {
      NetmaskClears(ip.addr, 128, 128 - net.len);
    }
  }

  lemma BanLookup(net: Net, v6: nat, ip: Ip)
    requires net.Valid() && ip.Valid()
    ensures FoundIn(PlaceBan(net, v6), RuleFor(PlaceBan(net, v6).name, v6), ip) <==> net.Contains(ip)
  {
    hide V6Mask, BitAnd, Pow2;
    if net.family == V6 && net.len == v6 && ip.family == V6 {
      MaskedLookup(net, ip);
    } else if net.family == V4 && net.len == 32 {
      HostRange(net);
    }
  }

  lemma HostRange(net: Net)
    requires net.Valid() && net.len == Width(net.family)
    ensures net.First() == net.addr == net.Last()
  {
  }

  lemma CrowdLookup(net: Net, v6: nat, ip: Ip)
    requires net.Valid() && ip.Valid()
    ensures FoundIn(PlaceCrowd(net), RuleFor(PlaceCrowd(net).name, v6), ip) <==> net.Contains(ip)
  {
    hide V6Mask, BitAnd, Pow2;
    if net.family == V6 && net.len == CROWD_V6_PREFIX && ip.family == V6 {
      MaskedLookup(net, ip);
    } else if net.family == V4 && net.len == 32 {
      HostRange(net);
    }
  }

  lemma AllowLookup(net: Net, v6: nat, ip: Ip)
    requires net.Valid()
    ensures FoundIn(PlaceAllow(net), RuleFor(PlaceAllow(net).name, v6), ip) <==> net.Contains(ip)
  {
    hide V6Mask, BitAnd, Pow2;
  }

  function Place(purpose: Purpose, net: Net, v6: nat): Element
    requires net.Valid()
  {
    match purpose
    case Allow => PlaceAllow(net)
    case Local => PlaceBan(net, v6)
    case Crowd => PlaceCrowd(net)
  }

  ghost predicate InSome(nets: set<Net>, ip: Ip) {
    exists n :: n in nets && n.Valid() && n.Contains(ip)
  }

  /** The kernel holds exactly the elements of these nets. */
  ghost predicate Holds(kernel: Kernel, nets: Purpose -> set<Net>, v6: nat) {
    && (forall p, n :: n in nets(p) ==> n.Valid() && Place(p, n, v6) in kernel)
    && (forall e :: e in kernel ==> exists p, n :: n in nets(p) && n.Valid() && e == Place(p, n, v6))
  }

  lemma Lookup(purpose: Purpose, net: Net, v6: nat, ip: Ip)
    requires net.Valid() && ip.Valid()
    ensures var e := Place(purpose, net, v6);
            e.name in SetsOf(purpose) && (FoundIn(e, RuleFor(e.name, v6), ip) <==> net.Contains(ip))
  {
    match purpose
    case Allow => AllowLookup(net, v6, ip);
    case Local => BanLookup(net, v6, ip);
    case Crowd => CrowdLookup(net, v6, ip);
  }

  lemma SetsDisjoint(p: Purpose, q: Purpose, name: SetName)
    requires name in SetsOf(p) && name in SetsOf(q)
    ensures p == q
  {
  }

  lemma {:induction false} FirstRuleFinds(kernel: Kernel, chain: seq<SetName>, v6: nat, ip: Ip)
    ensures FirstRule(kernel, chain, v6, ip).Some?
       <==> exists name :: name in chain && Found(kernel, RuleFor(name, v6), ip)
    ensures FirstRule(kernel, chain, v6, ip).Some? ==> FirstRule(kernel, chain, v6, ip).value in chain
    decreases |chain|
  {
    if chain != [] {
      hide RuleFor, Found;
      FirstRuleFinds(kernel, chain[1..], v6, ip);
      assert forall name :: name in chain <==> name == chain[0] || name in chain[1..];
    }
  }

  lemma {:induction false} FirstRuleConcat(kernel: Kernel, a: seq<SetName>, b: seq<SetName>, v6: nat, ip: Ip)
    ensures FirstRule(kernel, a + b, v6, ip)
         == if FirstRule(kernel, a, v6, ip).Some? then FirstRule(kernel, a, v6, ip) else FirstRule(kernel, b, v6, ip)
    decreases |a|
  {
    hide RuleFor, Found;
    if a == [] {
      assert a + b == b;
    } else {
      assert (a + b)[1..] == a[1..] + b;
      FirstRuleConcat(kernel, a[1..], b, v6, ip);
    }
  }

  /** The rules of one purpose together find exactly the members of its nets. */
  lemma PurposeFinds(kernel: Kernel, nets: Purpose -> set<Net>, v6: nat, purpose: Purpose, ip: Ip)
    requires Holds(kernel, nets, v6) && ip.Valid()
    ensures FirstRule(kernel, SetsOf(purpose), v6, ip).Some? <==> InSome(nets(purpose), ip)
  {
    hide RuleFor, FoundIn, SetsOf, Place, FirstRule;
    FirstRuleFinds(kernel, SetsOf(purpose), v6, ip);
    if name :| name in SetsOf(purpose) && Found(kernel, RuleFor(name, v6), ip) {
      var e :| e in kernel && FoundIn(e, RuleFor(name, v6), ip);
      var p, n :| n in nets(p) && n.Valid() && e == Place(p, n, v6);
      FoundInItsSet(e, name, v6, ip);
      Lookup(p, n, v6, ip);
      SetsDisjoint(p, purpose, name);
      assert n.Contains(ip);
    }
    if n :| n in nets(purpose) && n.Valid() && n.Contains(ip) {
      var e := Place(purpose, n, v6);
      assert e in kernel;
      Lookup(purpose, n, v6, ip);
      assert e.name in SetsOf(purpose) && Found(kernel, RuleFor(e.name, v6), ip);
    }
  }

  lemma FoundInItsSet(e: Element, name: SetName, v6: nat, ip: Ip)
    requires FoundIn(e, RuleFor(name, v6), ip)
    ensures e.name == name
  {
  }

  /** The chains decide by plain membership: an allowed source is accepted; another one is dropped by a
      ban rule if it lies in a banned network, else by a crowd rule if it lies in a listed network; every
      other source is accepted. */
  lemma ChainsDecideByMembership(kernel: Kernel, nets: Purpose -> set<Net>, v6: nat, ip: Ip)
    requires Holds(kernel, nets, v6) && ip.Valid()
    ensures var r := FirstRule(kernel, CHAIN, v6, ip);
            var allowed, banned, listed := InSome(nets(Allow), ip), InSome(nets(Local), ip), InSome(nets(Crowd), ip);
            && (allowed <==> r.Some? && r.value in SetsOf(Allow))
            && (!allowed && banned <==> r.Some? && r.value in SetsOf(Local))
            && (!allowed && !banned && listed <==> r.Some? && r.value in SetsOf(Crowd))
            && (!allowed && !banned && !listed <==> r == None)
            && (ChainAction(kernel, v6, ip) == Drop <==> !allowed && (banned || listed))
  {
    hide RuleFor, Found, FirstRule, Holds, InSome, SetsOf;
    var a, l, c := SetsOf(Allow), SetsOf(Local), SetsOf(Crowd);
    FirstRuleConcat(kernel, a + l, c, v6, ip);
    FirstRuleConcat(kernel, a, l, v6, ip);
    forall p: Purpose
      ensures FirstRule(kernel, SetsOf(p), v6, ip).Some? <==> InSome(nets(p), ip)
      ensures FirstRule(kernel, SetsOf(p), v6, ip).Some? ==> FirstRule(kernel, SetsOf(p), v6, ip).value in SetsOf(p)
    {
      PurposeFinds(kernel, nets, v6, p, ip);
      FirstRuleFinds(kernel, SetsOf(p), v6, ip);
    }
    var r := FirstRule(kernel, CHAIN, v6, ip);
    if r.Some? {
      forall p, q | r.value in SetsOf(p) && r.value in SetsOf(q)
        ensures p == q
      {
        SetsDisjoint(p, q, r.value);
      }
      AcceptOrDrop(r.value, v6);
    }
  }

  lemma AcceptOrDrop(name: SetName, v6: nat)
    ensures RuleFor(name, v6).action == if name in SetsOf(Allow) then Accept else Drop
  {
  }

  // ----- listing: elements back to networks -----

  /** What a listed element is taken for; a range that is no network is corruption, and is taken for its
      start address, the key that was added. */
  datatype Listed = Listed(net: Net, corrupt: bool)

  function ReadBack(e: Element, v6: nat): Listed
    requires v6 <= 128
  {
    var family := if e.name in {Ban4, BanNet4, Crowd4, CrowdNet4, Allow4} then V4 else V6;
    match e.key
    case Single(a) =>
      var len := if e.name == Ban6 then v6 else if e.name == Crowd6 then CROWD_V6_PREFIX else Width(family);
      Listed(Net(family, a, len), false)
    case Range(lo, hi) =>
      match RangeToNet(Ip(family, lo), Ip(family, hi))
      case Some(n) => Listed(n, false)
      case None => Listed(Net(family, lo, Width(family)), true)
  }

  /** Listing recovers every canonical network from its element, and reports no corruption. */
  lemma ListingInvertsPlacement(purpose: Purpose, net: Net, v6: nat)
    requires net.Canonical() && v6 <= 128
    ensures ReadBack(Place(purpose, net, v6), v6) == Listed(net, false)
  {
    hide RangeToNet, ClearLow, Pow2;
    RangeRoundTrip(net);
  }

  /** Distinct canonical networks have distinct elements. */
  lemma PlaceInjective(purpose: Purpose, a: Net, b: Net, v6: nat)
    requires a.Canonical() && b.Canonical() && v6 <= 128
    requires Place(purpose, a, v6) == Place(purpose, b, v6)
    ensures a == b
  {
    hide Place, ReadBack;
    ListingInvertsPlacement(purpose, a, v6);
    ListingInvertsPlacement(purpose, b, v6);
  }

  /** A network and its canonical form share one element. */
  lemma PlaceForgetsHostBits(net: Net, v6: nat)
    requires net.Valid() && v6 <= 128
    ensures net.Trunc().Canonical() && PlaceBan(net, v6) == PlaceBan(net.Trunc(), v6)
  {
    NetBounds(net);
    if net.family == V4 && net.len == 32 {
      HostRange(net);
    }
  }

  /** A range is reported as corrupt exactly when no network spans it. */
  lemma CorruptIffNoNet(e: Element, v6: nat)
    requires e.name in {BanNet4, BanNet6} && e.key.Range? && v6 <= 128
    requires var w := Width(if e.name == BanNet4 then V4 else V6); e.key.lo < Pow2(w) && e.key.hi < Pow2(w)
    ensures var family := if e.name == BanNet4 then V4 else V6;
            && (ReadBack(e, v6).corrupt <==> !exists n: Net :: Spans(n, Ip(family, e.key.lo), Ip(family, e.key.hi)))
            && (ReadBack(e, v6).corrupt ==> ReadBack(e, v6).net == Net(family, e.key.lo, Width(family)))
  {
    var family := if e.name == BanNet4 then V4 else V6;
    hide RangeToNet, Spans, IsCidr, Pow2;
    IsCidrExact(Ip(family, e.key.lo), Ip(family, e.key.hi));
  }

  // ----- rebuilding sets -----

  /** A network with its remaining lifetime, if it has one. */
  datatype Entry = Entry(net: Net, expiresIn: Option<nat>)

  /** An element has a timeout exactly if its entry expires: the time left, and never less than a second. */
  ghost predicate KeepsTime(left: Option<nat>, timeout: Option<nat>) {
    && (left == None <==> timeout == None)
    && (left.Some? ==> timeout.value == if left.value == 0 then 1 else left.value)
  }

  /** A lifetime as it is written into an element: at least one second. */
  function Lifetime(expiresIn: Option<nat>): (timeout: Option<nat>)
    ensures KeepsTime(expiresIn, timeout)
  {
    if expiresIn.Some? then Some(Max(expiresIn.value, 1)) else None
  }

  type Groups = map<SetName, seq<(Key, Option<nat>)>>

  ghost predicate Emitted(groups: Groups, e: Element) {
    e.name in groups && exists i :: 0 <= i < |groups[e.name]| && groups[e.name][i].0 == e.key
  }

  ghost predicate NoneTwice(groups: Groups) {
    forall name, i, j :: name in groups && 0 <= i < j < |groups[name]| ==> groups[name][i].0 != groups[name][j].0
  }

  ghost predicate Placed(purpose: Purpose, entries: seq<Entry>, v6: nat, e: Element)
    requires forall i :: 0 <= i < |entries| ==> entries[i].net.Valid()
  {
    exists i :: 0 <= i < |entries| && Place(purpose, entries[i].net, v6) == e
  }

  /** Entry `i` is the first one with this element. */
  ghost predicate FirstPlaced(purpose: Purpose, entries: seq<Entry>, i: nat, v6: nat, e: Element)
    requires forall i :: 0 <= i < |entries| ==> entries[i].net.Valid()
  {
    && i < |entries| && Place(purpose, entries[i].net, v6) == e
    && forall j :: 0 <= j < i ==> Place(purpose, entries[j].net, v6) != e
  }

  /** Every element has the lifetime of the first entry it stands for. */
  ghost predicate LifetimesKept(purpose: Purpose, entries: seq<Entry>, v6: nat, groups: Groups)
    requires forall i :: 0 <= i < |entries| ==> entries[i].net.Valid()
  {
    forall name, j :: name in groups && 0 <= j < |groups[name]| ==>
      exists i: nat :: FirstPlaced(purpose, entries, i, v6, Element(name, groups[name][j].0))
                       && KeepsTime(entries[i].expiresIn, groups[name][j].1)
  }

  lemma LifetimeAdded(purpose: Purpose, entries: seq<Entry>, i: nat, v6: nat, groups: Groups, more: Groups)
    requires i < |entries| && forall k :: 0 <= k < |entries| ==> entries[k].net.Valid()
    requires LifetimesKept(purpose, entries, v6, groups)
    requires var e := Place(purpose, entries[i].net, v6);
             && FirstPlaced(purpose, entries, i, v6, e)
             && more == groups[e.name := (if e.name in groups then groups[e.name] else [])
                                         + [(e.key, Lifetime(entries[i].expiresIn))]]
    ensures LifetimesKept(purpose, entries, v6, more)
  {
    hide Place, FirstPlaced, Lifetime;
  }

  lemma EmitOne(groups: Groups, e: Element, life: Option<nat>) returns (more: Groups)
    requires NoneTwice(groups) && !Emitted(groups, e)
    ensures more == groups[e.name := (if e.name in groups then groups[e.name] else []) + [(e.key, life)]]
    ensures NoneTwice(more) && forall f :: Emitted(more, f) <==> f == e || Emitted(groups, f)
  {
    var before := if e.name in groups then groups[e.name] else [];
    var after := before + [(e.key, life)];
    more := groups[e.name := after];
    assert after[|before|].0 == e.key;
    forall f
      ensures Emitted(more, f) <==> f == e || Emitted(groups, f)
    {
      if f.name == e.name {
        assert forall i :: 0 <= i < |before| ==> after[i] == before[i];
      }
    }
  }

  /** Entries as elements, grouped by the set each belongs in: every element comes out once, and exactly
      the elements of the entries come out. */
  method Group(purpose: Purpose, entries: seq<Entry>, v6: nat) returns (groups: Groups)
    requires forall i :: 0 <= i < |entries| ==> entries[i].net.Valid()
    ensures NoneTwice(groups)
    ensures forall e :: Emitted(groups, e) <==> Placed(purpose, entries, v6, e)
    ensures LifetimesKept(purpose, entries, v6, groups)
  {
    hide Place, Emitted, NoneTwice, LifetimesKept, FirstPlaced, Placed;
    groups := map[];
    NothingEmitted(purpose, entries, v6);
    var seen: set<Element> := {};
    for i := 0 to |entries|
      invariant NoneTwice(groups)
      invariant forall e :: Emitted(groups, e) <==> e in seen
      invariant LifetimesKept(purpose, entries, v6, groups)
      invariant forall e :: e in seen <==> Placed(purpose, entries[..i], v6, e)
    {
      var e := Place(purpose, entries[i].net, v6);
      PlacedSnoc(purpose, entries, i, v6);
      if e !in seen {
        seen := seen + {e};
        var life := Lifetime(entries[i].expiresIn);
        ghost var more := EmitOne(groups, e, life);
        FirstIfNew(purpose, entries, i, v6);
        LifetimeAdded(purpose, entries, i, v6, groups, more);
        groups := groups[e.name := (if e.name in groups then groups[e.name] else []) + [(e.key, life)]];
      }
    }
    assert entries[..|entries|] == entries;
  }

  lemma NothingEmitted(purpose: Purpose, entries: seq<Entry>, v6: nat)
    requires forall k :: 0 <= k < |entries| ==> entries[k].net.Valid()
    ensures NoneTwice(map[]) && forall e :: !Emitted(map[], e) && !Placed(purpose, entries[..0], v6, e)
    ensures LifetimesKept(purpose, entries, v6, map[])
  {
  }

  lemma FirstIfNew(purpose: Purpose, entries: seq<Entry>, i: nat, v6: nat)
    requires i < |entries| && forall k :: 0 <= k < |entries| ==> entries[k].net.Valid()
    requires !Placed(purpose, entries[..i], v6, Place(purpose, entries[i].net, v6))
    ensures FirstPlaced(purpose, entries, i, v6, Place(purpose, entries[i].net, v6))
  {
    hide Place;
    forall j | 0 <= j < i
      ensures Place(purpose, entries[j].net, v6) != Place(purpose, entries[i].net, v6)
    {
      assert entries[..i][j] == entries[j];
    }
  }

  lemma PlacedSnoc(purpose: Purpose, entries: seq<Entry>, i: nat, v6: nat)
    requires i < |entries| && forall k :: 0 <= k < |entries| ==> entries[k].net.Valid()
    ensures forall e :: Placed(purpose, entries[..i + 1], v6, e)
                   <==> Placed(purpose, entries[..i], v6, e) || e == Place(purpose, entries[i].net, v6)
  {
    hide Place;
    var a, b := entries[..i], entries[..i + 1];
    forall e
      ensures Placed(purpose, b, v6, e) <==> Placed(purpose, a, v6, e) || e == Place(purpose, entries[i].net, v6)
    {
      if Placed(purpose, a, v6, e) {
        var k :| 0 <= k < |a| && Place(purpose, a[k].net, v6) == e;
        assert b[k] == a[k];
      }
      if Placed(purpose, b, v6, e) {
        var k :| 0 <= k < |b| && Place(purpose, b[k].net, v6) == e;
        if k < i {
          assert a[k] == b[k];
        }
      }
      assert b[i] == entries[i];
    }
  }

  /** Looking a source up in the groups answers whether it lies in one of the entries. */
  lemma GroupsKeepMeaning(purpose: Purpose, entries: seq<Entry>, v6: nat, groups: Groups, ip: Ip)
    requires ip.Valid() && forall i :: 0 <= i < |entries| ==> entries[i].net.Valid()
    requires forall e :: Emitted(groups, e) <==> Placed(purpose, entries, v6, e)
    ensures (exists e :: Emitted(groups, e) && FoundIn(e, RuleFor(e.name, v6), ip))
       <==> exists i :: 0 <= i < |entries| && entries[i].net.Contains(ip)
  {
    hide Place, FoundIn, RuleFor, Emitted;
    forall i | 0 <= i < |entries|
      ensures var e := Place(purpose, entries[i].net, v6);
              FoundIn(e, RuleFor(e.name, v6), ip) <==> entries[i].net.Contains(ip)
      ensures Emitted(groups, Place(purpose, entries[i].net, v6))
    {
      Lookup(purpose, entries[i].net, v6, ip);
      assert Placed(purpose, entries, v6, Place(purpose, entries[i].net, v6));
    }
  }

  // ----- re-keying after a change of the IPv6 prefix -----

  /** The keys of the IPv6 ban set with their remaining lifetimes. */
  type Keys6 = map<nat, Option<nat>>

  function NetworkOf(addr: nat, v6: nat): nat
    requires v6 <= 128
  {
    ClearLow(addr, 128 - v6)
  }

  /** The listing of the set, in any order. */
  ghost predicate Lists(order: seq<nat>, keys: Keys6) {
    forall k :: k in order <==> k in keys
  }

  /** The first key in the listing that moves to `network`. */
  ghost predicate FirstMoving(order: seq<nat>, i: nat, network: nat, v6: nat)
    requires v6 <= 128
  {
    && i < |order| && NetworkOf(order[i], v6) == network
    && forall j :: 0 <= j < i ==> NetworkOf(order[j], v6) != network
  }

  /** Keys off the boundary move onto it; a network that several keys move to takes the lifetime of the
      first one listed, and one that is held already keeps its own. */
  ghost predicate Rekeyed(keys: Keys6, order: seq<nat>, v6: nat, r: Keys6)
    requires v6 <= 128
  {
    && (forall t :: t in r <==> exists k :: k in keys && NetworkOf(k, v6) == t)
    && (forall k :: k in keys && NetworkOf(k, v6) == k ==> k in r && r[k] == keys[k])
    && (forall t :: t in r && t !in keys ==>
          exists i: nat :: FirstMoving(order, i, t, v6) && order[i] in keys && KeepsTime(keys[order[i]], r[t]))
  }

  /** The state of the re-keying when the first `i` listed keys have been looked at. */
  ghost predicate RekeyedUpTo(keys: Keys6, order: seq<nat>, i: nat, v6: nat, r: Keys6)
    requires v6 <= 128 && i <= |order|
  {
    && (forall t :: t in r && t !in keys ==>
          exists j: nat :: j < i && FirstMoving(order, j, t, v6) && order[j] in keys && KeepsTime(keys[order[j]], r[t]))
    && (forall k :: k in keys ==> (k in r <==> NetworkOf(k, v6) == k) && (k in r ==> r[k] == keys[k]))
    && (forall j :: 0 <= j < i ==> NetworkOf(order[j], v6) in r)
  }

  lemma RekeyStart(keys: Keys6, order: seq<nat>, v6: nat)
    requires v6 <= 128
    ensures RekeyedUpTo(keys, order, 0, v6, map k | k in keys && NetworkOf(k, v6) == k :: keys[k])
  {
    hide NetworkOf;
  }

  lemma RekeyStep(keys: Keys6, order: seq<nat>, i: nat, v6: nat, r: Keys6)
    requires v6 <= 128 && i < |order| && order[i] in keys && RekeyedUpTo(keys, order, i, v6, r)
    ensures var t := NetworkOf(order[i], v6);
            && (t in r ==> RekeyedUpTo(keys, order, i + 1, v6, r))
            && (t !in r ==> t !in keys && t != order[i]
                            && RekeyedUpTo(keys, order, i + 1, v6, r[t := Lifetime(keys[order[i]])]))
  {
    hide ClearLow;
    ClearAgain(v6);
    var t := NetworkOf(order[i], v6);
    if t !in r {
      assert t !in keys by {
        assert NetworkOf(t, v6) == t;
      }
      assert FirstMoving(order, i, t, v6);
    }
  }

  lemma RekeyDone(keys: Keys6, order: seq<nat>, v6: nat, r: Keys6)
    requires v6 <= 128 && Lists(order, keys) && RekeyedUpTo(keys, order, |order|, v6, r)
    ensures Rekeyed(keys, order, v6, r)
    ensures (forall k :: k in keys ==> NetworkOf(k, v6) == k) ==> r == keys
  {
    hide ClearLow, NetworkOf;
    forall t
      ensures t in r <==> exists k :: k in keys && NetworkOf(k, v6) == t
    {
      if k :| k in keys && NetworkOf(k, v6) == t {
        var j :| 0 <= j < |order| && order[j] == k;
        assert NetworkOf(order[j], v6) in r;
      }
      if t in r && t in keys {
        assert NetworkOf(t, v6) == t;
      }
    }
  }

  /** One transaction: the keys off the boundary are deleted, and their networks added unless held. */
  method RekeyBan6(keys: Keys6, order: seq<nat>, v6: nat) returns (r: Keys6)
    requires v6 <= 128 && Lists(order, keys)
    ensures Rekeyed(keys, order, v6, r)
    ensures (forall k :: k in keys ==> NetworkOf(k, v6) == k) ==> r == keys
  {
    hide ClearLow, NetworkOf, FirstMoving, Lifetime, RekeyedUpTo, Rekeyed;
    RekeyStart(keys, order, v6);
    r := map k | k in keys && NetworkOf(k, v6) == k :: keys[k];
    for i := 0 to |order|
      invariant RekeyedUpTo(keys, order, i, v6, r)
    {
      assert order[i] in keys;
      RekeyStep(keys, order, i, v6, r);
      var t := NetworkOf(order[i], v6);
      // Not held, and no earlier key has moved there.
      if t !in r {
        r := r[t := Lifetime(keys[order[i]])];
      }
    }
    RekeyDone(keys, order, v6, r);
  }

  lemma ClearAgain(v6: nat)
    requires v6 <= 128
    ensures forall k :: NetworkOf(NetworkOf(k, v6), v6) == NetworkOf(k, v6)
  {
    forall k
      ensures NetworkOf(NetworkOf(k, v6), v6) == NetworkOf(k, v6)
    {
      ClearTwice(k, 128 - v6, 128 - v6);
    }
  }

  /** Afterwards every key is on the boundary, a second run has nothing to do, and an address that a key
      covered under the old, longer or equal prefix is covered still. */
  lemma RekeyingKeepsCoverage(keys: Keys6, order: seq<nat>, oldV6: nat, v6: nat, r: Keys6)
    requires v6 <= oldV6 <= 128 && Rekeyed(keys, order, v6, r)
    ensures forall t :: t in r ==> NetworkOf(t, v6) == t
    ensures forall again, o :: Rekeyed(r, o, v6, again) ==> again == r
    ensures forall addr :: NetworkOf(addr, oldV6) in keys ==> NetworkOf(addr, v6) in r
  {
    hide ClearLow;
    ClearAgain(v6);
    forall addr | NetworkOf(addr, oldV6) in keys
      ensures NetworkOf(addr, v6) in r
    {
      ClearTwice(addr, 128 - oldV6, 128 - v6);
      assert NetworkOf(NetworkOf(addr, oldV6), v6) == NetworkOf(addr, v6);
    }
    forall again, o | Rekeyed(r, o, v6, again)
      ensures again == r
    {
      assert forall t :: t in again <==> t in r;
    }
  }

  /** The network of a key is what the mask of the IPv6 rule makes of it. */
  lemma NetworkOfIsMasked(addr: nat, v6: nat)
    requires v6 <= 128 && addr < Pow2(128)
    ensures var mask := V6Mask(v6);
            NetworkOf(addr, v6) == if mask.Some? then BitAnd(addr, mask.value) else addr
  {
    hide Pow2, BitAnd;
    if v6 < 128 {
      hide ClearLow;
      NetmaskClears(addr, 128, 128 - v6);
    }
  }

  ghost function Elements6(keys: Keys6): Kernel {
    set k | k in keys :: Element(Ban6, Single(k))
  }

  /** What the IPv6 rule finds among keys on the boundary: the sources whose network is a key. */
  lemma RuleFindsNetworks(keys: Keys6, v6: nat, ip: Ip)
    requires v6 <= 128 && ip.Valid() && ip.family == V6
    ensures Found(Elements6(keys), RuleFor(Ban6, v6), ip) <==> NetworkOf(ip.addr, v6) in keys
  {
    hide Pow2, BitAnd, NetworkOf, V6Mask;
    NetworkOfIsMasked(ip.addr, v6);
    if NetworkOf(ip.addr, v6) in keys {
      assert FoundIn(Element(Ban6, Single(NetworkOf(ip.addr, v6))), RuleFor(Ban6, v6), ip);
    }
  }

  /** After re-keying the rule drops exactly the sources that share a network of the new prefix with an old key,
      among them all that it dropped before. */
  lemma RekeyedRuleFinds(keys: Keys6, order: seq<nat>, oldV6: nat, v6: nat, r: Keys6, ip: Ip)
    requires v6 <= oldV6 <= 128 && Rekeyed(keys, order, v6, r) && ip.Valid() && ip.family == V6
    requires forall k :: k in keys ==> k < Pow2(128)
    ensures Found(Elements6(r), RuleFor(Ban6, v6), ip)
       <==> exists k :: k in keys && Net(V6, k, v6).Valid() && Net(V6, k, v6).Contains(ip)
    ensures Found(Elements6(keys), RuleFor(Ban6, oldV6), ip) ==> Found(Elements6(r), RuleFor(Ban6, v6), ip)
  {
    hide Pow2, ClearLow, Found, RuleFor, Elements6;
    RuleFindsNetworks(r, v6, ip);
    RuleFindsNetworks(keys, oldV6, ip);
    RekeyingKeepsCoverage(keys, order, oldV6, v6, r);
    forall k | k in keys
      ensures Net(V6, k, v6).Valid() && (Net(V6, k, v6).Contains(ip) <==> NetworkOf(ip.addr, v6) == NetworkOf(k, v6))
    {
      ContainsByMask(Net(V6, k, v6), ip);
    }
  }
}
