/**
 The ARP cache of RFC 826: sixteen slots searched from the front, against a map from addresses
 to the latest translation.
 */
module Arp {
  import opened Common
  import opened Packet

  const ARP_CACHE_SIZE := 16
  const ARP_CACHE_TTL := 30000

  datatype Entry = Entry(ip: Ip, mac: Mac, timestamp: nat)

  const EMPTY: Entry := Entry([0, 0, 0, 0], [0, 0, 0, 0, 0, 0], 0)

  type Slots = c: seq<Entry> | |c| == ARP_CACHE_SIZE witness seq(ARP_CACHE_SIZE, _ => EMPTY)

  predicate IsFree(e: Entry) { e.ip[0] == 0 }

  // ---------------------------------------------------------------- the operations

  /** The first slot from i on that holds the address or is free. */
  function SlotFor(c: Slots, ip: Ip, i: nat): (k: nat)
    requires i <= |c|
    ensures i <= k <= |c| && (k < |c| ==> c[k].ip == ip || IsFree(c[k]))
    ensures forall j :: i <= j < k ==> c[j].ip != ip && !IsFree(c[j])
    decreases |c| - i
  {
    if i == |c| || c[i].ip == ip || IsFree(c[i]) then i else SlotFor(c, ip, i + 1)
  }

  /** The first slot from i on that holds the address. */
  function SlotOf(c: Slots, ip: Ip, i: nat): (k: nat)
    requires i <= |c|
    ensures i <= k <= |c| && (k < |c| ==> c[k].ip == ip)
    ensures forall j :: i <= j < k ==> c[j].ip != ip
    decreases |c| - i
  {
    if i == |c| || c[i].ip == ip then i else SlotOf(c, ip, i + 1)
  }

  /** cache_arp_entry; a full cache is left alone. */
  function Insert(c: Slots, ip: Ip, mac: Mac, now: nat): Slots {
    var k := SlotFor(c, ip, 0);
    if k < |c| then c[k := Entry(ip, mac, now)] else c
  }

  predicate Fits(c: Slots, ip: Ip) { SlotFor(c, ip, 0) < |c| }

  predicate Stale(timestamp: nat, now: nat) { (now as int - timestamp) % WORD_64 > ARP_CACHE_TTL }

  function Swept(e: Entry, now: nat): Entry {
    if !IsFree(e) && Stale(e.timestamp, now) then EMPTY else e
  }

  /** cleanup_arp_cache */
  function Cleanup(c: Slots, now: nat): Slots { seq(|c|, i requires 0 <= i < |c| => Swept(c[i], now)) }

  function Cleared(): Slots { seq(ARP_CACHE_SIZE, _ => EMPTY) }

  /** What find_mac_in_cache finds, with its time. */
  function Find(c: Slots, ip: Ip): Option<(Mac, nat)> {
    var k := SlotOf(c, ip, 0);
    if k < |c| then Some((c[k].mac, c[k].timestamp)) else None
  }

  class Cache {
    const slots: array<Entry>

    ghost predicate Valid()
      reads this
    {
      slots.Length == ARP_CACHE_SIZE
    }

    /** The cache as the kernel starts: all zero. */
    constructor ()
      ensures Valid() && fresh(slots) && slots[..] == Cleared()
    {
      slots := new Entry[ARP_CACHE_SIZE](_ => EMPTY);
    }

    /** cache_arp_entry */
    method CacheEntry(ip: Ip, mac: Mac, now: nat) returns (ok: bool)
      requires Valid()
      modifies slots
      ensures Valid() && ok == Fits(old(slots[..]), ip)
      ensures slots[..] == Insert(old(slots[..]), ip, mac, now)
    {
      for i := 0 to slots.Length
        invariant slots[..] == old(slots[..])
        invariant SlotFor(slots[..], ip, 0) == SlotFor(slots[..], ip, i)
      {
        if slots[i].ip == ip || slots[i].ip[0] == 0 {
          slots[i] := Entry(ip, mac, now);
          return true;
        }
      }
      return false;
    }

    /** cleanup_arp_cache */
    method CleanUp(now: nat)
      requires Valid()
      modifies slots
      ensures Valid() && slots[..] == Cleanup(old(slots[..]), now)
    {
      ghost var before := slots[..];
      for i := 0 to slots.Length
        invariant forall k :: 0 <= k < i ==> slots[k] == Swept(before[k], now)
        invariant forall k :: i <= k < slots.Length ==> slots[k] == before[k]
      {
        if slots[i].ip[0] != 0 && (now as int - slots[i].timestamp) % WORD_64 > ARP_CACHE_TTL {
          slots[i] := EMPTY;
        }
      }
    }

    /** clear_arp_cache */
    method Clear()
      requires Valid()
      modifies slots
      ensures Valid() && slots[..] == Cleared()
    {
      for i := 0 to slots.Length
        invariant forall k :: 0 <= k < i ==> slots[k] == EMPTY
      {
        slots[i] := EMPTY;
      }
    }

    /** find_mac_in_cache */
    method FindMac(ip: Ip) returns (mac: Option<Mac>)
      requires Valid()
      ensures mac == match Find(slots[..], ip) case None => None case Some((m, _)) => Some(m)
    {
      for i := 0 to slots.Length
        invariant SlotOf(slots[..], ip, 0) == SlotOf(slots[..], ip, i)
      {
        if slots[i].ip == ip { return Some(slots[i].mac); }
      }
      return None;
    }
  }

  // ---------------------------------------------------------------- the map it stands for

  /** The latest translation of each address, and when it was learnt. */
  type Table = map<Ip, (Mac, nat)>

  predicate Real(ip: Ip) { ip[0] != 0 }

  /** Slots of one address are ordered newest first, and no slot is from the future. */
  predicate Ordered(c: Slots, clock: nat) {
    && (forall i, j :: 0 <= i < j < |c| && c[i].ip == c[j].ip && Real(c[i].ip) ==> c[i].timestamp >= c[j].timestamp)
    && (forall i :: 0 <= i < |c| ==> c[i].timestamp <= clock)
  }

  ghost predicate Shows(c: Slots, t: Table) {
    && (forall ip :: ip in t ==> Real(ip))
    && (forall ip: Ip :: Real(ip) ==> Find(c, ip) == if ip in t then Some(t[ip]) else None)
  }

  /** An insertion finds room exactly when one of the sixteen slots holds the address or is free. */
  lemma FitsIff(c: Slots, ip: Ip)
    ensures Fits(c, ip) <==> exists i :: 0 <= i < 16 && (c[i].ip == ip || !Real(c[i].ip))
  {
    hide SlotFor;
    var k := SlotFor(c, ip, 0);
    if k < |c| { assert c[k].ip == ip || !Real(c[k].ip); }
  }

  lemma FindFirst(c: Slots, ip: Ip, k: nat)
    requires k < |c| && c[k].ip == ip && forall j :: 0 <= j < k ==> c[j].ip != ip
    ensures Find(c, ip) == Some((c[k].mac, c[k].timestamp))
  {}

  lemma FindNone(c: Slots, ip: Ip)
    requires forall j :: 0 <= j < |c| ==> c[j].ip != ip
    ensures Find(c, ip) == None
  {}

  /** An insertion is found at once and disturbs no other address, unless the cache is full. */
  lemma InsertFinds(c: Slots, ip: Ip, mac: Mac, now: nat, other: Ip)
    requires Real(ip) && Real(other)
    ensures Find(Insert(c, ip, mac, now), other) == if other == ip && Fits(c, ip) then Some((mac, now)) else Find(c, other)
  {
    hide SlotFor, SlotOf;
    var k := SlotFor(c, ip, 0);
    var c' := Insert(c, ip, mac, now);
    if k < |c| {
      if other == ip {
        FindFirst(c', ip, k);
      } else {
        SameFind(c, c', other);
      }
    }
  }

  lemma SameFind(c: Slots, c': Slots, ip: Ip)
    requires forall i :: 0 <= i < |c| ==> c'[i] == c[i] || (c'[i].ip != ip && c[i].ip != ip)
    ensures Find(c', ip) == Find(c, ip)
  {
    hide SlotOf;
    var k := SlotOf(c, ip, 0);
    if k < |c| {
      FindFirst(c', ip, k);
    } else {
      FindNone(c', ip);
    }
  }

  lemma InsertOrdered(c: Slots, ip: Ip, mac: Mac, clock: nat, now: nat)
    requires Ordered(c, clock) && clock <= now
    ensures Ordered(Insert(c, ip, mac, now), now)
  {
    hide SlotFor;
  }

  lemma StaleIs(timestamp: nat, now: nat)
    requires timestamp <= now < WORD_64
    ensures Stale(timestamp, now) <==> now - timestamp > ARP_CACHE_TTL
  {}

  /** A cleanup forgets exactly the translations that are too old: no older duplicate comes to light. */
  lemma CleanupFinds(c: Slots, clock: nat, now: nat, ip: Ip)
    requires Ordered(c, clock) && clock <= now < WORD_64 && Real(ip)
    ensures Find(Cleanup(c, now), ip) ==
            match Find(c, ip)
            case None => None
            case Some((mac, time)) => if now - time > 30000 then None else Some((mac, time))
  {
    hide SlotOf, Stale;
    var k := SlotOf(c, ip, 0);
    forall i | 0 <= i < |c| ensures Stale(c[i].timestamp, now) <==> now - c[i].timestamp > ARP_CACHE_TTL {
      StaleIs(c[i].timestamp, now);
    }
    var c' := Cleanup(c, now);
    if k < |c| && now - c[k].timestamp <= ARP_CACHE_TTL {
      FindFirst(c', ip, k);
    } else {
      FindNone(c', ip);
    }
  }

  lemma CleanupOrdered(c: Slots, clock: nat, now: nat)
    requires Ordered(c, clock) && clock <= now
    ensures Ordered(Cleanup(c, now), now)
  {
    hide Stale;
  }

  // ---------------------------------------------------------------- runs

  datatype Op = Learn(ip: Ip, mac: Mac, now: nat) | Sweep(now: nat) | Reset

  function Step(c: Slots, op: Op): Slots {
    match op
    case Learn(ip, mac, now) => Insert(c, ip, mac, now)
    case Sweep(now) => Cleanup(c, now)
    case Reset => Cleared()
  }

  function Run(c: Slots, ops: seq<Op>): Slots
    decreases |ops|
  {
    if ops == [] then c else Run(Step(c, ops[0]), ops[1..])
  }

  /** The same on the map; whether an insertion found room is the cache's own doing. */
  function TableStep(t: Table, op: Op, fits: bool): Table {
    match op
    case Learn(ip, mac, now) => if fits then t[ip := (mac, now)] else t
    case Sweep(now) => map ip | ip in t && now - t[ip].1 <= 30000 :: t[ip]
    case Reset => map[]
  }

  function TableRun(t: Table, c: Slots, ops: seq<Op>): Table
    decreases |ops|
  {
    if ops == [] then t
    else TableRun(TableStep(t, ops[0], ops[0].Learn? && Fits(c, ops[0].ip)), Step(c, ops[0]), ops[1..])
  }

  /** Addresses with a first byte other than 0, and a clock that never goes back. */
  predicate Timely(ops: seq<Op>, clock: nat)
    decreases |ops|
  {
    ops == [] ||
    match ops[0]
    case Learn(ip, _, now) => Real(ip) && clock <= now < WORD_64 && Timely(ops[1..], now)
    case Sweep(now) => clock <= now < WORD_64 && Timely(ops[1..], now)
    case Reset => Timely(ops[1..], clock)
  }

  function Later(op: Op, clock: nat): nat { if op.Reset? then clock else op.now }

  lemma StepShows(c: Slots, t: Table, op: Op, clock: nat)
    requires Ordered(c, clock) && Shows(c, t) && Timely([op], clock)
    ensures Ordered(Step(c, op), Later(op, clock))
    ensures Shows(Step(c, op), TableStep(t, op, op.Learn? && Fits(c, op.ip)))
  {
    hide Ordered, SlotFor, SlotOf, Find, Insert, Cleanup;
    match op
    case Learn(ip, mac, now) =>
      InsertOrdered(c, ip, mac, clock, now);
      forall other: Ip | Real(other) { InsertFinds(c, ip, mac, now, other); }
    case Sweep(now) =>
      CleanupOrdered(c, clock, now);
      forall ip: Ip | Real(ip) { CleanupFinds(c, clock, now, ip); }
    case Reset =>
      ClearedOrdered(clock);
      forall ip: Ip | Real(ip) ensures Find(Cleared(), ip) == None { FindNone(Cleared(), ip); }
  }

  /** A cleared cache knows nobody, and answers 0.0.0.0 with the zero address. */
  lemma ClearedFinds(ip: Ip)
    ensures Find(Cleared(), ip) == if ip == [0, 0, 0, 0] then Some(([0, 0, 0, 0, 0, 0], 0)) else None
  {
    hide SlotOf;
    if ip == [0, 0, 0, 0] { FindFirst(Cleared(), ip, 0); } else { FindNone(Cleared(), ip); }
  }

  lemma ClearedOrdered(clock: nat)
    ensures Ordered(Cleared(), clock)
  {}

  /** Over every run the cache finds what the map holds: the latest translation, and never an older one. */
  lemma {:induction false} RunRefines(c: Slots, t: Table, ops: seq<Op>, clock: nat)
    requires Ordered(c, clock) && Shows(c, t) && Timely(ops, clock)
    ensures Shows(Run(c, ops), TableRun(t, c, ops))
    decreases |ops|
  {
    hide Ordered, Shows, Step, TableStep, Fits;
    if ops != [] {
      assert Timely([ops[0]], clock);
      StepShows(c, t, ops[0], clock);
      RunRefines(Step(c, ops[0]), TableStep(t, ops[0], ops[0].Learn? && Fits(c, ops[0].ip)), ops[1..], Later(ops[0], clock));
    }
  }

  /**
   After an address was stored in slot k, storing another one leaves it there exactly when its first
   byte is not 0, or the other one had a slot in front of k.
   */
  lemma ZeroIff(c: Slots, ip: Ip, mac: Mac, now: nat, other: Ip, mac': Mac, now': nat)
    requires other != ip && Fits(c, ip)
    ensures var k := SlotFor(c, ip, 0);
            Insert(Insert(c, ip, mac, now), other, mac', now')[k] == Entry(ip, mac, now) <==>
            Real(ip) || SlotOf(c, other, 0) < k
  {
    hide SlotFor, SlotOf;
    var k := SlotFor(c, ip, 0);
    var c1 := Insert(c, ip, mac, now);
    var j, i := SlotFor(c1, other, 0), SlotOf(c, other, 0);
    assert c1[k] == Entry(ip, mac, now);
    if i < k {
      assert c1[i].ip == other;
    } else {
      assert forall m :: 0 <= m < k ==> c1[m].ip != other && !IsFree(c1[m]);
    }
  }
}
