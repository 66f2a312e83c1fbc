/**
  `xdp_rate_limit`: a per-source fixed-window limiter on bits. Each IPv4
  source address has a record of when its current one-second window began,
  how many packets and how many bits it sent since; a packet that takes the
  window's bit total above 10,000,000 is dropped. The key is `saddr` exactly as
  it lies in the frame, and a record that cannot be stored because the map is
  full is simply not stored: the packet passes (fail-open).
 */
module RateLimitV5 {
  import opened Words
  import opened BpfMap
  import opened Xdp

  /** A packet rate the program defines; no decision consults it. */
  const RATE_LIMIT_PKTPS: int := 250
  /** The window length: one second, in nanoseconds. */
  const TIME_WINDOW_NS: U64 := 1_000_000_000
  /** The most bits a source may send in one window without being dropped. */
  const RATE_LIMIT_BPS: U64 := 10_000_000
  /** `max_entries` of `rate_limit_map`. */
  const MAX_ENTRIES: nat := 1024

  /** `struct rate_limit_entry`. */
  datatype Entry = Entry(lastUpdate: U64, bitCount: U64, packetCount: U32)

  /** The verdict for one frame and the map's contents after it. */
  datatype Outcome = Outcome(action: Action, entries: map<Key, Entry>)

  /** `pkt_size_bits`: the frame's length times 8, as a `__u64`. */
  function PacketSizeBits(frame: seq<bv8>): (r: U64)
    ensures |frame| * 8 < U64_MOD ==> r as int == |frame| * 8
  {
    ((|frame| * 8) % U64_MOD) as U64
  }

  /** Whether a packet seen at `now` still belongs to the window the record opened. */
  predicate InWindow(e: Entry, now: U64)
  {
    Sub64(now, e.lastUpdate) < TIME_WINDOW_NS
  }

  /**
    The decision for an IPv4 frame of `bits` bits whose source has map key
    `key`, against map contents `m`.
   */
  function Account(m: map<Key, Entry>, key: Key, now: U64, bits: U64): Outcome
  {
    if key in m then
      var e := m[key];
      if InWindow(e, now) then
        var counted := e.(packetCount := Inc32(e.packetCount), bitCount := Add64(e.bitCount, bits));
        Outcome(if counted.bitCount > RATE_LIMIT_BPS then Drop else Pass, m[key := counted])
      else
        Outcome(Pass, m[key := Entry(now, bits, 1)])
    else
      // The result of the insert is not examined.
      Outcome(Pass, UpdateAny(m, MAX_ENTRIES, key, Entry(now, bits, 1)).entries)
  }

  /** One run of the program on `frame` at clock reading `now`. */
  function Step(m: map<Key, Entry>, frame: seq<bv8>, now: U64): Outcome
  {
    match Classify(frame)
    case Skip(_) => Outcome(Pass, m)
    case Ipv4(saddr) => Account(m, WireKey(saddr), now, PacketSizeBits(frame))
  }

  /**
    The program itself, over the shared map: it has exactly the effect and the
    verdict that `Step` describes.
   */
  method XdpRateLimit(rateLimitMap: HashMap<Entry>, frame: seq<bv8>, now: U64) returns (action: Action)
    requires rateLimitMap.Valid() && rateLimitMap.maxEntries == MAX_ENTRIES
    modifies rateLimitMap
    ensures rateLimitMap.Valid()
    ensures Outcome(action, rateLimitMap.entries) == Step(old(rateLimitMap.entries), frame, now)
  {
    var gate := Classify(frame);
    if !gate.Ipv4? {
      return Pass;
    }
    var srcIp := WireKey(gate.saddr);
    var entry := rateLimitMap.Lookup(srcIp);
    var currentTime := now;
    var pktSizeBits := PacketSizeBits(frame);
    if entry.Some? {
      var e := entry.value;
      if Sub64(currentTime, e.lastUpdate) < TIME_WINDOW_NS {
        e := e.(packetCount := Inc32(e.packetCount));
        e := e.(bitCount := Add64(e.bitCount, pktSizeBits));
        rateLimitMap.Write(srcIp, e);
        if e.bitCount > RATE_LIMIT_BPS {
          return Drop;
        }
      } else {
        rateLimitMap.Write(srcIp, Entry(currentTime, pktSizeBits, 1));
      }
    } else {
      var newEntry := Entry(currentTime, pktSizeBits, 1);
      var err := rateLimitMap.Update(srcIp, newEntry);
    }
    return Pass;
  }

  // ---------------------------------------------------------------------
  // One packet

  /** A frame the header gate rejects is passed and the map is left alone. */
  lemma SkippedFrameUntouched(m: map<Key, Entry>, frame: seq<bv8>, now: U64)
    requires !Classify(frame).Ipv4?
    ensures Step(m, frame, now) == Outcome(Pass, m)
  {
  }

  /**
    The first packet of a source passes. It is recorded with the current time,
    a count of 1 and its own size when there is room, and not at all when the
    map is full; either way the verdict is PASS.
   */
  lemma FirstPacketPasses(m: map<Key, Entry>, frame: seq<bv8>, now: U64, a: Ipv4Addr)
    requires Classify(frame) == Ipv4(a) && WireKey(a) !in m
    ensures Step(m, frame, now).action == Pass
    ensures |m| < MAX_ENTRIES ==>
      Step(m, frame, now).entries == m[WireKey(a) := Entry(now, PacketSizeBits(frame), 1)]
    ensures |m| >= MAX_ENTRIES ==> Step(m, frame, now).entries == m
  {
  }

  /**
    Within the window a packet adds one to the count and its size to the bit
    total, keeps the window's start, and is dropped exactly when the new bit
    total exceeds the limit.
   */
  lemma InWindowAccounts(m: map<Key, Entry>, frame: seq<bv8>, now: U64, a: Ipv4Addr)
    requires Classify(frame) == Ipv4(a) && WireKey(a) in m && InWindow(m[WireKey(a)], now)
    ensures var r := Step(m, frame, now);
      var e := m[WireKey(a)];
      && WireKey(a) in r.entries
      && r.entries[WireKey(a)].lastUpdate == e.lastUpdate
      && r.entries[WireKey(a)].packetCount == Inc32(e.packetCount)
      && r.entries[WireKey(a)].bitCount == Add64(e.bitCount, PacketSizeBits(frame))
      && r.action == (if r.entries[WireKey(a)].bitCount > RATE_LIMIT_BPS then Drop else Pass)
  {
  }

  /**
    The packet count never decides a verdict: two maps that differ only in
    the count of the packet's own source give the same verdict.
   */
  lemma VerdictIgnoresPacketCount(m: map<Key, Entry>, frame: seq<bv8>, now: U64, a: Ipv4Addr, c: U32)
    requires Classify(frame) == Ipv4(a) && WireKey(a) in m
    ensures Step(m[WireKey(a) := m[WireKey(a)].(packetCount := c)], frame, now).action ==
            Step(m, frame, now).action
  {
  }

  /** At or after the window's end the record starts a new window and the packet passes. */
  lemma RolloverResets(m: map<Key, Entry>, frame: seq<bv8>, now: U64, a: Ipv4Addr)
    requires Classify(frame) == Ipv4(a) && WireKey(a) in m && !InWindow(m[WireKey(a)], now)
    ensures Step(m, frame, now) == Outcome(Pass, m[WireKey(a) := Entry(now, PacketSizeBits(frame), 1)])
  {
  }

  /** Under a clock that has not gone backwards, the window is exactly one second long. */
  lemma WindowIsOneSecond(e: Entry, now: U64)
    requires e.lastUpdate <= now
    ensures InWindow(e, now) <==> now as int - e.lastUpdate as int < TIME_WINDOW_NS as int
  {
  }

  /**
    A packet at the very instant a window was opened (by a first record or a
    reset) is counted in that window: the count becomes 2, it is not reset.
   */
  lemma SameInstantCountsInNewWindow(m: map<Key, Entry>, f1: seq<bv8>, f2: seq<bv8>, now: U64, a: Ipv4Addr)
    requires Classify(f1) == Ipv4(a) && Classify(f2) == Ipv4(a)
    requires WireKey(a) in m ==> !InWindow(m[WireKey(a)], now)
    requires WireKey(a) in m || |m| < MAX_ENTRIES
    ensures var r1 := Step(m, f1, now);
      var r2 := Step(r1.entries, f2, now);
      && WireKey(a) in r2.entries
      && r2.entries[WireKey(a)] ==
           Entry(now, Add64(PacketSizeBits(f1), PacketSizeBits(f2)), 2)
  {
  }

  /**
    Only the record of the packet's own source is read or written: any other
    key is present afterwards exactly when it was before, with the same record.
   */
  lemma OtherKeysUntouched(m: map<Key, Entry>, frame: seq<bv8>, now: U64, k: Key)
    requires Classify(frame).Ipv4? ==> WireKey(Classify(frame).saddr) != k
    ensures k in Step(m, frame, now).entries <==> k in m
    ensures k in m ==> Step(m, frame, now).entries[k] == m[k]
  {
  }

  /**
    What happens to the packet's own record and verdict depends on that record
    alone: whatever the other sources have stored, the outcome is the same.
   */
  lemma VerdictDependsOnOwnRecord(m1: map<Key, Entry>, m2: map<Key, Entry>, frame: seq<bv8>, now: U64, a: Ipv4Addr)
    requires Classify(frame) == Ipv4(a)
    requires WireKey(a) in m1 <==> WireKey(a) in m2
    requires WireKey(a) in m1 ==> m1[WireKey(a)] == m2[WireKey(a)]
    ensures Step(m1, frame, now).action == Step(m2, frame, now).action
    ensures WireKey(a) in m1 ==>
      WireKey(a) in Step(m1, frame, now).entries && WireKey(a) in Step(m2, frame, now).entries &&
      Step(m1, frame, now).entries[WireKey(a)] == Step(m2, frame, now).entries[WireKey(a)]
  {
  }

  /** No record is ever removed, one packet adds at most one, and the map never exceeds its capacity. */
  lemma StoreGrowsWithinCapacity(m: map<Key, Entry>, frame: seq<bv8>, now: U64)
    ensures m.Keys <= Step(m, frame, now).entries.Keys
    ensures |Step(m, frame, now).entries| <= |m| + 1
    ensures |m| <= MAX_ENTRIES ==> |Step(m, frame, now).entries| <= MAX_ENTRIES
  {
  }

  /** A source's window start only ever moves to the current clock reading. */
  lemma LastUpdateMovesOnlyToNow(m: map<Key, Entry>, frame: seq<bv8>, now: U64, k: Key)
    requires k in Step(m, frame, now).entries
    ensures var e := Step(m, frame, now).entries[k];
      e.lastUpdate == now || (k in m && e.lastUpdate == m[k].lastUpdate)
    ensures k in m && m[k].lastUpdate <= now ==>
      Step(m, frame, now).entries[k].lastUpdate >= m[k].lastUpdate
  {
  }

  /** Every stored record counts at least one packet. */
  ghost predicate CountsPositive(m: map<Key, Entry>)
  {
    forall k :: k in m ==> m[k].packetCount >= 1
  }

  /** The packet's own count is not at the `__u32` maximum, so `packet_count++` does not wrap. */
  ghost predicate NoCountWrap(m: map<Key, Entry>, frame: seq<bv8>)
  {
    Classify(frame).Ipv4? && WireKey(Classify(frame).saddr) in m ==>
      m[WireKey(Classify(frame).saddr)].packetCount < U32_MAX
  }

  /** Records keep counting at least one packet, as long as no count wraps. */
  lemma CountsStayPositive(m: map<Key, Entry>, frame: seq<bv8>, now: U64)
    requires CountsPositive(m) && NoCountWrap(m, frame)
    ensures CountsPositive(Step(m, frame, now).entries)
  {
  }

  /**
    A stored record's bit total covers the packet that last wrote it: the
    in-window sum, the reset and the first insert all leave at least that
    packet's size, as long as the in-window addition does not wrap.
   */
  lemma BitsCoverOwnPacket(m: map<Key, Entry>, frame: seq<bv8>, now: U64, a: Ipv4Addr)
    requires Classify(frame) == Ipv4(a)
    requires WireKey(a) in m ==> m[WireKey(a)].bitCount as int + PacketSizeBits(frame) as int < U64_MOD
    requires WireKey(a) in Step(m, frame, now).entries
    ensures Step(m, frame, now).entries[WireKey(a)].bitCount >= PacketSizeBits(frame)
  {
  }

  // ---------------------------------------------------------------------
  // Sequences of packets
  // These mirror the sequence definitions of the packet-limiting program
  // module: each program's C file is modelled by a module of its own, so
  // each threads its own `Step`.


  /** The verdicts for a sequence of arrivals and the map after all of them. */
  function Run(m: map<Key, Entry>, ps: seq<Arrival>): (r: (seq<Action>, map<Key, Entry>))
    ensures |r.0| == |ps|
    decreases |ps|
  {
    if ps == [] then ([], m)
    else
      var o := Step(m, ps[0].frame, ps[0].now);
      var rest := Run(o.entries, ps[1..]);
      ([o.action] + rest.0, rest.1)
  }

  /** The total size in bits of a sequence of arrivals. */
  function Bits(ps: seq<Arrival>): nat
  {
    if ps == [] then 0 else PacketSizeBits(ps[0].frame) as nat + Bits(ps[1..])
  }

  /** All arrivals come from source `a` and lie in the window that opens at `t0`. */
  ghost predicate FromSourceWithin(ps: seq<Arrival>, a: Ipv4Addr, t0: U64)
  {
    forall i :: 0 <= i < |ps| ==>
      Classify(ps[i].frame) == Ipv4(a) && t0 <= ps[i].now &&
      ps[i].now as int < t0 as int + TIME_WINDOW_NS as int
  }

  lemma FromSourceWithinTail(ps: seq<Arrival>, a: Ipv4Addr, t0: U64)
    requires |ps| > 0 && FromSourceWithin(ps, a, t0)
    ensures FromSourceWithin(ps[1..], a, t0)
  {
  }

  lemma {:induction false} BitsOfPrefix(ps: seq<Arrival>, i: nat)
    requires 0 < i < |ps|
    ensures Bits(ps[..i + 1]) == PacketSizeBits(ps[0].frame) as int + Bits(ps[1..][..i])
  {
    assert ps[..i + 1][0] == ps[0];
    assert ps[..i + 1][1..] == ps[1..][..i];
  }

  /**
    Packets for a source whose window opened at `t0`, all within that window:
    each adds to the bit total and is dropped exactly when the running total
    is above the limit.
   */
  lemma {:induction false} RunInWindow(m: map<Key, Entry>, ps: seq<Arrival>, a: Ipv4Addr, t0: U64, b: U64, c: U32)
    requires WireKey(a) in m && m[WireKey(a)] == Entry(t0, b, c)
    requires FromSourceWithin(ps, a, t0)
    requires b as int + Bits(ps) < U64_MOD && c as int + |ps| < U32_MOD
    ensures var r := Run(m, ps);
      && WireKey(a) in r.1
      && r.1[WireKey(a)] == Entry(t0, (b as int + Bits(ps)) as U64, (c as int + |ps|) as U32)
      && forall i :: 0 <= i < |ps| ==>
           r.0[i] == if b as int + Bits(ps[..i + 1]) > RATE_LIMIT_BPS as int then Drop else Pass
    decreases |ps|
  {
    if ps != [] {
      var key := WireKey(a);
      var bits := PacketSizeBits(ps[0].frame);
      assert Classify(ps[0].frame) == Ipv4(a);
      assert Sub64(ps[0].now, t0) as int == ps[0].now as int - t0 as int;
      var o := Step(m, ps[0].frame, ps[0].now);
      var b' := (b as int + bits as int) as U64;
      assert o.entries == m[key := Entry(t0, b', c + 1)];
      assert o.action == if b' > RATE_LIMIT_BPS then Drop else Pass;
      FromSourceWithinTail(ps, a, t0);
      RunInWindow(o.entries, ps[1..], a, t0, b', c + 1);
      var r := Run(m, ps);
      forall i | 0 <= i < |ps|
        ensures r.0[i] == if b as int + Bits(ps[..i + 1]) > RATE_LIMIT_BPS as int then Drop else Pass
      {
        if i == 0 {
          assert ps[..1][1..] == [];
        } else {
          BitsOfPrefix(ps, i);
        }
      }
    }
  }

  /**
    From a source's first packet on, within one window: the first packet
    passes whatever its size, and each later packet is dropped exactly when
    the bits sent so far, its own included, exceed 10,000,000. The record then
    holds the window's start, all the bits and the number of packets.
   */
  lemma {:induction false} FirstDropCrossesBitLimit(m: map<Key, Entry>, ps: seq<Arrival>, a: Ipv4Addr)
    requires |ps| > 0 && WireKey(a) !in m && |m| < MAX_ENTRIES
    requires FromSourceWithin(ps, a, ps[0].now)
    requires Bits(ps) < U64_MOD && |ps| < U32_MOD
    ensures var r := Run(m, ps);
      && r.0[0] == Pass
      && (forall i :: 1 <= i < |ps| ==>
            r.0[i] == if Bits(ps[..i + 1]) > RATE_LIMIT_BPS as int then Drop else Pass)
      && WireKey(a) in r.1
      && r.1[WireKey(a)] == Entry(ps[0].now, Bits(ps) as U64, |ps| as U32)
  {
    var key := WireKey(a);
    var t0 := ps[0].now;
    var bits := PacketSizeBits(ps[0].frame);
    assert Classify(ps[0].frame) == Ipv4(a);
    var o := Step(m, ps[0].frame, t0);
    assert o == Outcome(Pass, m[key := Entry(t0, bits, 1)]);
    FromSourceWithinTail(ps, a, t0);
    RunInWindow(o.entries, ps[1..], a, t0, bits, 1);
    var r := Run(m, ps);
    forall i | 1 <= i < |ps|
      ensures r.0[i] == if Bits(ps[..i + 1]) > RATE_LIMIT_BPS as int then Drop else Pass
    {
      BitsOfPrefix(ps, i);
    }
  }

  /**
    Fail-open: a source first seen while the map is full is never recorded,
    so none of its packets is ever dropped and the map stays as it was.
   */
  lemma {:induction false} FullMapNeverLimitsNewSource(m: map<Key, Entry>, ps: seq<Arrival>, a: Ipv4Addr)
    requires WireKey(a) !in m && |m| >= MAX_ENTRIES
    requires forall i :: 0 <= i < |ps| ==> Classify(ps[i].frame) == Ipv4(a)
    ensures Run(m, ps).1 == m
    ensures forall i :: 0 <= i < |ps| ==> Run(m, ps).0[i] == Pass
    decreases |ps|
  {
    if ps != [] {
      assert Classify(ps[0].frame) == Ipv4(a);
      assert Step(m, ps[0].frame, ps[0].now) == Outcome(Pass, m);
      assert forall i :: 0 <= i < |ps[1..]| ==> Classify(ps[1..][i].frame) == Ipv4(a) by {
        forall i | 0 <= i < |ps[1..]| ensures Classify(ps[1..][i].frame) == Ipv4(a) {
          assert ps[1..][i] == ps[i + 1];
        }
      }
      FullMapNeverLimitsNewSource(m, ps[1..], a);
    }
  }
}
