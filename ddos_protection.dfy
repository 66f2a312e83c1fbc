/**
  `ddos_protection`: a per-source fixed-window limiter on packets. Each IPv4
  source address has a record of when its current one-second window began
  and how many packets it sent since; the packet that takes the count above
  250 and every later one in the window are dropped. The key is `saddr`
  byte-swapped to host order, and a record that cannot be stored because the
  map is full makes the program abort (fail-closed).
 */
module DdosProtection {
  import opened Words
  import opened BpfMap
  import opened Xdp

  /** The most packets a source may send in one window without being dropped. */
  const THRESHOLD: U32 := 250
  /** The window length: one second, in nanoseconds. */
  const TIME_WINDOW_NS: U64 := 1_000_000_000
  /** `max_entries` of `rate_limit_map`. */
  const MAX_ENTRIES: nat := 1024

  /** `struct rate_limit_entry`. */
  datatype Entry = Entry(lastUpdate: U64, packetCount: U32)

  /** The verdict for one frame and the map's contents after it. */
  datatype Outcome = Outcome(action: Action, entries: map<Key, Entry>)

  /** Whether a packet seen at `now` still belongs to the window the record opened. */
  predicate InWindow(e: Entry, now: U64)
  {
    Sub64(now, e.lastUpdate) < TIME_WINDOW_NS
  }

  /** The decision for an IPv4 frame whose source has map key `key`, against map contents `m`. */
  function Account(m: map<Key, Entry>, key: Key, now: U64): Outcome
  {
    if key in m then
      var e := m[key];
      if InWindow(e, now) then
        var counted := e.(packetCount := Inc32(e.packetCount));
        Outcome(if counted.packetCount > THRESHOLD then Drop else Pass, m[key := counted])
      else
        Outcome(Pass, m[key := Entry(now, 1)])
    else
      var u := UpdateAny(m, MAX_ENTRIES, key, Entry(now, 1));
      Outcome(if u.err != 0 then Aborted else Pass, u.entries)
  }

  /** One run of the program on `frame` at clock reading `now`. */
  function Step(m: map<Key, Entry>, frame: seq<bv8>, now: U64): Outcome
  {
    match Classify(frame)
    case Skip(_) => Outcome(Pass, m)
    case Ipv4(saddr) => Account(m, HostKey(saddr), now)
  }

  /**
    The program itself, over the shared map: it has exactly the effect and the
    verdict that `Step` describes.
   */
  method Protect(rateLimitMap: HashMap<Entry>, frame: seq<bv8>, now: U64) returns (action: Action)
    requires rateLimitMap.Valid() && rateLimitMap.maxEntries == MAX_ENTRIES
    modifies rateLimitMap
    ensures rateLimitMap.Valid()
    ensures Outcome(action, rateLimitMap.entries) == Step(old(rateLimitMap.entries), frame, now)
  {
    var gate := Classify(frame);
    if !gate.Ipv4? {
      return Pass;
    }
    var srcIp := HostKey(gate.saddr);
    var entry := rateLimitMap.Lookup(srcIp);
    var currentTime := now;
    if entry.Some? {
      var e := entry.value;
      if Sub64(currentTime, e.lastUpdate) < TIME_WINDOW_NS {
        e := e.(packetCount := Inc32(e.packetCount));
        rateLimitMap.Write(srcIp, e);
        if e.packetCount > THRESHOLD {
          return Drop;
        }
      } else {
        rateLimitMap.Write(srcIp, Entry(currentTime, 1));
      }
    } else {
      var newEntry := Entry(currentTime, 1);
      var err := rateLimitMap.Update(srcIp, newEntry);
      if err != 0 {
        return Aborted;
      }
    }
    return Pass;
  }

  // ---------------------------------------------------------------------
  // One packet

  /** A frame the header gate rejects is passed and the map is left alone. */
  lemma SkippedFrameUntouched(m: map<Key, Entry>, frame: seq<bv8>, now: U64)
    requires !Classify(frame).Ipv4?
    ensures Step(m, frame, now) == Outcome(Pass, m)
  {
  }

  /**
    The first packet of a source is recorded with the current time and a count
    of 1 and passes when there is room; when the map already holds 1024
    records the program aborts and the map is unchanged.
   */
  lemma FirstPacket(m: map<Key, Entry>, frame: seq<bv8>, now: U64, a: Ipv4Addr)
    requires Classify(frame) == Ipv4(a) && HostKey(a) !in m
    ensures |m| < MAX_ENTRIES ==>
      Step(m, frame, now) == Outcome(Pass, m[HostKey(a) := Entry(now, 1)])
    ensures |m| >= MAX_ENTRIES ==> Step(m, frame, now) == Outcome(Aborted, m)
  {
  }

  /** ABORTED is the verdict only for a new source arriving at a full map. */
  lemma AbortedOnlyWhenFull(m: map<Key, Entry>, frame: seq<bv8>, now: U64)
    ensures Step(m, frame, now).action == Aborted <==>
      Classify(frame).Ipv4? && HostKey(Classify(frame).saddr) !in m && |m| >= MAX_ENTRIES
  {
  }

  /**
    Within the window a packet adds one to the count, keeps the window's
    start, and is dropped exactly when the new count exceeds 250.
   */
  lemma InWindowCounts(m: map<Key, Entry>, frame: seq<bv8>, now: U64, a: Ipv4Addr)
    requires Classify(frame) == Ipv4(a) && HostKey(a) in m && InWindow(m[HostKey(a)], now)
    ensures var e := m[HostKey(a)];
      var counted := Entry(e.lastUpdate, Inc32(e.packetCount));
      Step(m, frame, now) ==
        Outcome(if counted.packetCount > THRESHOLD then Drop else Pass, m[HostKey(a) := counted])
  {
  }

  /**
    The threshold boundary: with 249 packets already counted in the window the
    next one (the 250th) passes; with 250 counted the next one (the 251st) is dropped.
   */
  lemma ThresholdBoundary(m: map<Key, Entry>, frame: seq<bv8>, now: U64, a: Ipv4Addr)
    requires Classify(frame) == Ipv4(a) && HostKey(a) in m && InWindow(m[HostKey(a)], now)
    ensures m[HostKey(a)].packetCount == THRESHOLD - 1 ==> Step(m, frame, now).action == Pass
    ensures m[HostKey(a)].packetCount == THRESHOLD ==> Step(m, frame, now).action == Drop
  {
  }

  /** At or after the window's end the record starts a new window and the packet passes. */
  lemma RolloverResets(m: map<Key, Entry>, frame: seq<bv8>, now: U64, a: Ipv4Addr)
    requires Classify(frame) == Ipv4(a) && HostKey(a) in m && !InWindow(m[HostKey(a)], now)
    ensures Step(m, frame, now) == Outcome(Pass, m[HostKey(a) := Entry(now, 1)])
  {
  }

  /** Under a clock that has not gone backwards, the window is exactly one second long. */
  lemma WindowIsOneSecond(e: Entry, now: U64)
    requires e.lastUpdate <= now
    ensures InWindow(e, now) <==> now as int - e.lastUpdate as int < TIME_WINDOW_NS as int
  {
  }

  /**
    A clock reading earlier than a record's window start (by less than 2^64 -
    10^9 ns) makes the unsigned difference huge, so the window is reset and its
    start moves backwards to the earlier reading.
   */
  lemma EarlierClockResetsWindow(m: map<Key, Entry>, frame: seq<bv8>, now: U64, a: Ipv4Addr)
    requires Classify(frame) == Ipv4(a) && HostKey(a) in m
    requires now < m[HostKey(a)].lastUpdate
    requires m[HostKey(a)].lastUpdate as int - now as int <= U64_MOD - TIME_WINDOW_NS as int
    ensures Step(m, frame, now) == Outcome(Pass, m[HostKey(a) := Entry(now, 1)])
    ensures Step(m, frame, now).entries[HostKey(a)].lastUpdate < m[HostKey(a)].lastUpdate
  {
  }

  /**
    A packet at the very instant a window was opened (by a first record or a
    reset) is counted in that window: the count becomes 2, it is not reset.
   */
  lemma SameInstantCountsInNewWindow(m: map<Key, Entry>, f1: seq<bv8>, f2: seq<bv8>, now: U64, a: Ipv4Addr)
    requires Classify(f1) == Ipv4(a) && Classify(f2) == Ipv4(a)
    requires HostKey(a) in m ==> !InWindow(m[HostKey(a)], now)
    requires HostKey(a) in m || |m| < MAX_ENTRIES
    ensures var r1 := Step(m, f1, now);
      var r2 := Step(r1.entries, f2, now);
      && r2.action == Pass
      && HostKey(a) in r2.entries
      && r2.entries[HostKey(a)] == Entry(now, 2)
  {
  }

  /**
    Only the record of the packet's own source is read or written: any other
    key is present afterwards exactly when it was before, with the same record.
   */
  lemma OtherKeysUntouched(m: map<Key, Entry>, frame: seq<bv8>, now: U64, k: Key)
    requires Classify(frame).Ipv4? ==> HostKey(Classify(frame).saddr) != k
    ensures k in Step(m, frame, now).entries <==> k in m
    ensures k in m ==> Step(m, frame, now).entries[k] == m[k]
  {
  }

  /**
    The outcome for the packet's own source depends on its record alone, and,
    for a source with no record yet, on whether the map is full: a new source
    can be refused because others filled the map, nothing else couples them.
   */
  lemma VerdictDependsOnOwnRecord(m1: map<Key, Entry>, m2: map<Key, Entry>, frame: seq<bv8>, now: U64, a: Ipv4Addr)
    requires Classify(frame) == Ipv4(a)
    requires HostKey(a) in m1 <==> HostKey(a) in m2
    requires HostKey(a) in m1 ==> m1[HostKey(a)] == m2[HostKey(a)]
    requires HostKey(a) !in m1 ==> (|m1| < MAX_ENTRIES <==> |m2| < MAX_ENTRIES)
    ensures Step(m1, frame, now).action == Step(m2, frame, now).action
    ensures HostKey(a) in Step(m1, frame, now).entries <==> HostKey(a) in Step(m2, frame, now).entries
    ensures HostKey(a) in Step(m1, frame, now).entries ==>
      Step(m1, frame, now).entries[HostKey(a)] == Step(m2, frame, now).entries[HostKey(a)]
  {
  }

  /** No record is ever removed, one packet adds at most one, and the map never exceeds its capacity. */
  lemma StoreGrowsWithinCapacity(m: map<Key, Entry>, frame: seq<bv8>, now: U64)
    ensures m.Keys <= Step(m, frame, now).entries.Keys
    ensures |Step(m, frame, now).entries| <= |m| + 1
    ensures |m| <= MAX_ENTRIES ==> |Step(m, frame, now).entries| <= MAX_ENTRIES
  {
  }

  /**
    A source's window start only ever moves to the current clock reading, so
    under a clock that does not go backwards it never decreases.
   */
  lemma LastUpdateMovesOnlyToNow(m: map<Key, Entry>, frame: seq<bv8>, now: U64, k: Key)
    requires k in Step(m, frame, now).entries
    ensures var e := Step(m, frame, now).entries[k];
      e.lastUpdate == now || (k in m && e.lastUpdate == m[k].lastUpdate)
    ensures k in m && m[k].lastUpdate <= now ==>
      Step(m, frame, now).entries[k].lastUpdate >= m[k].lastUpdate
  {
  }

  /** Every stored record counts at least one packet. */
  ghost predicate CountsPositive(m: map<Key, Entry>)
  {
    forall k :: k in m ==> m[k].packetCount >= 1
  }

  /** The packet's own count is not at the `__u32` maximum, so `packet_count++` does not wrap. */
  ghost predicate NoCountWrap(m: map<Key, Entry>, frame: seq<bv8>)
  {
    Classify(frame).Ipv4? && HostKey(Classify(frame).saddr) in m ==>
      m[HostKey(Classify(frame).saddr)].packetCount < U32_MAX
  }

  /** Records keep counting at least one packet, as long as no count wraps. */
  lemma CountsStayPositive(m: map<Key, Entry>, frame: seq<bv8>, now: U64)
    requires CountsPositive(m) && NoCountWrap(m, frame)
    ensures CountsPositive(Step(m, frame, now).entries)
  {
  }

  // ---------------------------------------------------------------------
  // Sequences of packets
  // These mirror the sequence definitions of the bit-limiting program
  // module: each program's C file is modelled by a module of its own, so
  // each threads its own `Step`.


  /** The verdicts for a sequence of arrivals and the map after all of them. */
  function Run(m: map<Key, Entry>, ps: seq<Arrival>): (r: (seq<Action>, map<Key, Entry>))
    ensures |r.0| == |ps|
    decreases |ps|
  {
    if ps == [] then ([], m)
    else
      var o := Step(m, ps[0].frame, ps[0].now);
      var rest := Run(o.entries, ps[1..]);
      ([o.action] + rest.0, rest.1)
  }

  /** All arrivals come from source `a` and lie in the window that opens at `t0`. */
  ghost predicate FromSourceWithin(ps: seq<Arrival>, a: Ipv4Addr, t0: U64)
  {
    forall i :: 0 <= i < |ps| ==>
      Classify(ps[i].frame) == Ipv4(a) && t0 <= ps[i].now &&
      ps[i].now as int < t0 as int + TIME_WINDOW_NS as int
  }

  lemma FromSourceWithinTail(ps: seq<Arrival>, a: Ipv4Addr, t0: U64)
    requires |ps| > 0 && FromSourceWithin(ps, a, t0)
    ensures FromSourceWithin(ps[1..], a, t0)
  {
  }

  /**
    Packets for a source whose window opened at `t0` with `c` packets counted,
    all within that window: the i-th of them is packet number c + i + 1 of the
    window and is dropped exactly when that number exceeds 250.
   */
  lemma {:induction false} RunInWindow(m: map<Key, Entry>, ps: seq<Arrival>, a: Ipv4Addr, t0: U64, c: U32)
    requires HostKey(a) in m && m[HostKey(a)] == Entry(t0, c)
    requires FromSourceWithin(ps, a, t0)
    requires c as int + |ps| < U32_MOD
    ensures var r := Run(m, ps);
      && HostKey(a) in r.1
      && r.1[HostKey(a)] == Entry(t0, (c as int + |ps|) as U32)
      && forall i :: 0 <= i < |ps| ==>
           r.0[i] == if c as int + i + 1 > THRESHOLD as int then Drop else Pass
    decreases |ps|
  {
    if ps != [] {
      var key := HostKey(a);
      assert Classify(ps[0].frame) == Ipv4(a);
      assert Sub64(ps[0].now, t0) as int == ps[0].now as int - t0 as int;
      var o := Step(m, ps[0].frame, ps[0].now);
      assert o.entries == m[key := Entry(t0, c + 1)];
      FromSourceWithinTail(ps, a, t0);
      RunInWindow(o.entries, ps[1..], a, t0, c + 1);
    }
  }

  /**
    From a source's first packet on, within one window and with room in the
    map: packets 1 to 250 pass and every packet from the 251st on is dropped;
    the record then holds the window's start and the number of packets.
   */
  lemma {:induction false} PacketThresholdInWindow(m: map<Key, Entry>, ps: seq<Arrival>, a: Ipv4Addr)
    requires |ps| > 0 && HostKey(a) !in m && |m| < MAX_ENTRIES
    requires FromSourceWithin(ps, a, ps[0].now)
    requires |ps| < U32_MOD
    ensures var r := Run(m, ps);
      && (forall i :: 0 <= i < |ps| ==> r.0[i] == if i < THRESHOLD as int then Pass else Drop)
      && HostKey(a) in r.1
      && r.1[HostKey(a)] == Entry(ps[0].now, |ps| as U32)
  {
    var t0 := ps[0].now;
    assert Classify(ps[0].frame) == Ipv4(a);
    var o := Step(m, ps[0].frame, t0);
    assert o == Outcome(Pass, m[HostKey(a) := Entry(t0, 1)]);
    FromSourceWithinTail(ps, a, t0);
    RunInWindow(o.entries, ps[1..], a, t0, 1);
  }

  /**
    After a flood that met the threshold, the first packet of the source at or
    after one second from the window's start passes and opens a new window
    with a count of 1, however many packets the old window dropped.
   */
  lemma {:induction false} NextWindowForwards(m: map<Key, Entry>, ps: seq<Arrival>, a: Ipv4Addr, p: Arrival)
    requires |ps| > 0 && HostKey(a) !in m && |m| < MAX_ENTRIES
    requires FromSourceWithin(ps, a, ps[0].now)
    requires |ps| < U32_MOD
    requires Classify(p.frame) == Ipv4(a) && p.now as int >= ps[0].now as int + TIME_WINDOW_NS as int
    ensures var flooded := Run(m, ps).1;
      Step(flooded, p.frame, p.now) == Outcome(Pass, flooded[HostKey(a) := Entry(p.now, 1)])
  {
    PacketThresholdInWindow(m, ps, a);
    var flooded := Run(m, ps).1;
    assert !InWindow(flooded[HostKey(a)], p.now);
  }

  /**
    Fail-closed: a source first seen while the map is full is never recorded,
    so every one of its packets is aborted and the map stays as it was.
   */
  lemma {:induction false} FullMapAbortsNewSource(m: map<Key, Entry>, ps: seq<Arrival>, a: Ipv4Addr)
    requires HostKey(a) !in m && |m| >= MAX_ENTRIES
    requires forall i :: 0 <= i < |ps| ==> Classify(ps[i].frame) == Ipv4(a)
    ensures Run(m, ps).1 == m
    ensures forall i :: 0 <= i < |ps| ==> Run(m, ps).0[i] == Aborted
    decreases |ps|
  {
    if ps != [] {
      assert Classify(ps[0].frame) == Ipv4(a);
      assert Step(m, ps[0].frame, ps[0].now) == Outcome(Aborted, m);
      assert forall i :: 0 <= i < |ps[1..]| ==> Classify(ps[1..][i].frame) == Ipv4(a) by {
        forall i | 0 <= i < |ps[1..]| ensures Classify(ps[1..][i].frame) == Ipv4(a) {
          assert ps[1..][i] == ps[i + 1];
        }
      }
      FullMapAbortsNewSource(m, ps[1..], a);
    }
  }
}
