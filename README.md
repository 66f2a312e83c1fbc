# Per-source XDP rate limiter, modelled in Dafny

Two XDP programs decide, frame by frame, whether to pass or drop incoming
traffic. Both use a fixed-window count per IPv4 source address. They share one
state machine:

- **The map.** A BPF hash map of 1024 entries maps a 32-bit source key to a
  record `{last_update, packet_count[, bit_count]}`.
- **The header gate.** It lets short frames and non-IPv4 frames through
  without touching the map.
- **The decision.** It looks up the source's record, then does one of three things:
  - inserts a fresh record (`count = 1`, `last_update = now`);
  - starts a new window once `now - last_update >= 10^9` ns;
  - adds the packet to the current window and compares against a threshold.

The two programs differ in three ways:

| | `xdp-rate-limit-v5.c` (`RateLimitV5`) | `xdp_ddos_protection.c` (`DdosProtection`) |
|---|---|---|
| limit | bits: drop when the window's bit total exceeds 10,000,000 | packets: drop when the window's count exceeds 250 |
| key | `saddr` as it lies in the frame | `saddr` byte-swapped (`__builtin_bswap32`) |
| map full, new source | insert failure ignored, PASS (fail-open) | ABORTED (fail-closed) |

The project has five modules:

- `Words` (`words.dfy`) defines `__u32`/`__u64` and C's wrapping `++`, `+` and `-` on them.
- `BpfMap` (`bpf_map.dfy`) holds the hash map: a `HashMap` class with `Lookup`, `Update` and an
  in-place `Write`. `UpdateAny` is the function that specifies `bpf_map_update_elem(..., BPF_ANY)`.
- `Xdp` (`xdp.dfy`) holds the verdicts, the header gate `Classify`, and the two keys
  `WireKey` and `HostKey` = `Bswap32` of the wire word.
- `RateLimitV5` and `DdosProtection` are one module per program, with the same layout:
  - an `Entry` record type;
  - pure `Account` and `Step` functions that describe one run of the program;
  - the program as an imperative method over a `HashMap` (`XdpRateLimit`, `Protect`). It is
    proved to produce exactly `Step`'s outcome and map contents;
  - lemmas about `Step` for a single packet. They cover the header gate, first packet, the
    in-window count, rollover, a repeated timestamp, key independence, capacity, record
    invariants and `last_update`;
  - lemmas about `Run` (a sequence of packets) for whole windows. They cover the threshold
    boundary and the full-map policy.

Modelling choices:

- The clock (`bpf_ktime_get_ns`) becomes the parameter `now`.
- The frame is a byte sequence, and `data_end - data` is its length.
- The time difference is the wrapping `__u64` subtraction of the C code (`Sub64`). The lemmas
  that need a monotonic clock say so in their `requires`.
- `packet_count++` wraps at 2^32 (`Inc32`) and `bit_count + pkt_size_bits` wraps at 2^64
  (`Add64`), as in C. Lemmas that need no wrap-around say so.
- The `__u32` key is a word whose memory bytes are the four address bytes in arrival order
  (`WireKey`). The store only compares keys. Both key functions are proved injective, and the
  swapped key is proved to be the big-endian value of the address.

Behaviour of the code worth knowing, each stated in the model as the code has it:

- `RATE_LIMIT_PKTPS` (xdp-rate-limit-v5.c:6) is defined but never read. Only the bit total
  decides a verdict (`RateLimitV5.VerdictIgnoresPacketCount`).
- At rollover `last_update` becomes whatever the clock reads (xdp_ddos_protection.c:60,
  xdp-rate-limit-v5.c:72), so a reading earlier than the stored one resets the window and moves
  its start backwards (`DdosProtection.EarlierClockResetsWindow`). It only moves forward under a
  monotonic clock (`LastUpdateMovesOnlyToNow`).
- The counters wrap and do not saturate (xdp_ddos_protection.c:54, xdp-rate-limit-v5.c:64-65),
  and so do the model's (`Inc32`, `Add64`).
- In the bit-limiting program the first packet of a new source or of a new window passes
  whatever its size (xdp-rate-limit-v5.c:70-86). It is never compared with the limit
  (`RateLimitV5.FirstDropCrossesBitLimit`).
- In the bit-limiting program the bit total of a record is at least the size of the packet that
  last updated it, while the total does not wrap (xdp-rate-limit-v5.c:65, 74, 83;
  `RateLimitV5.BitsCoverOwnPacket`).

## Model

| member | source | states |
|---|---|---|
| `Words.Inc32` | xdp_ddos_protection.c:54 | `packet_count++` on a `__u32` is the successor modulo 2^32: plain +1 below the maximum, 0 from the maximum |
| `Words.Add64` | xdp-rate-limit-v5.c:65 | `bit_count + pkt_size_bits` on `__u64` is the sum modulo 2^64, the plain sum when it fits |
| `Words.Sub64` | xdp_ddos_protection.c:53 | `current_time - last_update` on `__u64` is the value that added to `last_update` modulo 2^64 gives `current_time`; the plain difference exactly when the clock has not gone backwards, 2^64 minus the gap otherwise |
| `BpfMap.UpdateAny` | xdp_ddos_protection.c:17-20 | an update with `BPF_ANY` fails with -E2BIG exactly when the key is new and the map already holds `max_entries` keys, and then changes nothing; on success the key maps to the new record; other keys are untouched, no key disappears, and the capacity bound is kept |
| `BpfMap.HashMap.constructor` | xdp-rate-limit-v5.c:17-22 | the map starts empty with room for `max_entries` records |
| `BpfMap.HashMap.Lookup` | xdp_ddos_protection.c:46 | the lookup finds a record exactly when the key is present, and returns that key's record |
| `BpfMap.HashMap.Update` | xdp_ddos_protection.c:70 | the map's new contents and the error code are those of `UpdateAny`, and the capacity bound is kept |
| `BpfMap.HashMap.Write` | xdp_ddos_protection.c:54-61 | a store through the looked-up pointer replaces that key's record and adds or removes no key |
| `Xdp.EtherType` | xdp_ddos_protection.c:33 | comparing `h_proto` with `htons(ETH_P_IP)` is the same as the frame's bytes 12 and 13 being 0x08 and 0x00 |
| `Xdp.Classify` | xdp_ddos_protection.c:27-40 | a frame is taken for accounting exactly when it holds an Ethernet header with EtherType 0x0800 and a 20-byte IP header; it is passed untouched as too short for Ethernet exactly when shorter than 14 bytes, and as non-IPv4 exactly when the EtherType differs; the address taken is bytes 26..29 |
| `Xdp.Bswap32` | xdp_ddos_protection.c:43 | byte i of the swapped word is byte 3 - i of the original |
| `Xdp.Bswap32Involutive` | xdp_ddos_protection.c:43 | swapping twice gives back the original word |
| `Xdp.WireWordBytes` | xdp-rate-limit-v5.c:41 | the wire key's four bytes are the address bytes in arrival order |
| `Xdp.WireKeyInjective` | xdp-rate-limit-v5.c:41 | two different source addresses never get the same wire key |
| `Xdp.HostKeyBytes` | xdp_ddos_protection.c:43 | the swapped key's bytes are the address bytes in reverse order |
| `Xdp.HostKeyInjective` | xdp_ddos_protection.c:43 | two different source addresses never get the same swapped key |
| `Xdp.HostKeyIsAddressValue` | xdp_ddos_protection.c:42-43 | the swapped key is the address as a big-endian number, the host-order value |
| `RateLimitV5.PacketSizeBits` | xdp-rate-limit-v5.c:58 | the packet size in bits is eight times the frame length whenever that fits in 64 bits |
| `RateLimitV5.XdpRateLimit` | xdp-rate-limit-v5.c:24-87 | the program's verdict and the new map contents are exactly `Step` of the old contents, and the map stays within capacity |
| `RateLimitV5.SkippedFrameUntouched` | xdp-rate-limit-v5.c:29-39 | a frame failing the header gate is passed and the map is unchanged |
| `RateLimitV5.FirstPacketPasses` | xdp-rate-limit-v5.c:76-86 | a new source's packet passes; with room it is recorded as `{now, its bits, 1}`, with the map full nothing is stored and it still passes |
| `RateLimitV5.InWindowAccounts` | xdp-rate-limit-v5.c:63-69 | within the window the count grows by one, the bit total by the packet's bits, `last_update` stays, and the packet is dropped exactly when the new bit total exceeds 10,000,000 |
| `RateLimitV5.VerdictIgnoresPacketCount` | xdp-rate-limit-v5.c:6 | changing the stored packet count never changes a verdict; the packet threshold is not used |
| `RateLimitV5.RolloverResets` | xdp-rate-limit-v5.c:70-75 | at or after the window end the record becomes `{now, its bits, 1}` and the packet passes |
| `RateLimitV5.WindowIsOneSecond` | xdp-rate-limit-v5.c:63 | under a monotonic clock a packet is in the window exactly when less than 10^9 ns have passed since `last_update` |
| `RateLimitV5.SameInstantCountsInNewWindow` | xdp-rate-limit-v5.c:63-84 | after a record is created or reset at time t, a second packet at t is counted in that window (count 2, bits summed), not reset again |
| `RateLimitV5.OtherKeysUntouched` | xdp-rate-limit-v5.c:52-84 | every key other than the packet's own is present afterwards exactly when it was before, with the same record |
| `RateLimitV5.VerdictDependsOnOwnRecord` | xdp-rate-limit-v5.c:52-86 | two maps that agree on the packet's own record give the same verdict; when the record exists, its new value is the same too |
| `RateLimitV5.StoreGrowsWithinCapacity` | xdp-rate-limit-v5.c:21 | no record is removed, at most one is added, and the map never holds more than 1024 records |
| `RateLimitV5.LastUpdateMovesOnlyToNow` | xdp-rate-limit-v5.c:72-81 | a record's `last_update` afterwards is either unchanged or the current time, so it never decreases under a monotonic clock |
| `RateLimitV5.CountsStayPositive` | xdp-rate-limit-v5.c:64-82 | if every record counts at least one packet and the packet's own count does not wrap, every record still counts at least one packet |
| `RateLimitV5.BitsCoverOwnPacket` | xdp-rate-limit-v5.c:63-84 | after a packet from a source whose record is stored, the record's bit total is at least that packet's size in bits, provided the addition does not wrap |
| `RateLimitV5.Run` | xdp-rate-limit-v5.c:24-87 | a sequence of packets yields one verdict per packet |
| `RateLimitV5.FromSourceWithinTail` | xdp-rate-limit-v5.c:63 | packets of one source inside one window remain so after dropping the first |
| `RateLimitV5.BitsOfPrefix` | xdp-rate-limit-v5.c:65 | the bits of the first i + 1 packets are the first packet's bits plus those of the next i |
| `RateLimitV5.RunInWindow` | xdp-rate-limit-v5.c:63-69 | packets of one source inside its open window accumulate their bits and count; each is dropped exactly when the running bit total, its own included, exceeds 10,000,000 |
| `RateLimitV5.FirstDropCrossesBitLimit` | xdp-rate-limit-v5.c:63-86 | from a source's first packet on, within one second and with room in the map, the first packet passes and each later packet is dropped exactly when the cumulative bits exceed 10,000,000; the record ends as `{first time, total bits, packet count}` |
| `RateLimitV5.FullMapNeverLimitsNewSource` | xdp-rate-limit-v5.c:84-86 | fail-open: a source first seen with the map full is never recorded, every packet of it passes and the map never changes |
| `DdosProtection.Protect` | xdp_ddos_protection.c:22-75 | the program's verdict and the new map contents are exactly `Step` of the old contents, and the map stays within capacity |
| `DdosProtection.SkippedFrameUntouched` | xdp_ddos_protection.c:29-40 | a frame failing the header gate is passed and the map is unchanged |
| `DdosProtection.FirstPacket` | xdp_ddos_protection.c:63-74 | a new source's packet is recorded as `{now, 1}` and passes when there is room; with 1024 records held the verdict is ABORTED and the map is unchanged |
| `DdosProtection.AbortedOnlyWhenFull` | xdp_ddos_protection.c:70-72 | the verdict is ABORTED exactly when an IPv4 frame's source is new and the map is full |
| `DdosProtection.InWindowCounts` | xdp_ddos_protection.c:53-57 | within the window the count grows by one, `last_update` stays, and the packet is dropped exactly when the new count exceeds 250 |
| `DdosProtection.ThresholdBoundary` | xdp_ddos_protection.c:53-57 | with 249 packets counted the 250th passes; with 250 counted the 251st is dropped |
| `DdosProtection.RolloverResets` | xdp_ddos_protection.c:58-62 | at or after the window end the record becomes `{now, 1}` and the packet passes |
| `DdosProtection.WindowIsOneSecond` | xdp_ddos_protection.c:53 | under a monotonic clock a packet is in the window exactly when less than 10^9 ns have passed since `last_update` |
| `DdosProtection.EarlierClockResetsWindow` | xdp_ddos_protection.c:53-61 | a clock reading before the stored `last_update` wraps the unsigned difference, resets the window and moves `last_update` backwards |
| `DdosProtection.SameInstantCountsInNewWindow` | xdp_ddos_protection.c:53-69 | after a record is created or reset at time t, a second packet at t passes with count 2 instead of resetting again |
| `DdosProtection.OtherKeysUntouched` | xdp_ddos_protection.c:46-70 | every key other than the packet's own is present afterwards exactly when it was before, with the same record |
| `DdosProtection.VerdictDependsOnOwnRecord` | xdp_ddos_protection.c:46-74 | two maps that agree on the packet's own record, and for a new source on whether the map is full, give the same verdict and the same new record |
| `DdosProtection.StoreGrowsWithinCapacity` | xdp_ddos_protection.c:17 | no record is removed, at most one is added, and the map never holds more than 1024 records |
| `DdosProtection.LastUpdateMovesOnlyToNow` | xdp_ddos_protection.c:53-68 | a record's `last_update` afterwards is either unchanged or the current time, so it never decreases under a monotonic clock |
| `DdosProtection.CountsStayPositive` | xdp_ddos_protection.c:54-69 | if every record counts at least one packet and the packet's own count does not wrap, every record still counts at least one packet |
| `DdosProtection.Run` | xdp_ddos_protection.c:22-75 | a sequence of packets yields one verdict per packet |
| `DdosProtection.FromSourceWithinTail` | xdp_ddos_protection.c:53 | packets of one source inside one window remain so after dropping the first |
| `DdosProtection.RunInWindow` | xdp_ddos_protection.c:53-57 | packets of one source inside its open window with c already counted: the i-th is packet c + i + 1 and is dropped exactly when that exceeds 250; the record ends with the total count |
| `DdosProtection.PacketThresholdInWindow` | xdp_ddos_protection.c:53-74 | from a source's first packet on, within one second and with room in the map, packets 1 to 250 pass and every packet from the 251st on is dropped |
| `DdosProtection.NextWindowForwards` | xdp_ddos_protection.c:53-62 | after a flood from a new source within one window, its first packet at least one second after the window's start passes and opens a new window with count 1 |
| `DdosProtection.FullMapAbortsNewSource` | xdp_ddos_protection.c:70-72 | fail-closed: a source first seen with the map full is never recorded, every packet of it is aborted and the map never changes |

## Left out

- Concurrency: parallel runs of the program on the same key race on the non-atomic
  `packet_count++` and on the window check. The model runs one invocation at a time, each
  to completion.
- The kernel's hash map implementation (hashing, buckets, preallocation) is not part of this
  model. It is abstracted to a finite map with a capacity bound and the `BPF_ANY` update rule.
  The -E2BIG error code follows the kernel's convention for a full hash map. The packet-limiting
  program tests it against 0 (xdp_ddos_protection.c:70); the bit-limiting program ignores it
  (xdp-rate-limit-v5.c:84).
- The clock `bpf_ktime_get_ns` is the parameter `now`. Nothing assumes it is monotonic except
  the lemmas whose `requires` say so.
- Pointer arithmetic on `data`/`data_end` is replaced by a byte sequence and its length. The IP
  header's IHL and options are never examined by the code, and nor are they here.
- Host endianness is not modelled. The wire key is an injective packing of the four address
  bytes, and the swapped key reverses them.
- The commented-out `bpf_printk` block and the license and section declarations do nothing at run
  time and are not modelled.
- `HashMap.Write` models the in-place stores through the pointer that the lookup returns. It
  replaces the key's record in one step. The model does not show the separate field stores an
  observer on another CPU could see halfway through.
- RateLimitV5.CountsStayPositive: holds only while the packet's own count is below the `__u32`
  maximum. After 2^32 packets in one window the C counter wraps to 0, and the model wraps the
  same way.
- DdosProtection.CountsStayPositive: same restriction, for the same reason.
- RateLimitV5.FirstDropCrossesBitLimit: requires the window's bit total to stay below 2^64 and its
  packet count below 2^32, since the C counters wrap beyond that.
- DdosProtection.PacketThresholdInWindow: requires fewer than 2^32 packets in the window, since
  the C counter wraps beyond that.
