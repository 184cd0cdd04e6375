# HorizonCast verification model

HorizonCast finds televisions on the local network and mirrors a screen to them. This project models
the parts of it in which much can go subtly wrong, and proves in Dafny what those parts are for:

- **Screen to television.** A capture loop encodes frames and hands them over a bounded queue to a
  pump, which muxes each unit into MPEG-TS and publishes it to any number of renderers. The main
  results are that nothing is lost, reordered or deadlocked on the way to the muxer, and that a
  receiver that joins late and loses arbitrary chunks decodes exactly the units it was sent
  from its first keyframe on, down to the NAL units its decoder is given (`Screen`, `Pipeline`,
  `LiveMirror`, `MuxRuns`, `MuxDemux`, `MuxPackets`). That receiver does not look at continuity counters;
  for one that does, and gives up a unit of open length at a gap, the exact survivors are stated (`Continuity`).
- **Discovery.** Sightings are folded per address, expired, and coalesced into devices by a
  hand-written union-find. The main results are that devices are exactly the connected components of
  "shares a stable identity", that hash order never shows in the list, and that the order of sightings
  does not show in the groups, ids, primaries and transports; which transport, address and device comes
  first is said of the transports and addresses themselves (`Preferences`); when it shows in names, ports, URLs and in
  the whole list, and when ids tell the devices apart, is stated exactly (`Registry`, `UnionFind`,
  `Coalesce`, `Devices`, `OrderIndependence`, `FirstSightings`, `Picking`).
- **Control channels.** RTSP requests are read back by a reader of RFC 2326, and responses come back whole
  and in order however TCP cuts the stream, with failing reads, writes and length overflow in the contracts;
  which error a bad head gives is stated exactly (`Rtsp`, `RtspStream`, `RtspRequests`). Metadata nested in SOAP
  requests survives both levels of escaping (`Soap`), and for a conforming XML reader, which also
  normalizes line ends, exactly the texts without a carriage return do (`XmlLines`). Read element by
  element, requests and metadata hold exactly the elements, namespaces, attributes and arguments meant
  (`XmlReader`).
- **Media formats.** AVCC to Annex B, BGRA to NV12 and how near that is to BT.601, the 90 kHz time line, and
  the checksum of ISO/IEC 13818-1 as a remainder over GF(2) (`AnnexB`, `Nv12`, `Colour`, `Clock`, `Crc32`,
  `CrcExact`).

Objects whose methods update fields are classes; in-place algorithms work on arrays; loops carry
invariants. Each such method is proved equal to a specification function, and the results above are
lemmas about those functions. `Demuxer` and `CrcReference` (ISO/IEC 13818-1), the Annex B splitter in `AnnexB` (ITU-T H.264,
section B.1.1), `Utf8` (RFC 3629), the request reader in `RtspRequests` (RFC 2326), the entity reader in `Soap` and the readers in `XmlLines`
and `XmlReader` (XML 1.0) are independent references, written from
the standards and not from the program. `Bytes`, `Arith`, `Search` and `Ordering` hold shared definitions.
`hide` statements only keep function bodies out of proofs that do not need them.

To verify: `dafny verify dfyconfig.toml`.

## Where the code and its comments differ

The model follows the code.

- `crates/hc-net/src/mpegts.rs:142-144` says the PES length is always set for audio. It is zero for an
  audio unit of more than 65527 bytes, which section 2.4.3.7 of ISO/IEC 13818-1 allows for video only;
  `MuxPackets.PesLengthExact` gives the exact condition. The reference receiver tolerates it, so recovery
  holds for all units.
- `crates/hc-capture/src/convert.rs:13` says the chroma stride is the width rounded up; it is rounded down.
- `crates/hc-encode/src/macos.rs:265-266` means the flag to tell whether the sample holds an IDR unit. It is
  computed from the octet behind every length prefix met, also where that is the header of a cut-off unit
  which is not sent (`AnnexB.CutOffKeyframe`), or, behind an empty unit, an octet of the next length or of
  the rest (`AnnexB.EmptyUnitKeyframe`). `AnnexB.KeyframeFlagExact` says exactly when flag and units differ.
- `crates/hc-encode/src/mediafoundation.rs:205` casts and saturates: the way through the encoder keeps a
  time up to one tick just up to `Clock.LAST_EXACT` ticks, more than three thousand years (`Clock.EncoderRoundTrip`).
- `crates/hc-net/src/rtsp.rs:176-181` says that bytes give a message, a wish for more, or an error. A head that
  announces a length close to 2^64 makes the program panic at lines 226-237 instead, before any body arrives:
  `RtspStream.OverflowOnHead` says exactly when, `RtspStream.HugeHeadOverflows` is such a head.
- `crates/hc-app/src/main.rs:89-97` looks a device up by its id, which need not be the only device with that id:
  `Picking.IdsExact` says exactly when ids are distinct, `Picking.IdsCollide` is an input where they are not.

## Model

| member | source | states |
|---|---|---|
| Crc32.ComputeCrc | crates/hc-net/src/mpegts.rs:180-193 | the nested loop over bytes and bits computes the checksum function |
| CrcExact.PolynomialIsGenerator | crates/hc-net/src/mpegts.rs:186 | the constant is x^32 + x^26 + x^23 + x^22 + x^16 + x^12 + x^11 + x^10 + x^8 + x^7 + x^5 + x^4 + x^2 + x + 1 without its first term |
| CrcExact.CrcIsChecksum | crates/hc-net/src/mpegts.rs:180-193 | for every message the checksum is the remainder of long division by that generator, the first 32 coefficients complemented |
| Crc32.ShiftIsBijection | crates/hc-net/src/mpegts.rs:184-190 | each register step has a two-sided inverse, so it loses nothing |
| Crc32.AbsorbSplit | crates/hc-net/src/mpegts.rs:183-190 | feeding bits in groups is feeding them together: the byte-wise loop is one 32-bit step |
| Crc32.ResidueIsZero | crates/hc-net/src/mpegts.rs:180-193 | any data followed by its own big-endian checksum checks to zero |
| Crc32.BurstDetected | crates/hc-net/src/mpegts.rs:180-193 | any two messages of one length that differ only within four consecutive bytes have different checksums |
| Muxer.MpegTsMuxer.constructor | crates/hc-net/src/mpegts.rs:33-35 | a fresh muxer has all four counters at zero |
| Muxer.MpegTsMuxer.TakeCc | crates/hc-net/src/mpegts.rs:112-123 | answers one PID's counter and advances that one only, modulo 16 |
| Muxer.MpegTsMuxer.WritePsi | crates/hc-net/src/mpegts.rs:58-65 | the packet is header, pointer, section and filler, with the next counter of its PID |
| Muxer.MpegTsMuxer.NextPacket | crates/hc-net/src/mpegts.rs:78-104 | one packet of exactly 188 bytes: which bytes of the payload it takes, and its adaptation field |
| Muxer.MpegTsMuxer.WritePayload | crates/hc-net/src/mpegts.rs:70-110 | the output is the packets the payload is cut into, and the counter advances by their number |
| Muxer.MpegTsMuxer.PushAccessUnit | crates/hc-net/src/mpegts.rs:40-50 | output and counters after a video unit: tables first for a keyframe, PCR equal to the PTS |
| Muxer.MpegTsMuxer.PushAudioAccessUnit | crates/hc-net/src/mpegts.rs:53-56 | output and counters after an audio unit |
| MuxDemux.TimestampRoundTrip | crates/hc-net/src/mpegts.rs:156-165 | a receiver decodes the PTS modulo 2^33, with prefix and marker bits in place |
| MuxDemux.PcrRoundTrip | crates/hc-net/src/mpegts.rs:168-177 | a receiver decodes the clock base modulo 2^33, with extension zero |
| MuxDemux.HeaderFields | crates/hc-net/src/mpegts.rs:133-140 | PID, unit start, field control and counter are read back; error, priority and scrambling are off |
| MuxDemux.ParseDataPacket | crates/hc-net/src/mpegts.rs:82-104 | a receiver reads back PID, unit start, counter, PCR and exactly the payload bytes, whatever the stuffing |
| MuxDemux.ParsePsiPacket | crates/hc-net/src/mpegts.rs:58-65 | a table packet is read back as pointer field, section and filler |
| MuxDemux.PatAccepted | crates/hc-net/src/mpegts.rs:195-213 | a receiver that verifies length and checksum learns program 1 and its PMT PID |
| MuxDemux.PmtAccepted | crates/hc-net/src/mpegts.rs:215-243 | a receiver that verifies length, checksum and program number learns the PCR, video and audio PIDs |
| MuxDemux.PesRoundTrip | crates/hc-net/src/mpegts.rs:145-154 | a PES packet is read back as PTS modulo 2^33 and the unit, of any length |
| MuxDemux.FeedUnit | crates/hc-net/src/mpegts.rs:70-110 | the packets of one unit add exactly one reassembled PES packet with its PCR to the right stream |
| MuxDemux.FeedTables | crates/hc-net/src/mpegts.rs:42-45 | a keyframe's tables tell any receiver where the streams are, whatever it knew before |
| MuxDemux.FeedPush | crates/hc-net/src/mpegts.rs:40-56 | what one push, from any counter state, does to any receiver |
| MuxRuns.FeedKept | crates/hc-net/src/mpegts.rs:40-110 | for any run and any lost chunks the rest is whole packets, and acts as the kept pushes alone |
| MuxRuns.JoinAndRecover | crates/hc-net/src/mpegts.rs:40-110 | for any run and any lost chunks, a receiver without prior knowledge recovers, per stream and in order, exactly the received units from the first keyframe on, with PTS, and with PCR equal to PTS for video |
| MuxRuns.TunedRecover | crates/hc-net/src/mpegts.rs:40-110 | a receiver that already knows the PIDs recovers every received unit |
| Continuity.StrictRecover | crates/hc-net/src/mpegts.rs:40-123 | for any run and any lost chunks, a receiver of one stream that gives units up at counter gaps recovers exactly the received units but those of more than 65527 bytes whose successor does not follow on their counter |
| Continuity.CompleteExact | crates/hc-net/src/mpegts.rs:145-154 | a receiver can tell a unit complete by its length exactly up to 65527 bytes |
| Continuity.BoundedSurvive | crates/hc-net/src/mpegts.rs:145-154 | units of at most 65527 bytes survive any loss |
| Continuity.UnbrokenSurvives | crates/hc-net/src/mpegts.rs:112-123 | without loss there is no gap, and every unit of any size survives |
| MuxPackets.ContinuityCounters | crates/hc-net/src/mpegts.rs:112-123 | over any run, from any counters, the k-th packet on each PID carries its first counter plus k modulo 16, whatever the other PIDs do |
| MuxPackets.PlainPacketCount | crates/hc-net/src/mpegts.rs:82-104 | n bytes without a PCR take n/184 packets plus 0, 2 or 1 as n mod 184 is 0, 183 or another value |
| MuxPackets.PacketCount | crates/hc-net/src/mpegts.rs:70-110 | the packets of a unit: one with the PCR and up to 176 bytes, then plain ones |
| MuxPackets.UnitShape | crates/hc-net/src/mpegts.rs:70-110 | only the first packet of a unit marks its start and carries the PCR; adaptation fields are 1 to 182 long, at least 7 with a PCR, flag nothing else and are filled up with ones |
| MuxPackets.TablePacketFilled | crates/hc-net/src/mpegts.rs:58-65 | a table packet points at its section at once and is filled up with ones |
| MuxPackets.ReservedBits | crates/hc-net/src/mpegts.rs:195-243 | every reserved bit of both tables is set, and the version is zero and current |
| MuxPackets.PesLengthExact | crates/hc-net/src/mpegts.rs:142-154 | the length field is exact just up to 65527 bytes, and the standard allows it exactly for video or up to that size |
| LiveMirror.LiveStream.Publish | crates/hc-net/src/live_stream.rs:89-91 | one more chunk at the end of the channel |
| LiveMirror.Client.constructor | crates/hc-net/src/live_stream.rs:108-109 | a client starts behind everything published before it connected |
| LiveMirror.Client.Poll | crates/hc-net/src/live_stream.rs:108-114 | the next chunk, or the oldest of the last 512 for a lagging client; what it receives stays a subsequence |
| LiveMirror.LiveMirrorSession.constructor | crates/hc-sink/src/dlna.rs:140-144 | a session that did start has an empty channel and a fresh muxer |
| LiveMirror.LiveMirrorSession.PushAccessUnit | crates/hc-sink/src/dlna.rs:155-158 | one chunk holding exactly the packets of this video unit is published |
| LiveMirror.LiveMirrorSession.PushAudioAccessUnit | crates/hc-sink/src/dlna.rs:161-164 | one chunk holding exactly the packets of this audio unit is published |
| LiveMirror.ReceivedStays | crates/hc-net/src/live_stream.rs:89-91 | publishing more changes nothing about what a client has received |
| LiveMirror.ReceivedSkip | crates/hc-net/src/live_stream.rs:111-114 | skipping any number of chunks keeps what was received a subsequence |
| LiveMirror.ClientRecovers | crates/hc-net/src/live_stream.rs:89-114 | whenever a client connects and however it lags, its bytes decode to the units of a subsequence of the pushes since, from the first keyframe on |
| Pipeline.InvPreserved | crates/hc-app/src/main.rs:111-182 | every step keeps the invariant: encoded = pushed, dropped, queued, pending, in that order; the queue holds at most 120 |
| Pipeline.Conservation | crates/hc-app/src/main.rs:161-181 | in every reachable state the muxed units are a prefix of those encoded, and nothing is lost while the pump runs |
| Pipeline.NaturalEndMuxesAll | crates/hc-app/src/main.rs:463-474 | when the mirror ends by itself, everything encoded has been muxed |
| Pipeline.NothingMuxedAfterStop | crates/hc-app/src/main.rs:460-475 | once the pump has left its loop nothing more is muxed |
| Pipeline.QueueFills | crates/hc-app/src/main.rs:453 | up to 120 units wait in the queue while another is to be sent, and the capture loop waits exactly at 120 |
| Pipeline.AtMostOneLateSend | crates/hc-app/src/main.rs:166-170 | after the receiver is dropped at most one send is attempted, and it ends the loop |
| Pipeline.StuckIffWaiting | crates/hc-app/src/main.rs:111-182 | a process has no step exactly when it is over or waits for the process named |
| Pipeline.NoCircularWait | crates/hc-app/src/main.rs:111-127 | in every reachable state, full queue or not, a process that is not over can move or waits, over at most two hops, for one that can |
| Pipeline.MeasureStep | crates/hc-app/src/main.rs:453-475 | once the stop branch is taken, every step but swallowing a frame shrinks a bounded measure |
| Pipeline.TeardownIsBounded | crates/hc-app/src/main.rs:111-127 | any run from the stop branch on has at most 246 steps besides swallowed frames |
| Pipeline.StoppedMeansDone | crates/hc-app/src/main.rs:111-127 | where nothing but swallowing frames can happen any more, teardown, capture and pump are over |
| Pipeline.TeardownEnds | crates/hc-app/src/main.rs:111-127 | a run from the stop branch on that goes as far as it can takes at most 246 such steps and ends with all three over |
| Pipeline.EncoderToScreen | crates/hc-app/src/main.rs:453-475 | in every reachable state, what any client received decodes to frames of a subsequence of what the encoder returned |
| Screen.KeptPictures | crates/hc-net/src/live_stream.rs:111-114 | losing chunks is losing whole samples: the kept units are those of the kept samples |
| Screen.SplitVideo | crates/hc-encode/src/macos.rs:278-289 | the units of any run of samples split into exactly the NAL units to show, with their times |
| Screen.EncoderToDecoder | crates/hc-app/src/main.rs:161-175 | in every reachable state, whatever a client received, its decoder is given exactly the NAL units of a subsequence of the encoded samples, in order and with times, from the first keyframe on, keyframes behind their parameter sets |
| Registry.DeviceRegistry.constructor | crates/hc-discovery/src/registry.rs:61-66 | an empty table |
| Registry.DeviceRegistry.Update | crates/hc-discovery/src/registry.rs:81-117 | the field-by-field update equals the merge of one sighting |
| Registry.DeviceRegistry.Observe | crates/hc-discovery/src/registry.rs:70-118 | the table stays the replay of the history; only the sighted address changes |
| Registry.DeviceRegistry.Expire | crates/hc-discovery/src/registry.rs:121-125 | the table stays the replay of the history; entries only go, unchanged otherwise |
| Registry.DescribeSnoc | crates/hc-discovery/src/registry.rs:81-117 | merging one more sighting is describing one more: first name, port and URLs, union of identities and protocols |
| Registry.EntryIsFold | crates/hc-discovery/src/registry.rs:70-125 | for every history, an entry exists exactly while it has live sightings and is their description |
| Registry.AliveLast | crates/hc-discovery/src/registry.rs:120-125 | while times do not go back, live sightings end with the last one, and none are live only if that is too old |
| Registry.PresentIffRecent | crates/hc-discovery/src/registry.rs:120-125 | after any history and `expire(t)`, an address is present exactly when its last sighting s has t - s <= ttl |
| Registry.ReachableWellFormed | crates/hc-discovery/src/registry.rs:70-118 | every entry of every reachable table has a protocol, none twice, and no empty strings |
| UnionFind.Find | crates/hc-discovery/src/registry.rs:240-246 | path halving ends on every forest, answers the root, and leaves every root and acyclicity as they were |
| UnionFind.Halve | crates/hc-discovery/src/registry.rs:242-243 | one halving step keeps forest and roots and moves up |
| UnionFind.Link | crates/hc-discovery/src/registry.rs:144-146 | linking one root to another, in either index direction, merges exactly those two trees |
| UnionFind.RootUnique | crates/hc-discovery/src/registry.rs:240-246 | the roots depend on the parent array alone |
| Coalesce.Unite | crates/hc-discovery/src/registry.rs:143-146 | uniting two addresses that share an identity merges exactly their trees and stays justified by chains |
| Coalesce.LinkIdentity | crates/hc-discovery/src/registry.rs:141-151 | after one identity, its address is in the tree of the identity's first owner; nothing done before is undone |
| Coalesce.LinkShared | crates/hc-discovery/src/registry.rs:136-153 | after the loop, equal roots mean a chain of shared identities, and a shared identity means equal roots |
| Coalesce.LinkJustified | crates/hc-discovery/src/registry.rs:143-146 | a link between sharers joins only addresses that some chain connects |
| Coalesce.LinksGoBothWays | crates/hc-discovery/src/registry.rs:139-146 | an example: of three addresses, the last sharing an identity with each of the others, the two links lead to a smaller and to a larger index within one forest |
| Coalesce.LabelsFollowChains | crates/hc-discovery/src/registry.rs:136-153 | what agrees across every shared identity agrees along every chain |
| Devices.SameRootIffConnected | crates/hc-discovery/src/registry.rs:136-160 | linking to first owners only still gives the reflexive-transitive closure: same root exactly when connected |
| Devices.MembersAreComponent | crates/hc-discovery/src/registry.rs:155-160 | the addresses of one root are one whole component, in address order |
| Devices.GroupByRoot | crates/hc-discovery/src/registry.rs:155-160 | one group for each root, holding exactly its addresses in order |
| Devices.SortedKeys | crates/hc-discovery/src/registry.rs:132-134 | all tracked addresses, strictly increasing |
| Devices.ListDevices | crates/hc-discovery/src/registry.rs:131-171 | the list holds the device of every component and nothing else, in strict list order |
| Devices.EveryAddressInOneDevice | crates/hc-discovery/src/registry.rs:131-171 | every tracked address belongs to exactly one listed device |
| Devices.SameDeviceIffConnected | crates/hc-discovery/src/registry.rs:127-171 | two addresses are in one listed device exactly when a chain of shared identities connects them |
| Devices.DeviceListUnique | crates/hc-discovery/src/registry.rs:162-170 | only one list meets that description: no hash or linking order shows |
| Devices.ListOrders | crates/hc-discovery/src/registry.rs:163-169 | rank, name and address order any two devices with different primaries strictly |
| Devices.AddressOrders | crates/hc-discovery/src/registry.rs:262-271 | both address orders are strict and total |
| Devices.Primary | crates/hc-discovery/src/registry.rs:175-178 | the one address of the group that beats all others |
| Devices.MergedDevice | crates/hc-discovery/src/registry.rs:174-212 | protocols are the union, once each, by rising rank; the id is the least identity or the primary's text; the primary is the best address |
| Preferences.TransportsExact | crates/hc-discovery/src/registry.rs:184-192 | a device lists exactly the transports offered at its addresses, in the order AirPlay mirror, AirPlay video, Cast, Miracast, DLNA |
| Preferences.ListedByTransport | crates/hc-discovery/src/registry.rs:163-169 | a device with one of the first k of these transports is listed before every device without; then names decide, then addresses |
| Preferences.PrimaryKind | crates/hc-discovery/src/registry.rs:262-271 | a routable IPv4 address is primary if there is one, then global IPv6, then fe80::/10, loopback only where there is nothing else; the lowest of its kind |
| Preferences.LowerExact | crates/hc-discovery/src/registry.rs:132-134 | addresses are ordered IPv4 first, then by value |
| Preferences.StringLessExact | crates/hc-discovery/src/registry.rs:207-211 | texts are ordered by their first difference |
| Devices.MergedFields | crates/hc-discovery/src/registry.rs:179-205 | the port is the primary's; name and URLs come from the lowest address that has one |
| OrderIndependence.SameObservationsAlike | crates/hc-discovery/src/registry.rs:70-118 | histories of the same sightings, reordered or repeated, give the same addresses, identities and protocol sets |
| OrderIndependence.MergedAlike | crates/hc-discovery/src/registry.rs:174-223 | such tables give a group the same id, primary address and protocol list |
| OrderIndependence.ArrivalOrderIrrelevant | crates/hc-discovery/src/registry.rs:70-171 | however the same sightings arrive, the lists have the same groups with the same id, primary and protocols |
| OrderIndependence.NameFollowsArrival | crates/hc-discovery/src/registry.rs:87-93 | an input on which the name does depend on it: of two names the first to arrive stays |
| FirstSightings.HeldIsTold | crates/hc-discovery/src/registry.rs:83-107 | an entry has a name, port or URL exactly if some sighting of its address tells one, and then one so told |
| FirstSightings.FrontDecides | crates/hc-discovery/src/registry.rs:83-107 | a sighting put in front of any history decides each field it tells |
| FirstSightings.FieldExact | crates/hc-discovery/src/registry.rs:83-107 | for every history of sightings, an entry's name, port or URL is the same in every order exactly when all sightings of the address that tell it tell the same |
| FirstSightings.ListExact | crates/hc-discovery/src/registry.rs:70-223 | the whole device list, its order included, is the same in every order of the sightings exactly when they agree on each field at the address the device takes it from |
| Picking.PickingExact | crates/hc-app/src/main.rs:90-97 | looking each listed device up by its id finds it exactly when the ids are distinct |
| Picking.IdsExact | crates/hc-discovery/src/registry.rs:207-212 | listed ids are distinct exactly when no device without identities has its primary address for the identity another is known by |
| Picking.PickingFinds | crates/hc-app/src/main.rs:90-97 | while no stable identity is the text of a tracked address, every listed device is found by its id |
| Picking.IdsCollide | crates/hc-discovery/src/registry.rs:207-212 | two sightings that give two devices one id |
| OrderIndependence.ListedDevicesHaveTransports | crates/hc-discovery/src/registry.rs:115-117 | a listed device of well-formed entries has a transport and sorts by its best one, so the catch-all rank is never used |
| Search.FindSubsequence | crates/hc-net/src/rtsp.rs:244-249 | an answered index is an occurrence |
| Search.FindFirst | crates/hc-net/src/rtsp.rs:244-249 | if there is an occurrence there is an answer, and none is earlier |
| Search.FindStable | crates/hc-net/src/rtsp.rs:244-249 | an occurrence once found stays the answer when bytes are appended |
| Utf8.DecodeExact | crates/hc-net/src/rtsp.rs:186-187 | bytes decode to a text exactly when they are its encoding, so ill-formed, overlong and surrogate forms are rejected |
| Utf8.KnownEncodings | crates/hc-net/src/rtsp.rs:186-187 | one character of each length as RFC 3629 writes it |
| Rtsp.CollectHeaders | crates/hc-net/src/rtsp.rs:208-218 | the header loop, with its early error, equals the header grammar |
| Rtsp.ParseResponse | crates/hc-net/src/rtsp.rs:182-241 | incomplete, invalid, overflow or message, in the order of the checks made |
| Rtsp.OverflowExact | crates/hc-net/src/rtsp.rs:220-237 | the end of the body overflows a word on exactly the buffers on which wrapping words make the body slice run backwards: checked or not, the program panics on the same inputs |
| Rtsp.ParseStable | crates/hc-net/src/rtsp.rs:182-241 | a message or an error is the same whatever bytes follow |
| Rtsp.SerializeRequest | crates/hc-net/src/rtsp.rs:135-144 | the loop writes request line, headers in order, blank line and body |
| RtspStream.ParseClean | crates/hc-net/src/rtsp.rs:182-241 | a clean head in front of any bytes: overflow, more to read, or the message, each exactly when |
| RtspStream.OverflowOnHead | crates/hc-net/src/rtsp.rs:220-237 | the program panics on a clean head, whatever follows, exactly when the length it announces reaches past the last word |
| RtspStream.HugeHeadOverflows | crates/hc-net/src/rtsp.rs:220-237 | a head on which it panics: status 200 announcing 2^64 - 1 bytes |
| RtspRequests.RequestRoundTrip | crates/hc-net/src/rtsp.rs:135-144 | a receiver reads back verb, URI, headers and body of any request sent, and what follows is untouched |
| RtspRequests.ExchangeSends | crates/hc-net/src/rtsp.rs:53-58 | what is sent reads as the caller's request with one more header, `CSeq` and the counter, behind its own |
| RtspRequests.VersionExact | crates/hc-net/src/rtsp.rs:190-201 | a first line is refused as no RTSP exactly when it does not start with `RTSP/` |
| RtspRequests.ErrorExact | crates/hc-net/src/rtsp.rs:186-218 | which error a complete head gives: undecodable, no RTSP, no 16-bit status, a line without colon, the first that applies |
| RtspRequests.HeadersExact | crates/hc-net/src/rtsp.rs:208-218 | headers are refused exactly when some non-empty line has no colon |
| RtspRequests.BlanksIgnored | crates/hc-net/src/rtsp.rs:209-214 | a header is the name before its colon and the value behind it, whatever white space is around either |
| RtspRequests.TrimExact | crates/hc-net/src/rtsp.rs:213-214 | white space on both sides of a name or value is dropped and nothing else |
| RtspRequests.NumberExact | crates/hc-net/src/rtsp.rs:202-205 | a number is read exactly from decimal digits, with or without a plus sign, that do not exceed the type |
| RtspRequests.LengthExact | crates/hc-net/src/rtsp.rs:220-224 | a response announces a body exactly by its first Content-Length header, and only if that is a number of 64 bits |
| RtspRequests.BytesKept | crates/hc-net/src/rtsp.rs:66-82 | a request takes exactly its message from the stream, an error takes nothing |
| Rtsp.RtspConnection.constructor | crates/hc-net/src/rtsp.rs:34-41 | nothing buffered, sequence number zero |
| Rtsp.RtspConnection.Exchange | crates/hc-net/src/rtsp.rs:52-83 | the request goes out with the next CSeq modulo 2^32; a failing write reads nothing; otherwise answer and unread rest are functions of the bytes and of where reads fail, not of how the bytes were cut |
| Rtsp.RtspConnection.Await | crates/hc-net/src/rtsp.rs:65-82 | the read loop ends with the first message, error, failing read or end of stream, and keeps every unread byte |
| Rtsp.ChunkingIrrelevant | crates/hc-net/src/rtsp.rs:71-81 | without failing reads any two ways of cutting the same bytes are the same stream |
| RtspStream.StatusLineParses | crates/hc-net/src/rtsp.rs:190-206 | any status and any one-line reason are read back |
| RtspStream.HeaderLineParses | crates/hc-net/src/rtsp.rs:209-214 | any trimmed header with a colon-free name is read back |
| RtspStream.HeadEndFound | crates/hc-net/src/rtsp.rs:183-185 | the first blank line of a rendered head is its own end, whatever body follows |
| RtspStream.ParseRendered | crates/hc-net/src/rtsp.rs:182-241 | a well-formed response in front of any bytes is read back exactly and consumes exactly itself |
| RtspStream.StreamRoundTrip | crates/hc-net/src/rtsp.rs:52-83 | the k-th request on a stream of responses answers the k-th, and what follows the last stays unread, failing reads later on included |
| RtspStream.BodyHeaders | crates/hc-net/src/rtsp.rs:121-131 | attaching a body replaces stale content headers, touches no other, and announces exactly the body |
| AnnexB.IsKeyframe | crates/hc-encode/src/macos.rs:266 | the lazy walk answers whether any NAL type met is 5 |
| AnnexB.PrefixAll | crates/hc-encode/src/macos.rs:272-275 | each parameter set behind a start code, in order |
| AnnexB.ConvertUnits | crates/hc-encode/src/macos.rs:279-289 | the index loop equals the conversion function |
| AnnexB.SampleToAnnexB | crates/hc-encode/src/macos.rs:263-295 | the whole rewriting, parameter sets first exactly when the keyframe flag is set |
| AnnexB.ConvertExact | crates/hc-encode/src/macos.rs:278-289 | any complete units and any cut-off rest give exactly the units behind start codes |
| AnnexB.Decompose | crates/hc-encode/src/macos.rs:278-289 | every buffer is complete units and a cut-off rest, so the previous row covers all inputs |
| AnnexB.TypesExact | crates/hc-encode/src/macos.rs:299-312 | on any units, empty ones included, and any rest the walk yields exactly the type of the octet behind each prefix |
| AnnexB.MetIdr | crates/hc-encode/src/macos.rs:299-312 | type 5 is among them exactly if a sent unit is an IDR unit or a stray octet reads as one: a cut-off header, or what follows an empty unit |
| AnnexB.KeyframeFlagExact | crates/hc-encode/src/macos.rs:266 | the flag agrees with the units sent exactly unless such an octet strays while no IDR unit is sent |
| AnnexB.KeyframeFlagOfAny | crates/hc-encode/src/macos.rs:263-289 | the same of every buffer, split into the units sent and the rest |
| AnnexB.CutOffKeyframe | crates/hc-encode/src/macos.rs:263-289 | an input on which it does not agree: a cut-off IDR unit |
| AnnexB.EmptyUnitKeyframe | crates/hc-encode/src/macos.rs:299-312 | another: an empty unit and one stray octet |
| AnnexB.SplitRecovers | crates/hc-encode/src/macos.rs:278-289 | a standard splitter recovers any emulation-free units |
| AnnexB.SampleRecovered | crates/hc-encode/src/macos.rs:263-295 | a decoder sees the parameter sets of a keyframe and then the units, unchanged and in order |
| Nv12.CoveredExact | crates/hc-capture/src/convert.rs:25-47 | the size asked of the source is exactly what keeps every read in bounds |
| Nv12.BgraToNv12 | crates/hc-capture/src/convert.rs:16-63 | for every covered source the conversion stays in bounds and writes every output byte as specified |
| Nv12.FillLuma | crates/hc-capture/src/convert.rs:25-33 | the row and column loops write each luma byte from its own pixel |
| Nv12.FillChroma | crates/hc-capture/src/convert.rs:36-55 | the block loops write each blue and red difference from its own block |
| Nv12.ChromaBlock | crates/hc-capture/src/convert.rs:39-50 | the four pixels of a block are summed and averaged per channel |
| Nv12.LumaValue | crates/hc-capture/src/convert.rs:28-32 | where in the plane each pixel's luma is |
| Nv12.ChromaValue | crates/hc-capture/src/convert.rs:48-53 | where in the plane each block's differences are |
| Colour.LumaExact | crates/hc-capture/src/convert.rs:28-32 | each luma octet is less than one step from the exact BT.601 luma of its pixel's red, green and blue octets |
| Colour.ChromaExact | crates/hc-capture/src/convert.rs:39-53 | each pair of chroma octets, blue difference first, is less than 1.36 steps from the exact differences of the mean of its four pixels |
| Nv12.LimitedRange | crates/hc-capture/src/convert.rs:66-68 | no channel values make the clamp change anything; results are in 16..235 and 16..240 |
| Nv12.PlanesInRange | crates/hc-capture/src/convert.rs:57-62 | every byte of both planes is in that range |
| Nv12.GreyIsNeutral | crates/hc-capture/src/convert.rs:48-50 | a block of grey pixels has chroma exactly 128 |
| Nv12.OnlyVisibleColoursMatter | crates/hc-capture/src/convert.rs:25-55 | alpha, padding and stride cannot influence the planes |
| Nv12.CopyPlane | crates/hc-encode/src/mediafoundation.rs:184-188 | the rows without padding, behind what the buffer holds already |
| Nv12.CopyPlanes | crates/hc-encode/src/mediafoundation.rs:180-194 | the encoder's buffer is the tightened luma followed by the tightened chroma |
| Nv12.EncoderInput | crates/hc-encode/src/mediafoundation.rs:180-194 | for converted planes that is exactly luma followed by chroma, byte for byte |
| Clock.PtsClock.Pts | crates/hc-core/src/clock.rs:26-31 | the first call anchors; every time is measured from the anchor, saturating |
| Clock.NoDrift | crates/hc-core/src/clock.rs:26-31 | order is kept, and any two times differ from the exact 90 kHz distance by less than a tick |
| Clock.TicksExact | crates/hc-core/src/clock.rs:26-31 | times are the whole 90 kHz periods since the anchor, zero before it, and stop at the last 64-bit value |
| Clock.SampleTimeExact | crates/hc-encode/src/mediafoundation.rs:204-205 | the sample time is the exact one in 100 ns, less than one unit early |
| Clock.EncoderTime | crates/hc-encode/src/mediafoundation.rs:204-205 | what comes back from the encoder for every 64-bit time |
| Clock.EncoderRoundTrip | crates/hc-encode/src/mediafoundation.rs:290-294 | the time itself if 9 divides it, else one tick less: true exactly up to `LAST_EXACT`, whatever saturates |
| Clock.EncoderKeepsOrder | crates/hc-encode/src/mediafoundation.rs:204-205 | exactly when the way through the encoder keeps the order of two times |
| Soap.XmlEscape | crates/hc-net/src/upnp.rs:121-134 | the character loop equals the escaping function |
| Soap.EscapeRoundTrip | crates/hc-net/src/upnp.rs:121-134 | unescaping once gives the text back, and escaped text holds no raw markup |
| Soap.UriRoundTrip | crates/hc-net/src/upnp.rs:188-197 | for any URI and metadata, the renderer cuts out and unescapes exactly the URI |
| Soap.MetaDataRoundTrip | crates/hc-net/src/upnp.rs:188-197 | and exactly the metadata document, itself markup |
| Soap.TitleRoundTrip | crates/hc-net/src/upnp.rs:160-174 | any title in the metadata is read back |
| Soap.ProtocolInfoRoundTrip | crates/hc-net/src/upnp.rs:160-174 | any protocolInfo attribute is read back |
| Soap.ResourceRoundTrip | crates/hc-net/src/upnp.rs:160-174 | the URI of the resource element is read back |
| Soap.NestedTitleRoundTrip | crates/hc-net/src/upnp.rs:160-197 | two levels of escaping undone one at a time give the title, and the same URI at both levels |
| XmlReader.RequestRead | crates/hc-net/src/upnp.rs:176-197 | for every URI and metadata the request reads as one SOAP envelope with one body and one `SetAVTransportURI` of the AVTransport service, with InstanceID 0, URI and metadata in order |
| XmlReader.RequestReadNormalized | crates/hc-net/src/upnp.rs:176-197 | so it does with line ends normalized first |
| XmlReader.DidlRead | crates/hc-net/src/upnp.rs:160-174 | the metadata reads as one item with its three namespaces, its attributes, title, class `object.item.videoItem`, protocolInfo and URI |
| XmlLines.UriExact | crates/hc-net/src/upnp.rs:188-197 | a conforming XML reader gets back exactly the URIs without a carriage return, any other with line feeds instead |
| XmlLines.TitleExact | crates/hc-net/src/upnp.rs:160-174 | so it does with titles |
| XmlLines.ProtocolInfoExact | crates/hc-net/src/upnp.rs:160-174 | in the attribute, exactly the values without tabs and line ends |
| XmlLines.NestedTitleExact | crates/hc-net/src/upnp.rs:160-197 | through both levels, exactly the titles without a carriage return |

## Left out

- Sockets, HTTP servers, the SSDP and mDNS loops and `reqwest` calls: I/O. The text form of an address, the
  chunks a socket hands out and the encoder's parameter sets are parameters.
- Rtsp.RtspConnection.Exchange: the sequence number wraps after 2^32 requests, as in a build without overflow
  checks; a checked build panics there.
- Rtsp.ParseResponse: machine words have 64 bits, and the panic on overflow is an outcome of its own.
- LiveMirror.LiveMirrorSession.constructor: the address lookup, the server start and the two SOAP requests that
  come before it, and their error returns, are I/O.
- Pipeline.TeardownIsBounded: the bound starts when the pump takes its stop branch, since `select!` is fair to
  neither branch; frames for which the encoder returns no unit are not bounded; calls into capture, encoder and
  `session.stop` are taken to return.
- `encoder.finish()`: its output is discarded by the program; completion of `LiveStream::stop` likewise depends on others.
- Registry.PresentIffRecent: asks for nondecreasing times, because `observe` stores the time it is given.
- OrderIndependence.ArrivalOrderIrrelevant: says nothing of names, ports and URLs, where the first to arrive stays;
  `FirstSightings` does.
- XmlLines.NestedTitleExact: characters that XML 1.0 does not allow at all are not set apart.
- Identities, map keys and groups are visited in an arbitrary order, which covers every hash and tree order of the program.
- The entry table is a map value that the methods reassign, so aliasing of entries is not modelled.
- Muxer.MpegTsMuxer.PushAccessUnit: nothing is said about the contents of the unit, which the muxer does not look at.
- `session.rs`, `media_server.rs`, `bplist.rs`, `resolve_url`, description parsing, MIME tables, the `Play` and `Stop`
  bodies and the protocolInfo strings: short case analyses.
- The user interface, command line, scripts and all platform calls (VideoToolbox, Media Foundation, screen capture).
