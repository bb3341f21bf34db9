# Chimera: verified protocol cores

Chimera tunnels TCP and UDP over QUIC/HTTP3 or TLS. Beneath its library plumbing it has
a handful of hand-written protocol state machines. This Dafny project models them and
proves what they promise over whole runs: every loss, duplication, reordering,
interleaving, clock reading and random draw the environment can produce.

`dafny verify dfyconfig.toml` checks everything.

| file | models |
|---|---|
| `Bytes.dfy`, `NetIP.dfy` | fixed-width integers, big-endian encodings, Go's `net.IP` |
| `UdpCodec.dfy` | UDP fragment frames, one encoder step, one decoder step, the decoder invariant |
| `UdpEndpoints.dfy` | the mutable encoder and decoder, taking exactly those steps |
| `UdpIntegrity.dfy`, `UdpCounting.dfy`, `UdpCompleteness.dfy` | whole runs: what comes out, how often, and when it must |
| `UdpClient.dfy`, `UdpRelay.dfy` | the client's packet connection; the association end to end, and what may come out of it |
| `UdpDelivery.dfy`, `UdpSurvival.dfy` | what must come out of an association; how long a session lasts |
| `ReplayCache.dfy`, `Auth.dfy` | the replay cache; canonical input, Sign, Validate, no replay |
| `PadStream.dfy`, `PadConn.dfy`, `PadLink.dfy` | padding frames and reader; the connection; runs of writer, wire and reader |
| `Target.dfy` | target requests, SOCKS requests, and the chain through the padding stream |
| `Limiter.dfy`, `Admission.dfy` | token buckets and their eviction; the limiter with its semaphore |
| `Slots.dfy`, `Server.dfy` | slots under all interleavings; the request gate |

Conventions. Objects that the source updates in place are classes, proved to take the
steps of value-level functions; runs are sequences of states and events related by those
steps. A method body that runs under a lock is one step. Clock readings are integers in
nanoseconds and parameters of each call, since the source reads the clock before it takes
the lock: they may come in any order unless a lemma says otherwise. They are readings of
Go's monotonic clock, which is what comparing two `time.Now` values uses; only a token's
timestamp is compared with the wall clock, so a request to `Auth` carries both. Go's map iteration
order is a free choice (a victim among the oldest, an order of keys). Random draws are
arbitrary within their bounds. HMAC, `strings` trimming and case folding, and the
`Bearer` base64url text are arbitrary functions; of HMAC only the output length is
assumed, of the text only that decoding undoes encoding.

What the proofs found:

- `evictOldestIP` uses the empty string as its "none yet" mark, so an entry for the empty
  remote address can make it evict a younger entry. `EvictsOldestIff` states exactly when
  the scan is right for every iteration order; `EvictsYounger` shows a failing map.
- The replay guarantee is exact: a second use is accepted if and only if at least
  `capacity` other nonces were accepted in between, or an attempt that reached the cache
  since was a whole window later (`ReplayIff`, `TokenReplayIff`). A reading taken late can
  make the cache forget early (`ClockJumpForgets`), and so can a wall clock stepped back:
  the skew check uses the wall clock and the cache the monotonic one, so the same request
  can be accepted twice in a row (`WallStepForgets`).
- A UDP session can be ended from outside. Nothing bounds the configured packet limit from
  above, and a reply from the target that passes the limit but needs more than 64
  fragments ends the session (`LongReplyEnds`); so does a client packet over the server's
  limit. `SurvivesIff` states exactly when no run can do so.
- A CONNECT's nonce is used up even when the request is then turned away for lack of a
  slot, because `ServeHTTP` validates before it limits.
- An address whose IP has no form of the size its type says (nil, malformed, or an IPv6
  address under the IPv4 type) is written without complaint and without its IP; the reader
  takes the port and the bytes that follow for the address (`MalformedIsMisread`). Every
  other address that is written reads back as the same target, an IPv4 address in 16-byte
  form included; `RoundTripIffWellFormed` states exactly which survive.
- The comment at `internal/padstream/padstream.go:156-161` speaks of keep-alives whenever
  the reader is idle, but the guard on line 162 also tests two length fields that are not
  reset after a payload. The model follows the code and claims nothing about how often
  keep-alives occur.
- The protocol document at the root of the repository says that expired assemblies are
  rejected. The code drops them silently, and a late fragment opens a new assembly; the
  model follows the code.

## Model

| member | source | states |
|---|---|---|
| `UdpCodec.ParseUndoesToFrame` | internal/quicx/udp_codec.go:65-117 | parsing a frame gives back the fragment it was made from |
| `UdpCodec.FrameLayout` | internal/quicx/udp_codec.go:62-73 | the bytes of a frame by offset: version 2, big-endian sequence, index, count, payload |
| `UdpCodec.ParseIff` | internal/quicx/udp_codec.go:104-117 | exactly which frames the decoder takes, why others are refused, and that a taken frame is the one its fragment makes |
| `UdpCodec.EncodeFailsWith` | internal/quicx/udp_codec.go:39-61 | which error Encode gives and when, with nothing changed |
| `UdpCodec.RejectedIff` | internal/quicx/udp_codec.go:104-159 | exactly when a frame is rejected and why, and that a rejected or returned packet's sequence is forgotten while a duplicate or a malformed frame changes nothing |
| `UdpCodec.DecodeKeepsBooks` | internal/quicx/udp_codec.go:104-159 | for arbitrary bytes, clock readings and evictions, every pending assembly's received and total match its filled parts and stay within bounds, the incomplete-assembly error is unreachable, and a returned packet has 1 to maxPacket bytes |
| `UdpCodec.DecodeKeepsInv` | internal/quicx/udp_codec.go:104-189 | the full decoder invariant, with at most 16 pending assemblies, is kept by every call |
| `UdpCodec.DecodeHonoursLifetime` | internal/quicx/udp_codec.go:118-173 | after any call nothing expired is pending, other assemblies are untouched, an assembly keeps the expiry it got when opened, two seconds ahead, and a multi-fragment packet comes only from an unexpired one |
| `UdpEndpoints.Encoder.constructor` | internal/quicx/udp_codec.go:32-37 | a new encoder starts at sequence 0 with the default limit when none is given |
| `UdpEndpoints.Encoder.Encode` | internal/quicx/udp_codec.go:39-74 | the encoder takes exactly one step of the model and its loop builds exactly the frames of the packet |
| `UdpEndpoints.Decoder.constructor` | internal/quicx/udp_codec.go:91-100 | a new decoder satisfies the invariant with nothing pending |
| `UdpEndpoints.Decoder.PruneExpired` | internal/quicx/udp_codec.go:167-173 | exactly the unexpired assemblies remain, whatever the iteration order |
| `UdpEndpoints.Decoder.EvictOldest` | internal/quicx/udp_codec.go:175-189 | exactly one assembly goes, one with the earliest expiry |
| `UdpEndpoints.Decoder.Decode` | internal/quicx/udp_codec.go:104-159 | the decoder keeps its invariant and takes exactly one step of the model, with a victim the eviction loop chose |
| `UdpEndpoints.Decoder.PlaceFragment` | internal/quicx/udp_codec.go:137-159 | duplicate suppression, size check, storing and completion as the model's Place |
| `UdpEndpoints.Decoder.JoinParts` | internal/quicx/udp_codec.go:150-158 | the reassembly loop concatenates all parts in order, or fails when one is missing |
| `UdpIntegrity.FramesRejoin` | internal/quicx/udp_codec.go:62-73 | the frames of one call carry indices 0 to count-1 in order and payloads of 1000 bytes, but for the last, that concatenate back to the packet |
| `UdpIntegrity.EncoderNumbering` | internal/quicx/udp_codec.go:39-61 | in any run a call succeeds iff its size is acceptable and fewer than 2^32 calls succeeded before, and its sequence is the number of those: strictly increasing, never reused, none consumed by a rejected call |
| `UdpIntegrity.DeliverKeepsInv` | internal/quicx/udp_codec.go:104-159 | one genuine frame: assemblies keep agreeing with the packets sent, only the packet of that sequence can come out, nothing is rejected if the decoder accepts the longest packet the encoder can send |
| `UdpIntegrity.SentAsUnique` | internal/quicx/udp_codec.go:50-61 | a sequence names one Encode call only |
| `UdpIntegrity.Integrity` | internal/quicx/udp_codec.go:39-189 | in every run over a lossy, duplicating, reordering network, a packet Decode returns is exactly the one given to the earlier Encode call that used the frame's sequence; no genuine frame is rejected when the decoder's limit covers the longest packet the encoder can send |
| `UdpCounting.EmissionBound` | internal/quicx/udp_codec.go:104-159 | for arbitrary frames, a packet is returned at most as often as any one of its fragments arrived, counting a stored fragment as not yet spent |
| `UdpCounting.AtMostOnce` | internal/quicx/udp_codec.go:104-159 | without duplication a packet is returned at most once |
| `UdpCompleteness.OtherStep` | internal/quicx/udp_codec.go:121-136 | a call for another sequence leaves the watched assembly alone unless sixteen assemblies at least as young compete |
| `UdpCompleteness.Completeness` | internal/quicx/udp_codec.go:118-189 | while readings stay less than 2,000,000,000 ns after the first fragment's and at most fifteen other assemblies were opened no earlier, Decode returns the packet at exactly the call that brings the last missing fragment, in any order and among arbitrary other frames |
| `UdpCompleteness.AnyOrder` | internal/quicx/udp_codec.go:39-159 | Encode and Decode are inverse on a fresh decoder, for the frames in any order with any repetitions |
| `UdpClient.UdpConn.constructor` | internal/quicx/udp_client.go:43-59 | encoder and decoder share the connection's limit |
| `UdpClient.UdpConn.WriteTo` | internal/quicx/udp_client.go:87-114 | success iff the size is right, the encoder succeeds and every frame is sent; which frames were sent in every case |
| `UdpClient.UdpConn.ReadFrom` | internal/quicx/udp_client.go:61-85 | the call consumes datagrams up to the first that yields a packet or an error, and copies what fits of that packet |
| `UdpRelay.AnswerForwardsIff` | internal/quicx/udp.go:89-116 | a datagram is fragmented towards the client iff it comes from the target, is non-empty, within the limit and encodable; a longer one is dropped, never cut |
| `UdpRelay.RelayIntegrity` | internal/quicx/udp.go:67-116 | in every run, packets written to the target were given to WriteTo; packets read into a large enough buffer are whole datagrams from the target itself; when the server accepts all the client can encode, the worker feeding the target never stops first |
| `UdpRelay.SourceMatchesIff` | internal/quicx/udp.go:145-154 | a source is the target's iff ports agree and the addresses have the same 16-byte form |
| `UdpDelivery.HandsOverAll` | internal/quicx/udp.go:67-116 | in every run, the packets written to the target are exactly those the server's decoder returned while its worker ran, in order, and those read by the client exactly those its decoder returned, cut to the buffers |
| `UdpDelivery.WrittenReachesTarget` | internal/quicx/udp.go:67-88 | a packet given to WriteTo, within the server's limit, is written to the target at the very event that brings its last missing fragment, if they come in time; no earlier frame of it makes anything come out |
| `UdpDelivery.AnswerReachesReader` | internal/quicx/udp_client.go:61-85 | an answer of the target within both limits is read at the very event that brings its last missing fragment, cut only to the buffer |
| `UdpSurvival.AnswerEndsIff` | internal/quicx/udp.go:89-116 | an answer ends the reply worker iff it comes from the target, is within the limit, and needs more than 64 fragments or finds the sequences used up |
| `UdpSurvival.LongReplyEnds` | internal/quicx/udp.go:89-135 | a first reply of more than 64000 bytes that the limit lets through ends the session |
| `UdpSurvival.ExhaustionEnds` | internal/quicx/udp.go:89-135 | the answer after 2^32 answers ends the session |
| `UdpSurvival.LongPacketEnds` | internal/quicx/udp.go:67-135 | a client packet one byte over the server's limit, delivered in order, ends the session |
| `UdpSurvival.SurvivesIff` | internal/quicx/udp.go:55-142 | no run of at most n events ends the session iff the server's limit covers all the client can encode, is at most 64000, and n is at most 2^32; either worker's exit ends it |
| `UdpSurvival.TeardownIsFinal` | internal/quicx/udp.go:55-142 | once the main loop has returned nothing more is written to the target or sent to the client |
| `NetIP.EqualIsSame16` | internal/quicx/udp.go:153 | the IP comparison is equality of 16-byte forms |
| `NetIP.EqualIsSame4` | internal/chimera/chimera.go:113 | on IPv4 addresses in either form it is equality of the 4-byte forms the writer sends |
| `NetIP.To4Iff` | internal/chimera/chimera.go:113 | which byte strings are IPv4 addresses: 4 bytes, or 16 that begin with ten zeros and two 255s |
| `ReplayCache.Cache.constructor` | internal/quicx/auth.go:198-205 | an empty cache whose map and list agree |
| `ReplayCache.Cache.RemoveFront` | internal/quicx/auth.go:239-246 | map and list lose the same entry |
| `ReplayCache.Cache.PruneExpired` | internal/quicx/auth.go:229-237 | entries go from the front up to the first unexpired one |
| `ReplayCache.Cache.Evict` | internal/quicx/auth.go:215-217 | the eviction loop ends, because the front is never nil when it runs, and keeps the newest capacity-1 entries |
| `ReplayCache.Cache.Add` | internal/quicx/auth.go:207-221 | Add keeps map and list in agreement, without duplicates and within capacity, and takes exactly one step of the list model |
| `ReplayCache.StillCachedIff` | internal/quicx/auth.go:207-237 | after pruning a nonce is found iff it is held by an entry that has not expired or stands behind one that has not |
| `ReplayCache.CacheIsRecentSuffix` | internal/quicx/auth.go:190-246 | after any run the list is a contiguous most-recent suffix of everything accepted, no longer than the capacity and without duplicates |
| `ReplayCache.NoReplay` | internal/quicx/auth.go:207-246 | within the window of every attempt that reaches the cache, a nonce is accepted again iff at least capacity others were accepted since, the first capacity of them pairwise different and different from it |
| `ReplayCache.ReplayIff` | internal/quicx/auth.go:207-246 | when nothing before reached the cache with a later reading, a nonce is accepted again iff capacity others were accepted since or an attempt that reached the cache since was a window later |
| `ReplayCache.ForgottenAfterWindow` | internal/quicx/auth.go:229-237 | with readings that never go back, a nonce is accepted again once its window has passed |
| `ReplayCache.ClockJumpForgets` | internal/quicx/auth.go:229-237 | a reading that reaches the end of the window makes the cache forget early: the clock condition cannot be dropped |
| `Auth.CanonicalAuthInput` | internal/quicx/auth.go:162-183 | the buffer loop writes the canonical input, or fails on a wrong nonce length or a long field |
| `Auth.CanonicalLayout` | internal/quicx/auth.go:162-183 | the canonical input by offset: version 5, timestamp, nonce, then method, authority and server name in this order behind their big-endian sizes |
| `Auth.CanonicalInjective` | internal/quicx/auth.go:162-183 | equal canonical inputs have equal timestamp, nonce, method, authority and server name, through the int64/uint64 conversion |
| `Auth.Authenticator.constructor` | internal/quicx/auth.go:76-81 | the replay window is twice the skew plus one second |
| `Auth.Authenticator.New` | internal/quicx/auth.go:59-82 | exactly which configurations are refused |
| `Auth.Authenticator.Sign` | internal/quicx/auth.go:84-109 | the header carries the model's token, or signing fails |
| `Auth.Authenticator.Validate` | internal/quicx/auth.go:111-147 | accepts iff the request passes all checks and the cache does not hold the nonce any more; one step of the cache model; a parse, skew, field or MAC failure changes nothing |
| `Auth.AdmitIff` | internal/quicx/auth.go:111-142 | exactly which requests pass the checks before the cache: 57 bytes of version 5, a timestamp within maxSkew of the wall clock on either side, fields neither empty nor too long once trimmed and folded, the MAC of a listed key |
| `Auth.AcceptedIff` | internal/quicx/auth.go:111-147 | the cache's part of the decision in terms of what it holds |
| `Auth.TokenLayout` | internal/quicx/auth.go:94-108 | a signed token by offset: version 5, the second it was issued in, the nonce, the MAC of the canonical input |
| `Auth.SignedIsAdmitted` | internal/quicx/auth.go:84-142 | a signed token passes a validator that has the key iff the second it was issued in began at most maxSkew before or after the wall clock |
| `Auth.PromptIsAdmitted` | internal/quicx/auth.go:84-142 | with a skew of a second or more, a token presented within the skew less a second of its issue, before or after, passes |
| `Auth.SignedIsAccepted` | internal/quicx/auth.go:84-147 | it is accepted iff moreover the cache does not hold its nonce any more |
| `Auth.TokenIsBound` | internal/quicx/auth.go:111-183 | an admitted token fixes the normalised fields it can be used with, or else the two requests exhibit two different inputs with the same MAC under listed keys |
| `Auth.TokenNotReplayed` | internal/quicx/auth.go:76-147 | over whole runs of Validate in which, for requests that reach the cache, the monotonic clock gains less than a second on the wall clock between the two uses, a token is accepted again iff at least capacity other nonces were accepted in between |
| `Auth.TokenReplayIff` | internal/quicx/auth.go:76-147 | on the monotonic clock alone, a token is accepted again iff capacity other nonces were accepted in between or a request that reached the cache since was a window later |
| `Auth.WallStepForgets` | internal/quicx/auth.go:120-146 | with the wall clock stepped back, the same request a window later on the monotonic clock is accepted again at once |
| `PadStream.WireDelivers` | internal/padstream/padstream.go:81-205 | what a reader makes of the wire is exactly what the frames carry |
| `PadStream.FrameLayout` | internal/padstream/padstream.go:104-122 | the bytes of a frame by offset: type, big-endian payload and padding sizes, padding, payload |
| `PadStream.PullConserves` | internal/padstream/padstream.go:170-203 | on any wire, a reader iteration neither loses nor invents a byte and consumes some of the wire |
| `PadStream.StarvedOwesNothing` | internal/padstream/padstream.go:170-203 | a raw read can fail only when nothing is left to return |
| `PadConn.Conn.constructor` | internal/padstream/padstream.go:71-79 | policy defaults and initial state |
| `PadConn.Conn.NextFrame` | internal/padstream/padstream.go:92-103 | type and padding of the next data frame obey the discipline |
| `PadConn.Conn.SendFrame` | internal/padstream/padstream.go:104-122 | header, padding, payload in order, stopping at the first error, with the payload bytes counted |
| `PadConn.Conn.Write` | internal/padstream/padstream.go:81-128 | the bytes go out as disciplined data frames that carry exactly them, all but the last with 65535 bytes; on a raw error, the front of such frames, with the count of payload bytes among it |
| `PadConn.Conn.MaybeKeepAlive` | internal/padstream/padstream.go:131-152 | nothing or one padding-only frame, never before the first data frame; none at a chance of zero, one at a chance of 100 |
| `PadConn.Conn.Advance` | internal/padstream/padstream.go:170-203 | one loop iteration is one Pull of the reader model |
| `PadConn.Conn.Read` | internal/padstream/padstream.go:154-205 | on any incoming bytes, Read returns the front of what is owed and keeps the rest owed, fails only when nothing is owed, terminates, and makes progress with a non-empty buffer; keep-alives on the way obey the discipline and come for certain at a chance of 100 when idle |
| `PadLink.RoundTrip` | internal/padstream/padstream.go:81-205 | in every run the bytes returned are a prefix of the bytes written, all of them once drained, and until then the reader can go on |
| `PadLink.WriteIsRun` | internal/padstream/padstream.go:81-128 | the frames of any Write call are steps of the run model and put exactly their bytes on the wire |
| `PadLink.WriterDiscipline` | internal/padstream/padstream.go:71-152 | in every run, first frame data, padding-only iff no payload, types and padding bounds of early and later data frames |
| `Target.ReadUndoesWrite` | internal/chimera/chimera.go:108-194 | for every well-formed address, IPs in either form, and whatever follows, reading a written request gives the command and the same target and leaves exactly the following bytes |
| `Target.MalformedIsMisread` | internal/chimera/chimera.go:108-194 | what the reader makes of an address whose IP has no form of its type's size: another address, made of the port and 4 or 16 following bytes |
| `Target.RoundTripIffWellFormed` | internal/chimera/chimera.go:108-194 | whatever follows, an address is written and read back as the same target with the rest left over iff it is well-formed |
| `Target.SameTargetIffSameBytes` | internal/chimera/chimera.go:108-185 | two well-formed addresses name the same target iff their requests are the same bytes |
| `Target.PrefixFree` | internal/chimera/chimera.go:180-194 | requests with a common extension have the same command, target and bytes: none is the start of another |
| `Target.SocksAcceptedIff` | cmd/chimera-client/main.go:329-376 | what the SOCKS reader makes of any bytes, by offset, and exactly which requests it accepts |
| `Target.TargetAcceptedIff` | internal/chimera/chimera.go:137-194 | the same for target requests |
| `Target.SocksRelayed` | cmd/chimera-client/main.go:329-376 | for an accepted SOCKS CONNECT request the tunnel gets the command byte and the request from its ATYP byte on; only an empty domain is refused |
| `Target.ReadExactly` | internal/chimera/chimera.go:137-148 | a full read over the padding stream takes exactly the next bytes owed |
| `Target.ReadIP` | internal/chimera/chimera.go:144-149 | reading an IP address and port over the padding stream |
| `Target.ReadDomain` | internal/chimera/chimera.go:150-162 | reading a domain and port, refusing an empty domain |
| `Target.ReadTargetConnect` | internal/chimera/chimera.go:187-194 | the reader parses what the connection owes, whatever the framing, and leaves the rest owed |
| `Target.WriteTargetConnect` | internal/chimera/chimera.go:180-185 | two writes that carry exactly the request; a refused address leaves the command byte sent |
| `Target.TargetThroughPadding` | internal/chimera/chimera.go:180-194 | a well-formed request sent in any frames is read at the other end as the same target with exactly the rest to come |
| `Limiter.ChargeSpends` | internal/quicx/limiter.go:81-95 | a charge keeps tokens between 0 and burst, never moves the clock back and never creates tokens beyond what elapsed time earns |
| `Limiter.RefillExact` | internal/quicx/limiter.go:81-88 | elapsed time earns tokens in proportion, burst per window, up to the burst |
| `Limiter.ChargeIff` | internal/quicx/limiter.go:81-95 | a call is admitted iff the bucket has a token or the elapsed time has earned what is missing of one |
| `Limiter.FullAfterWindow` | internal/quicx/limiter.go:81-95 | a bucket idle for a whole window is full again |
| `Limiter.ExactBurst` | internal/quicx/limiter.go:78-95 | before its clock moves, a new IP gets exactly its burst |
| `Limiter.EvictsOldestIff` | internal/quicx/limiter.go:106-116 | the scan picks an oldest entry in every iteration order iff the empty address is untracked, alone, or not strictly the oldest |
| `Limiter.EvictsYounger` | internal/quicx/limiter.go:106-116 | a map and an order for which a younger entry is evicted |
| `Limiter.ProbeKeepsInv` | internal/quicx/limiter.go:72-96 | the map stays bounded and every bucket in range |
| `Limiter.ProbeIsLocal` | internal/quicx/limiter.go:72-116 | an untracked IP gets a full bucket and is admitted; an entry goes only to make room in a full map, an oldest one where the scan is right; no other entry changes |
| `Limiter.LastSeenIsLastCall` | internal/quicx/limiter.go:89 | in every run what eviction compares is the reading of the IP's last call |
| `Limiter.TokenBucketBound` | internal/quicx/limiter.go:72-98 | while an IP stays tracked, admissions, the one that opens its entry included, are at most burst + burst*span/window of its updated clock, for readings in any order |
| `Limiter.SpacedNeverRefused` | internal/quicx/limiter.go:72-98 | in every run an IP whose calls are at least window/burst apart is never refused by its bucket, whoever else calls and whatever is evicted |
| `Admission.Admitter.constructor` | internal/quicx/limiter.go:34-55 | defaults and empty state |
| `Admission.Admitter.EvictOldestIP` | internal/quicx/limiter.go:106-116 | the loop is the model's scan over some iteration order |
| `Admission.Admitter.Ensure` | internal/quicx/limiter.go:73-80 | a bucket for the caller, evicting when the map is full |
| `Admission.Admitter.TakeToken` | internal/quicx/limiter.go:81-95 | refill, cap and charge as the model |
| `Admission.Admitter.Spend` | internal/quicx/limiter.go:72-96 | the locked section takes one step of the bucket model |
| `Admission.Admitter.Allow` | internal/quicx/limiter.go:57-98 | refused without effect when full; authenticated calls touch no bucket; a refused probe gives its slot back; the semaphore counts unreleased grants |
| `Admission.Admitter.Release` | internal/quicx/limiter.go:63-66 | a release never blocks and is idempotent |
| `Slots.StepKeepsInv` | internal/quicx/server.go:145-163 | every step of every request keeps the slot accounts |
| `Slots.SlotConservation` | internal/quicx/server.go:145-163 | in every reachable state the semaphore holds exactly the unreleased grants, which are the requests between acquisition and release, UDP slots are exactly the requests inside a session, both within limits, and none is left when all requests are over |
| `Slots.NothingBlocks` | internal/quicx/udp.go:25-142 | no release and no worker's send on its done channel ever waits |
| `Slots.AcquireIff` | internal/quicx/limiter.go:57-70 | a request is turned away iff the semaphore is full, and an authenticated one meets no bucket |
| `Slots.SessionOpens` | internal/quicx/udp.go:25-116 | from any state with room an authenticated UDP request takes both slots and starts both workers |
| `Slots.SessionCloses` | internal/quicx/udp.go:117-142 | whichever worker exits first, the main loop leaves, both slots go back and the other worker's send does not wait |
| `Slots.ReleaseIsIdempotent` | internal/quicx/limiter.go:63-66 | a second release changes nothing |
| `Slots.RefusalGivesBack` | internal/quicx/limiter.go:90-94 | a request refused by its bucket has no net effect on slots |
| `Server.Gate.Authenticate` | internal/quicx/server.go:146 | a request is authentic iff it is a CONNECT whose token passes every check and whose nonce the cache does not hold any more; only a CONNECT reaches the cache |
| `Server.Gate.ServeHTTP` | internal/quicx/server.go:145-164 | a tunnel or UDP session iff there is a slot and the request is authentic, as the request says which; not-found for any other admitted CONNECT, the decoy for any other admitted request; turned away iff the semaphore is full or an unauthentic request's bucket is empty; every slot given back |

## Left out

- UdpClient.UdpConn.WriteTo: deadlines and closing are not modelled; a failing stream is a parameter.
- UdpClient.UdpConn.ReadFrom: deadlines and closing are not modelled; the stream's end is the end of the inbox.
- UdpRelay.RelayIntegrity: errors of the UDP socket and of the request stream, which also end a worker, are not modelled; they only stop a run.
- UdpSurvival.SurvivesIff: only what packets and datagrams can do; socket and stream errors, the idle timer and the end of the request also end a session.
- Limiter.TokenBucketBound: tokens are reals, so float64 rounding is not modelled.
- Auth.Authenticator.Validate: header splitting, the scheme comparison and base64url are one library function; int64 overflow of durations is not modelled.
- PadLink.RoundTrip: raw write errors end a run; what Write leaves behind then is stated by PadConn.Conn.Write.
- PadConn.Conn.Read: a raw read error is final; the bytes that a transient error in the middle of a frame loses are not covered.
- Server.Gate.ServeHTTP: what the chosen handler does, and the interleaving of requests (see Slots), are outside it.
- Pointers held in maps and lists (assemblies, bucket states, list elements) are values here: the source never shares one between entries, so only identity is lost.
- Counters that Go keeps in int (frames sent, received) are unbounded.
- remoteIP, which normalises an address string with library calls: the limiter takes the resulting key.
- The idle timer of a UDP session: it may end a session at any time, since select chooses at random when several cases are ready.
- TLS, REALITY, certificates, pinning and HKDF key derivation: library cryptography.
- HTTP/3 stream handling, dialing, DNS, the decoy, configuration defaults and flag parsing: plumbing or shallow branching.
- The destination guard (internal/chimera/guard.go): one filter pass that would add only easy members.
- Session header and response (internal/chimera/chimera.go:38-88): fixed-layout records that would add only easy members.
