# A verified model of the strero streamer

strero is a camera streamer for Ingenic processors. This project models the parts of it that compute
something, with the Ingenic SDK, the allocator, the clock and the sockets as inputs, and proves what these
parts keep over all inputs and all runs. Code that changes state is modelled by classes, arrays and loops;
each loop is proved against a function, and the lemmas are about these functions and about runs of them.

| file | models |
|---|---|
| `AnnexB.dfy`, `FrameScanner.dfy` | the H.264 byte stream of Annex B as a printer; the parameter scanner and the frame classifier as readers |
| `Outside.dfy`, `HalStream.dfy`, `FrameManager.dfy` | the calls to the encoder and the consumers; packs in the circular encoder buffer, the channel buffers, and the way of a frame to its consumers |
| `OsdText.dfy` | the glyph cache, the sizing pass and the blit, against painter's order |
| `AuthUtils.dfy` | Base64 (section 4 of RFC 4648) and Basic credentials (section 2 of RFC 7617) |
| `Photosensing.dfy`, `Motion.dfy` | the day/night controller and the motion event machine over all runs |
| `Ring.dfy`, `Discovery.dfy` | a ring as a view on a log; the message and client filters of WS-Discovery |
| `HttpRouter.dfy` | the route table as a bounded map, and request lines (section 3 of RFC 9112) |
| `Metrics.dfy` | frame counters, rate windows and the sample history |
| `ModuleSystem.dfy` | the callback order of modules over all runs |

`dafny verify dfyconfig.toml` checks everything. Automatic induction is switched off on every lemma, so each
induction is written out.

## Where the code does not do what one would expect

Each of these is stated with an input that shows it, or as the exact condition under which the expected
behaviour holds.

- An SPS or PPS of a single byte behind a three-byte start code at the very end of a frame is not seen
  (`FrameScanner.RoundTripExactly`).
- An IDR slice behind a three-byte start code is classified as a P frame (`FrameScanner.ShortCodedIdrIsMissed`,
  `FrameScanner.ClassificationExactly`).
- Credentials do not survive the round trip when the user name has a colon or a name is longer than 63 bytes
  (`AuthUtils.CredentialRoundTrip`).
- When some whole ISO reading lies strictly between the night threshold and a higher day threshold, and night
  mode can be left at all, one poll can switch to night and back, and both distances between opposite switches
  can be undercut; in every other valid configuration neither happens (`Photosensing.NoFlappingExactly`,
  `Photosensing.GapFlaps`).
- Night mode can be left again exactly when the night state of the IR cut is zero (or the IR cut is off) and the
  strongest gain of the sensor suffices (`Photosensing.DayReachableIff`).
- A message id is recognised rightly, whatever came before, exactly when it has 1 to 126 bytes. Longer ids are cut
  to 127 bytes: an id of 127 bytes is refused after a longer one with the same beginning, and ids of 128 bytes and
  more are never recognised again (`Discovery.DedupeExactly`, `Discovery.WrongAnswer`).
- The distance of one second between responses to a client holds for all runs exactly up to 20 clients; the 21st
  lets a client be answered twice in the same second (`Discovery.CooldownExactly`,
  `Discovery.OldestClientForgotten`). For the address zero it holds only while there is no other client
  (`Discovery.ZeroAddressExactly`).
- A full route table refuses even a new handler for a route it has (`HttpRouter.OverrideExactly`,
  `HttpRouter.FullTableKeepsOldHandler`).
- Errors never exceed frames after exactly those numbers of frames that are below 2^32 or one less than a multiple
  of it; after any other number a channel can show more errors than frames (`Metrics.ErrorsWithinFramesExactly`,
  `Metrics.ErrorsPassFrames`).

## Model

| member | source | states |
|---|---|---|
| FrameScanner.FindNalEnd | src/frame_manager.c:479-490 | The inner loop finds the first start code it can see, or the end of the frame |
| FrameScanner.FindStartCode | src/frame_manager.c:459-474 | Both start code forms are recognised, the longer one first, and the NAL unit begins behind them |
| FrameScanner.ScanTurn | src/frame_manager.c:457-522 | One turn of the outer loop moves on and leaves the scan unchanged, the jump behind a stored unit included |
| FrameScanner.ExtractStreamParams | src/frame_manager.c:440-524 | The two nested loops with their jumping index end, and compute the recursive scan |
| FrameScanner.DetectFrameType | src/frame_manager.c:541-557 | The classification loop computes the recursive classification, frames under five bytes included |
| FrameScanner.ScanLatches | src/frame_manager.c:446-523 | For every frame of at least four bytes and every outcome of the allocations, `available` says that both sets are stored, stored sets have the right header type, and nothing stored is replaced |
| AnnexB.PrintsStartCodes | src/frame_manager.c:461-474 | The printer writes `00 00 00 01` or `00 00 01` and the bytes of each unit, in order |
| FrameScanner.ScanSerialized | src/frame_manager.c:456-521 | On a printed list of NAL units, for every outcome of the allocations, the scanner keeps of each kind the first visible unit whose allocation succeeds |
| FrameScanner.ExtractSerialized | src/frame_manager.c:440-524 | With successful allocations, what was missing is completed with the first units of the printed list |
| FrameScanner.AnnexBRoundTrip | src/frame_manager.c:456-521 | Annex B round trip: scanning a printed list on a fresh channel stores exactly its first SPS and first PPS |
| FrameScanner.ParametersByHeader | src/frame_manager.c:477-519 | In header bytes: a fresh channel holds the first unit of type 7 as SPS and the first of type 8 as PPS, and is available iff there are both |
| FrameScanner.RoundTripExactly | src/frame_manager.c:456-521 | The round trip holds if and only if the first set of the type is not a single byte behind a short code at the end |
| FrameScanner.DetectSerialized | src/frame_manager.c:546-555 | On a printed list, IDR is answered iff the first slice behind a four-byte start code is an IDR slice |
| FrameScanner.KeyframeIffFirstSliceIsIdr | src/frame_manager.c:541-562 | With four-byte codes only, the frame is a keyframe iff its first slice is an IDR slice, whatever comes before |
| FrameScanner.KeyframeByHeader | src/frame_manager.c:541-562 | In header bytes: the first unit of type 1 or 5 decides, when its start code is long |
| FrameScanner.ClassificationExactly | src/frame_manager.c:541-557 | With mixed codes the first slice decides iff its code is long; else the units behind it do |
| FrameScanner.ShortCodedIdrIsMissed | src/frame_manager.c:546-555 | A concrete IDR frame that is classified as P |
| FrameScanner.ParametersLatch | src/frame_manager.c:446-523 | Over every sequence of frames that the loop bound has a meaning for, and all allocation outcomes, stored sets stay, `available` stays consistent, and other channels are untouched |
| FrameScanner.RunStoresFirst | src/frame_manager.c:446-523 | Over a whole run of printed frames each channel ends with the first SPS and PPS of all it received, across frames |
| HalStream.GatherSplits | src/hal/imp/imp_t31.c:217-225 | Reading `length` bytes modulo the ring size is the one or two straight copies of the code |
| HalStream.CopyRing | src/hal/imp/imp_t31.c:217-225 | The one or two copies write exactly the wrapped bytes and keep those around them |
| HalStream.Stream.CopyPack | src/hal/imp/imp_t31.c:211-227 | The bytes written are `ring[(offset + k) mod size]`, those around them are kept, invalid indices write nothing |
| HalStream.Stream.Get | src/hal/imp/imp_t31.c:168-180 | A stream is held, and the encoder's get logged, exactly when the call succeeds |
| HalStream.Stream.Release | src/hal/imp/imp_t31.c:182-188 | Nothing is held afterwards; the call itself logs whether a held stream was given back or there was nothing to release, which is an error |
| HalStream.AssembledLength | src/frame_manager.c:350-366 | The unrolled packs together are as long as the sum of the pack lengths |
| Common.HasBitIs | src/frame_manager.c:409-431 | `mask & (1 << n)` is not zero iff `mask / 2^n` is odd |
| FrameManager.Manager.RegisterConsumer | src/frame_manager.c:186-211 | A new consumer gets the next id and is active, up to eight; else nothing changes |
| FrameManager.Manager.SetConsumerEnabled | src/frame_manager.c:226-255 | Enabling, disabling and unregistering change one consumer's flag, or nothing for a bad id |
| FrameManager.Manager.GetConsumerCount | src/frame_manager.c:73-88 | For every channel number below 32, the number reported is the number of active consumers whose mask has the bit |
| FrameManager.Manager.Distribute | src/frame_manager.c:407-438 | The callbacks made are exactly the deliveries of the specification, in order |
| FrameManager.DeliveriesExact | src/frame_manager.c:425-435 | A consumer gets the frame exactly once iff it is active and its mask has the bit of the channel, in id order; the number of calls is the reported count |
| FrameManager.CountExact | src/frame_manager.c:73-88 | The reported count is the number of active consumers whose mask has the bit, and zero when none is active |
| FrameManager.CalledExactly | src/frame_manager.c:186-435 | In every run: a registered consumer is called exactly once for a frame iff each disabling since its registration was followed by an enabling and `mask / 2^channel` is odd; otherwise not at all |
| FrameManager.DisabledIsSilent | src/frame_manager.c:226-255 | After disabling or unregistering, and until enabled again, no pass of any run calls the consumer |
| FrameManager.Manager.Reserve | src/frame_manager.c:355-363 | The channel buffer only grows, to the size needed, and stays as it is when the allocation fails |
| FrameManager.Manager.CopyPacks | src/frame_manager.c:365-367 | The first bytes of the channel buffer are the unrolled packs, one after the other, whatever was there before |
| FrameManager.FrameFields | src/frame_manager.c:368-386 | The record of a frame: bytes, channel, number, type, and the time of its first pack as seconds and microseconds |
| FrameManager.Manager.ProcessHeld | src/frame_manager.c:350-404 | On every path from a held stream: nothing is held at the end, and the calls made are those of the specification with one release of that stream |
| FrameManager.Manager.ProcessFrame | src/frame_manager.c:329-405 | On every path the new state and the calls made by the stream API and the consumers are those of one pass of the specification: buffer contents, capacity, number, classification, parameters, callbacks, statistics, and one release for each fetched stream |
| FrameManager.AfterStreamSound | src/frame_manager.c:329-405 | Every pass keeps counters and parameters sound, counts its frame once, makes all callbacks between the get and the release of its stream, and leaves other channels alone |
| FrameManager.BalancedCounts | src/frame_manager.c:344-404 | In a sound trace of calls every fetched stream was released exactly once, except one that is still held |
| FrameManager.NothingReleasedTwice | src/frame_manager.c:344-404 | In a sound trace no call released what was not held |
| FrameManager.RunSound | src/frame_manager.c:186-405 | Over all runs of registrations, changes of consumers and passes: soundness, latched parameters, a trace that only grows, as many releases as gets per channel |
| FrameManager.PrintedFrameDelivered | src/frame_manager.c:346-390 | From ring buffer to consumer: packs that unroll to a printed list are long enough to scan, are delivered as that list, rightly classified, and complete the parameters |
| OsdText.Context.RenderGlyph | src/modules/osd/osd_module.c:713-803 | A drawable character is afterwards cached as a fresh rendering in the current style; other entries are kept |
| OsdText.FreshGlyphIs | src/modules/osd/osd_module.c:713-775 | Which characters can be drawn, and each measure of a cached glyph by its name |
| OsdText.Context.TintRaster | src/modules/osd/osd_module.c:780-799 | The raster becomes BGRA bytes in the text colour, transparent black where alpha is zero |
| OsdText.TintBytes | src/modules/osd/osd_module.c:782-797 | Byte order of a tinted pixel: blue, green, red of the text colour and the alpha, or zeros |
| OsdText.Context.PrecalculateFontMetrics | src/modules/osd/osd_module.c:539-587 | The text height is that of the tallest cached glyph and covers the reference characters; the deepest descender is the lowest offset of a glyph with pixels |
| OsdText.VisibleExactly | src/modules/osd/osd_module.c:560-563 | A cached glyph counts for the font measures iff it has a width or a height |
| OsdText.Context.ReloadFontIfChanged | src/modules/osd/osd_module.c:1169-1205 | After a change of size every cache entry equals a fresh rendering at the new size; without one nothing changes |
| OsdText.Context.SumAdvances | src/modules/osd/osd_module.c:840-850 | The loop shared by sizing and drawing computes the sum of the advances of the drawable characters |
| OsdText.Context.CalculateTextSize | src/modules/osd/osd_module.c:805-872 | The size is advance sum and text height plus padding, the width rounded up to even |
| OsdText.WidthIsTight | src/modules/osd/osd_module.c:844-850 | The width is the least even number with 8 pixels free on both sides |
| OsdText.LayoutAt | src/modules/osd/osd_module.c:922-980 | Glyph `k` stands at the start pen plus the advances of the drawable characters before it |
| OsdText.PenStaysInside | src/modules/osd/osd_module.c:840-918 | In a bitmap sized for the text every pen position lies between the paddings, for both alignments |
| OsdText.BaselineFits | src/modules/osd/osd_module.c:919-924 | Top-aligned text stands on the first line that the ascender fits above, bottom-aligned text on the last one that the descender fits below |
| OsdText.TextKeepsItsEdge | src/modules/osd/osd_module.c:913-917 | Left-aligned text begins 8 pixels from the left edge, right-aligned text ends 8 pixels from the right edge |
| OsdText.DrawGlyph | src/modules/osd/osd_module.c:942-978 | The nested loops paint one glyph, clipped to the image, and touch nothing else |
| OsdText.CoversBytes | src/modules/osd/osd_module.c:957-973 | Which bytes of a glyph decide whether it covers a pixel, and what is seen there |
| OsdText.PixelBytes | src/modules/osd/osd_module.c:968-973 | Which four bytes of the image are a pixel |
| OsdText.PaintedOverStep | src/modules/osd/osd_module.c:922-980 | Painting one more glyph over an image is painting the longer list |
| OsdText.Context.DrawText | src/modules/osd/osd_module.c:874-984 | Every pixel is what painting the laid out glyphs in text order leaves; bytes behind the image are untouched |
| OsdText.LastCoveringIsSeen | src/modules/osd/osd_module.c:955-977 | The pixel seen is that of the last glyph in text order that covers it with non-zero alpha |
| OsdText.GroundIsSeen | src/modules/osd/osd_module.c:955-977 | A pixel that no glyph covers keeps its old value |
| OsdText.Context.CreateTextBitmap | src/modules/osd/osd_module.c:481-537 | For every font, the bitmap has the computed size and shows the text painted over the background; it is missing exactly when metrics or memory are |
| OsdText.BackgroundPixel | src/modules/osd/osd_module.c:511-525 | Every pixel of the fill has the background colour, or is transparent |
| OsdText.ParsePosition | src/modules/osd/osd_module.c:67-115 | Both coordinates are aligned and pushed into the picture independently, from 20 when the string has none |
| OsdText.PositionInside | src/modules/osd/osd_module.c:67-115 | The placed bitmap lies inside the picture iff it is not larger; a negative position is the distance from the far edge |
| OsdText.PositionExactly | src/modules/osd/osd_module.c:88-115 | A position that fits is kept; what would stick out is moved to the edge that it crosses |
| AuthUtils.Base64Encode | src/auth_utils.c:108-135 | The shift and mask loop writes the encoding and its terminator and no more; a negative length is an error |
| AuthUtils.Base64Decode | src/auth_utils.c:138-171 | The table lookup loop writes the decoding; a length that is no multiple of four is an error |
| AuthUtils.AlphabetShape | src/auth_utils.c:19 | The table is the alphabet of RFC 4648 in order |
| AuthUtils.EncodedBits | src/auth_utils.c:118-129 | Character `i` of an encoding has the code point of the number that the bits from `6 * i` on form, or is padding behind the last bit |
| AuthUtils.SextetIs | src/auth_utils.c:155-158 | The value of a character by its code point, and which characters the table has |
| AuthUtils.DecodedGroupBits | src/auth_utils.c:155-164 | The bytes of any four characters are the bits of their four values, without those that padding takes away |
| AuthUtils.DecodeConcat | src/auth_utils.c:154-165 | Groups are decoded one after the other |
| AuthUtils.DecodeOfEncode | src/auth_utils.c:108-171 | Decoding undoes encoding for every byte string, and the encoding has 4 * ceil(n / 3) characters |
| AuthUtils.EncodeIsCanonical | src/auth_utils.c:108-135 | The encoder writes canonical strings only |
| AuthUtils.EncodeOfDecode | src/auth_utils.c:108-171 | Encoding undoes decoding if and only if the string is canonical |
| AuthUtils.ParseBasicHeader | src/auth_utils.c:173-213 | The in-place parser leaves exactly the parsed names in the buffers, or fails and leaves them alone |
| AuthUtils.ParsedNames | src/auth_utils.c:187-212 | The names that any header says: around the first colon of its text, each cut to 63 bytes |
| AuthUtils.ParseRefuses | src/auth_utils.c:173-204 | Exactly which headers are refused |
| AuthUtils.KnownHeader | src/auth_utils.c:108-213 | The header `Basic YXBhOnB3` is written for and read as user `apa` and password `pw` |
| AuthUtils.EncodeBasicCredentials | src/auth_utils.c:247-259 | The output is the encoding of `user:password`, cut to the buffer |
| AuthUtils.CredentialsText | src/auth_utils.c:247-259 | What is encoded for two names: both with a colon between them, cut to 127 bytes |
| AuthUtils.ValidateBasic | src/auth_utils.c:216-244 | Success iff header and configuration are there and the header parses to the configured pair; each error has its cause |
| AuthUtils.CredentialRoundTrip | src/auth_utils.c:173-259 | Parsing what was printed gives the names back iff the user name has no colon and both have at most 63 bytes |
| AuthUtils.PrintedHeaderAccepted | src/auth_utils.c:216-259 | A printed header is accepted iff it was printed for the configured pair |
| Photosensing.Controller.SampleGains | src/modules/photosensing/photosensing_module.c:592-609 | The gain records are the minima of the 20 samples |
| Photosensing.Controller.Poll | src/modules/photosensing/photosensing_module.c:539-649 | One turn of the control loop is one step of the specification, with what the statistics show; without an answer of the ISP the loop ends unchanged |
| Photosensing.RunBegins | src/modules/photosensing/photosensing_module.c:129-143 | The state that every run begins with |
| Photosensing.SwitchAccounting | src/modules/photosensing/photosensing_module.c:567-649 | In every reachable state switches add up, night is one ahead exactly in night mode, and the IR cut flag belongs to the mode |
| Photosensing.IrcutFollowsMode | src/modules/photosensing/photosensing_module.c:136-143 | With the usual IR cut states the flag is set iff the mode is night |
| Photosensing.CountersAreStreaks | src/modules/photosensing/photosensing_module.c:568-649 | Both counters are exactly the lengths of the current qualifying runs |
| Photosensing.NightStreakExact | src/modules/photosensing/photosensing_module.c:568-613 | The streak is a run of night readings that cannot be longer |
| Photosensing.DayStreakExact | src/modules/photosensing/photosensing_module.c:616-627 | The day streak is the longest run of polls that are bright, with an open IR cut, a gain above the record by the offset, and very bright or with a high gain |
| Photosensing.SwitchesExactly | src/modules/photosensing/photosensing_module.c:567-649 | Exactly when a poll switches to night and when to day, from the readings and the mode before it, and the mode after it |
| Photosensing.RecordsExactly | src/modules/photosensing/photosensing_module.c:590-609 | The records are the least gains of the samples of the last poll that confirmed night |
| Photosensing.NoFlapping | src/modules/photosensing/photosensing_module.c:567-649 | In a calm configuration a poll switches at most once, and opposite switches keep their configured distance |
| Photosensing.GapFlaps | src/modules/photosensing/photosensing_module.c:462-649 | For every valid configuration that is not calm, a run that breaks all three rules |
| Photosensing.NoFlappingExactly | src/modules/photosensing/photosensing_module.c:567-649 | Each of the three rules holds over all runs if and only if no ISO reading is night and day at once, or night mode is final |
| Photosensing.DayReachableIff | src/modules/photosensing/photosensing_module.c:616-649 | With gains in a range, night mode can be left by some run iff the night state of the IR cut does not shut the day branch and the strongest gain passes it |
| Motion.CountRegions | src/modules/motion/motion_module.c:139-146 | The number of regions is that of the include zones, up to the SDK's limit |
| Motion.IncludedCount | src/modules/motion/motion_module.c:139-146 | There are as many regions as include zones, up to the limit |
| Motion.IncludedAt | src/modules/motion/motion_module.c:148-170 | Each include zone has the region behind those of the include zones before it |
| Motion.SetupRegions | src/modules/motion/motion_module.c:148-170 | Region `k` has the corners of the `k`-th include zone and the configured sensitivity; other regions are left alone |
| Motion.MotionInAnyRoi | src/modules/motion/motion_module.c:290-305 | Motion is reported iff a region set up for a zone is flagged |
| Motion.Detector.ProcessResult | src/modules/motion/motion_module.c:281-358 | One result is one step of the event machine, with the script calls it makes |
| Motion.NextCallExactly | src/modules/motion/motion_module.c:309-354 | Exactly which script call each result makes: a start for motion outside the cooldown while no event is open, a stop for no motion once an open event has lasted the minimum time |
| Motion.AcceptedRule | src/modules/motion/motion_module.c:311-316 | A motion result is accepted iff no accepted one before it lies within the cooldown |
| Motion.ElapsedIs | src/modules/motion/motion_module.c:314-341 | Differences of times, before and after the 32-bit clock wraps around |
| Motion.MotionRuns | src/modules/motion/motion_module.c:309-354 | Over every run: calls are `(start stop)* start?`, starts equal events, stops and starts keep their distances |
| Motion.EventsWithoutScript | src/modules/motion/motion_module.c:309-354 | Events are counted by the same rule with and without a script |
| Motion.EventRate | src/modules/motion/motion_module.c:311-316 | At most 1 + span / cooldown events start within a span |
| Motion.NoScriptNoCalls | src/modules/motion/motion_module.c:309-354 | Without a script nothing is called |
| Ring.SlotIsRemainder | src/modules/onvif/onvif_discovery.c:155 | The write index is the number of entries modulo the size |
| Ring.Append | src/modules/onvif/onvif_discovery.c:152-155 | Writing the next slot keeps the ring equal to the end of the log |
| Discovery.RecentMessages.SlotMatches | src/modules/onvif/onvif_discovery.c:141-149 | Some slot matches iff the log of accepted messages refuses the id, unused slots included |
| Discovery.RecentMessages.IsDuplicateMessage | src/modules/onvif/onvif_discovery.c:134-158 | For every id, the ring answers as the log of accepted messages would, and accepts what is not refused |
| Discovery.AcceptedApart | src/modules/onvif/onvif_discovery.c:134-158 | No id is accepted twice within 5 seconds with fewer than 20 acceptances in between |
| Discovery.UnexpiredDistinct | src/modules/onvif/onvif_discovery.c:141-155 | Unexpired entries of the ring have different ids |
| Discovery.FittingIdsExact | src/modules/onvif/onvif_discovery.c:134-158 | While all accepted ids fit, an id is refused iff one of the last 20 accepted ids equals it with age below 5 seconds |
| Discovery.EmptyIdExact | src/modules/onvif/onvif_discovery.c:141-149 | What the empty id meets: accepted empty ids and slots that were never used |
| Discovery.DedupeExactly | src/modules/onvif/onvif_discovery.c:134-158 | The ring answers for an id as the full ids would, after every log, iff the id has 1 to 126 bytes |
| Discovery.WrongAnswer | src/modules/onvif/onvif_discovery.c:152-153 | For every other id, a reachable log after which the answer is wrong |
| Discovery.LongIdsNeverDuplicate | src/modules/onvif/onvif_discovery.c:152-153 | Ids that do not fit their slot are never duplicates |
| Discovery.ClientCooldown.IsClientInCooldown | src/modules/onvif/onvif_discovery.c:165-196 | For every address, zero included, the arrays answer as the insertion log would, with different clients in it and eviction in insertion order |
| Discovery.HandleProbe | src/modules/onvif/onvif_discovery.c:300-345 | A response is sent iff both filters pass and the configuration is there; what each filter remembers on every path |
| Discovery.FewClientsFit | src/modules/onvif/onvif_discovery.c:186-191 | With at most 20 clients none is ever evicted |
| Discovery.EarlyAnswerExactly | src/modules/onvif/onvif_discovery.c:165-196 | A client inside its cooldown is answered iff more than 20 entries begin with its last one |
| Discovery.CooldownHolds | src/modules/onvif/onvif_discovery.c:165-196 | In runs with at most 20 clients, two answers to the same client are at least a second apart |
| Discovery.CooldownExactly | src/modules/onvif/onvif_discovery.c:165-196 | All runs with at most n clients keep the distance for a client iff n is at most 20 |
| Discovery.AnsweredExactly | src/modules/onvif/onvif_discovery.c:165-196 | With at most 20 clients, a client is answered iff its last answer is not less than a second ago |
| Discovery.SilenceHasReason | src/modules/onvif/onvif_discovery.c:179-196 | In every run, a request is ignored only within a second after an answer to the same client, or from the address zero in the first second of the clock |
| Discovery.EarlyAnswerMeansEvicted | src/modules/onvif/onvif_discovery.c:165-196 | In every run, a client that asks again within a second is answered iff its last entry has been evicted |
| Discovery.OldestClientForgotten | src/modules/onvif/onvif_discovery.c:186-194 | A run with 21 clients, from the empty cache, that answers the first of them twice in the same second |
| Discovery.ZeroAddressExactly | src/modules/onvif/onvif_discovery.c:170-194 | For the address zero the distance is kept iff there is no other client |
| HttpRouter.Router.RegisterRoute | src/modules/http/http_router.c:55-104 | On every path: the answer and the whole table afterwards |
| HttpRouter.AcceptedExactly | src/modules/http/http_router.c:59-102 | Exactly which registrations are accepted, and each field of the route that they leave |
| HttpRouter.Router.RegisterRoutes | src/modules/http/http_router.c:106-129 | A list is registered up to the first refused entry |
| HttpRouter.Router.Dispatch | src/modules/http/http_router.c:166-204 | The handler of the requested key is called exactly once with the request, or nothing is called |
| HttpRouter.ExtractPath | src/modules/http/http_router.c:142-164 | The buffer holds the path as a C string, or is left alone on failure |
| HttpRouter.MethodsByName | src/modules/http/http_router.c:132-139 | The four methods by their names |
| HttpRouter.PlainGet | src/modules/http/http_router.c:142-181 | In plain text: the path of a GET request with and without a query, and the limit of 255 characters |
| HttpRouter.PutUpdates | src/modules/http/http_router.c:82-102 | Registering is the update of one key of the table, and keys stay unique |
| HttpRouter.OverrideInPlace | src/modules/http/http_router.c:82-99 | An override moves no route; a new key goes to the end |
| HttpRouter.RouterRefinesMap | src/modules/http/http_router.c:34-104 | Over every run the table has unique keys, at most 128, and is the bounded map that the run describes |
| HttpRouter.LatestHandlerWins | src/modules/http/http_router.c:55-204 | A request is answered by the handler last accepted for its key |
| HttpRouter.UnregisteredIsUnmapped | src/modules/http/http_router.c:166-204 | A key that was never accepted has no handler |
| HttpRouter.OverrideExactly | src/modules/http/http_router.c:70-92 | An override takes effect iff the table is not full or nothing was to change |
| HttpRouter.FullTableKeepsOldHandler | src/modules/http/http_router.c:70-73 | A run that fills the table, and an override that is refused |
| HttpRouter.BatchIsRun | src/modules/http/http_router.c:106-129 | A batch equals the run of its entries before the first refused one |
| HttpRouter.PrintedTarget | src/modules/http/http_router.c:132-164 | A request line printed from method, path and query is read back as method and path |
| HttpRouter.TargetExactly | src/modules/http/http_router.c:132-181 | A request is read as a key iff it is a request line for that key with a target under 256 characters |
| Metrics.MetricsModule.InitStreamStats | src/modules/metrics/metrics_module.c:643-659 | The first use zeroes all channels and starts their clocks; later uses do nothing |
| Metrics.MetricsModule.UpdateStreamFrame | src/modules/metrics/metrics_module.c:662-745 | The whole new state for every channel number, the sample shown when a window closes, and its copy for status.json when that lock is free |
| Metrics.UpdatedExactly | src/modules/metrics/metrics_module.c:662-670 | A call opens the statistics, changes one channel and leaves the others alone; when off or for no channel it does nothing |
| Metrics.MetricsModule.Collect | src/modules/metrics/metrics_module.c:498-523 | Every history row holds exactly the last samples of its channel, at the index that counts collections modulo the size |
| Metrics.CollectedExactly | src/modules/metrics/metrics_module.c:747-797 | What a collection records for each channel, before and after the first frame |
| Metrics.TotalsCountFrames | src/modules/metrics/metrics_module.c:674-680 | The totals are the frames, the errors and the good bytes of the run modulo 2^32 |
| Metrics.GoodBytesStep | src/modules/metrics/metrics_module.c:675-680 | The good bytes are the sizes of the frames without error |
| Metrics.FramesFallIntoWindows | src/modules/metrics/metrics_module.c:682-715 | Over every run the frames fall into consecutive windows and a pending rest, with the counters as their lengths |
| Metrics.WindowsAreFair | src/modules/metrics/metrics_module.c:692-715 | A published window lasts 1 to 10 seconds and rate times length is its count; frames are discarded only when the clock jumped |
| Metrics.NextWindowExactly | src/modules/metrics/metrics_module.c:682-710 | Exactly what the next frame does: discard behind a jump or a pause above ten seconds, publish from one second on, wait before |
| Metrics.SampleShows | src/modules/metrics/metrics_module.c:715-766 | Which number each field of a sample, and of its copy for status.json, shows after a run |
| Metrics.Conservation | src/modules/metrics/metrics_module.c:674-710 | Frame count = published + discarded + pending, and errors do not exceed frames below 2^32 frames |
| Metrics.SteadyStreamDiscardsNothing | src/modules/metrics/metrics_module.c:692-700 | With a forward clock and no pause above nine seconds nothing is discarded |
| Metrics.ErrorsPassFrames | src/modules/metrics/metrics_module.c:674-676 | For every number of frames outside the exact set, a run that shows more errors than frames |
| Metrics.ErrorsWithinFramesExactly | src/modules/metrics/metrics_module.c:674-676 | After every run of n frames errors do not exceed frames iff n is below 2^32 or one less than a multiple of 2^32 |
| ModuleSystem.Registry.RegisterModule | src/module_system.c:69-107 | The answer and the registry afterwards, for a full registry, a taken name and a new one |
| ModuleSystem.RegisteredExactly | src/module_system.c:83-100 | A module is registered iff there are fewer than 16 and none has its name |
| ModuleSystem.Registry.InitAll | src/module_system.c:109-168 | The pass over all modules, and an answer that is zero iff no init failed |
| ModuleSystem.Registry.StartAll | src/module_system.c:170-209 | The pass over all modules, and an answer that is zero iff no start failed |
| ModuleSystem.Registry.StopAll | src/module_system.c:211-232 | The backward pass over the running modules |
| ModuleSystem.Registry.CleanupAll | src/module_system.c:234-257 | The backward pass over all modules with the cleanup callbacks that are set; the registry is empty afterwards |
| ModuleSystem.InitPassExactly | src/module_system.c:116-163 | An init pass calls every init function that is due, once and in order, and sets each state by the answer |
| ModuleSystem.StartPassExactly | src/module_system.c:177-203 | A start pass starts every initialised module, once and in order; passive modules run without a call |
| ModuleSystem.StopPassExactly | src/module_system.c:215-229 | A stop pass stops every running module, once and in reverse order, with a call where there is a function |
| ModuleSystem.CleanupPassExactly | src/module_system.c:238-249 | A cleanup pass cleans up every module, once and in reverse order, with a call where there is a function |
| ModuleSystem.AnswersExactly | src/module_system.c:167-208 | The answer of a pass is zero iff every function that was called succeeded |
| ModuleSystem.Lifecycle | src/module_system.c:69-257 | Over every interleaving and all callback results: at most 16 modules with unique names, no callback out of order, states that agree with the callbacks, and registry order equal to starting order |
| ModuleSystem.StopsReverseStarts | src/module_system.c:211-232 | After any run, stopping visits the running modules in exact reverse starting order and does nothing else |
| ModuleSystem.InitOncePerRegistration | src/module_system.c:119-163 | Between two inits of a module there is a registration of it |
| ModuleSystem.FailedIsLeftAlone | src/module_system.c:147-205 | After a failed init or start nothing happens to a module before its cleanup |

## Left out

How things are represented:

- Bytes are integers from 0 to 255; the shifts and masks of Base64, of NAL headers, of channel masks and of the pixel fill are written as multiplication, division and remainder by powers of two.
- Results of `malloc`, `realloc`, polling, the encoder, the rasteriser, module callbacks and the clock are inputs of the operations; the font is a function, so a failed glyph allocation fails again.
- Calls that leave a component (consumer callbacks, stream releases, scripts, handlers, module callbacks) are events of a ghost trace; callbacks do not call back into the component.
- Counters are unbounded except the 32-bit ones of the frame sequence and the metrics; gains, thresholds and rates are real numbers, the ISO reading is an integer.
- Mutexes and thread interleavings: every step runs under its lock or on one thread.
- Addresses of strings are their contents: paths, module names and consumer names that their owners change later are not modelled.

What contracts leave open:

- FrameManager.Manager.ProcessFrame: asks for frames of at least four bytes while parameters are missing, because the unsigned loop bound of the scanner has no meaning below; and for a total length under 2^32, because the sum is a 32-bit number.
- FrameManager.Manager.SetConsumerEnabled: stands for unregistering as well, which never frees the consumer's slot.
- AuthUtils.Base64Decode: asks for characters of the alphabet or padding, because the table lookup has no meaning for others.
- AuthUtils.ParseBasicHeader: asks for a decoded text that fits the 128-byte buffer of the parser.
- AuthUtils.ValidateBasic: asks for the same of the header that it parses.
- FrameScanner.ExtractStreamParams: asks for frames of at least four bytes while parameters are missing, for the same reason as the frame that it comes from.
- Photosensing.Controller.Poll: does not model a change of the ISP mode from elsewhere.
- Photosensing.NoFlappingExactly: takes any real number for a gain; a sensor with weak gains may be calmer.
- OsdText.Context.RenderGlyph: does not model an allocation that fails once and succeeds later, so metrics left behind by it never show.
- OsdText.Context.DrawText: takes the two numbers of the position string as inputs.
- ModuleSystem.Registry.InitAll: does not model the module configuration that is allocated and parsed before each init.

What is not modelled:

- SDK set-up and tear-down, GPIO, ISP tuning, `/proc` readers, script execution and sleeping: foreign code or input and output.
- JSON parsing and configuration copying: flat field copies.
- ONVIF SOAP answers, HTTP helpers, the endpoint list and the Prometheus text: template formatting.
- Extraction of message ids and of HTTP headers from requests, client address checks and WS-Security tokens.
- The loop of the frame thread over the channels, its rate report and IDR requests.
- Logo, motion zone and timestamp regions of the on-screen display: SDK call sequences over the modelled text bitmap.
- The HALs of other processors, audio, image grabbing and snapshots.
- Process, system and network metrics: their values are input and output, their history rings are written like those of the streams.
