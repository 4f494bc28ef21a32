# Sixelping: verified model

The receiver turns IPv6 echo requests into pixels: the destination address spells a coordinate pair and a
colour, worker cores count the colours of the pings per pixel, and the frames core swaps the frame
and streams it to the renderer. The renderer averages and stores the streamed frames, fades pixels out as they age,
lays an overlay on top, and publishes finished images that sixteen pool threads draw tile by tile.
This project models that pipeline in Dafny and proves its properties.

| file | models |
|---|---|
| `Words.dfy`, `Pixels.dfy` | machine words and bitwise operators; pixels, the row-major index, image objects |
| `Tiles.dfy` | how an image is cut into tiles, and the posting loops |
| `Compositor.dfy`, `CompositorSafety.dfy` | main thread, thread pool and barrier as a transition system; the invariant that makes it safe when both sides are multiples of four |
| `CompositorFlow.dfy`, `CompositorProgress.dfy`, `CompositorBlank.dfy` | for every size of at least four by four: the conservation of tasks, progress, and the order in which tasks are taken |
| `CompositorLimits.dfy` | the exact sizes for which published frames are complete and the backlog is bounded |
| `Collector.dfy`, `Overlay.dfy`, `Renderer.dfy` | averaging, fading and blending on image objects; sequential composition against the parallel one |
| `Addressing.dfy`, `Checksum.dfy`, `Neighbors.dfy`, `Receiver.dfy`, `PacketBytes.dfy` | prefix test, coordinates, neighbor advertisement, layered packet processing, and its effect byte by byte |
| `Accumulator.dfy` | counting pings on 16-bit counters, and what averaging recovers |
| `ReceiverSystem.dfy`, `ReceiverProgress.dfy`, `ReceiverLosses.dfy` | worker cores, frame swaps, writing to the stream and releases as a transition system; that no thread holds up another; which pings miss the stream or their frame |
| `Stream.dfy`, `EndToEnd.dfy` | the byte stream, and the whole pipeline composed |

## How the threads are modelled

The two concurrent parts are step relations over a state datatype. A run is any sequence of enabled steps, so
every statement about reachable states holds under every schedule. Which schedules these are is stated too: each thread
can step whatever the others do (`ReceiverProgress`), or is held up exactly by an empty queue or a closed barrier
(`CompositorProgress.ThreadBlockedIff`, `MainBlockedIff`). The barrier is modelled as the count of missing
parties plus a generation number: a thread inside leaves once the generation differs from the one it entered with.
A tile task writes one pixel per step. What it reads (collected pixels, overlay pixels, the clock) is given by
functions of the frame and the pixel or tile; since each of them is read once per frame, these functions cover
every concurrent change of the collector, the overlay and the clock. Writes and counter updates of a single pixel
are taken as atomic, and a frame is written to the stream one pixel after the other. The queue of the pool is first
in, first out.

The receiver keeps shared pointers, but a worker's copy is a temporary that dies when the pointer has been loaded
(`receiver/src/pixels.cpp:23`), and the frames core's copy dies when its loop body returns
(`receiver/src/frames.cpp:51-57`). So the model releases a frame after it is written, and an update after that is a
stray write, whose effect is modelled as arbitrary contents of all frames.

## Where the code does not meet its purpose

* With a width and height of at least four that are not both multiples of four, a frame has at least twenty tasks,
  but the barrier opens after sixteen of them: the frame is published with tiles missing, and those tiles are drawn
  into the published image later. `CompositorLimits.PublishesTooEarly` and `WritesAfterPublishing` build such runs
  for every such size; `PublishSafetyIff` gives the exact condition. No such run gets stuck
  (`CompositorProgress.DeadlockFree`), but with every frame the tasks above sixteen are left over
  (`CompositorFlow.BacklogPerFrame`), so the queue grows without bound (`CompositorLimits.BacklogBoundedIff`), and in
  every run all frames from the ninth on are published blank (`CompositorBlank.NinthFrameOnBlank`).
* With a side below four no frame is ever published. For widths 1 to 3, and for heights 1 to 3 with a greater
  width, a posting loop steps by zero and never ends; otherwise the image has no pixels
  (`CompositorLimits.TinyNeverPublishes`).
* A worker that loaded the frame pointer before a swap and counts its ping after that pixel was copied to the stream
  loses the ping for the stream. The pings missed are those of the workers that held the frame when its writing began,
  except the ones counted before their own pixel was copied (`ReceiverLosses.WriteMissesExactly`). So the stream is
  complete in every continuation exactly when no worker held the frame then (`SendCompleteIff`); otherwise all of the
  pings in question can be missed, or none (`MissAll`, `MissNone`), up to one of every core (`AllLate`).
* A worker that counts its ping after the frame was released writes to freed memory. This happens, in some
  continuation, exactly when a worker holds the frame at its release (`ReleaseSafeIff`), and to as many as hold it
  (`ReleaseStraysExactly`, `AllStray`). A history is free of it exactly when no worker held any frame at its release
  (`StrayFreeIff`). Statements about pixels count on memory that is still intact.
* The 16-bit sums overflow. With 1 to 65535 pings at a pixel in one frame a channel is the floor of its mean exactly
  when its sum is below 65536 (`Accumulator.MeanIff`), which 257 pings or fewer always meet (`AverageIsMean`). With
  65536 pings or more the ping count wraps too: n equal pings are recovered like n modulo 65536 of them, and not
  noticed when that is zero (`CopiesRecoveredIff`); every colour survives exactly when n modulo 65536 is from 1 to
  257 (`SafeCountIff`).

## Model

| member | source | states |
|---|---|---|
| Words.BitAndBits | receiver/src/packets.cpp:129 | `&` on bytes acts on each bit separately |
| Words.BitOrBits | receiver/src/packets.cpp:126 | `\|` on bytes acts on each bit separately |
| Words.ShiftLeftBits | receiver/src/packets.cpp:125 | `mask <<= 1` on a byte moves every bit up one place and drops the top one |
| Words.Nibbles | receiver/src/packets.cpp:133-134 | the two half-byte selections are the remainder and quotient by 16 |
| Pixels.IndexInRange | libsixelping/include/sixelping/pixel.h:51-61 | every coordinate pair addresses a place inside the pixel vector, `x + y * width` |
| Pixels.IndexInjective | libsixelping/include/sixelping/pixel.h:51-61 | different pixels have different places |
| Pixels.IndexSurjective | renderer/src/ingress/collector.cpp:52-54 | every place belongs to a pixel, so the row-major loops reach all of the vector |
| Pixels.Image.constructor | libsixelping/src/pixel.cpp:8-11 | a new image has one zero pixel per coordinate pair |
| Pixels.Image.SetPixel | libsixelping/include/sixelping/pixel.h:51-53 | changes exactly the one pixel |
| Tiles.OriginBelowIff | renderer/src/compositor/compositor.cpp:63-64 | which values of a posting loop variable lie inside the image |
| Tiles.AxisPartition | renderer/src/compositor/compositor.cpp:63-67 | along an axis every coordinate lies in exactly one clipped tile |
| Tiles.AxisCount | renderer/src/compositor/compositor.cpp:63-64 | the number of tiles along an axis is 4 plus the rounded-up quotient of the remainder, and 4 exactly for multiples of four |
| Tiles.SixteenTasksIff | renderer/src/compositor/compositor.cpp:55-67 | a frame has sixteen tasks, as the pool and the barrier expect, exactly when both sides are multiples of four; otherwise at least twenty |
| Tiles.PixelPartition | renderer/src/ingress/collector.cpp:76-77 | for all sides of at least four, every pixel lies in exactly one clipped tile |
| Tiles.PostedAt | renderer/src/compositor/compositor.cpp:63-75 | every tile is posted, and at which place of the posting order |
| Tiles.NoWrapExtents | renderer/src/compositor/compositor.cpp:63-64 | below 2^31, and for multiples of four below 2^32, the posting loop variables never leave 32 bits |
| Tiles.NoWrapImages | libsixelping/include/sixelping/pixel.h:51-61 | so they stay within 32 bits for every image of fewer than 2^32 pixels |
| Tiles.PostTiles | renderer/src/compositor/compositor.cpp:63-75 | for every size whose loop variables stay within 32 bits, the posting loops post one task per tile |
| Overlay.BlendBounds | renderer/src/compositor/overlay.cpp:96-98 | a blended channel fits 8 bits, is never above the floor of the exact convex combination and at most one below it |
| Overlay.OverBounds | renderer/src/compositor/overlay.cpp:94-99 | every channel of a blended pixel, transparent or not, is the sum of the two weighted parts, each rounded down |
| Overlay.OverIsAdd | libsixelping/include/sixelping/pixel.h:21-26 | the overlay pass with its skip of transparent pixels is `operator+=` |
| Overlay.OpaqueReplaces | renderer/src/compositor/overlay.cpp:94-99 | an opaque overlay pixel replaces the image |
| Overlay.OverMonotone | renderer/src/compositor/overlay.cpp:96-98 | a darker image stays darker under the same overlay |
| Overlay.WriteCurrentImage | renderer/src/compositor/overlay.cpp:79-102 | blends exactly the pixels of the clipped tile, each once |
| Overlay.AddAssign | libsixelping/include/sixelping/pixel.h:63-72 | image addition blends every pixel as the overlay pass does |
| Collector.CollectedFromLatest | renderer/src/ingress/collector.cpp:49-68 | after any sequence of deltas, each pixel holds mean and time of the latest delta with pings there |
| Collector.CollectedUntouched | renderer/src/ingress/collector.cpp:49-68 | or its first value when no delta had any |
| Collector.FadeChannelBounds | renderer/src/ingress/collector.cpp:96-98 | a fading channel never truncates, never exceeds the stored value and shrinks with the remaining life |
| Collector.FadeDivisorPositive | renderer/src/ingress/collector.cpp:85-98 | the fading branch divides by a positive duration, with an age from 0 to below it |
| Collector.FadedInNanoseconds | renderer/src/ingress/collector.cpp:83-99 | what a pixel shows at any clock reading in nanoseconds: the share of its life left per whole millisecond, black from the end of it, the stored colour before its update |
| Collector.FadedDarkens | renderer/src/ingress/collector.cpp:83-99 | without a new delta no channel gets brighter as time passes, nor brighter than stored |
| Collector.FreshIsUnchanged | renderer/src/ingress/collector.cpp:85-98 | within a millisecond of its update a pixel shows its stored colour |
| Collector.BlackIff | renderer/src/ingress/collector.cpp:83-99 | exactly when a pixel shows black: its age reaches the fade duration, or the remaining life is too short for every channel |
| Collector.DisplayedDarkens | renderer/src/compositor/overlay.cpp:94-98 | the same through a fixed overlay |
| Collector.Collector.constructor | renderer/src/ingress/collector.cpp:30-46 | every pixel starts black with its own clock reading |
| Collector.Collector.HandleNewDeltaImage | renderer/src/ingress/collector.cpp:49-68 | replaces exactly the pixels with pings |
| Collector.Collector.WriteCurrentImage | renderer/src/ingress/collector.cpp:70-102 | writes the faded colour to exactly the pixels of the clipped tile |
| CompositorSafety.AllArrived | renderer/src/compositor/compositor.cpp:55-78 | when all sixteen threads wait, no task is left and the picture is complete |
| CompositorSafety.ReleaseInv | renderer/src/compositor/compositor.cpp:70-78 | the invariant survives the opening of the barrier, with threads of it still inside |
| CompositorSafety.WriteAdvances | renderer/src/ingress/collector.cpp:76-101 | each pixel write extends the finished part of its tile in row-major order |
| CompositorSafety.WriteElsewhere | renderer/src/compositor/compositor.cpp:65-72 | a write touches no pixel of another thread's tile |
| CompositorSafety.StepInv | renderer/src/compositor/compositor.cpp:55-80 | every step of every thread keeps the invariant |
| CompositorSafety.ReachableInv | renderer/src/compositor/compositor.cpp:47-88 | the invariant holds in all reachable states, over any number of frames |
| CompositorSafety.PublishedIsComposite | renderer/src/compositor/compositor.cpp:77-80 | every published image is, pixel by pixel, one collector pass followed by one overlay pass, in every interleaving |
| CompositorSafety.PublishedTasksFinished | renderer/src/compositor/compositor.cpp:77-80 | an image is published only after every task of its frame finished both passes |
| CompositorSafety.PublishedIsImmutable | renderer/src/compositor/compositor.cpp:39-41 | no step ever changes an image that has been published |
| CompositorSafety.OneFrameAtATime | renderer/src/compositor/compositor.cpp:55-78 | tasks that have not arrived at the barrier all belong to the one frame after the published one |
| CompositorFlow.FlowStep | renderer/src/compositor/compositor.cpp:55-80 | for every size of at least four by four, every step keeps the balance of tasks, threads and barrier generations |
| CompositorFlow.FlowRelease | renderer/src/compositor/compositor.cpp:55-75 | an opening of the barrier lets exactly sixteen tasks through |
| CompositorFlow.TasksAreConserved | renderer/src/compositor/compositor.cpp:63-75 | in every reachable state, the tasks posted are those queued, those held in the current generation, and sixteen per earlier generation |
| CompositorFlow.BacklogPerFrame | renderer/src/compositor/compositor.cpp:55-80 | between frames, the tasks left over are the published frames times the tasks above sixteen |
| CompositorProgress.NeverStuck | renderer/src/compositor/compositor.cpp:55-80 | names a thread that can step in every such state before the stop, for every size of at least four by four |
| CompositorProgress.DeadlockFree | renderer/src/compositor/compositor.cpp:55-80 | no reachable state is stuck for any size of at least four by four, also while threads of the previous generation return |
| CompositorProgress.StepDecreases | renderer/src/compositor/compositor.cpp:58-80 | every step inside a frame decreases a natural-number measure |
| CompositorProgress.FrameIsPublished | renderer/src/compositor/compositor.cpp:58-80 | every run from inside a frame that is longer than the measure publishes the frame |
| CompositorProgress.CanPublish | renderer/src/compositor/compositor.cpp:58-86 | from inside every frame there are runs that publish it, one that goes on and one that stops |
| CompositorProgress.StopIsFinal | renderer/src/compositor/compositor.cpp:86 | after the stop no continuation starts, posts or publishes anything |
| CompositorProgress.StopsWithFlag | renderer/src/compositor/compositor.cpp:77-86 | the compositor stops exactly at a publication with the exit flag set |
| CompositorProgress.ThreadBlockedIff | renderer/src/compositor/compositor.cpp:55-75 | a pool thread is held up exactly while idle with nothing queued or inside a closed barrier, whatever the others do |
| CompositorProgress.MainBlockedIff | renderer/src/compositor/compositor.cpp:58-86 | the main thread is held up exactly while inside a closed barrier or stopped |
| CompositorBlank.ReachableInOrder | renderer/src/compositor/compositor.cpp:63-75 | in every reachable state tasks are queued in posting order, held tasks come before them, and a frame with no task taken is blank |
| CompositorBlank.PublishedBlank | renderer/src/compositor/compositor.cpp:75-80 | in every run a frame is published without a pixel when sixteen tasks per frame do not reach its own |
| CompositorBlank.NinthFrameOnBlank | renderer/src/compositor/compositor.cpp:55-80 | for every size of at least four by four that is not both multiples of four, every run publishes blank frames from the ninth on |
| CompositorLimits.PublishesTooEarly | renderer/src/compositor/compositor.cpp:55-80 | for every other size of at least four by four, a run that publishes a frame with tasks not started |
| CompositorLimits.WritesAfterPublishing | renderer/src/compositor/compositor.cpp:65-80 | and one in which a thread then writes to the published image |
| CompositorLimits.BacklogBoundedIff | renderer/src/compositor/compositor.cpp:55-80 | for sides of at least four, the pool's queue stays bounded exactly when both are multiples of four, and then at one frame's sixteen tasks |
| CompositorLimits.TinyNeverPublishes | renderer/src/compositor/compositor.cpp:63-80 | with a side below four no frame is ever published, and for widths 1 to 3, or heights 1 to 3 with a greater width, the posting loops never end |
| CompositorLimits.PublishSafetyIff | renderer/src/compositor/compositor.cpp:55-80 | only complete frames are published exactly when both sides are multiples of four or some side is below four |
| Renderer.RenderTile | renderer/src/compositor/compositor.cpp:65-72 | a tile task composites exactly the pixels of its tile |
| Renderer.ComposeByTiles | renderer/src/compositor/compositor.cpp:61-75 | for all sides of at least four the tile passes make the sequentially composed image |
| Renderer.ComposeSequentially | libsixelping/include/sixelping/pixel.h:63-72 | one collector pass and image addition make that image |
| Renderer.ParallelIsSequential | renderer/src/compositor/compositor.cpp:63-80 | with fixed inputs every published frame equals the sequentially composed image |
| Renderer.PublishedFramesDarken | renderer/src/ingress/collector.cpp:83-99 | over published frames an untouched pixel never gets brighter |
| Addressing.SamePrefixIff | receiver/src/packets.cpp:115-131 | a prefix splits into whole bytes and the leading bits of one byte |
| Addressing.MaskedEqualIff | receiver/src/packets.cpp:129-131 | equality under the mask is equality of the leading bits |
| Addressing.BuildMask | receiver/src/packets.cpp:122-127 | the mask loop sets exactly the first l bits |
| Addressing.MatchesPrefix | receiver/src/packets.cpp:115-131 | for every prefix length byte, accepts exactly the addresses that share the first min(cidr, 128) bits |
| Addressing.CoordinateDigits | receiver/src/packets.cpp:133-134 | the decoded coordinate is its four half bytes in decimal weights, at most 16665 |
| Addressing.DecodeEncode | receiver/src/packets.cpp:133-134 | every coordinate up to 9999 survives encoding and decoding |
| Addressing.EncodeDecode | receiver/src/packets.cpp:133-134 | on decimal digits decoding is injective |
| Addressing.EncodesIff | receiver/src/packets.cpp:133-134 | two bytes spell a coordinate exactly when they are its decimal digits |
| Addressing.SpelledAddress | receiver/src/packets.cpp:115-135 | an address spelled for a pixel and colour passes the prefix test and decodes to them |
| Checksum.FoldCongruent | receiver/src/packets.cpp:72 | carry folding keeps the sum modulo 65535 and is zero only for zero |
| Checksum.VerifiesIff | receiver/src/packets.cpp:72 | which sums verify |
| Checksum.OrderIndependent | receiver/src/packets.cpp:72 | how the sums in the two byte orders relate |
| Checksum.StoredChecksumVerifies | receiver/src/packets.cpp:60-73 | a message with the stored complement verifies, for either byte order of the host |
| Neighbors.AdvertisementChecksumValid | receiver/src/packets.cpp:37-73 | the reply's checksum verifies over its addresses, length 32 and next header 58, for every own address, MAC and requester, zero sums included |
| Neighbors.AdvertisementLayout | receiver/src/packets.cpp:32-58 | all 86 bytes of the reply at their offsets |
| Neighbors.Copy | receiver/src/packets.cpp:38-39 | a copy changes exactly the bytes addressed |
| Neighbors.FillIpv6 | receiver/src/packets.cpp:37-44 | the assignments make the IPv6 header and touch nothing else |
| Neighbors.BuildAdvertisement | receiver/src/packets.cpp:18-73 | the reply filled in place is the specified packet |
| Receiver.LayeredLengthChecks | receiver/src/packets.cpp:146-179 | the chain of unsigned length checks accepts exactly the packets that hold all headers viewed |
| Receiver.RepliesAreFinal | receiver/src/packets.cpp:144-184 | a reply fed back to any receiver has no effect |
| Receiver.Receiver.constructor | receiver/src/pixels.cpp:11-17 | counting starts in an empty frame |
| Receiver.Receiver.HandleNewPixel | receiver/src/pixels.cpp:19-29 | counts an on-screen ping at its pixel and drops the others |
| Receiver.Receiver.SwapBuffers | receiver/src/pixels.cpp:31-36 | returns the frame counted so far and starts an empty one |
| Receiver.Receiver.SwapAndSend | receiver/src/frames.cpp:51-57 | appends the swapped frame's bytes to the stream |
| Receiver.Receiver.EchoRequest | receiver/src/packets.cpp:108-142 | an echo request counts its pixel and its sender, or nothing when too big or outside the prefix |
| Receiver.Receiver.NeighborSolicit | receiver/src/packets.cpp:10-96 | replies exactly to solicitations of the own address |
| Receiver.Receiver.ProcessIcmp | receiver/src/packets.cpp:144-155 | dispatch on type and code, with every header viewed inside the packet |
| Receiver.Receiver.ProcessL3 | receiver/src/packets.cpp:157-165 | only ICMPv6 with a whole header is passed on |
| Receiver.Receiver.ProcessL2 | receiver/src/packets.cpp:167-175 | only IPv6 with a whole header is passed on |
| Receiver.Receiver.ProcessPacket | receiver/src/packets.cpp:177-184 | the layered checks have exactly the effect of the packet's meaning at absolute positions |
| Receiver.Receiver.ProcessBurst | receiver/src/lcoremain.cpp:49-52 | the packets of a burst take effect in order |
| Receiver.Receiver.ReceiveBursts | receiver/src/lcoremain.cpp:40-54 | a run of bursts has the effect of all their packets in order |
| PacketBytes.EchoIff | receiver/src/packets.cpp:108-135 | which packets are taken as pings, byte by byte, and where sender, coordinates and colour are read |
| PacketBytes.PingEffect | receiver/src/packets.cpp:133-141 | what a ping under the prefix does to the frame and to the counter of its sender, and that nothing else changes |
| PacketBytes.OtherPingsIgnored | receiver/src/packets.cpp:111-131 | echo requests that are too big or outside the prefix have no effect |
| PacketBytes.OtherPacketsIgnored | receiver/src/packets.cpp:144-184 | packets that are too short, not IPv6, not next header 58, or of another type or code have no effect |
| PacketBytes.ReplyIff | receiver/src/packets.cpp:10-96 | exactly the solicitations of the own address get a reply, one, to the MAC and address they came from |
| Receiver.FrameIsAccumulation | receiver/src/packets.cpp:133-137 | the frame accumulates exactly the on-screen pings of all accepted packets |
| Receiver.SenderCounters | receiver/src/packets.cpp:139-141 | each sender's counter is the number of its accepted echo requests modulo 2^64 |
| Receiver.SenderTotal | receiver/src/packets.cpp:108-141 | the counters of all senders add up to the number of accepted echo requests |
| Receiver.FramesAreIntervals | receiver/src/pixels.cpp:23-36 | for every sequence of packets and swaps, each swapped frame and the current one accumulate exactly the on-screen pings of their interval |
| Receiver.SendersIgnoreSwaps | receiver/src/packets.cpp:139-141 | the senders' counters depend on the packets alone |
| Receiver.FramesAgainstSenders | receiver/src/packets.cpp:137-141 | for every sequence of packets and swaps, the counts of all frames together never exceed the senders' counters, and when the two totals agree |
| Accumulator.AccumulateIsTotals | receiver/src/pixels.cpp:23-28 | each pixel holds colour sums and ping count modulo 65536 |
| Accumulator.AlphaConservation | receiver/src/pixels.cpp:25-28 | ping counts add up to the pings, up to 65536 for every wrap |
| Accumulator.ExactIffNoWrap | receiver/src/pixels.cpp:28 | they add up exactly when no pixel got more than 65535 pings |
| Accumulator.AlphaOverFrames | receiver/src/pixels.cpp:25-33 | over any sequence of frames, the ping counts add up to the pings exactly when no count of any frame wraps |
| Accumulator.MeanIff | renderer/src/ingress/collector.cpp:57-64 | for any pings at a pixel, the value stored is the quotient of the wrapped sums and count; for 1 to 65535 of them a channel is the floor of the exact mean exactly when its sum is below 65536 |
| Accumulator.AverageIsMean | renderer/src/ingress/collector.cpp:57-64 | for 1 to 257 pings the collector stores the floor of the exact mean, between the extreme colours sent |
| Accumulator.CopiesRecoveredIff | renderer/src/ingress/collector.cpp:57-64 | for every n, n equal pings are ignored when 65536 divides n, and otherwise recovered exactly when no colour sum of n modulo 65536 of them overflows |
| Accumulator.SafeCountIff | renderer/src/ingress/collector.cpp:57-64 | n equal pings are recovered for every colour exactly when n modulo 65536 is from 1 to 257 |
| ReceiverSystem.StepInv | receiver/src/pixels.cpp:19-36 | every step of workers and swapper keeps the invariant |
| ReceiverSystem.LoadsAreCurrent | receiver/src/pixels.cpp:23 | each ping is loaded for the frame current at that moment |
| ReceiverSystem.PingsAreConserved | receiver/src/pixels.cpp:19-36 | loads are the updates made, the stray writes and those pending, under every schedule, and before any stray write every frame holds exactly its updates |
| ReceiverSystem.AlphaIsConserved | receiver/src/pixels.cpp:23-36 | without a stray write, the counts over all frames equal the pings counted, exactly when no count wraps |
| ReceiverSystem.EveryFrameSentOnce | receiver/src/frames.cpp:51-57 | every swapped frame is written to the stream completely, once and in order, and then released |
| ReceiverSystem.SentIsCarried | receiver/src/frames.cpp:52-54 | the bytes of a frame are the accumulation of exactly the pings counted in it before their own pixel was copied |
| ReceiverProgress.CanLoad | receiver/src/pixels.cpp:19-23 | a polling core can take any ping at any moment, whatever the frames core is doing, and holds the frame current then |
| ReceiverProgress.CanCount | receiver/src/pixels.cpp:25-28 | a core that holds a frame which still exists can count in it at any moment, at its own pixel only |
| ReceiverProgress.CanStray | receiver/src/pixels.cpp:25-28 | a core that holds a released frame is not held back either |
| ReceiverProgress.CanFinishRound | receiver/src/frames.cpp:51-57 | the frames core can finish its round from every reachable state, with no worker moving |
| ReceiverProgress.CanSendFrame | receiver/src/frames.cpp:51-57 | and send the current frame as it is, putting an empty one in its place, also while workers hold it |
| ReceiverLosses.MissedAreHeld | receiver/src/frames.cpp:52-54 | at any time, the workers that held a frame when its writing began have missed the stream, were just in time, or still hold it |
| ReceiverLosses.WriteMissesExactly | receiver/src/frames.cpp:52-54 | the same for every run from the beginning of any writing, against a count made before it |
| ReceiverLosses.MissedAfterWrite | receiver/src/frames.cpp:52-57 | from the end of the writing on, the pings missed and those pending stay the same in number |
| ReceiverLosses.SendCompleteIff | receiver/src/frames.cpp:52-54 | the stream misses no ping of a frame in any continuation exactly when no worker holds it when its writing begins |
| ReceiverLosses.MissAll | receiver/src/pixels.cpp:23-33 | from every beginning of a writing, a run in which every worker that held the frame counts too late |
| ReceiverLosses.MissNone | receiver/src/pixels.cpp:23-33 | and one in which all of them count in time |
| ReceiverLosses.StrayAreHeld | receiver/src/frames.cpp:51-57 | at any time, the writes to a released frame and those still pending are as many as the workers that held it at the release |
| ReceiverLosses.StrayFreeIff | receiver/src/frames.cpp:51-57 | nothing was or can still be written to the released frames exactly when no worker held a frame at its release |
| ReceiverLosses.ReleaseStraysExactly | receiver/src/frames.cpp:51-57 | the exact number of writes to a frame after its release, for every run from any release |
| ReceiverLosses.ReleaseSafeIff | receiver/src/pixels.cpp:23-28 | no continuation writes to a frame after its release exactly when no worker holds it then |
| ReceiverLosses.AllLate | receiver/src/pixels.cpp:23-33 | for every number of cores, a run in which the stream misses a ping of each core |
| ReceiverLosses.AllStray | receiver/src/pixels.cpp:23-28 | for every number of cores, a run in which each core writes to a released frame |
| Stream.FrameRoundTrip | receiver/src/frames.cpp:54 | a frame survives its raw bytes |
| Stream.PixelBytes | receiver/src/frames.cpp:54 | a pixel's eight bytes are red, green, blue and count, in the byte order of the host |
| Stream.FrameBytes | receiver/src/frames.cpp:54 | pixel i of a frame takes the eight bytes from 8 * i on |
| Stream.CutIsPrefix | renderer/src/ingress/connection.cpp:23-39 | wherever the stream ends, the frames cut from it are a prefix of the frames sent |
| Stream.WholeFramesIsQuotient | renderer/src/ingress/connection.cpp:33-36 | how many frames a number of bytes holds |
| Stream.CollectFrame | renderer/src/ingress/connection.cpp:27-39 | a completely read frame is collected |
| Stream.Run | renderer/src/ingress/connection.cpp:20-51 | the collector ends up as if fed exactly the frames cut from the stream |
| EndToEnd.RequestIsCounted | receiver/src/packets.cpp:108-137 | a request for an on-screen pixel is counted there in its colour |
| EndToEnd.AsksForIff | receiver/src/packets.cpp:108-135 | which packets ask for a pixel and colour, byte by byte |
| EndToEnd.MeanArrives | renderer/src/ingress/connection.cpp:25-39 | a pixel with 1 to 257 pings of a frame sent before any stray write reaches the collector as the floor of their exact mean, under every receiver schedule and stream length |
| EndToEnd.ColourArrives | renderer/src/ingress/connection.cpp:25-39 | and with its colour unchanged when all these pings have it |
| EndToEnd.FreshColourIsShown | renderer/src/compositor/compositor.cpp:65-80 | a freshly collected colour is shown unchanged by the published frame |
| EndToEnd.AddressToScreen | receiver/src/packets.cpp:115-137 | 1 to 257 requests for one pixel and colour in a frame sent before any stray write make exactly that colour in the collector and in the published image, under every schedule of both programs |
| EndToEnd.JourneyExists | receiver/src/packets.cpp:115-137 | for every such request and count there are runs of both programs that show it |

## Left out

- Overlay drawing: text, logo and the conversion of drawn samples to 8 bits are not modelled; the overlay is an image of 8-bit RGBA pixels.
- Device, queue and memory pool setup, and buffer allocation failures: a reply always gets its buffer, and handing it to the transmit queue always succeeds.
- Packets in several segments: a packet is one byte sequence whose length is its packet length.
- The checksum routine itself: it belongs to the packet library, which is not part of this model, and is taken as the standards define it. The disabled second computation beside it is not modelled.
- Receiver.SenderTotal: counts in a sequential run only; concurrent insertion into the sender map is not modelled.
- Torn and lost updates of a single pixel by unsynchronised threads: one pixel update is one atomic step, and so is copying a pixel to the stream.
- What a stray write does outside the frames: it is undefined, and only the frames' contents are taken as lost.
- Accumulator.MeanIff: for 65536 or more pings of mixed colours, where the divisor itself wraps, it states the value stored but not how that relates to their mean.
- Tiles.PostTiles: sides for which a loop variable leaves 32 bits; an image of that size has 2^32 pixels or more (`Tiles.NoWrapImages`).
- Renderer.ComposeByTiles: the same.
- Images of 2^32 pixels or more: indices and sizes are unbounded integers, so the 32-bit wrap of `width * height` is not modelled.
- CompositorProgress.FrameIsPublished: counts steps; the pool's thread creation, exceptions in tasks and the timing of the frame loop are not modelled.
- Stream.Run: needs at least one pixel, because an image without pixels makes the original loop read nothing forever; partial reads into the discarded image buffer are not modelled.
- Sockets, name resolution, metrics export, option parsing, exit flags and logging; the egress connection, which only sends the published image's bytes; `format_ipv6_addr`, which nothing in the modelled path uses.
