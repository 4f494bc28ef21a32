/** The receiver: layered packet parsing, counting of pings per pixel and per sender, and the
    replies to neighbor solicitations. */
module Receiver {
  import opened Accumulator
  import opened Addressing
  import opened Checksum
  import opened Neighbors
  import opened Pixels
  import opened Stream
  import opened Words

  type Packet = p: seq<byte> | |p| < 0x1_0000_0000

  datatype Settings = Settings(
    address: Address,
    prefix: Address,
    cidr: byte,
    mac: Mac,
    order: ByteOrder,
    width: nat,
    height: nat)

  const LARGEST_PING := 200

  // ----- what a packet means -----

  datatype Event =
    | Ignored
    | Solicitation(requesterMac: Mac, requester: Address)
    | Echo(sender: Address, request: Request)

  /** An IPv6 packet with a complete ICMPv6 header of the given type and code zero. */
  predicate IsIcmp6(p: Packet, kind: byte) {
    |p| >= 58 && p[12] == 0x86 && p[13] == 0xDD && p[20] == ICMP6_PROTOCOL && p[54] == kind && p[55] == 0
  }

  function Source(p: Packet): Address
    requires |p| >= 54
  {
    p[22..38]
  }

  function Destination(p: Packet): Address
    requires |p| >= 54
  {
    p[38..54]
  }

  /** The meaning of a packet, read off its bytes at absolute positions. */
  function Classify(settings: Settings, p: Packet): Event {
    if IsIcmp6(p, 135) && |p| >= 78 && p[62..78] == settings.address then Solicitation(p[6..12], Source(p))
    else if IsIcmp6(p, 128) && |p| <= LARGEST_PING
      && SamePrefix(Destination(p), settings.prefix, PrefixBits(settings.cidr))
    then Echo(Source(p), Decode(Destination(p)))
    else Ignored
  }

  // ----- what a packet does -----

  /** The receiver's mutable state: the current frame, the pings counted per sender, and the
      packets given to the transmit queue. */
  datatype Counters = Counters(frame: seq<Rgba16>, senders: map<Address, nat>, replies: seq<Packet>)

  /** Pixels of a frame. */
  function Size(settings: Settings): nat { settings.width * settings.height }

  predicate OnScreen(settings: Settings, request: Request) {
    request.x < settings.width && request.y < settings.height
  }

  function PingOf(settings: Settings, request: Request): Ping {
    Ping(Index(settings.width, request.x, request.y), Rgb(request.r, request.g, request.b))
  }

  function CountSender(senders: map<Address, nat>, sender: Address): map<Address, nat> {
    senders[sender := U64((if sender in senders then senders[sender] else 0) + 1)]
  }

  function CountPing(settings: Settings, frame: seq<Rgba16>, request: Request): (frame': seq<Rgba16>)
    requires |frame| == Size(settings)
    ensures |frame'| == |frame|
  {
    if OnScreen(settings, request) then
      var ping := PingOf(settings, request);
      IndexInRange(settings.width, settings.height, request.x, request.y);
      frame[ping.pixel := AddPing(frame[ping.pixel], ping.colour)]
    else frame
  }

  function Handle(settings: Settings, c: Counters, e: Event): (c': Counters)
    requires |c.frame| == Size(settings)
    ensures |c'.frame| == |c.frame|
  {
    match e
    case Ignored => c
    case Solicitation(mac, ip) =>
      c.(replies := c.replies + [Advertisement(settings.order, settings.address, settings.mac, mac, ip)])
    case Echo(sender, request) =>
      c.(frame := CountPing(settings, c.frame, request), senders := CountSender(c.senders, sender))
  }

  function HandleAll(settings: Settings, c: Counters, packets: seq<Packet>): (c': Counters)
    requires |c.frame| == Size(settings)
    ensures |c'.frame| == |c.frame|
  {
    if packets == [] then c
    else Handle(settings, HandleAll(settings, c, packets[..|packets| - 1]), Classify(settings, packets[|packets| - 1]))
  }

  /** Unsigned 64-bit subtraction, as the length checks compute `pkt_len - offset`. */
  function Sub64(a: nat, b: nat): nat { U64(a - b) }

  /** The chain of length checks never underflows, although a single one of them would: together they
      accept exactly the packets that hold all the headers viewed after them. */
  lemma LayeredLengthChecks(length: nat)
    requires length < 0x1_0000_0000
    ensures (length >= 14 && Sub64(length, 14) >= 40 && Sub64(length, 54) >= 4) <==> length >= 58
    ensures (length >= 14 && Sub64(length, 14) >= 40 && Sub64(length, 54) >= 4 && Sub64(length, 58) >= 20)
            <==> length >= 78
    ensures length < 54 ==> Sub64(length, 54) >= 4
  {}

  /** A reply fed back to any receiver is ignored, so advertisements never cause further packets. */
  lemma RepliesAreFinal(settings: Settings, other: Settings, mac: Mac, requester: Address)
    ensures Classify(other, Advertisement(settings.order, settings.address, settings.mac, mac, requester)) == Ignored
  {
    AdvertisementLayout(settings.order, settings.address, settings.mac, mac, requester);
    hide Advertisement;
  }

  class Receiver {
    const settings: Settings
    var currentFrame: Image<Rgba16>
    var senders: map<Address, nat>
    var replies: seq<Packet>

    ghost predicate Valid() reads this {
      && currentFrame.Valid()
      && currentFrame.width == settings.width && currentFrame.height == settings.height
    }

    ghost function State(): (c: Counters)
      requires Valid()
      reads this, currentFrame.data
      ensures |c.frame| == Size(settings)
    {
      Counters(currentFrame.data[..], senders, replies)
    }

    /** setup: an empty frame, no senders, nothing sent. */
    constructor (settings: Settings)
      ensures Valid() && this.settings == settings && fresh(currentFrame) && fresh(currentFrame.data)
      ensures State() == Counters(Accumulate(Size(settings), []), map[], [])
    {
      this.settings := settings;
      this.senders := map[];
      this.replies := [];
      this.currentFrame := new Image(settings.width, settings.height, EMPTY);
    }

    /** handle_new_pixel: coordinates outside the image are dropped. */
    method HandleNewPixel(request: Request)
      requires Valid()
      modifies currentFrame.data
      ensures Valid() && State() == old(State()).(frame := CountPing(settings, old(currentFrame.data[..]), request))
    {
      if request.x >= settings.width || request.y >= settings.height {
        return;
      }
      var pix := currentFrame.GetPixel(request.x, request.y);
      pix := pix.(r := U16(pix.r + request.r));
      pix := pix.(g := U16(pix.g + request.g));
      pix := pix.(b := U16(pix.b + request.b));
      pix := pix.(a := U16(pix.a + 1));
      IndexInRange(settings.width, settings.height, request.x, request.y);
      currentFrame.SetPixel(request.x, request.y, pix);
    }

    /** swap_buffers: the caller gets the frame counted so far, and counting goes on in an empty one. */
    method SwapBuffers() returns (swapped: Image<Rgba16>)
      requires Valid()
      modifies this`currentFrame
      ensures Valid() && swapped == old(currentFrame) && fresh(currentFrame) && fresh(currentFrame.data)
      ensures swapped.data[..] == old(swapped.data[..])
      ensures Outcome(State(), [swapped.data[..]]) == HandleInput(settings, Outcome(old(State()), []), Swap)
      ensures State() == old(State()).(frame := Accumulate(Size(settings), []))
    {
      swapped := currentFrame;
      currentFrame := new Image(settings.width, settings.height, EMPTY);
    }

    /** One round of the frames core: swap the buffers and write the swapped frame's pixels to the stream. */
    method SwapAndSend(stream: seq<byte>) returns (stream': seq<byte>)
      requires Valid()
      modifies this`currentFrame
      ensures Valid() && fresh(currentFrame) && fresh(currentFrame.data)
      ensures stream' == stream + SerializeFrame(settings.order, old(currentFrame.data[..]))
      ensures State() == old(State()).(frame := Accumulate(Size(settings), []))
    {
      var newFrame := SwapBuffers();
      stream' := stream + SerializeFrame(settings.order, newFrame.data[..]);
    }

    method EchoRequest(p: Packet, offset: nat)
      requires Valid() && offset == 58 && IsIcmp6(p, 128)
      modifies this`senders, currentFrame.data
      ensures Valid() && State() == Handle(settings, old(State()), Classify(settings, p))
    {
      hide SamePrefix, CountPing, Decode, Source, Destination, U64, Size;
      if |p| > LARGEST_PING {
        return;
      }
      var dst := Destination(p);
      var matches := MatchesPrefix(dst, settings.prefix, settings.cidr);
      if !matches {
        return;
      }
      var request := Decode(dst);
      HandleNewPixel(request);
      var sender := Source(p);
      var count := if sender in senders then senders[sender] else 0;
      senders := senders[sender := U64(count + 1)];
    }

    method NeighborSolicit(p: Packet, offset: nat, target: Address)
      requires Valid() && offset == 78 && IsIcmp6(p, 135) && |p| >= 78 && target == p[62..78]
      modifies this`replies
      ensures Valid() && State() == Handle(settings, old(State()), Classify(settings, p))
    {
      if target == settings.address {
        hide Advertisement;
        var reply := BuildAdvertisement(settings.order, settings.address, settings.mac, p[6..12], Source(p), target);
        replies := replies + [reply];
      }
    }

    method ProcessIcmp(p: Packet, offset: nat)
      requires Valid() && offset == 58 <= |p| && p[12] == 0x86 && p[13] == 0xDD && p[20] == ICMP6_PROTOCOL
      modifies this`senders, this`replies, currentFrame.data
      ensures Valid() && State() == Handle(settings, old(State()), Classify(settings, p))
    {
      hide CountPing, CountSender, Advertisement, SamePrefix, Decode;
      var kind, code := p[54], p[55];
      if kind == 135 && code == 0 {
        if Sub64(|p|, offset) >= NDP_HEADER {
          var target := p[offset + 4..offset + NDP_HEADER];
          NeighborSolicit(p, offset + NDP_HEADER, target);
        }
      }
      if kind == 128 && code == 0 {
        EchoRequest(p, offset);
      }
    }

    method ProcessL3(p: Packet, offset: nat)
      requires Valid() && offset == 54 <= |p| && p[12] == 0x86 && p[13] == 0xDD
      modifies this`senders, this`replies, currentFrame.data
      ensures Valid() && State() == Handle(settings, old(State()), Classify(settings, p))
    {
      hide CountPing, CountSender, Advertisement, SamePrefix, Decode;
      if p[20] == ICMP6_PROTOCOL {
        if Sub64(|p|, offset) >= ICMP6_HEADER {
          ProcessIcmp(p, offset + ICMP6_HEADER);
        }
      }
    }

    method ProcessL2(p: Packet, offset: nat)
      requires Valid() && offset == 14 <= |p|
      modifies this`senders, this`replies, currentFrame.data
      ensures Valid() && State() == Handle(settings, old(State()), Classify(settings, p))
    {
      hide CountPing, CountSender, Advertisement, SamePrefix, Decode;
      var etherType: word := (p[12] as int) * 256 + p[13];
      if etherType == 0x86DD {
        if Sub64(|p|, offset) >= IPV6_HEADER {
          ProcessL3(p, offset + IPV6_HEADER);
        }
      }
    }

    /** process_packet: the layered checks and handlers have exactly the effect of the packet's meaning. */
    method ProcessPacket(p: Packet)
      requires Valid()
      modifies this`senders, this`replies, currentFrame.data
      ensures Valid() && State() == Handle(settings, old(State()), Classify(settings, p))
    {
      hide CountPing, CountSender, Advertisement, SamePrefix, Decode;
      if |p| >= ETHER_HEADER {
        ProcessL2(p, ETHER_HEADER);
      }
    }

    /** The packets of one burst are processed in order. */
    method ProcessBurst(bufs: seq<Packet>)
      requires Valid()
      modifies this`senders, this`replies, currentFrame.data
      ensures Valid() && State() == HandleAll(settings, old(State()), bufs)
    {
      hide Handle, Classify;
      var i := 0;
      while i < |bufs|
        invariant 0 <= i <= |bufs| && Valid()
        invariant State() == HandleAll(settings, old(State()), bufs[..i])
      {
        assert bufs[..i + 1][..i] == bufs[..i];
        ProcessPacket(bufs[i]);
        i := i + 1;
      }
      assert bufs[..i] == bufs;
    }

    /** The receive loop of a worker core over the bursts it polls; empty bursts are skipped. */
    method ReceiveBursts(bursts: seq<seq<Packet>>)
      requires Valid()
      modifies this`senders, this`replies, currentFrame.data
      ensures Valid() && State() == HandleAll(settings, old(State()), Flatten(bursts))
    {
      hide Handle, Classify;
      var n := 0;
      while n < |bursts|
        invariant 0 <= n <= |bursts| && Valid()
        invariant State() == HandleAll(settings, old(State()), Flatten(bursts[..n]))
      {
        var bufs := bursts[n];
        ghost var before := Flatten(bursts[..n]);
        assert bursts[..n + 1][..n] == bursts[..n];
        assert Flatten(bursts[..n + 1]) == before + bufs;
        n := n + 1;
        if |bufs| == 0 {
          assert before + bufs == before;
          continue;
        }
        HandleAllConcat(settings, old(State()), before, bufs);
        ProcessBurst(bufs);
      }
      assert bursts[..n] == bursts;
    }
  }

  lemma {:induction false} HandleAllConcat(settings: Settings, c: Counters, a: seq<Packet>, b: seq<Packet>)
    requires |c.frame| == Size(settings)
    ensures HandleAll(settings, c, a + b) == HandleAll(settings, HandleAll(settings, c, a), b)
    decreases b
  {
    hide Handle, Classify;
    if b == [] {
      assert a + b == a;
    } else {
      assert (a + b)[..|a + b| - 1] == a + b[..|b| - 1];
      HandleAllConcat(settings, c, a, b[..|b| - 1]);
    }
  }

  function Flatten(bursts: seq<seq<Packet>>): seq<Packet> {
    if bursts == [] then [] else Flatten(bursts[..|bursts| - 1]) + bursts[|bursts| - 1]
  }

  // ----- accounting over a run -----

  /** The pings that a sequence of packets adds to the frame. */
  function Pings(settings: Settings, packets: seq<Packet>): seq<Ping> {
    if packets == [] then []
    else
      var e := Classify(settings, packets[|packets| - 1]);
      Pings(settings, packets[..|packets| - 1])
      + (if e.Echo? && OnScreen(settings, e.request) then [PingOf(settings, e.request)] else [])
  }

  /** The senders of the echo requests that pass the size and prefix tests, in order. */
  function Senders(settings: Settings, packets: seq<Packet>): seq<Address> {
    if packets == [] then []
    else
      var e := Classify(settings, packets[|packets| - 1]);
      Senders(settings, packets[..|packets| - 1]) + (if e.Echo? then [e.sender] else [])
  }

  lemma NoPings(settings: Settings)
    ensures Pings(settings, []) == []
  {}

  /** One more packet adds its on-screen ping, if it has one, to the frame. */
  lemma HandleFrame(settings: Settings, c: Counters, packets: seq<Packet>, p: Packet)
    requires InFrame(Pings(settings, packets), Size(settings))
    requires c.frame == Accumulate(Size(settings), Pings(settings, packets))
    ensures InFrame(Pings(settings, packets + [p]), Size(settings))
    ensures Handle(settings, c, Classify(settings, p)).frame
            == Accumulate(Size(settings), Pings(settings, packets + [p]))
  {
    hide Classify;
    assert (packets + [p])[..|packets|] == packets;
    var e := Classify(settings, p);
    var before, after := Pings(settings, packets), Pings(settings, packets + [p]);
    if e.Echo? && OnScreen(settings, e.request) {
      IndexInRange(settings.width, settings.height, e.request.x, e.request.y);
      assert after == before + [PingOf(settings, e.request)] && after[..|before|] == before;
    } else {
      assert after == before;
    }
  }

  /** The frame after any sequence of packets is the accumulation of exactly their on-screen pings. */
  lemma {:induction false} FrameIsAccumulation(settings: Settings, c: Counters, packets: seq<Packet>)
    requires c.frame == Accumulate(Size(settings), [])
    ensures InFrame(Pings(settings, packets), Size(settings))
    ensures HandleAll(settings, c, packets).frame
            == Accumulate(Size(settings), Pings(settings, packets))
    decreases packets
  {
    hide Classify, Handle, Accumulate, Pings, Size;
    if packets == [] {
      NoPings(settings);
    } else {
      var before := packets[..|packets| - 1];
      FrameIsAccumulation(settings, c, before);
      HandleFrame(settings, HandleAll(settings, c, before), before, packets[|packets| - 1]);
      assert before + [packets[|packets| - 1]] == packets;
    }
  }

  function Occurrences(senders: seq<Address>, a: Address): nat {
    if senders == [] then 0
    else Occurrences(senders[..|senders| - 1], a) + (if senders[|senders| - 1] == a then 1 else 0)
  }

  /** Every sender's counter is the number of its accepted echo requests, modulo 2^64, and only
      such senders have a counter. */
  lemma {:induction false} SenderCounters(settings: Settings, c: Counters, packets: seq<Packet>, a: Address)
    requires |c.frame| == Size(settings) && c.senders == map[]
    ensures var senders := HandleAll(settings, c, packets).senders;
            && (a in senders <==> a in Senders(settings, packets))
            && (a in senders ==> senders[a] == Occurrences(Senders(settings, packets), a) % 0x1_0000_0000_0000_0000)
            && (a !in senders ==> Occurrences(Senders(settings, packets), a) == 0)
    decreases packets
  {
    hide Classify, CountPing;
    if packets != [] {
      var before := packets[..|packets| - 1];
      SenderCounters(settings, c, before, a);
      var e := Classify(settings, packets[|packets| - 1]);
      var s, s' := Senders(settings, before), Senders(settings, packets);
      if e.Echo? {
        assert s' == s + [e.sender] && s'[..|s|] == s;
        CounterStep(Occurrences(s, a));
      } else {
        assert s' == s;
      }
      hide U64;
    }
  }

  lemma CounterStep(n: nat)
    ensures U64(n % 0x1_0000_0000_0000_0000 + 1) == (n + 1) % 0x1_0000_0000_0000_0000
  {}

  /** The sum of all values of a finite map. */
  ghost function SumValues(m: map<Address, nat>): nat
    decreases |m|
  {
    if m == map[] then 0
    else
      var a :| a in m;
      m[a] + SumValues(m - {a})
  }

  lemma {:induction false} SumValuesPick(m: map<Address, nat>, a: Address)
    requires a in m
    ensures SumValues(m) == m[a] + SumValues(m - {a})
    decreases |m|
  {
    var b :| b in m && SumValues(m) == m[b] + SumValues(m - {b});
    if a != b {
      SumValuesPick(m - {b}, a);
      SumValuesPick(m - {a}, b);
      assert m - {b} - {a} == m - {a} - {b};
    }
  }

  lemma NoWrap64(n: nat)
    requires n < 0x1_0000_0000_0000_0000
    ensures U64(n) == n
  {}

  lemma SumAfterCount(senders: map<Address, nat>, a: Address)
    requires (if a in senders then senders[a] else 0) + 1 < 0x1_0000_0000_0000_0000
    ensures SumValues(CountSender(senders, a)) == SumValues(senders) + 1
  {
    hide U64;
    NoWrap64((if a in senders then senders[a] else 0) + 1);
    var counted := CountSender(senders, a);
    SumValuesPick(counted, a);
    assert counted - {a} == senders - {a};
    if a in senders {
      SumValuesPick(senders, a);
    } else {
      assert senders - {a} == senders;
    }
  }

  lemma {:induction false} OccurrencesBound(senders: seq<Address>, a: Address)
    ensures Occurrences(senders, a) <= |senders|
  {
    if senders != [] {
      OccurrencesBound(senders[..|senders| - 1], a);
    }
  }

  lemma {:induction false} SendersBound(settings: Settings, packets: seq<Packet>)
    ensures |Pings(settings, packets)| <= |Senders(settings, packets)| <= |packets|
    decreases packets
  {
    hide Classify;
    if packets != [] {
      SendersBound(settings, packets[..|packets| - 1]);
    }
  }

  /** Sender accounting: the counters of all senders add up to the number of accepted echo requests,
      for every sequence of fewer than 2^64 packets. */
  lemma {:induction false} SenderTotal(settings: Settings, c: Counters, packets: seq<Packet>)
    requires |c.frame| == Size(settings) && c.senders == map[]
    requires |packets| < 0x1_0000_0000_0000_0000
    ensures SumValues(HandleAll(settings, c, packets).senders) == |Senders(settings, packets)|
    decreases packets
  {
    hide Classify, CountPing;
    if packets != [] {
      var before := packets[..|packets| - 1];
      SenderTotal(settings, c, before);
      var e := Classify(settings, packets[|packets| - 1]);
      if e.Echo? {
        SenderCounters(settings, c, before, e.sender);
        OccurrencesBound(Senders(settings, before), e.sender);
        SendersBound(settings, before);
        SumAfterCount(HandleAll(settings, c, before).senders, e.sender);
      }
    }
  }

  // ----- accounting over a run with buffer swaps -----

  /** What the receiver's frame is exposed to: packets of the worker cores and swaps of the frames core. */
  datatype Input = Arrive(packet: Packet) | Swap

  /** The receiver's state and the frames that have been swapped out. */
  datatype Outcome = Outcome(counters: Counters, swapped: seq<seq<Rgba16>>)

  function HandleInput(settings: Settings, o: Outcome, input: Input): (o': Outcome)
    requires |o.counters.frame| == Size(settings)
    ensures |o'.counters.frame| == |o.counters.frame|
  {
    match input
    case Arrive(p) => o.(counters := Handle(settings, o.counters, Classify(settings, p)))
    case Swap =>
      Outcome(o.counters.(frame := Accumulate(Size(settings), [])), o.swapped + [o.counters.frame])
  }

  function HandleInputs(settings: Settings, c: Counters, inputs: seq<Input>): (o: Outcome)
    requires |c.frame| == Size(settings)
    ensures |o.counters.frame| == |c.frame|
  {
    if inputs == [] then Outcome(c, [])
    else HandleInput(settings, HandleInputs(settings, c, inputs[..|inputs| - 1]), inputs[|inputs| - 1])
  }

  /** The packets among the inputs. */
  function Packets(inputs: seq<Input>): (packets: seq<Packet>)
    ensures |packets| <= |inputs|
  {
    if inputs == [] then []
    else
      Packets(inputs[..|inputs| - 1])
      + (if inputs[|inputs| - 1].Arrive? then [inputs[|inputs| - 1].packet] else [])
  }

  /** The packets between one swap and the next, with those since the last swap at the end. */
  function Intervals(inputs: seq<Input>): (intervals: seq<seq<Packet>>)
    ensures intervals != []
  {
    if inputs == [] then [[]]
    else
      var before := Intervals(inputs[..|inputs| - 1]);
      match inputs[|inputs| - 1]
      case Arrive(p) => before[|before| - 1 := before[|before| - 1] + [p]]
      case Swap => before + [[]]
  }

  /** The pings of each interval. */
  function IntervalPings(settings: Settings, intervals: seq<seq<Packet>>): (pings: seq<seq<Ping>>)
    ensures |pings| == |intervals|
  {
    seq(|intervals|, k requires 0 <= k < |intervals| => Pings(settings, intervals[k]))
  }

  /** A packet joins the current interval; a swap opens a new one. */
  lemma IntervalStep(settings: Settings, inputs: seq<Input>)
    requires inputs != []
    ensures var before := Intervals(inputs[..|inputs| - 1]);
            var pings := IntervalPings(settings, before);
            var n := |before| - 1;
            IntervalPings(settings, Intervals(inputs)) ==
            match inputs[|inputs| - 1]
            case Arrive(p) => pings[..n] + [Pings(settings, before[n] + [p])]
            case Swap => pings + [[]]
  {
    NoPings(settings);
    hide Pings;
  }

  /** In every sequence of packets and swaps, each swapped frame and the current one are the
      accumulations of exactly the on-screen pings of their own interval. */
  lemma {:induction false} FramesAreIntervals(settings: Settings, c: Counters, inputs: seq<Input>)
    requires c.frame == Accumulate(Size(settings), [])
    ensures var o := HandleInputs(settings, c, inputs);
            AreFrames(Size(settings), o.swapped + [o.counters.frame],
                      IntervalPings(settings, Intervals(inputs)))
    decreases inputs
  {
    hide Classify, Handle, Accumulate, Pings, Size;
    if inputs == [] {
      NoPings(settings);
    } else {
      var init, last := inputs[..|inputs| - 1], inputs[|inputs| - 1];
      FramesAreIntervals(settings, c, init);
      var o, intervals := HandleInputs(settings, c, init), Intervals(init);
      var frames, pings := o.swapped + [o.counters.frame], IntervalPings(settings, intervals);
      var n := |o.swapped|;
      assert frames[n] == o.counters.frame && pings[n] == Pings(settings, intervals[n]);
      assert forall k :: 0 <= k < n ==> frames[k] == o.swapped[k];
      IntervalStep(settings, inputs);
      hide IntervalPings, Intervals;
      match last
      case Arrive(p) => HandleFrame(settings, o.counters, intervals[n], p);
      case Swap =>
    }
  }

  /** Swapping buffers has no effect on the counters of the senders. */
  lemma {:induction false} SendersIgnoreSwaps(settings: Settings, c: Counters, inputs: seq<Input>)
    requires |c.frame| == Size(settings)
    ensures HandleInputs(settings, c, inputs).counters.senders == HandleAll(settings, c, Packets(inputs)).senders
    decreases inputs
  {
    hide Classify, CountPing, CountSender, Accumulate;
    if inputs != [] {
      SendersIgnoreSwaps(settings, c, inputs[..|inputs| - 1]);
      if inputs[|inputs| - 1].Arrive? {
        var before := Packets(inputs[..|inputs| - 1]);
        assert Packets(inputs)[..|before|] == before;
      } else {
        assert Packets(inputs) == Packets(inputs[..|inputs| - 1]);
      }
    }
  }

  /** No ping falls between two intervals. */
  lemma {:induction false} IntervalsKeepPings(settings: Settings, inputs: seq<Input>)
    ensures PingCount(IntervalPings(settings, Intervals(inputs))) == |Pings(settings, Packets(inputs))|
    decreases inputs
  {
    hide Classify;
    if inputs == [] {
      var none := IntervalPings(settings, [[]]);
      assert none[..0] == [];
      assert PingCount(none) == 0;
    } else {
      var init, last := inputs[..|inputs| - 1], inputs[|inputs| - 1];
      IntervalsKeepPings(settings, init);
      var before := Intervals(init);
      var pings := IntervalPings(settings, before);
      var n := |before| - 1;
      IntervalStep(settings, inputs);
      hide Intervals, Pings;
      match last
      case Arrive(p) =>
        PingsAppend(settings, before[n], p);
        PingsAppend(settings, Packets(init), p);
        assert (pings[..n] + [Pings(settings, before[n] + [p])])[..n] == pings[..n];
      case Swap =>
        assert (pings + [[]])[..n + 1] == pings;
        assert Packets(inputs) == Packets(init);
    }
  }

  lemma PingsAppend(settings: Settings, packets: seq<Packet>, p: Packet)
    ensures |Pings(settings, packets + [p])| == |Pings(settings, packets)| + |Pings(settings, [p])|
  {
    hide Classify;
    assert (packets + [p])[..|packets|] == packets;
    assert [p][..0] == [];
  }

  /** Every echo request that passes the size and prefix tests is for a pixel of the image. */
  ghost predicate AllOnScreen(settings: Settings, packets: seq<Packet>) {
    forall n :: 0 <= n < |packets| && Classify(settings, packets[n]).Echo? ==>
      OnScreen(settings, Classify(settings, packets[n]).request)
  }

  lemma {:induction false} PingsOfAllOnScreen(settings: Settings, packets: seq<Packet>)
    ensures |Pings(settings, packets)| == |Senders(settings, packets)| <==> AllOnScreen(settings, packets)
    decreases packets
  {
    hide Classify;
    if packets != [] {
      var before, last := packets[..|packets| - 1], packets[|packets| - 1];
      PingsOfAllOnScreen(settings, before);
      SendersBound(settings, before);
      assert packets[|packets| - 1] == last;
    }
  }

  /** Over every sequence of packets and swaps, the ping counts of all frames, swapped or current, never
      exceed the counters of the senders, and the two totals agree exactly when every accepted ping was on
      screen and no pixel count of any frame wrapped. */
  lemma FramesAgainstSenders(settings: Settings, c: Counters, inputs: seq<Input>)
    requires c.frame == Accumulate(Size(settings), []) && c.senders == map[]
    requires |Packets(inputs)| < 0x1_0000_0000_0000_0000
    ensures var o := HandleInputs(settings, c, inputs);
            var counted, sent := AlphaOver(o.swapped + [o.counters.frame]), SumValues(o.counters.senders);
            && counted <= sent
            && (counted == sent <==>
                && AllOnScreen(settings, Packets(inputs))
                && NoFrameWraps(Size(settings), IntervalPings(settings, Intervals(inputs))))
  {
    hide Classify, HandleInputs, HandleAll, SumValues, AlphaOver, Accumulate, IntervalPings, Intervals, Packets,
         Pings, AllOnScreen;
    var o := HandleInputs(settings, c, inputs);
    FramesAreIntervals(settings, c, inputs);
    SendersIgnoreSwaps(settings, c, inputs);
    IntervalsKeepPings(settings, inputs);
    SenderTotal(settings, c, Packets(inputs));
    SendersBound(settings, Packets(inputs));
    PingsOfAllOnScreen(settings, Packets(inputs));
    AlphaOverFrames(Size(settings), o.swapped + [o.counters.frame],
                    IntervalPings(settings, Intervals(inputs)));
  }
}
