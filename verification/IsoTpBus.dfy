/** Two ISO-TP connections on the in-process bus (isotp/transport.go over virtual/bus.go): the bounded queues of
    IsoTpLink are what the two subscribers of the bus give, however the Sends on it interleave. */
module IsoTpBus {
  import opened Bits
  import opened Can
  import opened IsoTp
  import opened IsoTpReceiver
  import IsoTpLink
  import VirtualBus

  const ID_MASK: Word32 := 0x1FFF_FFFF

  /** The identifiers of the two connections: what one sends with the other subscribes to. */
  datatype Ends = Ends(tx: Word32, rx: Word32, ext: bool)
  {
    predicate Usable() { tx != rx && tx <= Limit() && rx <= Limit() }

    function Limit(): Word32 { if ext then MAX_EXT_ID else MAX_STD_ID }

    function Carry(id: Word32, d: Data): Frame { Classic(id, ext, d) }
  }

  /** The bus, and where the sending and the receiving connection stand. A connection moves on when its Send on the bus
      returns. */
  datatype World = World(bus: VirtualBus.Bus, sender: Sender, receiver: Receiver)

  datatype Act = SenderBegins | ReceiverBegins | Offers(k: nat) | Ended(k: nat) | SenderTakes | ReceiverTakes

  function Subscriber(id: Word32, depth: nat): VirtualBus.Sub {
    VirtualBus.Sub([Filter(id, ID_MASK)], depth, VirtualBus.DropNewest, true, [], [], [], [], 0, 0)
  }

  function Start(e: Ends, depth: nat, payload: Data): World {
    World(VirtualBus.New().(subs := [Subscriber(e.tx, depth), Subscriber(e.rx, depth)]), Begin(payload), Idle)
  }

  /** A Send of a frame with this identifier is in flight and has passed subscriber j. */
  ghost predicate Past(b: VirtualBus.Bus, id: Word32, j: int) {
    exists k :: 0 <= k < |b.senders| && b.senders[k].frame.id == id && b.senders[k].next > j
  }

  ghost predicate Enabled(e: Ends, cfg: Config, w: World, a: Act) {
    match a
    case SenderBegins => w.sender.Valid() && w.sender.Out().Some? && !Past(w.bus, e.tx, -1)
    case ReceiverBegins => w.receiver.Out(cfg).Some? && !Past(w.bus, e.rx, -1)
    case Offers(k) => VirtualBus.Enabled(w.bus, VirtualBus.Offer(k))
    case Ended(k) =>
      && VirtualBus.Enabled(w.bus, VirtualBus.End(k))
      && (w.bus.senders[k].frame.id == e.tx ==> w.sender.Valid() && w.sender.Out().Some?)
      && (w.bus.senders[k].frame.id == e.rx ==> w.receiver.Replying?)
    case SenderTakes => w.sender.Wants() && VirtualBus.Enabled(w.bus, VirtualBus.Consume(1))
    case ReceiverTakes =>
      w.receiver.Wants() && w.receiver.Valid() && VirtualBus.Enabled(w.bus, VirtualBus.Consume(0))
  }

  /** The step of the bus that an act is. */
  ghost function OnBus(e: Ends, cfg: Config, w: World, a: Act): VirtualBus.Step
    requires Enabled(e, cfg, w, a)
  {
    match a
    case SenderBegins => VirtualBus.Begin(e.Carry(e.tx, w.sender.Out().value))
    case ReceiverBegins => VirtualBus.Begin(e.Carry(e.rx, Continue(cfg)))
    case Offers(k) => VirtualBus.Offer(k)
    case Ended(k) => VirtualBus.End(k)
    case SenderTakes => VirtualBus.Consume(1)
    case ReceiverTakes => VirtualBus.Consume(0)
  }

  ghost predicate Allowed(e: Ends, cfg: Config, w: World, a: Act) {
    Enabled(e, cfg, w, a) && VirtualBus.Enabled(w.bus, OnBus(e, cfg, w, a))
  }

  ghost function Next(e: Ends, cfg: Config, w: World, a: Act): World
    requires Allowed(e, cfg, w, a)
  {
    var bus := VirtualBus.Next(w.bus, OnBus(e, cfg, w, a));
    match a
    case Ended(k) =>
      var id := w.bus.senders[k].frame.id;
      World(bus, if id == e.tx then w.sender.Sent() else w.sender, if id == e.rx then w.receiver.next else w.receiver)
    case SenderTakes => World(bus, w.sender.Got(w.bus.subs[1].queue[0].data), w.receiver)
    case ReceiverTakes => World(bus, w.sender, w.receiver.Got(cfg, w.bus.subs[0].queue[0].data))
    case _ => w.(bus := bus)
  }

  ghost function Run(e: Ends, cfg: Config, depth: nat, payload: Data, acts: seq<Act>): Option<World> {
    if acts == [] then Some(Start(e, depth, payload))
    else
      var w, a := Run(e, cfg, depth, payload, acts[..|acts| - 1]), acts[|acts| - 1];
      if w.Some? && Allowed(e, cfg, w.value, a) then Some(Next(e, cfg, w.value, a)) else None
  }

  // ----- Filters on identifiers -----

  lemma {:induction false} OnesBit(n: nat, k: nat)
    requires k < n
    ensures Bit(Pow2(n) - 1, k)
    decreases k
  {
    assert (Pow2(n) - 1) / 2 == Pow2(n - 1) - 1;
    if k == 0 {
    } else {
      OnesBit(n - 1, k - 1);
    }
  }

  /** The mask a connection subscribes with tells all identifiers apart. */
  lemma MatchIff(e: Ends, id: Word32, other: Word32, d: Data)
    requires id <= MAX_EXT_ID && other <= MAX_EXT_ID
    ensures VirtualBus.MatchesAny([Filter(id, ID_MASK)], e.Carry(other, d)) <==> id == other
  {
    var fl, f := Filter(id, ID_MASK), e.Carry(other, d);
    assert [fl][0] == fl;
    PassesIff(fl, f);
    if Passes(fl, f) {
      assert Pow2(8) == 0x100 && Pow2(16) == 0x1_0000 && Pow2(24) == 0x100_0000 && Pow2(29) == 0x2000_0000;
      forall k: nat | k < 29 ensures Bit(id, k) == Bit(other, k) {
        OnesBit(29, k);
      }
      BitsInjective(id, other, 29);
    }
  }

  // ----- A DropNewest subscriber is a bounded queue -----

  function Datas(q: seq<Frame>): (ds: seq<Data>)
    ensures |ds| == |q|
  {
    seq(|q|, i requires 0 <= i < |q| => q[i].data)
  }

  lemma PushedData(q: seq<Frame>, f: Frame, depth: Option<nat>)
    ensures Datas(IsoTpLink.Push(q, f, depth)) == IsoTpLink.Push(Datas(q), f.data, depth)
  {
  }

  ghost predicate SameSettings(s: VirtualBus.Sub, t: VirtualBus.Sub) {
    t.filters == s.filters && t.depth == s.depth && t.policy == s.policy
  }

  /** In any state of any bus: the offer of a Send to a DropNewest subscriber is Push on its queue if the frame matches,
      counted as a drop if the queue is full, and nothing otherwise; no other subscriber is touched. */
  lemma OfferIsPush(b: VirtualBus.Bus, k: nat)
    requires VirtualBus.Enabled(b, VirtualBus.Offer(k)) && VirtualBus.SubOf(b, k).policy == VirtualBus.DropNewest
    ensures var c, d, s := VirtualBus.Next(b, VirtualBus.Offer(k)), b.senders[k], VirtualBus.SubOf(b, k);
            && c.senders == b.senders[k := d.(next := d.next + 1)]
            && c.closed == b.closed && c.writer == b.writer
            && |c.subs| == |b.subs| && c.subs == b.subs[d.next := c.subs[d.next]]
            && SameSettings(s, c.subs[d.next])
            && c.drops == b.drops + (if VirtualBus.MatchesAny(s.filters, d.frame) && VirtualBus.Full(s) then 1 else 0)
            && c.subs[d.next].queue == if VirtualBus.MatchesAny(s.filters, d.frame)
                                       then IsoTpLink.Push(s.queue, d.frame, Some(s.depth)) else s.queue
  {
    hide VirtualBus.MatchesAny;
  }

  // ----- Every run on the bus is a run over two bounded queues -----

  ghost predicate Wired(e: Ends, depth: nat, b: VirtualBus.Bus) {
    && |b.subs| == 2 && !b.closed && !b.writer
    && SameSettings(Subscriber(e.tx, depth), b.subs[0]) && SameSettings(Subscriber(e.rx, depth), b.subs[1])
  }

  /** A Send in flight carries what its connection is about to have sent. */
  ghost predicate FlightOk(e: Ends, cfg: Config, w: World, d: VirtualBus.Sender)
    requires w.sender.Valid()
  {
    && d.phase == VirtualBus.Offering && d.next <= 2
    && (|| (w.sender.Out().Some? && d.frame == e.Carry(e.tx, w.sender.Out().value))
        || (w.receiver.Replying? && d.frame == e.Carry(e.rx, Continue(cfg))))
  }

  ghost predicate Flights(e: Ends, cfg: Config, w: World)
    requires w.sender.Valid()
  {
    && (forall k :: 0 <= k < |w.bus.senders| ==> FlightOk(e, cfg, w, w.bus.senders[k]))
    && OnePerEnd(w.bus)
  }

  ghost predicate OnePerEnd(b: VirtualBus.Bus) {
    forall i, k :: 0 <= i < k < |b.senders| ==> b.senders[i].frame.id != b.senders[k].frame.id
  }

  /** The state over two queues: a connection has sent its frame once the subscriber it is for has been offered it. */
  ghost predicate Simulates(e: Ends, depth: nat, w: World, s: IsoTpLink.Sys)
    requires |w.bus.subs| == 2 && w.sender.Valid()
  {
    && (if Past(w.bus, e.tx, 0) then w.sender.Out().Some? && s.sender == w.sender.Sent() else s.sender == w.sender)
    && (if Past(w.bus, e.rx, 1) then w.receiver.Replying? && s.receiver == w.receiver.next
        else s.receiver == w.receiver)
    && s.toRx == Datas(w.bus.subs[0].queue) && s.toTx == Datas(w.bus.subs[1].queue)
  }

  ghost predicate Related(e: Ends, cfg: Config, depth: nat, w: World, s: IsoTpLink.Sys) {
    && w.sender.Valid() && w.receiver.Valid()
    && Wired(e, depth, w.bus) && Flights(e, cfg, w) && Simulates(e, depth, w, s)
  }

  lemma PastMoved(b: VirtualBus.Bus, c: VirtualBus.Bus, k: nat, id: Word32, j: int)
    requires OnePerEnd(b) && k < |b.senders|
    requires var d := b.senders[k]; c.senders == b.senders[k := d.(next := d.next + 1)]
    ensures OnePerEnd(c)
    ensures Past(c, id, j) <==> if id == b.senders[k].frame.id then b.senders[k].next + 1 > j else Past(b, id, j)
  {
    var d := b.senders[k];
    assert c.senders[k].frame.id == d.frame.id && c.senders[k].next == d.next + 1;
    assert forall i :: 0 <= i < |c.senders| && i != k ==> c.senders[i] == b.senders[i];
  }

  lemma PastOne(b: VirtualBus.Bus, k: nat, j: int)
    requires OnePerEnd(b) && k < |b.senders|
    ensures Past(b, b.senders[k].frame.id, j) <==> b.senders[k].next > j
  {
  }

  lemma PastBegun(b: VirtualBus.Bus, c: VirtualBus.Bus, d: VirtualBus.Sender, id: Word32, j: int)
    requires OnePerEnd(b) && !Past(b, d.frame.id, -1) && c.senders == b.senders + [d] && d.next == 0 && j >= -1
    ensures OnePerEnd(c)
    ensures Past(c, id, j) <==> Past(b, id, j) || (id == d.frame.id && j == -1)
  {
    assert c.senders[|b.senders|] == d;
    assert forall i :: 0 <= i < |b.senders| ==> c.senders[i] == b.senders[i];
  }

  lemma PastEnded(b: VirtualBus.Bus, c: VirtualBus.Bus, k: nat, id: Word32, j: int)
    requires OnePerEnd(b) && k < |b.senders| && c.senders == b.senders[..k] + b.senders[k + 1..]
    ensures OnePerEnd(c)
    ensures forall i :: 0 <= i < |c.senders| ==>
              c.senders[i] in b.senders && c.senders[i].frame.id != b.senders[k].frame.id
    ensures Past(c, id, j) <==> id != b.senders[k].frame.id && Past(b, id, j)
  {
    assert forall i :: 0 <= i < |c.senders| ==> c.senders[i] == b.senders[if i < k then i else i + 1];
    if id != b.senders[k].frame.id && Past(b, id, j) {
      var i :| 0 <= i < |b.senders| && b.senders[i].frame.id == id && b.senders[i].next > j;
      assert c.senders[if i < k then i else i - 1] == b.senders[i];
    }
  }

  lemma ValidFrames(e: Ends, cfg: Config, s: Sender)
    requires e.Usable() && s.Valid()
    ensures s.Out().Some? ==> Validates(e.Carry(e.tx, s.Out().value))
    ensures Validates(e.Carry(e.rx, Continue(cfg)))
  {
  }

  lemma BeginStep(e: Ends, cfg: Config, depth: nat, w: World, s: IsoTpLink.Sys, a: Act)
    requires e.Usable() && Related(e, cfg, depth, w, s) && Allowed(e, cfg, w, a)
    requires a.SenderBegins? || a.ReceiverBegins?
    ensures Related(e, cfg, depth, Next(e, cfg, w, a), s)
  {
    hide Validates, Past;
    var c := Next(e, cfg, w, a).bus;
    ValidFrames(e, cfg, w.sender);
    var d := c.senders[|w.bus.senders|];
    PastBegun(w.bus, c, d, e.tx, 0);
    PastBegun(w.bus, c, d, e.rx, 1);
  }

  lemma EndStep(e: Ends, cfg: Config, depth: nat, w: World, s: IsoTpLink.Sys, k: nat)
    requires e.Usable() && Related(e, cfg, depth, w, s) && Allowed(e, cfg, w, Ended(k))
    ensures Related(e, cfg, depth, Next(e, cfg, w, Ended(k)), s)
  {
    hide Past;
    var d, c := w.bus.senders[k], Next(e, cfg, w, Ended(k)).bus;
    PastOne(w.bus, k, 0);
    PastOne(w.bus, k, 1);
    PastEnded(w.bus, c, k, e.tx, 0);
    PastEnded(w.bus, c, k, e.rx, 1);
  }

  /** The move that the next offer of Send k is, if it is to the subscriber it is for. */
  function Offering(e: Ends, w: World, k: nat): Option<IsoTpLink.Move>
    requires k < |w.bus.senders|
  {
    var d := w.bus.senders[k];
    if d.next == 0 && d.frame.id == e.tx then Some(IsoTpLink.SenderPuts)
    else if d.next == 1 && d.frame.id == e.rx then Some(IsoTpLink.ReceiverPuts) else None
  }

  lemma OfferFlights(e: Ends, cfg: Config, depth: nat, w: World, s: IsoTpLink.Sys, k: nat)
    requires e.Usable() && Related(e, cfg, depth, w, s) && Allowed(e, cfg, w, Offers(k))
    ensures Wired(e, depth, Next(e, cfg, w, Offers(k)).bus) && Flights(e, cfg, Next(e, cfg, w, Offers(k)))
  {
    hide Past, VirtualBus.MatchesAny, Simulates;
    OfferIsPush(w.bus, k);
    PastMoved(w.bus, Next(e, cfg, w, Offers(k)).bus, k, e.tx, 0);
  }

  lemma OfferStep(e: Ends, cfg: Config, depth: nat, w: World, s: IsoTpLink.Sys, k: nat)
    requires e.Usable() && Related(e, cfg, depth, w, s) && Allowed(e, cfg, w, Offers(k))
    ensures var m, w' := Offering(e, w, k), Next(e, cfg, w, Offers(k));
            if m.None? then Related(e, cfg, depth, w', s)
            else IsoTpLink.Enabled(cfg, s, m.value)
                 && Related(e, cfg, depth, w', IsoTpLink.Next(cfg, Some(depth), s, m.value))
  {
    hide Past, VirtualBus.MatchesAny;
    var d, c := w.bus.senders[k], Next(e, cfg, w, Offers(k)).bus;
    OfferFlights(e, cfg, depth, w, s, k);
    OfferIsPush(w.bus, k);
    assert FlightOk(e, cfg, w, d);
    PastOne(w.bus, k, 0);
    PastOne(w.bus, k, 1);
    PastMoved(w.bus, c, k, e.tx, 0);
    PastMoved(w.bus, c, k, e.rx, 1);
    MatchIff(e, if d.next == 0 then e.tx else e.rx, d.frame.id, d.frame.data);
    hide OnePerEnd;
    PushedData(w.bus.subs[d.next].queue, d.frame, Some(depth));
  }

  lemma TakeStep(e: Ends, cfg: Config, depth: nat, w: World, s: IsoTpLink.Sys, a: Act) returns (m: IsoTpLink.Move)
    requires e.Usable() && Related(e, cfg, depth, w, s) && Allowed(e, cfg, w, a)
    requires a.SenderTakes? || a.ReceiverTakes?
    ensures m == if a.SenderTakes? then IsoTpLink.SenderTakes else IsoTpLink.ReceiverTakes
    ensures IsoTpLink.Enabled(cfg, s, m)
    ensures Related(e, cfg, depth, Next(e, cfg, w, a), IsoTpLink.Next(cfg, Some(depth), s, m))
    ensures Next(e, cfg, w, a).bus.senders == w.bus.senders
  {
    m := if a.SenderTakes? then IsoTpLink.SenderTakes else IsoTpLink.ReceiverTakes;
  }

  // ----- Counting acts -----

  /** How many acts the Send in flight with this identifier has taken. */
  ghost function Spent(b: VirtualBus.Bus, id: Word32): nat {
    (if Past(b, id, -1) then 1 else 0) + (if Past(b, id, 0) then 1 else 0) + (if Past(b, id, 1) then 1 else 0)
  }

  /** A put is four acts of the bus, a take is one. */
  function Cost(m: Option<IsoTpLink.Move>): nat {
    match m
    case None => 0
    case Some(m) => if m.SenderPuts? || m.ReceiverPuts? then 4 else 1
  }

  function Costs(moves: seq<IsoTpLink.Move>): (n: nat)
    ensures n <= 4 * |moves|
  {
    if moves == [] then 0 else Costs(moves[..|moves| - 1]) + Cost(Some(moves[|moves| - 1]))
  }

  /** The acts that Sends in flight have taken, less the cost of those that count as sent. */
  ghost function Extra(e: Ends, b: VirtualBus.Bus): int {
    Spent(b, e.tx) + Spent(b, e.rx) - (if Past(b, e.tx, 0) then 4 else 0) - (if Past(b, e.rx, 1) then 4 else 0)
  }

  /** Each act is spent once, and is paid for by the move it is. */
  ghost predicate Paid(e: Ends, b: VirtualBus.Bus, c: VirtualBus.Bus, m: Option<IsoTpLink.Move>) {
    Extra(e, c) == Extra(e, b) + 1 - Cost(m)
  }

  lemma BeginPaid(e: Ends, cfg: Config, depth: nat, w: World, s: IsoTpLink.Sys, a: Act)
    requires e.Usable() && Related(e, cfg, depth, w, s) && Allowed(e, cfg, w, a)
    requires a.SenderBegins? || a.ReceiverBegins?
    ensures Paid(e, w.bus, Next(e, cfg, w, a).bus, None)
  {
    hide Past;
    var b, c := w.bus, Next(e, cfg, w, a).bus;
    ValidFrames(e, cfg, w.sender);
    var d := c.senders[|b.senders|];
    forall id, j | id in {e.tx, e.rx} && j in {-1, 0, 1}
      ensures Past(c, id, j) <==> Past(b, id, j) || (id == d.frame.id && j == -1)
    {
      PastBegun(b, c, d, id, j);
    }
  }

  lemma EndPaid(e: Ends, cfg: Config, depth: nat, w: World, s: IsoTpLink.Sys, k: nat)
    requires e.Usable() && Related(e, cfg, depth, w, s) && Allowed(e, cfg, w, Ended(k))
    ensures Paid(e, w.bus, Next(e, cfg, w, Ended(k)).bus, None)
  {
    hide Past;
    var b, c := w.bus, Next(e, cfg, w, Ended(k)).bus;
    forall id, j | id in {e.tx, e.rx} && j in {-1, 0, 1}
      ensures Past(b, b.senders[k].frame.id, j)
      ensures Past(c, id, j) <==> id != b.senders[k].frame.id && Past(b, id, j)
    {
      PastOne(b, k, j);
      PastEnded(b, c, k, id, j);
    }
  }

  lemma OfferPaid(e: Ends, cfg: Config, depth: nat, w: World, s: IsoTpLink.Sys, k: nat, m: Option<IsoTpLink.Move>)
    requires e.Usable() && Related(e, cfg, depth, w, s) && Allowed(e, cfg, w, Offers(k)) && m == Offering(e, w, k)
    ensures Paid(e, w.bus, Next(e, cfg, w, Offers(k)).bus, m)
  {
    hide Past, VirtualBus.MatchesAny;
    var b, c := w.bus, Next(e, cfg, w, Offers(k)).bus;
    OfferIsPush(b, k);
    forall id, j | id in {e.tx, e.rx} && j in {-1, 0, 1}
      ensures Past(b, b.senders[k].frame.id, j) <==> b.senders[k].next > j
      ensures Past(c, id, j) <==> if id == b.senders[k].frame.id then b.senders[k].next + 1 > j else Past(b, id, j)
    {
      PastOne(b, k, j);
      PastMoved(b, c, k, id, j);
    }
  }

  lemma TakePaid(e: Ends, cfg: Config, w: World, a: Act, m: IsoTpLink.Move)
    requires Allowed(e, cfg, w, a) && (a.SenderTakes? || a.ReceiverTakes?) && (m.SenderTakes? || m.ReceiverTakes?)
    ensures Paid(e, w.bus, Next(e, cfg, w, a).bus, Some(m))
  {
    var c := Next(e, cfg, w, a).bus;
    assert c.senders == w.bus.senders;
    assert forall id, j :: Past(c, id, j) == Past(w.bus, id, j);
  }

  lemma ActStep(e: Ends, cfg: Config, depth: nat, w: World, s: IsoTpLink.Sys, a: Act)
    returns (m: Option<IsoTpLink.Move>)
    requires e.Usable() && Related(e, cfg, depth, w, s) && Allowed(e, cfg, w, a)
    ensures var w' := Next(e, cfg, w, a);
            && Paid(e, w.bus, w'.bus, m)
            && if m.None? then Related(e, cfg, depth, w', s)
               else IsoTpLink.Enabled(cfg, s, m.value)
                    && Related(e, cfg, depth, w', IsoTpLink.Next(cfg, Some(depth), s, m.value))
  {
    m := None;
    if a.SenderBegins? || a.ReceiverBegins? {
      hide *;
      BeginStep(e, cfg, depth, w, s, a);
      BeginPaid(e, cfg, depth, w, s, a);
    } else if a.Offers? {
      assert a.k < |w.bus.senders|;
      m := Offering(e, w, a.k);
      hide *;
      OfferStep(e, cfg, depth, w, s, a.k);
      OfferPaid(e, cfg, depth, w, s, a.k, m);
    } else if a.Ended? {
      hide *;
      EndStep(e, cfg, depth, w, s, a.k);
      EndPaid(e, cfg, depth, w, s, a.k);
    } else {
      hide *;
      var take := TakeStep(e, cfg, depth, w, s, a);
      TakePaid(e, cfg, w, a, take);
      m := Some(take);
    }
  }

  lemma StartRelated(e: Ends, cfg: Config, depth: nat, payload: Data)
    requires 1 <= |payload| <= MAX_PAYLOAD
    ensures Related(e, cfg, depth, Start(e, depth, payload), IsoTpLink.Start(payload))
    ensures Extra(e, Start(e, depth, payload).bus) == 0
  {
    assert forall id, j :: !Past(Start(e, depth, payload).bus, id, j);
  }

  /** Whatever the interleaving of the two connections' Sends on the bus, and of their receives, the transfer is a run
      over two queues as deep as the subscriptions. */
  lemma {:induction false} BusRefinesLink(e: Ends, cfg: Config, depth: nat, payload: Data, acts: seq<Act>)
    returns (moves: seq<IsoTpLink.Move>)
    requires e.Usable() && 1 <= |payload| <= MAX_PAYLOAD && Run(e, cfg, depth, payload, acts).Some?
    ensures var w, s := Run(e, cfg, depth, payload, acts).value, IsoTpLink.Run(cfg, Some(depth), payload, moves);
            s.Some? && Related(e, cfg, depth, w, s.value) && |acts| == Costs(moves) + Extra(e, w.bus)
    decreases |acts|
  {
    if acts == [] {
      moves := [];
      StartRelated(e, cfg, depth, payload);
    } else {
      hide Related, Allowed, Next, IsoTpLink.Next, IsoTpLink.Enabled, Extra, IsoTpLink.Start, Start;
      var before, a := acts[..|acts| - 1], acts[|acts| - 1];
      moves := BusRefinesLink(e, cfg, depth, payload, before);
      var s := IsoTpLink.Run(cfg, Some(depth), payload, moves).value;
      var m := ActStep(e, cfg, depth, Run(e, cfg, depth, payload, before).value, s, a);
      if m.Some? {
        var more := moves + [m.value];
        assert more[..|more| - 1] == moves;
        moves := more;
      }
    }
  }

  /** The act that a move starts with. */
  function ActOf(m: IsoTpLink.Move): Act {
    match m
    case SenderPuts => SenderBegins
    case ReceiverTakes => ReceiverTakes
    case ReceiverPuts => ReceiverBegins
    case SenderTakes => SenderTakes
  }

  lemma MoveIsAct(e: Ends, cfg: Config, depth: nat, w: World, s: IsoTpLink.Sys, m: IsoTpLink.Move)
    requires Related(e, cfg, depth, w, s) && w.bus.senders == []
    ensures IsoTpLink.Enabled(cfg, s, m) <==> Allowed(e, cfg, w, ActOf(m))
  {
    assert forall id, j :: !Past(w.bus, id, j);
  }

  // ----- Every run over two bounded queues is a run on the bus -----

  /** The acts have brought about world w, in which no Send is in flight, and it is state s. */
  ghost predicate Quiet(e: Ends, cfg: Config, depth: nat, payload: Data, acts: seq<Act>, w: World, s: IsoTpLink.Sys) {
    Run(e, cfg, depth, payload, acts) == Some(w) && Related(e, cfg, depth, w, s) && w.bus.senders == []
  }

  /** The Send alone in flight makes its next step. */
  lemma FlyOn(e: Ends, cfg: Config, depth: nat, w: World, s: IsoTpLink.Sys, d: VirtualBus.Sender)
    requires e.Usable() && Related(e, cfg, depth, w, s) && w.bus.senders == [d]
    ensures var a := if d.next < 2 then Offers(0) else Ended(0);
            && Allowed(e, cfg, w, a)
            && Next(e, cfg, w, a).bus.senders == if d.next < 2 then [d.(next := d.next + 1)] else []
  {
    hide VirtualBus.MatchesAny, Simulates;
    assert FlightOk(e, cfg, w, w.bus.senders[0]);
    if d.next < 2 {
      OfferIsPush(w.bus, 0);
    }
  }

  /** The Send that a put is, on its own. */
  lemma PutOnBus(e: Ends, cfg: Config, depth: nat, payload: Data, acts: seq<Act>, w: World, s: IsoTpLink.Sys,
                 m: IsoTpLink.Move)
    returns (acts': seq<Act>, w': World)
    requires e.Usable() && Quiet(e, cfg, depth, payload, acts, w, s)
    requires IsoTpLink.Enabled(cfg, s, m) && (m.SenderPuts? || m.ReceiverPuts?)
    ensures Quiet(e, cfg, depth, payload, acts', w', IsoTpLink.Next(cfg, Some(depth), s, m))
  {
    hide Run, Related, Allowed, Next, IsoTpLink.Next, IsoTpLink.Enabled;
    var a, t := ActOf(m), IsoTpLink.Next(cfg, Some(depth), s, m);
    MoveIsAct(e, cfg, depth, w, s, m);
    var d := Launched(e, cfg, depth, w, s, a);
    BeginStep(e, cfg, depth, w, s, a);
    acts', w' := More(e, cfg, depth, payload, acts, w, a);
    FlyOn(e, cfg, depth, w', s, d);
    OfferStep(e, cfg, depth, w', s, 0);
    acts', w' := More(e, cfg, depth, payload, acts', w', Offers(0));
    var s' := if m.SenderPuts? then t else s;
    FlyOn(e, cfg, depth, w', s', d.(next := 1));
    OfferStep(e, cfg, depth, w', s', 0);
    acts', w' := More(e, cfg, depth, payload, acts', w', Offers(0));
    FlyOn(e, cfg, depth, w', t, d.(next := 2));
    EndStep(e, cfg, depth, w', t, 0);
    acts', w' := More(e, cfg, depth, payload, acts', w', Ended(0));
  }

  lemma More(e: Ends, cfg: Config, depth: nat, payload: Data, acts: seq<Act>, w: World, a: Act)
    returns (acts': seq<Act>, w': World)
    requires Run(e, cfg, depth, payload, acts) == Some(w) && Allowed(e, cfg, w, a)
    ensures w' == Next(e, cfg, w, a) && Run(e, cfg, depth, payload, acts') == Some(w')
  {
    acts', w' := acts + [a], Next(e, cfg, w, a);
    assert (acts + [a])[..|acts + [a]| - 1] == acts;
  }

  lemma Launched(e: Ends, cfg: Config, depth: nat, w: World, s: IsoTpLink.Sys, a: Act) returns (d: VirtualBus.Sender)
    requires e.Usable() && Related(e, cfg, depth, w, s) && Allowed(e, cfg, w, a) && w.bus.senders == []
    requires a.SenderBegins? || a.ReceiverBegins?
    ensures Next(e, cfg, w, a).bus.senders == [d] && d.next == 0
    ensures d.frame.id == if a.SenderBegins? then e.tx else e.rx
  {
    ValidFrames(e, cfg, w.sender);
    d := Next(e, cfg, w, a).bus.senders[0];
  }

  lemma MoveOnBus(e: Ends, cfg: Config, depth: nat, payload: Data, acts: seq<Act>, w: World, s: IsoTpLink.Sys,
                  m: IsoTpLink.Move)
    returns (acts': seq<Act>, w': World)
    requires e.Usable() && Quiet(e, cfg, depth, payload, acts, w, s) && IsoTpLink.Enabled(cfg, s, m)
    ensures Quiet(e, cfg, depth, payload, acts', w', IsoTpLink.Next(cfg, Some(depth), s, m))
  {
    if m.SenderPuts? || m.ReceiverPuts? {
      acts', w' := PutOnBus(e, cfg, depth, payload, acts, w, s, m);
    } else {
      hide Run, Related, Allowed, Next, IsoTpLink.Next, IsoTpLink.Enabled;
      MoveIsAct(e, cfg, depth, w, s, m);
      var m' := TakeStep(e, cfg, depth, w, s, ActOf(m));
      acts', w' := More(e, cfg, depth, payload, acts, w, ActOf(m));
    }
  }

  /** The converse: each run over the two queues happens on the bus, when the Sends do not overlap. */
  lemma {:induction false} LinkRunsOnBus(e: Ends, cfg: Config, depth: nat, payload: Data, moves: seq<IsoTpLink.Move>)
    returns (acts: seq<Act>, w: World)
    requires e.Usable() && 1 <= |payload| <= MAX_PAYLOAD
    requires IsoTpLink.Run(cfg, Some(depth), payload, moves).Some?
    ensures Quiet(e, cfg, depth, payload, acts, w, IsoTpLink.Run(cfg, Some(depth), payload, moves).value)
    decreases |moves|
  {
    if moves == [] {
      acts, w := [], Start(e, depth, payload);
      StartRelated(e, cfg, depth, payload);
    } else {
      hide Quiet, IsoTpLink.Next, IsoTpLink.Enabled;
      var before := moves[..|moves| - 1];
      acts, w := LinkRunsOnBus(e, cfg, depth, payload, before);
      var s := IsoTpLink.Run(cfg, Some(depth), payload, before).value;
      acts, w := MoveOnBus(e, cfg, depth, payload, acts, w, s, moves[|moves| - 1]);
    }
  }

  /** No act can be made. */
  ghost predicate AtRest(e: Ends, cfg: Config, w: World) { forall a :: !Allowed(e, cfg, w, a) }

  /** A DropNewest Send never waits. */
  lemma FlightMoves(e: Ends, cfg: Config, depth: nat, w: World, s: IsoTpLink.Sys)
    requires e.Usable() && Related(e, cfg, depth, w, s) && w.bus.senders != []
    ensures !AtRest(e, cfg, w)
  {
    hide VirtualBus.MatchesAny;
    assert FlightOk(e, cfg, w, w.bus.senders[0]);
    assert Allowed(e, cfg, w, if w.bus.senders[0].next < 2 then Offers(0) else Ended(0));
  }

  lemma ActIsMove(e: Ends, cfg: Config, depth: nat, w: World, s: IsoTpLink.Sys, a: Act)
    requires Related(e, cfg, depth, w, s) && w.bus.senders == [] && Allowed(e, cfg, w, a)
    ensures !IsoTpLink.Stuck(cfg, s)
  {
    var m := if a.SenderBegins? then IsoTpLink.SenderPuts else if a.SenderTakes? then IsoTpLink.SenderTakes
             else if a.ReceiverBegins? then IsoTpLink.ReceiverPuts else IsoTpLink.ReceiverTakes;
    assert a == ActOf(m);
    MoveIsAct(e, cfg, depth, w, s, m);
  }

  /** Nothing more can happen exactly when no Send is in flight and the two queues are stuck. */
  lemma AtRestIff(e: Ends, cfg: Config, depth: nat, w: World, s: IsoTpLink.Sys)
    requires e.Usable() && Related(e, cfg, depth, w, s)
    ensures AtRest(e, cfg, w) <==> w.bus.senders == [] && IsoTpLink.Stuck(cfg, s)
  {
    hide Related, Allowed, IsoTpLink.Enabled;
    if w.bus.senders != [] {
      FlightMoves(e, cfg, depth, w, s);
    } else if a :| Allowed(e, cfg, w, a) {
      ActIsMove(e, cfg, depth, w, s, a);
    } else {
      forall m ensures !IsoTpLink.Enabled(cfg, s, m) {
        MoveIsAct(e, cfg, depth, w, s, m);
      }
    }
  }

  /** A transfer over the bus, on subscriptions that hold a block or every consecutive frame, under every interleaving:
      it ends, and when nothing more can happen the payload is delivered exactly, both queues are empty, and the
      sender has finished unless the block size divides the number of consecutive frames. */
  lemma TransferOverBus(e: Ends, cfg: Config, depth: nat, payload: Data, acts: seq<Act>)
    requires e.Usable() && 8 <= |payload| <= MAX_PAYLOAD && IsoTpLink.Roomy(cfg, payload, Some(depth))
    requires Run(e, cfg, depth, payload, acts).Some?
    ensures |acts| <= 4 * IsoTpLink.WholeRun(cfg, payload) + 3
    ensures var w := Run(e, cfg, depth, payload, acts).value;
            AtRest(e, cfg, w) ==>
              && |w.bus.subs| == 2 && w.bus.senders == []
              && w.bus.subs[0].queue == [] && w.bus.subs[1].queue == []
              && w.receiver == Delivered(payload)
              && w.sender == if cfg.blockSize > 0 && CFCount(payload) % cfg.blockSize == 0
                             then AwaitBlock([], (CFCount(payload) + 1) % 0x100) else Finished
  {
    hide Allowed, Next, Run, IsoTpLink.Run, IsoTpLink.Enabled, IsoTpLink.Stuck, CFCount;
    var moves := BusRefinesLink(e, cfg, depth, payload, acts);
    var w, s := Run(e, cfg, depth, payload, acts).value, IsoTpLink.Run(cfg, Some(depth), payload, moves).value;
    IsoTpLink.TwoParty(cfg, Some(depth), payload, moves);
    AtRestIff(e, cfg, depth, w, s);
    SpentInOrder(w.bus, e.tx);
    SpentInOrder(w.bus, e.rx);
  }

  lemma SpentInOrder(b: VirtualBus.Bus, id: Word32)
    ensures Past(b, id, 1) ==> Past(b, id, 0)
    ensures Past(b, id, 0) ==> Past(b, id, -1)
  {
  }

  // ----- What the bus drops -----

  /** An offer for which the queue has room drops nothing. */
  lemma OfferWithRoom(e: Ends, cfg: Config, depth: nat, w: World, s: IsoTpLink.Sys, k: nat)
    requires e.Usable() && Related(e, cfg, depth, w, s) && Allowed(e, cfg, w, Offers(k))
    requires var m := Offering(e, w, k);
             m.Some? ==> IsoTpLink.Enabled(cfg, s, m.value)
                         && IsoTpLink.Next(cfg, Some(depth), s, m.value) == IsoTpLink.Next(cfg, None, s, m.value)
    ensures Next(e, cfg, w, Offers(k)).bus.drops == w.bus.drops
  {
    hide Past, VirtualBus.MatchesAny, OnePerEnd;
    var d := w.bus.senders[k];
    assert FlightOk(e, cfg, w, d);
    OfferIsPush(w.bus, k);
    MatchIff(e, if d.next == 0 then e.tx else e.rx, d.frame.id, d.frame.data);
  }

  lemma OthersDropNothing(e: Ends, cfg: Config, w: World, a: Act)
    requires Allowed(e, cfg, w, a) && !a.Offers?
    ensures Next(e, cfg, w, a).bus.drops == w.bus.drops
  {
  }

  lemma NextIsLossless(cfg: Config, depth: nat, payload: Data, moves: seq<IsoTpLink.Move>, s: IsoTpLink.Sys,
                       m: IsoTpLink.Move)
    requires 8 <= |payload| <= MAX_PAYLOAD && IsoTpLink.Roomy(cfg, payload, Some(depth))
    requires IsoTpLink.Run(cfg, Some(depth), payload, moves) == Some(s) && IsoTpLink.Enabled(cfg, s, m)
    ensures IsoTpLink.Next(cfg, Some(depth), s, m) == IsoTpLink.Next(cfg, None, s, m)
  {
    hide IsoTpLink.Next, IsoTpLink.Enabled, IsoTpLink.Roomy;
    IsoTpLink.NothingDropped(cfg, depth, payload, moves);
    IsoTpLink.NothingDropped(cfg, depth, payload, moves + [m]);
    assert (moves + [m])[..|moves + [m]| - 1] == moves;
  }

  lemma {:induction false} RoomyDropsNothing(e: Ends, cfg: Config, depth: nat, payload: Data, acts: seq<Act>)
    requires e.Usable() && 8 <= |payload| <= MAX_PAYLOAD && IsoTpLink.Roomy(cfg, payload, Some(depth))
    requires Run(e, cfg, depth, payload, acts).Some?
    ensures Run(e, cfg, depth, payload, acts).value.bus.drops == 0
    decreases |acts|
  {
    if acts == [] {
    } else {
      hide Related, Next, Allowed, IsoTpLink.Roomy, IsoTpLink.Run, IsoTpLink.Next, IsoTpLink.Enabled;
      var before, a := acts[..|acts| - 1], acts[|acts| - 1];
      RoomyDropsNothing(e, cfg, depth, payload, before);
      var w := Run(e, cfg, depth, payload, before).value;
      if a.Offers? {
        var moves := BusRefinesLink(e, cfg, depth, payload, before);
        var s := IsoTpLink.Run(cfg, Some(depth), payload, moves).value;
        OffererInFlight(e, cfg, w, a.k);
        OfferStep(e, cfg, depth, w, s, a.k);
        if Offering(e, w, a.k).Some? {
          NextIsLossless(cfg, depth, payload, moves, s, Offering(e, w, a.k).value);
        }
        OfferWithRoom(e, cfg, depth, w, s, a.k);
      } else {
        OthersDropNothing(e, cfg, w, a);
      }
    }
  }

  lemma OffererInFlight(e: Ends, cfg: Config, w: World, k: nat)
    requires Allowed(e, cfg, w, Offers(k))
    ensures k < |w.bus.senders|
  {
  }

  /** A put to a full queue is dropped. */
  lemma DropOnFull(e: Ends, cfg: Config, depth: nat, payload: Data, acts: seq<Act>, w: World, s: IsoTpLink.Sys)
    returns (acts': seq<Act>, w': World)
    requires e.Usable() && Quiet(e, cfg, depth, payload, acts, w, s)
    requires IsoTpLink.Enabled(cfg, s, IsoTpLink.SenderPuts) && |s.toRx| >= depth
    ensures Run(e, cfg, depth, payload, acts') == Some(w') && w'.bus.drops > 0
  {
    hide Run, Related, Allowed, Next, IsoTpLink.Next;
    MoveIsAct(e, cfg, depth, w, s, IsoTpLink.SenderPuts);
    var d := Launched(e, cfg, depth, w, s, SenderBegins);
    BeginStep(e, cfg, depth, w, s, SenderBegins);
    acts', w' := More(e, cfg, depth, payload, acts, w, SenderBegins);
    FlyOn(e, cfg, depth, w', s, d);
    FullDrops(e, cfg, depth, w', s, d);
    acts', w' := More(e, cfg, depth, payload, acts', w', Offers(0));
  }

  lemma FullDrops(e: Ends, cfg: Config, depth: nat, w: World, s: IsoTpLink.Sys, d: VirtualBus.Sender)
    requires e.Usable() && Related(e, cfg, depth, w, s) && Allowed(e, cfg, w, Offers(0))
    requires w.bus.senders == [d] && d.next == 0 && d.frame.id == e.tx && |s.toRx| >= depth
    ensures Next(e, cfg, w, Offers(0)).bus.drops > 0
  {
    hide Past, VirtualBus.MatchesAny, OnePerEnd;
    assert FlightOk(e, cfg, w, w.bus.senders[0]);
    OfferIsPush(w.bus, 0);
    MatchIff(e, e.tx, d.frame.id, d.frame.data);
  }

  /** Otherwise the receiver can be slow enough for the bus to drop a consecutive frame. */
  lemma SmallerDrops(e: Ends, cfg: Config, depth: nat, payload: Data) returns (acts: seq<Act>, w: World)
    requires e.Usable() && 8 <= |payload| <= MAX_PAYLOAD && 0 < depth < CFCount(payload)
    requires cfg.blockSize == 0 || depth < cfg.blockSize
    ensures Run(e, cfg, depth, payload, acts) == Some(w) && w.bus.drops > 0
  {
    hide Quiet, Run, IsoTpLink.Run, IsoTpLink.Enabled, IsoTpLink.Next, CFCount, CFOf, Consecutives;
    var p := IsoTpLink.Block(0, depth, 0);
    IsoTpLink.BurstRuns(cfg, Some(depth), payload, depth);
    IsoTpLink.OverrunStep(cfg, depth, payload);
    acts, w := LinkRunsOnBus(e, cfg, depth, payload, IsoTpLink.Burst(depth));
    var s := IsoTpLink.Shape(cfg, payload, p);
    assert |s.toRx| == depth;
    acts, w := DropOnFull(e, cfg, depth, payload, acts, w, s);
  }

  /** Over all interleavings of the two connections on the bus: no frame is ever dropped exactly when the subscriptions
      hold a block or every consecutive frame. */
  lemma NoDropIff(e: Ends, cfg: Config, depth: nat, payload: Data)
    requires e.Usable() && 8 <= |payload| <= MAX_PAYLOAD && depth > 0
    ensures (forall acts :: Run(e, cfg, depth, payload, acts).Some? ==>
                              Run(e, cfg, depth, payload, acts).value.bus.drops == 0)
       <==> 0 < cfg.blockSize <= depth || CFCount(payload) <= depth
  {
    hide Run, CFCount;
    if 0 < cfg.blockSize <= depth || CFCount(payload) <= depth {
      forall acts | Run(e, cfg, depth, payload, acts).Some?
        ensures Run(e, cfg, depth, payload, acts).value.bus.drops == 0
      {
        RoomyDropsNothing(e, cfg, depth, payload, acts);
      }
    } else {
      var acts, w := SmallerDrops(e, cfg, depth, payload);
    }
  }

  // ----- The bus is one that can be reached -----

  lemma Subscribes(steps: seq<VirtualBus.Step>, b: VirtualBus.Bus, id: Word32, depth: nat)
    returns (more: seq<VirtualBus.Step>)
    requires VirtualBus.Run(steps) == Some(b) && depth > 0
    requires !b.writer && !b.closed && b.senders == [] && b.sent == []
    ensures VirtualBus.Run(more) == Some(b.(subs := b.subs + [Subscriber(id, depth)]))
  {
    hide VirtualBus.Path;
    var step := VirtualBus.Subscribe([Filter(id, ID_MASK)], depth, VirtualBus.DropNewest);
    VirtualBus.PathAppend(VirtualBus.New(), steps, b, VirtualBus.Lock);
    more := steps + [VirtualBus.Lock];
    VirtualBus.PathAppend(VirtualBus.New(), more, b.(writer := true), step);
    more := more + [step];
  }

  lemma StartReachable(e: Ends, depth: nat, payload: Data) returns (steps: seq<VirtualBus.Step>)
    requires depth > 0
    ensures VirtualBus.Run(steps) == Some(Start(e, depth, payload).bus)
  {
    var b := VirtualBus.New();
    assert VirtualBus.Run([]) == Some(b);
    hide VirtualBus.Path;
    steps := Subscribes([], b, e.tx, depth);
    steps := Subscribes(steps, b.(subs := b.subs + [Subscriber(e.tx, depth)]), e.rx, depth);
    assert b.subs + [Subscriber(e.tx, depth)] + [Subscriber(e.rx, depth)] == Start(e, depth, payload).bus.subs;
  }

  /** Every act is a step of the bus machine, so all that holds of its runs holds of these. */
  lemma {:induction false} BusIsReachable(e: Ends, cfg: Config, depth: nat, payload: Data, acts: seq<Act>)
    returns (steps: seq<VirtualBus.Step>)
    requires depth > 0 && Run(e, cfg, depth, payload, acts).Some?
    ensures VirtualBus.Run(steps) == Some(Run(e, cfg, depth, payload, acts).value.bus)
    decreases |acts|
  {
    if acts == [] {
      steps := StartReachable(e, depth, payload);
    } else {
      hide VirtualBus.Next, VirtualBus.Enabled, VirtualBus.Path, Enabled, OnBus;
      var before, a := acts[..|acts| - 1], acts[|acts| - 1];
      steps := BusIsReachable(e, cfg, depth, payload, before);
      var w := Run(e, cfg, depth, payload, before).value;
      VirtualBus.PathAppend(VirtualBus.New(), steps, w.bus, OnBus(e, cfg, w, a));
      steps := steps + [OnBus(e, cfg, w, a)];
    }
  }
}
