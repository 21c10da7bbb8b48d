/** The bus object (virtual/bus.go): Send, Subscribe and Close as they run when no other goroutine comes between,
    proved to make runs of the step machine. */
module VirtualBusObject {
  import opened Bits
  import opened Can
  import opened VirtualBus

  datatype Status = Sent | Invalid | Closed | Waiting

  /** The steps of one Send, with nothing of any other goroutine between them. */
  ghost predicate OneSend(steps: seq<Step>, f: Frame) {
    && steps != [] && steps[0] == Begin(f)
    && forall k :: 1 <= k < |steps| ==> steps[k] in {Offer(0), Evict(0), Refill(0), End(0)}
  }

  class BusObject {
    var subs: seq<Sub>
    var closed: bool
    var writeCount: nat
    var deliverCount: nat
    var dropCount: nat
    var errorCount: nat
    ghost var accepted: seq<Frame>

    constructor ()
      ensures Valid() && View([]) == New()
    {
      subs, closed, accepted := [], false, [];
      writeCount, deliverCount, dropCount, errorCount := 0, 0, 0, 0;
    }

    /** The state of the machine while the given senders are in flight. */
    ghost function View(senders: seq<Sender>): Bus
      reads this
    {
      Bus(subs, closed, false, senders, false, accepted, writeCount, deliverCount, dropCount, errorCount)
    }

    /** The channels are open as long as the bus is, and have room for a frame. */
    ghost predicate Valid()
      reads this
    {
      && writeCount == |accepted|
      && forall j :: 0 <= j < |subs| ==>
           (subs[j].open <==> !closed) && subs[j].depth > 0 && |subs[j].queue| <= subs[j].depth
    }

    method Subscribe(filters: seq<Filter>, depth: nat, policy: Policy) returns (ok: bool)
      requires Valid() && depth > 0
      modifies this
      ensures Valid() && ok == !old(closed)
      ensures View([]) == Next(Next(old(View([])), Lock), VirtualBus.Subscribe(filters, depth, policy))
    {
      if closed {
        return false;
      }
      subs := subs + [Sub(filters, depth, policy, true, [], [], [], [], 0, writeCount)];
      ok := true;
    }

    method Close()
      requires Valid()
      modifies this
      ensures Valid() && closed
      ensures View([]) == Next(Next(old(View([])), Lock), VirtualBus.Close)
    {
      if closed {
        return;
      }
      closed := true;
      ghost var before := subs;
      for i := 0 to |subs|
        invariant |subs| == |before|
        invariant forall j :: 0 <= j < |subs| ==> subs[j] == if j < i then before[j].(open := false) else before[j]
        invariant closed && unchanged(`writeCount) && unchanged(`deliverCount) && unchanged(`dropCount)
        invariant unchanged(`errorCount) && unchanged(`accepted)
      {
        subs := subs[i := subs[i].(open := false)];
      }
      assert subs == Next(Next(old(View([])), Lock), VirtualBus.Close).subs;
    }

    /** Send. A frame that validates on an open bus is handled subscriber by subscriber, to the end or to a full Block
        queue; the steps made are a run of the machine from the old state. */
    method Send(f: Frame) returns (status: Status, ghost senders: seq<Sender>, ghost steps: seq<Step>)
      requires Valid()
      modifies this
      ensures Valid()
      ensures OneSend(steps, f) && Path(old(View([])), steps) == Some(View(senders))
      ensures status == Invalid <==> !Validates(f)
      ensures status == Closed <==> Validates(f) && old(closed)
      ensures status != Waiting ==> senders == []
      ensures status == Waiting ==> |senders| == 1 && senders[0].frame == f && !CanMove(View(senders), 0)
      ensures status in {Invalid, Closed} ==> View([]) == old(View([])).(errors := old(errorCount) + 1)
    {
      hide Path, MatchesAny, Validates, OneSend;
      steps, senders := [Begin(f)], [];
      BeginPath(View([]), f);
      if !Validates(f) {
        errorCount := errorCount + 1;
        return Invalid, senders, steps;
      }
      if closed {
        errorCount := errorCount + 1;
        return Closed, senders, steps;
      }
      writeCount := writeCount + 1;
      accepted := accepted + [f];
      senders := [Sender(f, writeCount - 1, 0, Offering)];
      assert View(senders) == Next(old(View([])), Begin(f));
      for i := 0 to |subs|
        invariant |subs| == |old(subs)| && Valid() && !closed
        invariant writeCount > 0 && senders == [Sender(f, writeCount - 1, i, Offering)]
        invariant OneSend(steps, f) && Path(old(View([])), steps) == Some(View(senders))
      {
        var ok: bool;
        ok, senders, steps := Handle(i, f, old(View([])), steps);
        if !ok {
          return Waiting, senders, steps;
        }
      }
      PathAppend(old(View([])), steps, View(senders), End(0));
      OneMore(steps, End(0), f);
      assert Next(View(senders), End(0)) == View([]);
      steps, senders := steps + [End(0)], [];
      status := Sent;
    }

    /** One subscriber. */
    method Handle(i: nat, f: Frame, ghost start: Bus, ghost steps0: seq<Step>)
      returns (ok: bool, ghost senders: seq<Sender>, ghost steps: seq<Step>)
      requires Valid() && !closed && i < |subs| && writeCount > 0
      requires Path(start, steps0) == Some(View([Sender(f, writeCount - 1, i, Offering)]))
      modifies this`subs, this`deliverCount, this`dropCount
      ensures Valid() && |subs| == |old(subs)|
      ensures Path(start, steps) == Some(View(senders))
      ensures OneSend(steps0, f) ==> OneSend(steps, f)
      ensures ok ==> senders == [Sender(f, writeCount - 1, i + 1, Offering)]
      ensures !ok ==> |senders| == 1 && senders[0].frame == f && !CanMove(View(senders), 0)
    {
      ghost var b := View([Sender(f, writeCount - 1, i, Offering)]);
      hide Path, OneSend, MatchesAny;
      steps, senders := steps0 + [Offer(0)], [Sender(f, writeCount - 1, i + 1, Offering)];
      OneMore(steps0, Offer(0), f);
      assert b.senders[0 := Sender(f, writeCount - 1, i + 1, Offering)] == senders;
      ok := MatchAny(subs[i].filters, f);
      if !ok {
        PathAppend(start, steps0, b, Offer(0));
        return true, senders, steps;
      }
      if |subs[i].queue| < subs[i].depth {
        PathAppend(start, steps0, b, Offer(0));
        Push(i, f);
        return true, senders, steps;
      }
      ok, senders, steps := OnFull(i, f, start, steps0);
    }

    /** The subscriber matches and its queue is full. */
    method OnFull(i: nat, f: Frame, ghost start: Bus, ghost steps0: seq<Step>)
      returns (ok: bool, ghost senders: seq<Sender>, ghost steps: seq<Step>)
      requires Valid() && !closed && i < |subs| && writeCount > 0
      requires MatchesAny(subs[i].filters, f) && Full(subs[i])
      requires Path(start, steps0) == Some(View([Sender(f, writeCount - 1, i, Offering)]))
      modifies this`subs, this`deliverCount, this`dropCount
      ensures Valid() && |subs| == |old(subs)|
      ensures Path(start, steps) == Some(View(senders))
      ensures OneSend(steps0, f) ==> OneSend(steps, f)
      ensures ok ==> senders == [Sender(f, writeCount - 1, i + 1, Offering)]
      ensures !ok ==> |senders| == 1 && senders[0].frame == f && !CanMove(View(senders), 0)
    {
      hide Path, OneSend, MatchesAny, CanMove, Valid;
      ok, senders := true, [Sender(f, writeCount - 1, i + 1, Offering)];
      match subs[i].policy {
        case DropNewest => steps := Drop(i, f, start, steps0);
        case DropOldest => steps := Replace(i, f, start, steps0);
        case Block =>
          ok, senders, steps := false, [Sender(f, writeCount - 1, i, Offering)], steps0;
          FullBlockWaits(View(senders), i, f, writeCount - 1);
      }
    }

    method Drop(i: nat, f: Frame, ghost start: Bus, ghost steps0: seq<Step>) returns (ghost steps: seq<Step>)
      requires Valid() && !closed && i < |subs| && writeCount > 0
      requires MatchesAny(subs[i].filters, f) && Full(subs[i]) && subs[i].policy == DropNewest
      requires Path(start, steps0) == Some(View([Sender(f, writeCount - 1, i, Offering)]))
      modifies this`subs, this`dropCount
      ensures Valid() && |subs| == |old(subs)|
      ensures Path(start, steps) == Some(View([Sender(f, writeCount - 1, i + 1, Offering)]))
      ensures OneSend(steps0, f) ==> OneSend(steps, f)
    {
      hide Path, OneSend, MatchesAny;
      DropPath(start, steps0, View([Sender(f, writeCount - 1, i, Offering)]), i, f, writeCount - 1);
      OneMore(steps0, Offer(0), f);
      steps := steps0 + [Offer(0)];
      var s := subs[i];
      subs := subs[i := s.(offers := s.offers + [f], order := s.order + [writeCount - 1])];
      dropCount := dropCount + 1;
    }

    /** Receives one frame from the full queue and sends the new one. */
    method Replace(i: nat, f: Frame, ghost start: Bus, ghost steps0: seq<Step>) returns (ghost steps: seq<Step>)
      requires Valid() && !closed && i < |subs| && writeCount > 0
      requires MatchesAny(subs[i].filters, f) && Full(subs[i]) && subs[i].policy == DropOldest
      requires Path(start, steps0) == Some(View([Sender(f, writeCount - 1, i, Offering)]))
      modifies this`subs, this`deliverCount
      ensures Valid() && |subs| == |old(subs)|
      ensures Path(start, steps) == Some(View([Sender(f, writeCount - 1, i + 1, Offering)]))
      ensures OneSend(steps0, f) ==> OneSend(steps, f)
    {
      hide Path, OneSend, MatchesAny;
      EvictPath(start, steps0, View([Sender(f, writeCount - 1, i, Offering)]), i, f, writeCount - 1);
      OneMore(steps0, Offer(0), f);
      OneMore(steps0 + [Offer(0)], Evict(0), f);
      OneMore(steps0 + [Offer(0)] + [Evict(0)], Refill(0), f);
      steps := steps0 + [Offer(0)] + [Evict(0)] + [Refill(0)];
      subs := subs[i := subs[i].(queue := subs[i].queue[1..], evicted := subs[i].evicted + 1)];
      Push(i, f);
      assert subs == old(subs)[i := subs[i]];
    }

    method Push(i: nat, f: Frame)
      requires i < |subs| && writeCount > 0
      modifies this`subs, this`deliverCount
      ensures var s := old(subs[i]);
              subs == old(subs)[i := s.(queue := s.queue + [f], offers := s.offers + [f],
                                        order := s.order + [writeCount - 1])]
      ensures deliverCount == old(deliverCount) + 1
    {
      var s := subs[i];
      subs := subs[i := s.(queue := s.queue + [f], offers := s.offers + [f], order := s.order + [writeCount - 1])];
      deliverCount := deliverCount + 1;
    }

    static lemma OneMore(steps: seq<Step>, step: Step, f: Frame)
      requires step in {Offer(0), Evict(0), Refill(0), End(0)}
      ensures OneSend(steps, f) ==> OneSend(steps + [step], f)
    {
    }

    static lemma BeginPath(b: Bus, f: Frame)
      requires !b.writer
      ensures OneSend([Begin(f)], f) && Path(b, [Begin(f)]) == Some(Next(b, Begin(f)))
    {
      hide Next, Validates, MatchesAny;
      PathAppend(b, [], b, Begin(f));
      assert [] + [Begin(f)] == [Begin(f)];
    }

    static lemma DropPath(start: Bus, steps: seq<Step>, b: Bus, i: nat, f: Frame, n: nat)
      requires Path(start, steps) == Some(b) && b.senders == [Sender(f, n, i, Offering)] && i < |b.subs|
      requires MatchesAny(b.subs[i].filters, f) && Full(b.subs[i]) && b.subs[i].policy == DropNewest
      ensures var s := b.subs[i];
              var t := s.(offers := s.offers + [f], order := s.order + [n]);
              Path(start, steps + [Offer(0)])
              == Some(b.(subs := b.subs[i := t], senders := [Sender(f, n, i + 1, Offering)], drops := b.drops + 1))
    {
      hide Path, MatchesAny;
      PathAppend(start, steps, b, Offer(0));
      assert b.senders[0 := Sender(f, n, i + 1, Offering)] == [Sender(f, n, i + 1, Offering)];
    }

    static lemma FullBlockWaits(b: Bus, i: nat, f: Frame, n: nat)
      requires b.senders == [Sender(f, n, i, Offering)] && i < |b.subs|
      requires MatchesAny(b.subs[i].filters, f) && Full(b.subs[i]) && b.subs[i].policy == Block
      ensures !CanMove(b, 0)
    {
      hide MatchesAny;
    }

    /** Uninterrupted, the eviction and the delivery after it cannot fail. */
    static lemma EvictPath(start: Bus, steps: seq<Step>, b: Bus, i: nat, f: Frame, n: nat)
      requires Path(start, steps) == Some(b) && b.senders == [Sender(f, n, i, Offering)] && i < |b.subs|
      requires MatchesAny(b.subs[i].filters, f) && Full(b.subs[i]) && b.subs[i].policy == DropOldest
      requires b.subs[i].depth > 0 && |b.subs[i].queue| <= b.subs[i].depth
      ensures Enabled(b, Offer(0)) && Enabled(Next(b, Offer(0)), Evict(0))
          && Enabled(Next(Next(b, Offer(0)), Evict(0)), Refill(0))
      ensures var s := b.subs[i];
              var t := s.(queue := s.queue[1..] + [f], offers := s.offers + [f], order := s.order + [n],
                          evicted := s.evicted + 1);
              Path(start, steps + [Offer(0)] + [Evict(0)] + [Refill(0)])
              == Some(b.(subs := b.subs[i := t], senders := [Sender(f, n, i + 1, Offering)], delivers := b.delivers + 1,
                         panicked := b.panicked || !s.open))
    {
      hide Path, MatchesAny;
      var c := Next(b, Offer(0));
      var d := Next(c, Evict(0));
      PathAppend(start, steps, b, Offer(0));
      PathAppend(start, steps + [Offer(0)], c, Evict(0));
      PathAppend(start, steps + [Offer(0)] + [Evict(0)], d, Refill(0));
      assert d.senders == [Sender(f, n, i, Refilling)];
      assert Next(d, Refill(0)).senders == [Sender(f, n, i + 1, Offering)];
      var s := b.subs[i];
      var t := s.(queue := s.queue[1..] + [f], offers := s.offers + [f], order := s.order + [n],
                          evicted := s.evicted + 1);
      assert Next(d, Refill(0)).subs == b.subs[i := t];
    }
  }
}
