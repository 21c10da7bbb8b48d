/** The order in which the in-process bus (virtual/bus.go) offers frames to a subscriber. */
module VirtualBusOrder {
  import opened Bits
  import opened Can
  import opened VirtualBus

  /** The numbers of the frames offered to subscriber j so far; none before it subscribes. */
  function OrderOf(b: Bus, j: nat): seq<nat> { if j < |b.subs| then b.subs[j].order else [] }

  ghost predicate InFlight(b: Bus, n: nat) { exists k :: 0 <= k < |b.senders| && b.senders[k].number == n }

  // ----- What a step changes -----

  /** A step leaves a subscriber's offers alone, or adds the frame of a Send in flight. */
  lemma SubChange(b: Bus, step: Step, j: nat) returns (k: nat)
    requires Enabled(b, step) && j < |b.subs|
    ensures j < |Next(b, step).subs|
    ensures var s, t := b.subs[j], Next(b, step).subs[j];
            || (t.offers == s.offers && t.order == s.order)
            || (k < |b.senders|
                && t.offers == s.offers + [b.senders[k].frame] && t.order == s.order + [b.senders[k].number])
  {
    hide MatchesAny, Validates, Full;
    k := if step.Offer? || step.Refill? then step.k else 0;
  }

  lemma NewSub(b: Bus, step: Step, j: nat)
    requires Enabled(b, step) && |b.subs| <= j < |Next(b, step).subs|
    ensures step.Subscribe? && Next(b, step).subs[j].offers == [] && Next(b, step).subs[j].order == []
  {
    hide MatchesAny, Validates, Full;
  }

  /** A Send in flight after a step was in flight before, or has just begun. */
  lemma SenderFrom(b: Bus, step: Step, k: nat) returns (i: nat)
    requires Enabled(b, step) && k < |Next(b, step).senders|
    ensures var d := Next(b, step).senders[k];
            || (i < |b.senders| && d.frame == b.senders[i].frame && d.number == b.senders[i].number)
            || (d.number == |b.sent| && Next(b, step).sent == b.sent + [d.frame])
  {
    hide MatchesAny, Validates, Full;
    i := if step.End? && k >= step.k then k + 1 else k;
  }

  lemma SentGrows(b: Bus, step: Step)
    requires Enabled(b, step)
    ensures b.sent <= Next(b, step).sent
  {
    hide MatchesAny, Validates, Full;
  }

  // ----- Offers are numbered -----

  ghost predicate Numbered(b: Bus) {
    && (forall k :: 0 <= k < |b.senders| ==> SenderNumbered(b.senders[k], b.sent))
    && (forall j :: 0 <= j < |b.subs| ==> SubNumbered(b.subs[j], b.sent))
  }

  ghost predicate SenderNumbered(d: Sender, sent: seq<Frame>) { d.number < |sent| && d.frame == sent[d.number] }

  ghost predicate SubNumbered(s: Sub, sent: seq<Frame>) {
    |s.order| == |s.offers| && forall i :: 0 <= i < |s.order| ==> s.order[i] < |sent| && s.offers[i] == sent[s.order[i]]
  }

  lemma NumberedStep(b: Bus, step: Step)
    requires Numbered(b) && Enabled(b, step)
    ensures Numbered(Next(b, step))
  {
    hide Next, Enabled;
    var c := Next(b, step);
    SentGrows(b, step);
    forall k: nat | k < |c.senders| ensures SenderNumbered(c.senders[k], c.sent) {
      var i := SenderFrom(b, step, k);
      assert i < |b.senders| ==> SenderNumbered(b.senders[i], b.sent);
    }
    forall j: nat | j < |c.subs| ensures SubNumbered(c.subs[j], c.sent) {
      if j < |b.subs| {
        var k := SubChange(b, step, j);
        assert SubNumbered(b.subs[j], b.sent);
        assert k < |b.senders| ==> SenderNumbered(b.senders[k], b.sent);
      } else {
        NewSub(b, step, j);
      }
    }
  }

  /** The i-th offer to a subscriber is the frame whose number is recorded with it. */
  lemma {:induction false} OffersAreNumbered(steps: seq<Step>)
    requires Run(steps).Some?
    ensures Numbered(Run(steps).value)
    decreases |steps|
  {
    if steps == [] {
    } else {
      hide Numbered, Next;
      OffersAreNumbered(steps[..|steps| - 1]);
      NumberedStep(Run(steps[..|steps| - 1]).value, steps[|steps| - 1]);
    }
  }

  // ----- What is offered later -----

  /** From b to c, subscriber j has been offered only frames that were in flight in b or were accepted later. */
  ghost predicate Grows(b: Bus, c: Bus, j: nat) {
    && |b.sent| <= |c.sent|
    && OrderOf(b, j) <= OrderOf(c, j)
    && (forall i :: |OrderOf(b, j)| <= i < |OrderOf(c, j)| ==>
          OrderOf(c, j)[i] >= |b.sent| || InFlight(b, OrderOf(c, j)[i]))
    && (forall n: nat :: InFlight(c, n) ==> n >= |b.sent| || InFlight(b, n))
  }

  lemma GrowsStep(c: Bus, step: Step, j: nat)
    requires Enabled(c, step)
    ensures Grows(c, Next(c, step), j)
  {
    hide Next, Enabled;
    var d := Next(c, step);
    SentGrows(c, step);
    if j < |c.subs| {
      var k := SubChange(c, step, j);
    } else if j < |d.subs| {
      NewSub(c, step, j);
    }
    forall n: nat | InFlight(d, n) ensures n >= |c.sent| || InFlight(c, n) {
      var k :| 0 <= k < |d.senders| && d.senders[k].number == n;
      var i := SenderFrom(c, step, k);
    }
  }

  lemma GrowsFurther(b: Bus, c: Bus, d: Bus, j: nat)
    requires Grows(b, c, j) && Grows(c, d, j)
    ensures Grows(b, d, j)
  {
    hide InFlight;
    forall i | |OrderOf(b, j)| <= i < |OrderOf(d, j)|
      ensures OrderOf(d, j)[i] >= |b.sent| || InFlight(b, OrderOf(d, j)[i])
    {
      if i < |OrderOf(c, j)| {
        assert OrderOf(d, j)[i] == OrderOf(c, j)[i];
      }
    }
  }

  lemma {:induction false} GrowsAlong(b: Bus, steps: seq<Step>, j: nat)
    requires Path(b, steps).Some?
    ensures Grows(b, Path(b, steps).value, j)
    decreases |steps|
  {
    if steps == [] {
    } else {
      hide Grows, Next;
      var c := Path(b, steps[..|steps| - 1]).value;
      GrowsAlong(b, steps[..|steps| - 1], j);
      GrowsStep(c, steps[|steps| - 1], j);
      GrowsFurther(b, c, Path(b, steps).value, j);
    }
  }

  /** If one Send has ended before another begins, every subscriber that is offered both frames is offered them in that
      order, over all interleavings of these and any other steps. */
  lemma OrderKept(first: seq<Step>, rest: seq<Step>, j: nat, p: nat, q: nat)
    requires Run(first + rest).Some?
    requires p < |OrderOf(Run(first + rest).value, j)| && q < |OrderOf(Run(first + rest).value, j)|
    ensures Run(first).Some?
    ensures var b, order := Run(first).value, OrderOf(Run(first + rest).value, j);
            order[p] < |b.sent| <= order[q] && !InFlight(b, order[p]) ==> p < q
  {
    hide Path, InFlight;
    PathConcat(New(), first, rest);
    var b := Run(first).value;
    GrowsAlong(b, rest, j);
    OffersAreNumbered(first);
  }

  // ----- Sends that never overlap -----

  function Filtered(sent: seq<Frame>, filters: seq<Filter>): seq<Frame> {
    if sent == [] then []
    else Filtered(sent[..|sent| - 1], filters) +
         (if MatchesAny(filters, sent[|sent| - 1]) then [sent[|sent| - 1]] else [])
  }

  lemma FilteredAppend(sent: seq<Frame>, f: Frame, filters: seq<Filter>)
    ensures Filtered(sent + [f], filters) == Filtered(sent, filters) + (if MatchesAny(filters, f) then [f] else [])
  {
    assert (sent + [f])[..|sent + [f]| - 1] == sent;
  }

  ghost predicate NeverOverlap(steps: seq<Step>) {
    forall i :: 0 <= i <= |steps| ==> Run(steps[..i]).Some? && |Run(steps[..i]).value.senders| <= 1
  }

  /** What the one Send in flight still owes subscriber j. */
  function Owed(b: Bus, j: nat): seq<Frame>
    requires j < |b.subs|
  {
    if b.senders != [] && b.senders[0].next <= j && MatchesAny(b.subs[j].filters, b.senders[0].frame)
    then [b.senders[0].frame] else []
  }

  ghost predicate InTurn(b: Bus, j: nat)
    requires j < |b.subs|
  {
    var s := b.subs[j];
    s.since <= |b.sent| && s.offers + Owed(b, j) == Filtered(b.sent[s.since..], s.filters)
  }

  lemma InTurnBegin(b: Bus, f: Frame, j: nat)
    requires Enabled(b, Begin(f)) && j < |b.subs| && InTurn(b, j) && |Next(b, Begin(f)).senders| <= 1
    ensures InTurn(Next(b, Begin(f)), j)
  {
    hide MatchesAny, Validates, Filtered;
    var s := b.subs[j];
    if Validates(f) && !b.closed {
      FilteredAppend(b.sent[s.since..], f, s.filters);
      assert (b.sent + [f])[s.since..] == b.sent[s.since..] + [f];
      assert s.offers + Owed(b, j) == s.offers;
    }
  }

  lemma InTurnStep(b: Bus, step: Step, j: nat)
    requires Shape(b) && Enabled(b, step) && |b.senders| <= 1 && |Next(b, step).senders| <= 1
    requires j < |Next(b, step).subs| && (j < |b.subs| ==> InTurn(b, j))
    ensures InTurn(Next(b, step), j)
  {
    hide MatchesAny, Validates, Filtered, SubOk;
    if j == |b.subs| {
      assert b.sent[|b.sent|..] == [];
      NothingFiltered(step.filters);
    } else {
      var s := b.subs[j];
      match step {
        case Begin(f) => InTurnBegin(b, f, j);
        case Offer(k) => InTurnOffer(b, k, j);
        case Refill(k) => InTurnOffer(b, k, j);
        case _ =>
      }
    }
  }

  lemma NothingFiltered(filters: seq<Filter>)
    ensures Filtered([], filters) == []
  {
  }

  lemma InTurnOffer(b: Bus, k: nat, j: nat)
    requires Shape(b) && |b.senders| == 1 && j < |b.subs| && InTurn(b, j)
    ensures Enabled(b, Offer(k)) ==> InTurn(Next(b, Offer(k)), j)
    ensures Enabled(b, Refill(k)) ==> InTurn(Next(b, Refill(k)), j)
  {
    hide MatchesAny, Filtered, SubOk;
    assert SenderOk(b, b.senders[0]);
    assert forall s: seq<Frame> :: s + [] == s;
  }

  /** When no two Sends overlap, a subscriber is offered exactly the matching frames accepted since it subscribed, as a
      sequence. */
  lemma {:induction false} OfferedInOrder(steps: seq<Step>, j: nat)
    requires NeverOverlap(steps) && Run(steps).Some? && j < |Run(steps).value.subs|
    ensures InTurn(Run(steps).value, j)
    ensures var b := Run(steps).value;
            b.senders == [] ==> b.subs[j].offers == Filtered(b.sent[b.subs[j].since..], b.subs[j].filters)
    decreases |steps|
  {
    if steps == [] {
      assert false;
    } else {
      hide InTurn, Next, Shape;
      var before := steps[..|steps| - 1];
      assert steps[..|steps|] == steps && forall i :: 0 <= i <= |before| ==> before[..i] == steps[..i];
      if j < |Run(before).value.subs| {
        OfferedInOrder(before, j);
      }
      Reachable(before);
      InTurnStep(Run(before).value, steps[|steps| - 1], j);
    }
  }
}
