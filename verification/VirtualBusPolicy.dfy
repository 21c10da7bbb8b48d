/** What each back-pressure policy leaves in a queue (virtual/bus.go), over every interleaving, and what a list of
    filters selects. */
module VirtualBusPolicy {
  import opened Bits
  import opened Can
  import opened VirtualBus

  /** Block loses nothing. DropOldest keeps the newest offers, the frames it lost being those evicted. DropNewest, until
      its receiver takes something, keeps the oldest that fit. */
  ghost predicate Kept(s: Sub) {
    match s.policy
    case Block => s.consumed + s.queue == s.offers
    case DropOldest =>
      && |s.consumed| + s.evicted + |s.queue| == |s.offers|
      && s.queue == s.offers[|s.offers| - |s.queue|..]
    case DropNewest =>
      s.consumed == [] ==> s.queue == if |s.offers| <= s.depth then s.offers else s.offers[..s.depth]
  }

  lemma KeptDelivered(s: Sub, f: Frame, n: nat)
    requires Kept(s) && !Full(s)
    ensures Kept(s.(queue := s.queue + [f], offers := s.offers + [f], order := s.order + [n]))
  {
    match s.policy {
      case Block => assert s.consumed + s.queue + [f] == s.consumed + (s.queue + [f]);
      case DropOldest =>
        var more, at := s.offers + [f], |s.offers| - |s.queue|;
        assert more[at..] == s.offers[at..] + [f];
      case DropNewest =>
    }
  }

  lemma KeptDropped(s: Sub, f: Frame, n: nat)
    requires Kept(s) && Full(s) && s.policy == DropNewest
    ensures Kept(s.(offers := s.offers + [f], order := s.order + [n]))
  {
  }

  lemma KeptEvicted(s: Sub)
    requires Kept(s) && s.queue != [] && s.policy == DropOldest
    ensures Kept(s.(queue := s.queue[1..], evicted := s.evicted + 1))
  {
  }

  lemma KeptConsumed(s: Sub)
    requires Kept(s) && s.queue != []
    ensures Kept(s.(queue := s.queue[1..], consumed := s.consumed + [s.queue[0]]))
  {
    assert s.consumed + [s.queue[0]] + s.queue[1..] == s.consumed + s.queue;
  }

  lemma KeptStep(b: Bus, step: Step, j: nat)
    requires Shape(b) && Enabled(b, step) && j < |Next(b, step).subs|
    requires forall i :: 0 <= i < |b.subs| ==> Kept(b.subs[i])
    ensures Kept(Next(b, step).subs[j])
  {
    hide MatchesAny, SubOk, Kept;
    if j < |b.subs| {
      var s := b.subs[j];
      match step {
        case Offer(k) =>
          if b.senders[k].next == j {
            if !Full(s) {
              KeptDelivered(s, b.senders[k].frame, b.senders[k].number);
            } else if s.policy == DropNewest {
              KeptDropped(s, b.senders[k].frame, b.senders[k].number);
            }
          }
        case Evict(k) =>
          if b.senders[k].next == j {
            KeptEvicted(s);
          }
        case Refill(k) =>
          if b.senders[k].next == j {
            KeptDelivered(s, b.senders[k].frame, b.senders[k].number);
          }
        case Consume(i) =>
          if i == j {
            KeptConsumed(s);
          }
        case Close => KeptClosed(s);
        case _ =>
      }
    } else {
      KeptFresh(step.filters, step.depth, step.policy, |b.sent|);
    }
  }

  lemma KeptClosed(s: Sub)
    requires Kept(s)
    ensures Kept(s.(open := false))
  {
  }

  lemma KeptFresh(filters: seq<Filter>, depth: nat, policy: Policy, since: nat)
    ensures Kept(Sub(filters, depth, policy, true, [], [], [], [], 0, since))
  {
  }

  lemma {:induction false} AllKept(steps: seq<Step>)
    requires Run(steps).Some?
    ensures forall i :: 0 <= i < |Run(steps).value.subs| ==> Kept(Run(steps).value.subs[i])
    decreases |steps|
  {
    if steps == [] {
    } else {
      hide Kept, Next, Shape;
      var before, step := steps[..|steps| - 1], steps[|steps| - 1];
      AllKept(before);
      Reachable(before);
      var b := Run(before).value;
      forall j: nat | j < |Next(b, step).subs| ensures Kept(Next(b, step).subs[j]) {
        KeptStep(b, step, j);
      }
    }
  }

  /** What is in a queue, in every reachable state. With Block nothing is ever lost: what was taken and what is queued
      are the offers decided so far, in order. With DropOldest the queue holds the newest of them, and only evictions
      are lost. With DropNewest a queue nobody reads holds the oldest that fit. */
  lemma QueueIs(steps: seq<Step>, j: nat)
    requires Run(steps).Some? && j < |Run(steps).value.subs|
    ensures var s := Run(steps).value.subs[j];
            && |s.queue| <= |s.offers|
            && (s.policy == Block ==> s.consumed + s.queue == s.offers)
            && (s.policy == DropOldest ==> s.queue == s.offers[|s.offers| - |s.queue|..]
                                           && |s.consumed| + s.evicted + |s.queue| == |s.offers|)
            && (s.policy == DropNewest && s.consumed == [] ==>
                  s.queue == if |s.offers| <= s.depth then s.offers else s.offers[..s.depth])
  {
    hide Run;
    AllKept(steps);
    QueuesAreSafe(steps, j);
    var s := Run(steps).value.subs[j];
    NoLonger(s.consumed + s.queue, s.offers);
  }

  lemma {:induction false} NoLonger<T>(a: seq<T>, b: seq<T>)
    requires Subsequence(a, b)
    ensures |a| <= |b|
    decreases |b|
  {
    if a == [] {
    } else {
      var front := b[..|b| - 1];
      if Subsequence(a, front) {
        NoLonger(a, front);
      } else {
        NoLonger(a[..|a| - 1], front);
      }
    }
  }

  /** Two lists of filters together select what either selects, no list at all everything, and one filter what it
      passes. */
  lemma FiltersUnite(a: seq<Filter>, b: seq<Filter>, fl: Filter, f: Frame)
    ensures a != [] && b != [] ==> (MatchesAny(a + b, f) <==> MatchesAny(a, f) || MatchesAny(b, f))
    ensures MatchesAny([], f)
    ensures MatchesAny([fl], f) <==> Passes(fl, f)
  {
    if a != [] && MatchesAny(a, f) {
      var i :| 0 <= i < |a| && Passes(a[i], f);
      assert (a + b)[i] == a[i];
    }
    if b != [] && MatchesAny(b, f) {
      var i :| 0 <= i < |b| && Passes(b[i], f);
      assert (a + b)[|a| + i] == b[i];
    }
    assert [fl][0] == fl;
  }
}
