/** The in-process bus (virtual/bus.go) under every interleaving. A Send holds the read lock from its closed check to
    its end and handles one subscriber per step. Subscribe and Close ask for the write lock, and from then on no Send
    begins; they run when no Send is in flight. Receivers take frames at any time. */
module VirtualBus {
  import opened Bits
  import opened Can

  datatype Policy = DropNewest | DropOldest | Block

  /** A subscription. The last five fields are its history: what its receiver has taken, the matching frames whose
      delivery to it has been decided and their numbers, how many queued frames were evicted, and how many frames had
      been accepted before it subscribed. */
  datatype Sub = Sub(filters: seq<Filter>, depth: nat, policy: Policy, open: bool, queue: seq<Frame>,
                     consumed: seq<Frame>, offers: seq<Frame>, order: seq<nat>, evicted: nat, since: nat)

  /** Where a Send stands at its current subscriber. DropOldest receives one frame and sends its own in two steps. */
  datatype Phase = Offering | Evicting | Refilling

  /** number: how many frames were accepted before this one. */
  datatype Sender = Sender(frame: Frame, number: nat, next: nat, phase: Phase)

  /** writer: a Subscribe or Close waits for the write lock. panicked: a frame was sent on a closed channel. sent: the
      frames accepted so far. */
  datatype Bus = Bus(subs: seq<Sub>, closed: bool, writer: bool, senders: seq<Sender>, panicked: bool, sent: seq<Frame>,
                     writes: nat, delivers: nat, drops: nat, errors: nat)

  datatype Step =
    | Begin(f: Frame) | Offer(k: nat) | Evict(k: nat) | Refill(k: nat) | End(k: nat)
    | Consume(j: nat) | Lock | Subscribe(filters: seq<Filter>, depth: nat, policy: Policy) | Close

  function New(): Bus { Bus([], false, false, [], false, [], 0, 0, 0, 0) }

  predicate MatchesAny(filters: seq<Filter>, f: Frame) {
    filters == [] || exists i :: 0 <= i < |filters| && Passes(filters[i], f)
  }

  /** matchesAny */
  method MatchAny(filters: seq<Filter>, f: Frame) returns (ok: bool)
    ensures ok == MatchesAny(filters, f)
  {
    if |filters| == 0 {
      return true;
    }
    for i := 0 to |filters|
      invariant forall j :: 0 <= j < i ==> !Passes(filters[j], f)
    {
      if Passes(filters[i], f) {
        return true;
      }
    }
    return false;
  }

  predicate Full(s: Sub) { |s.queue| >= s.depth }

  /** The subscriber a Send is at. */
  predicate AtSub(b: Bus, k: nat) { k < |b.senders| && b.senders[k].next < |b.subs| }

  function SubOf(b: Bus, k: nat): Sub
    requires AtSub(b, k)
  {
    b.subs[b.senders[k].next]
  }

  predicate Enabled(b: Bus, step: Step) {
    match step
    case Begin(f) => Validates(f) ==> !b.writer
    case Offer(k) =>
      && AtSub(b, k) && b.senders[k].phase == Offering
      && (SubOf(b, k).policy == Block && MatchesAny(SubOf(b, k).filters, b.senders[k].frame) ==> !Full(SubOf(b, k)))
    case Evict(k) => AtSub(b, k) && b.senders[k].phase == Evicting && SubOf(b, k).queue != []
    case Refill(k) => AtSub(b, k) && b.senders[k].phase == Refilling && !Full(SubOf(b, k))
    case End(k) => k < |b.senders| && b.senders[k].phase == Offering && b.senders[k].next == |b.subs|
    case Consume(j) => j < |b.subs| && b.subs[j].queue != []
    case Lock => !b.writer
    case Subscribe(_, depth, _) => b.writer && b.senders == [] && depth > 0
    case Close => b.writer && b.senders == []
  }

  /** A channel send to the subscriber of sender k, which then moves on. */
  function Deliver(b: Bus, k: nat): Bus
    requires AtSub(b, k)
  {
    var d := b.senders[k];
    var s := SubOf(b, k);
    b.(subs := b.subs[d.next := s.(queue := s.queue + [d.frame], offers := s.offers + [d.frame],
                                   order := s.order + [d.number])],
       senders := b.senders[k := Sender(d.frame, d.number, d.next + 1, Offering)],
       delivers := b.delivers + 1,
       panicked := b.panicked || !s.open)
  }

  function Drop(b: Bus, k: nat): Bus
    requires AtSub(b, k)
  {
    var d := b.senders[k];
    var s := SubOf(b, k);
    b.(subs := b.subs[d.next := s.(offers := s.offers + [d.frame], order := s.order + [d.number])],
       senders := b.senders[k := Sender(d.frame, d.number, d.next + 1, Offering)],
       drops := b.drops + 1)
  }

  function Next(b: Bus, step: Step): Bus
    requires Enabled(b, step)
  {
    match step
    case Begin(f) =>
      if !Validates(f) || b.closed then b.(errors := b.errors + 1)
      else b.(senders := b.senders + [Sender(f, |b.sent|, 0, Offering)], sent := b.sent + [f], writes := b.writes + 1)
    case Offer(k) =>
      var d := b.senders[k];
      var s := SubOf(b, k);
      if !MatchesAny(s.filters, d.frame) then b.(senders := b.senders[k := d.(next := d.next + 1)])
      else if !Full(s) then Deliver(b, k)
      else if s.policy == DropNewest then Drop(b, k)
      else b.(senders := b.senders[k := d.(phase := Evicting)])
    case Evict(k) =>
      var d := b.senders[k];
      var s := SubOf(b, k);
      b.(subs := b.subs[d.next := s.(queue := s.queue[1..], evicted := s.evicted + 1)],
         senders := b.senders[k := d.(phase := Refilling)])
    case Refill(k) => Deliver(b, k)
    case End(k) => b.(senders := b.senders[..k] + b.senders[k + 1..])
    case Consume(j) =>
      var s := b.subs[j];
      b.(subs := b.subs[j := s.(queue := s.queue[1..], consumed := s.consumed + [s.queue[0]])])
    case Lock => b.(writer := true)
    case Subscribe(filters, depth, policy) =>
      if b.closed then b.(writer := false)
      else b.(writer := false, subs := b.subs + [Sub(filters, depth, policy, true, [], [], [], [], 0, |b.sent|)])
    case Close =>
      if b.closed then b.(writer := false)
      else b.(writer := false, closed := true,
          subs := seq(|b.subs|, j requires 0 <= j < |b.subs| => b.subs[j].(open := false)))
  }

  /** The bus after a run of steps, if each of them could be made. */
  function Path(start: Bus, steps: seq<Step>): Option<Bus> {
    if steps == [] then Some(start)
    else
      var b, step := Path(start, steps[..|steps| - 1]), steps[|steps| - 1];
      if b.Some? && Enabled(b.value, step) then Some(Next(b.value, step)) else None
  }

  function Run(steps: seq<Step>): Option<Bus> { Path(New(), steps) }

  lemma PathAppend(start: Bus, steps: seq<Step>, b: Bus, step: Step)
    requires Path(start, steps) == Some(b) && Enabled(b, step)
    ensures Path(start, steps + [step]) == Some(Next(b, step))
  {
    assert (steps + [step])[..|steps + [step]| - 1] == steps;
  }

  lemma {:induction false} PathConcat(start: Bus, first: seq<Step>, rest: seq<Step>)
    ensures Path(start, first + rest)
         == if Path(start, first).None? then None else Path(Path(start, first).value, rest)
    decreases |rest|
  {
    hide Next, Enabled;
    if rest == [] {
      assert first + rest == first;
    } else {
      var all, n := first + rest, |rest| - 1;
      assert all[..|all| - 1] == first + rest[..n] && all[|all| - 1] == rest[n];
      PathConcat(start, first, rest[..n]);
    }
  }

  // ----- Subsequences -----

  ghost predicate Subsequence<T>(a: seq<T>, b: seq<T>) {
    a == [] || (b != [] &&
      (Subsequence(a, b[..|b| - 1]) || (a[|a| - 1] == b[|b| - 1] && Subsequence(a[..|a| - 1], b[..|b| - 1]))))
  }

  lemma SubsequenceSkip<T>(a: seq<T>, b: seq<T>, x: T)
    requires Subsequence(a, b)
    ensures Subsequence(a, b + [x])
  {
  }

  lemma SubsequenceBoth<T>(a: seq<T>, b: seq<T>, x: T)
    requires Subsequence(a, b)
    ensures Subsequence(a + [x], b + [x])
  {
  }

  lemma {:induction false} SubsequenceRemove<T>(a: seq<T>, i: nat, b: seq<T>)
    requires i < |a| && Subsequence(a, b)
    ensures Subsequence(a[..i] + a[i + 1..], b)
    decreases |b|
  {
    var front := b[..|b| - 1];
    if Subsequence(a, front) {
      SubsequenceRemove(a, i, front);
      SubsequenceSkip(a[..i] + a[i + 1..], front, b[|b| - 1]);
    } else {
      var init := a[..|a| - 1];
      if i == |a| - 1 {
        assert a[..i] + a[i + 1..] == init;
        SubsequenceSkip(init, front, b[|b| - 1]);
      } else {
        SubsequenceRemove(init, i, front);
        SubsequenceBoth(init[..i] + init[i + 1..], front, b[|b| - 1]);
        assert init[..i] + init[i + 1..] + [a[|a| - 1]] == a[..i] + a[i + 1..];
      }
    }
    assert front + [b[|b| - 1]] == b;
  }

  // ----- What every step keeps -----

  ghost predicate SubOk(s: Sub) {
    && |s.queue| <= s.depth && s.depth > 0
    && Subsequence(s.consumed + s.queue, s.offers)
    && (s.policy != DropOldest ==> s.evicted == 0)
  }

  ghost predicate SenderOk(b: Bus, d: Sender) {
    && d.next <= |b.subs|
    && (d.phase != Offering ==>
          d.next < |b.subs| && b.subs[d.next].policy == DropOldest && MatchesAny(b.subs[d.next].filters, d.frame))
  }

  ghost predicate Shape(b: Bus) {
    && !b.panicked
    && (forall j :: 0 <= j < |b.subs| ==> (b.subs[j].open <==> !b.closed))
    && (b.closed ==> b.senders == [])
    && (forall k :: 0 <= k < |b.senders| ==> SenderOk(b, b.senders[k]))
    && (forall j :: 0 <= j < |b.subs| ==> SubOk(b.subs[j]))
  }

  lemma DeliverOk(s: Sub, f: Frame, n: nat)
    requires SubOk(s) && !Full(s)
    ensures SubOk(s.(queue := s.queue + [f], offers := s.offers + [f], order := s.order + [n]))
  {
    SubsequenceBoth(s.consumed + s.queue, s.offers, f);
    assert s.consumed + s.queue + [f] == s.consumed + (s.queue + [f]);
  }

  lemma DropOk(s: Sub, f: Frame, n: nat)
    requires SubOk(s)
    ensures SubOk(s.(offers := s.offers + [f], order := s.order + [n]))
  {
  }

  lemma EvictOk(s: Sub)
    requires SubOk(s) && s.queue != [] && s.policy == DropOldest
    ensures SubOk(s.(queue := s.queue[1..], evicted := s.evicted + 1))
  {
    var all, i := s.consumed + s.queue, |s.consumed|;
    SubsequenceRemove(all, i, s.offers);
    assert all[..i] + all[i + 1..] == s.consumed + s.queue[1..];
  }

  lemma ConsumeOk(s: Sub)
    requires SubOk(s) && s.queue != []
    ensures SubOk(s.(queue := s.queue[1..], consumed := s.consumed + [s.queue[0]]))
  {
    assert s.consumed + [s.queue[0]] + s.queue[1..] == s.consumed + s.queue;
  }

  lemma SubStep(b: Bus, step: Step, j: nat)
    requires Shape(b) && Enabled(b, step) && j < |b.subs|
    ensures j < |Next(b, step).subs| && SubOk(Next(b, step).subs[j])
    ensures var s, t := b.subs[j], Next(b, step).subs[j];
            t.filters == s.filters && t.policy == s.policy && t.depth == s.depth && t.since == s.since
            && (t.open <==> s.open && !step.Close?)
  {
    hide MatchesAny, Subsequence;
    var s := b.subs[j];
    match step {
      case Offer(k) =>
        if b.senders[k].next == j {
          DropOk(s, b.senders[k].frame, b.senders[k].number);
          if !Full(s) {
            DeliverOk(s, b.senders[k].frame, b.senders[k].number);
          }
        }
      case Evict(k) =>
        if b.senders[k].next == j {
          EvictOk(s);
        }
      case Refill(k) =>
        if b.senders[k].next == j {
          DeliverOk(s, b.senders[k].frame, b.senders[k].number);
        }
      case Consume(i) =>
        if i == j {
          ConsumeOk(s);
        }
      case _ =>
    }
  }

  lemma ShapeStep(b: Bus, step: Step)
    requires Shape(b) && Enabled(b, step)
    ensures Shape(Next(b, step))
  {
    hide MatchesAny, SubOk, Validates;
    var c := Next(b, step);
    forall j: nat | j < |c.subs| ensures SubOk(c.subs[j]) && (c.subs[j].open <==> !c.closed) {
      if j < |b.subs| {
        SubStep(b, step, j);
      } else {
        FreshOk(step.filters, step.depth, step.policy, |b.sent|);
      }
    }
    SendersStep(b, step);
  }

  lemma SendersStep(b: Bus, step: Step)
    requires Shape(b) && Enabled(b, step)
    ensures forall k :: 0 <= k < |Next(b, step).senders| ==> SenderOk(Next(b, step), Next(b, step).senders[k])
  {
    hide MatchesAny, SubOk, Validates;
  }

  lemma FreshOk(filters: seq<Filter>, depth: nat, policy: Policy, since: nat)
    requires depth > 0
    ensures SubOk(Sub(filters, depth, policy, true, [], [], [], [], 0, since))
  {
  }

  // ----- Counting -----

  function Weight(s: Sub, held: bool): nat {
    if held then |s.consumed| + |s.queue| + s.evicted else |s.offers|
  }

  function Total(subs: seq<Sub>, held: bool): nat {
    if subs == [] then 0 else Total(subs[..|subs| - 1], held) + Weight(subs[|subs| - 1], held)
  }

  lemma {:induction false} TotalUpdate(subs: seq<Sub>, j: nat, t: Sub, held: bool)
    requires j < |subs|
    ensures Total(subs[j := t], held) + Weight(subs[j], held) == Total(subs, held) + Weight(t, held)
    decreases |subs|
  {
    var n := |subs| - 1;
    if j == n {
      assert subs[j := t][..n] == subs[..n];
    } else {
      TotalUpdate(subs[..n], j, t, held);
      assert subs[j := t][..n] == subs[..n][j := t];
    }
  }

  lemma {:induction false} TotalSame(subs: seq<Sub>, other: seq<Sub>, held: bool)
    requires |subs| == |other| && forall j :: 0 <= j < |subs| ==> Weight(subs[j], held) == Weight(other[j], held)
    ensures Total(subs, held) == Total(other, held)
    decreases |subs|
  {
    if subs == [] {
    } else {
      TotalSame(subs[..|subs| - 1], other[..|other| - 1], held);
    }
  }

  ghost predicate Counted(b: Bus) {
    && b.writes == |b.sent|
    && Total(b.subs, false) == b.delivers + b.drops
    && Total(b.subs, true) == b.delivers
  }

  /** A decided offer is one delivery or one drop; a delivered frame was consumed, is queued or was evicted. */
  lemma CountedStep(b: Bus, step: Step)
    requires Counted(b) && Enabled(b, step)
    ensures Counted(Next(b, step))
  {
    hide MatchesAny, Validates;
    forall held ensures CountedChange(b, step, held) {
      CountedOne(b, step, held);
    }
    assert CountedChange(b, step, true) && CountedChange(b, step, false);
  }

  ghost predicate CountedChange(b: Bus, step: Step, held: bool)
    requires Enabled(b, step)
  {
    Total(Next(b, step).subs, held) - Total(b.subs, held)
    == (Next(b, step).delivers - b.delivers) + (if held then 0 else Next(b, step).drops - b.drops)
  }

  lemma CountedOne(b: Bus, step: Step, held: bool)
    requires Enabled(b, step)
    ensures CountedChange(b, step, held)
  {
    match step {
      case Offer(k) => CountedOffer(b, k, held);
      case Evict(k) => CountedEvict(b, k, held);
      case Refill(k) => CountedRefill(b, k, held);
      case Consume(j) => CountedConsume(b, j, held);
      case _ => CountedOther(b, step, held);
    }
  }

  lemma CountedOther(b: Bus, step: Step, held: bool)
    requires Enabled(b, step) && !step.Offer? && !step.Evict? && !step.Refill? && !step.Consume?
    ensures CountedChange(b, step, held)
  {
    hide MatchesAny, Validates, Total;
    if step.Close? && !b.closed {
      TotalSame(b.subs, Next(b, step).subs, held);
    } else if step.Subscribe? && !b.closed {
      TotalAppend(b.subs, Next(b, step).subs[|b.subs|], held);
    }
  }

  lemma CountedOffer(b: Bus, k: nat, held: bool)
    requires Enabled(b, Offer(k))
    ensures CountedChange(b, Offer(k), held)
  {
    hide MatchesAny, Total;
    TotalUpdate(b.subs, b.senders[k].next, Next(b, Offer(k)).subs[b.senders[k].next], held);
  }

  lemma CountedEvict(b: Bus, k: nat, held: bool)
    requires Enabled(b, Evict(k))
    ensures CountedChange(b, Evict(k), held)
  {
    hide MatchesAny, Total;
    TotalUpdate(b.subs, b.senders[k].next, Next(b, Evict(k)).subs[b.senders[k].next], held);
  }

  lemma CountedRefill(b: Bus, k: nat, held: bool)
    requires Enabled(b, Refill(k))
    ensures CountedChange(b, Refill(k), held)
  {
    hide MatchesAny, Total;
    TotalUpdate(b.subs, b.senders[k].next, Next(b, Refill(k)).subs[b.senders[k].next], held);
  }

  lemma CountedConsume(b: Bus, j: nat, held: bool)
    requires Enabled(b, Consume(j))
    ensures CountedChange(b, Consume(j), held)
  {
    hide MatchesAny, Total;
    TotalUpdate(b.subs, j, Next(b, Consume(j)).subs[j], held);
  }

  lemma TotalAppend(subs: seq<Sub>, s: Sub, held: bool)
    ensures Total(subs + [s], held) == Total(subs, held) + Weight(s, held)
  {
  }

  // ----- Each accepted frame is offered once to each matching subscriber -----

  /** What sender d still owes subscriber j. */
  function Owes(d: Sender, filters: seq<Filter>, j: nat): multiset<Frame> {
    if d.next <= j && MatchesAny(filters, d.frame) then multiset{d.frame} else multiset{}
  }

  function Pending(senders: seq<Sender>, filters: seq<Filter>, j: nat): multiset<Frame>
    decreases |senders|
  {
    if senders == [] then multiset{}
    else Pending(senders[..|senders| - 1], filters, j) + Owes(senders[|senders| - 1], filters, j)
  }

  /** The accepted frames that match. */
  function Accepted(sent: seq<Frame>, filters: seq<Filter>): multiset<Frame> {
    if sent == [] then multiset{}
    else Accepted(sent[..|sent| - 1], filters) +
         (if MatchesAny(filters, sent[|sent| - 1]) then multiset{sent[|sent| - 1]} else multiset{})
  }

  ghost predicate Settled(b: Bus, j: nat)
    requires j < |b.subs|
  {
    var s := b.subs[j];
    s.since <= |b.sent| &&
    multiset(s.offers) + Pending(b.senders, s.filters, j) == Accepted(b.sent[s.since..], s.filters)
  }

  lemma {:induction false} PendingUpdate(senders: seq<Sender>, k: nat, d: Sender, filters: seq<Filter>, j: nat)
    requires k < |senders|
    ensures Pending(senders[k := d], filters, j) + Owes(senders[k], filters, j)
         == Pending(senders, filters, j) + Owes(d, filters, j)
    decreases |senders|
  {
    hide Owes;
    var n := |senders| - 1;
    if k == n {
      assert senders[k := d][..n] == senders[..n];
    } else {
      PendingUpdate(senders[..n], k, d, filters, j);
      assert senders[k := d][..n] == senders[..n][k := d];
      AddBoth(Pending(senders[..n][k := d], filters, j), Owes(senders[k], filters, j),
              Pending(senders[..n], filters, j), Owes(d, filters, j), Owes(senders[n], filters, j));
    }
  }

  lemma AddBoth(a: multiset<Frame>, x: multiset<Frame>, b: multiset<Frame>, y: multiset<Frame>, z: multiset<Frame>)
    requires a + x == b + y
    ensures a + z + x == b + z + y
  {
    assert a + z + x == a + x + z && b + z + y == b + y + z;
  }

  lemma Cancel(a: multiset<Frame>, b: multiset<Frame>, c: multiset<Frame>)
    requires a + c == b + c
    ensures a == b
  {
    assert forall x :: (a + c)[x] == a[x] + c[x] && (b + c)[x] == b[x] + c[x];
  }

  lemma {:induction false} PendingRemove(senders: seq<Sender>, k: nat, filters: seq<Filter>, j: nat)
    requires k < |senders|
    ensures Pending(senders[..k] + senders[k + 1..], filters, j) + Owes(senders[k], filters, j)
        == Pending(senders, filters, j)
    decreases |senders|
  {
    hide Owes;
    var n := |senders| - 1;
    if k == n {
      assert senders[..k] + senders[k + 1..] == senders[..n];
    } else {
      PendingRemove(senders[..n], k, filters, j);
      assert (senders[..k] + senders[k + 1..])[..n - 1] == senders[..n][..k] + senders[..n][k + 1..];
    }
  }

  lemma PendingAppend(senders: seq<Sender>, d: Sender, filters: seq<Filter>, j: nat)
    ensures Pending(senders + [d], filters, j) == Pending(senders, filters, j) + Owes(d, filters, j)
  {
  }

  lemma AcceptedAppend(sent: seq<Frame>, f: Frame, filters: seq<Filter>)
    ensures Accepted(sent + [f], filters)
         == Accepted(sent, filters) + (if MatchesAny(filters, f) then multiset{f} else multiset{})
  {
  }

  lemma MoveOn(b: Bus, k: nat, filters: seq<Filter>, j: nat)
    requires AtSub(b, k)
    ensures var d := b.senders[k];
            Pending(b.senders[k := Sender(d.frame, d.number, d.next + 1, Offering)], filters, j)
            + (if d.next == j && MatchesAny(filters, d.frame) then multiset{d.frame} else multiset{})
            == Pending(b.senders, filters, j)
  {
    hide MatchesAny, Pending;
    var d := b.senders[k];
    var moved := Sender(d.frame, d.number, d.next + 1, Offering);
    PendingUpdate(b.senders, k, moved, filters, j);
    if d.next != j {
      Cancel(Pending(b.senders[k := moved], filters, j), Pending(b.senders, filters, j), Owes(d, filters, j));
    }
  }

  /** A change of phase alone owes no more and no less. */
  lemma SameOwed(b: Bus, k: nat, phase: Phase, filters: seq<Filter>, j: nat)
    requires k < |b.senders|
    ensures Pending(b.senders[k := b.senders[k].(phase := phase)], filters, j) == Pending(b.senders, filters, j)
  {
    hide MatchesAny, Pending;
    var d := b.senders[k].(phase := phase);
    PendingUpdate(b.senders, k, d, filters, j);
    Cancel(Pending(b.senders[k := d], filters, j), Pending(b.senders, filters, j), Owes(d, filters, j));
  }

  lemma SettledBegin(b: Bus, f: Frame, j: nat)
    requires Enabled(b, Begin(f)) && j < |b.subs| && Settled(b, j)
    ensures Settled(Next(b, Begin(f)), j)
  {
    hide MatchesAny, Validates, Accepted, Pending;
    var s := b.subs[j];
    if Validates(f) && !b.closed {
      PendingAppend(b.senders, Sender(f, |b.sent|, 0, Offering), s.filters, j);
      AcceptedAppend(b.sent[s.since..], f, s.filters);
      assert (b.sent + [f])[s.since..] == b.sent[s.since..] + [f];
    }
  }

  /** A sender that moves on has offered its frame to the subscriber it was at, if it matches. */
  lemma SettledMove(b: Bus, c: Bus, k: nat, j: nat)
    requires AtSub(b, k) && j < |b.subs| == |c.subs| && Settled(b, j) && c.sent == b.sent
    requires var d := b.senders[k]; c.senders == b.senders[k := Sender(d.frame, d.number, d.next + 1, Offering)]
    requires c.subs[j].filters == b.subs[j].filters && c.subs[j].since == b.subs[j].since
    requires c.subs[j].offers == if b.senders[k].next == j && MatchesAny(b.subs[j].filters, b.senders[k].frame)
                                 then b.subs[j].offers + [b.senders[k].frame] else b.subs[j].offers
    ensures Settled(c, j)
  {
    hide MatchesAny, Accepted, Pending;
    var s, d := b.subs[j], b.senders[k];
    MoveOn(b, k, s.filters, j);
    Regroup(multiset(s.offers), d.frame, s.offers, Pending(c.senders, s.filters, j));
  }

  lemma SettledOffer(b: Bus, k: nat, j: nat)
    requires Enabled(b, Offer(k)) && j < |b.subs| && Settled(b, j)
    ensures j < |Next(b, Offer(k)).subs| && Settled(Next(b, Offer(k)), j)
  {
    hide MatchesAny, Accepted, Pending;
    var c := Next(b, Offer(k));
    if c.senders[k].phase == Evicting {
      SameOwed(b, k, Evicting, b.subs[j].filters, j);
    } else {
      hide Settled;
      SettledMove(b, c, k, j);
    }
  }

  lemma Regroup(o: multiset<Frame>, f: Frame, offers: seq<Frame>, p: multiset<Frame>)
    requires o == multiset(offers)
    ensures multiset(offers + [f]) + p == o + (p + multiset{f})
  {
  }

  lemma SettledRefill(b: Bus, k: nat, j: nat)
    requires Shape(b) && Enabled(b, Refill(k)) && j < |b.subs| && Settled(b, j)
    ensures j < |Next(b, Refill(k)).subs| && Settled(Next(b, Refill(k)), j)
  {
    hide MatchesAny, Settled, SubOk;
    assert SenderOk(b, b.senders[k]);
    SettledMove(b, Next(b, Refill(k)), k, j);
  }

  lemma SettledStep(b: Bus, step: Step, j: nat)
    requires Shape(b) && Enabled(b, step) && j < |b.subs| && Settled(b, j)
    ensures j < |Next(b, step).subs| && Settled(Next(b, step), j)
  {
    hide MatchesAny, Validates, Accepted, Pending, SubOk;
    var s := b.subs[j];
    match step {
      case Begin(f) => SettledBegin(b, f, j);
      case Offer(k) => SettledOffer(b, k, j);
      case Evict(k) => SameOwed(b, k, Refilling, s.filters, j);
      case Refill(k) => SettledRefill(b, k, j);
      case End(k) => PendingRemove(b.senders, k, s.filters, j);
      case _ =>
    }
  }

  lemma SettledFresh(b: Bus, filters: seq<Filter>, depth: nat, policy: Policy)
    requires Enabled(b, Subscribe(filters, depth, policy)) && !b.closed
    ensures Settled(Next(b, Subscribe(filters, depth, policy)), |b.subs|)
  {
  }

  // ----- Every reachable state -----

  ghost predicate Inv(b: Bus) {
    Shape(b) && Counted(b) && forall j :: 0 <= j < |b.subs| ==> Settled(b, j)
  }

  lemma InvStep(b: Bus, step: Step)
    requires Inv(b) && Enabled(b, step)
    ensures Inv(Next(b, step))
  {
    hide Shape, Counted, Settled, Validates, MatchesAny;
    ShapeStep(b, step);
    CountedStep(b, step);
    var c := Next(b, step);
    forall j: nat | j < |c.subs| ensures Settled(c, j) {
      if j < |b.subs| {
        SettledStep(b, step, j);
      } else {
        SettledFresh(b, step.filters, step.depth, step.policy);
      }
    }
  }

  lemma {:induction false} Reachable(steps: seq<Step>)
    requires Run(steps).Some?
    ensures Inv(Run(steps).value)
    decreases |steps|
  {
    if steps != [] {
      hide Inv, Next;
      Reachable(steps[..|steps| - 1]);
      InvStep(Run(steps[..|steps| - 1]).value, steps[|steps| - 1]);
    } else {
      assert Inv(New());
    }
  }

  /** Over all interleavings: nothing is ever sent on a closed channel, no queue exceeds its depth, and what a receiver
      has consumed followed by what is queued for it is an in-order subsequence of its decided matching offers. */
  lemma QueuesAreSafe(steps: seq<Step>, j: nat)
    requires Run(steps).Some? && j < |Run(steps).value.subs|
    ensures var b := Run(steps).value;
            var s := b.subs[j];
            && !b.panicked && (b.closed ==> b.senders == [])
            && |s.queue| <= s.depth && Subsequence(s.consumed + s.queue, s.offers)
  {
    hide Run;
    Reachable(steps);
  }

  /** The counters: deliveries and drops add up to the decided matching offers, and deliveries to what was consumed,
      is queued or was evicted. */
  lemma Conservation(steps: seq<Step>)
    requires Run(steps).Some?
    ensures var b := Run(steps).value;
            && b.writes == |b.sent|
            && b.delivers + b.drops == Total(b.subs, false)
            && b.delivers == Total(b.subs, true)
            && forall j :: 0 <= j < |b.subs| && b.subs[j].policy != DropOldest ==> b.subs[j].evicted == 0
  {
    hide Run;
    Reachable(steps);
  }

  /** Exactly once: when no Send is in flight, each subscriber has been offered every matching frame accepted since it
      subscribed, as often as it was sent, and nothing else. */
  lemma OfferedExactlyOnce(steps: seq<Step>, j: nat)
    requires Run(steps).Some? && j < |Run(steps).value.subs| && Run(steps).value.senders == []
    ensures var b := Run(steps).value;
            var s := b.subs[j];
            s.since <= |b.sent| && multiset(s.offers) == Accepted(b.sent[s.since..], s.filters)
  {
    hide Run, Accepted;
    Reachable(steps);
    assert Settled(Run(steps).value, j);
  }

  // ----- When a Send waits -----

  ghost predicate CanMove(b: Bus, k: nat) {
    Enabled(b, Offer(k)) || Enabled(b, Evict(k)) || Enabled(b, Refill(k)) || Enabled(b, End(k))
  }

  /** A Send in flight cannot move exactly when it is at a full Block queue it matches, or has decided to evict from a
      DropOldest queue that has been emptied, or has evicted and the queue has been filled again. With DropNewest
      subscribers alone a Send never waits. */
  lemma WaitsIff(steps: seq<Step>, k: nat)
    requires Run(steps).Some? && k < |Run(steps).value.senders|
    ensures var b := Run(steps).value;
            var d := b.senders[k];
            && (!CanMove(b, k) <==> d.next < |b.subs| && match d.phase
                  case Offering =>
                    var s := b.subs[d.next]; s.policy == Block && MatchesAny(s.filters, d.frame) && Full(s)
                  case Evicting => b.subs[d.next].queue == []
                  case Refilling => Full(b.subs[d.next]))
            && ((forall j :: 0 <= j < |b.subs| ==> b.subs[j].policy == DropNewest) ==> CanMove(b, k))
  {
    hide Run, MatchesAny, SubOk;
    Reachable(steps);
    var b := Run(steps).value;
    assert SenderOk(b, b.senders[k]);
  }
}
