/** When a Close or Subscribe that waits for the write lock can get it (virtual/bus.go): a DropOldest Send that waits on
    a drained queue may hold the read lock for ever. */
module VirtualBusProgress {
  import opened Bits
  import opened Can
  import opened VirtualBus

  /** Send k waits to evict from a drained queue. */
  ghost predicate Waits(b: Bus, k: nat) {
    AtSub(b, k) && b.senders[k].phase == Evicting && SubOf(b, k).queue == []
  }

  /** A Subscribe or Close waits for Sends each of which waits to evict from a queue that has been drained. */
  ghost predicate Deadlocked(b: Bus) {
    b.writer && b.senders != [] && forall k :: 0 <= k < |b.senders| ==> Waits(b, k)
  }

  ghost predicate EvictingAt(b: Bus, k: nat, j: nat) {
    k < |b.senders| && b.senders[k].phase == Evicting && b.senders[k].next == j
  }

  /** Send i may still deliver to subscriber j. */
  ghost predicate Helps(b: Bus, i: nat, j: nat)
    requires j < |b.subs|
  {
    && i < |b.senders| && !EvictingAt(b, i, j)
    && b.senders[i].next <= j && MatchesAny(b.subs[j].filters, b.senders[i].frame)
  }

  /** A Send waits to evict from a drained queue, and no other Send in flight can fill it. */
  ghost predicate DoomedAt(b: Bus, j: nat) {
    j < |b.subs| && b.subs[j].queue == [] && (exists k :: EvictingAt(b, k, j)) && forall i :: !Helps(b, i, j)
  }

  ghost predicate Doomed(b: Bus) { exists j :: DoomedAt(b, j) }

  // ----- A doomed bus stays doomed -----

  /** With a writer waiting, a Send in flight after a step was in flight before; it has not gone back, and it has not
      moved at all if it waits to evict from a drained queue. */
  lemma SenderMoves(b: Bus, step: Step, k: nat) returns (i: nat)
    requires b.writer && b.senders != [] && Enabled(b, step) && k < |Next(b, step).senders|
    ensures i < |b.senders|
    ensures var d, e := b.senders[i], Next(b, step).senders[k];
            && e.frame == d.frame && e.next >= d.next
            && (Waits(b, i) ==> e == d)
  {
    hide MatchesAny, Full;
    i := if step.End? && k >= step.k then k + 1 else k;
  }

  lemma WaiterStays(b: Bus, step: Step, k: nat) returns (i: nat)
    requires b.writer && Enabled(b, step) && Waits(b, k)
    ensures i < |Next(b, step).senders| && Next(b, step).senders[i] == b.senders[k]
  {
    hide MatchesAny, Full;
    i := if step.End? && k > step.k then k - 1 else k;
  }

  lemma SubStays(b: Bus, step: Step, j: nat)
    requires Shape(b) && b.writer && b.senders != [] && Enabled(b, step) && DoomedAt(b, j)
    ensures Next(b, step).writer && j < |Next(b, step).subs|
    ensures Next(b, step).subs[j].filters == b.subs[j].filters && Next(b, step).subs[j].queue == []
  {
    hide MatchesAny, SubOk;
    match step {
      case Offer(k) => assert !Helps(b, k, j);
      case Refill(k) =>
        assert !Helps(b, k, j);
        assert SenderOk(b, b.senders[k]);
      case _ =>
    }
  }

  lemma DoomedStep(b: Bus, step: Step, j: nat)
    requires Shape(b) && b.writer && Enabled(b, step) && DoomedAt(b, j)
    ensures Next(b, step).writer && DoomedAt(Next(b, step), j)
  {
    hide Next, Enabled, MatchesAny, Shape;
    var c := Next(b, step);
    var k :| EvictingAt(b, k, j);
    SubStays(b, step, j);
    var k' := WaiterStays(b, step, k);
    assert EvictingAt(c, k', j);
    forall i: nat ensures !Helps(c, i, j) {
      if i < |c.senders| {
        var i' := SenderMoves(b, step, i);
        assert !Helps(b, i', j);
      }
    }
  }

  /** Whatever happens, Sends stay in flight, and no Close or Subscribe gets its lock. */
  lemma {:induction false} DoomedLasts(b: Bus, more: seq<Step>)
    requires Shape(b) && b.writer && Doomed(b) && Path(b, more).Some?
    ensures var c := Path(b, more).value;
            Shape(c) && c.writer && Doomed(c) && c.senders != [] && !Enabled(c, Close)
    decreases |more|
  {
    if more == [] {
      var j :| DoomedAt(b, j);
      var k :| EvictingAt(b, k, j);
    } else {
      hide Next, Shape, DoomedAt;
      var c := Path(b, more[..|more| - 1]).value;
      DoomedLasts(b, more[..|more| - 1]);
      var j :| DoomedAt(c, j);
      DoomedStep(c, more[|more| - 1], j);
      ShapeStep(c, more[|more| - 1]);
      SomeInFlight(Path(b, more).value, j);
    }
  }

  lemma SomeInFlight(b: Bus, j: nat)
    requires DoomedAt(b, j)
    ensures b.senders != [] && !Enabled(b, Close)
  {
    var k :| EvictingAt(b, k, j);
  }

  // ----- A bus that is not doomed can drain -----

  /** How far a Send is from its end. */
  function Work(d: Sender, n: nat): nat {
    if d.next > n then 0
    else 3 * (n - d.next) + (match d.phase case Offering => 3 case Evicting => 2 case Refilling => 1)
  }

  function TotalWork(senders: seq<Sender>, n: nat): nat {
    if senders == [] then 0 else TotalWork(senders[..|senders| - 1], n) + Work(senders[|senders| - 1], n)
  }

  lemma {:induction false} WorkUpdate(senders: seq<Sender>, k: nat, d: Sender, n: nat)
    requires k < |senders|
    ensures TotalWork(senders[k := d], n) + Work(senders[k], n) == TotalWork(senders, n) + Work(d, n)
    decreases |senders|
  {
    var m := |senders| - 1;
    if k == m {
      assert senders[k := d][..m] == senders[..m];
    } else {
      WorkUpdate(senders[..m], k, d, n);
      assert senders[k := d][..m] == senders[..m][k := d];
    }
  }

  lemma {:induction false} WorkRemove(senders: seq<Sender>, k: nat, n: nat)
    requires k < |senders|
    ensures TotalWork(senders[..k] + senders[k + 1..], n) + Work(senders[k], n) == TotalWork(senders, n)
    decreases |senders|
  {
    var m := |senders| - 1;
    if k == m {
      assert senders[..k] + senders[k + 1..] == senders[..m];
    } else {
      WorkRemove(senders[..m], k, n);
      assert (senders[..k] + senders[k + 1..])[..m - 1] == senders[..m][..k] + senders[..m][k + 1..];
    }
  }

  /** The subscribers are the same but for what is in their queues, and only the queue of j has changed. */
  ghost predicate OnlyQueue(b: Bus, c: Bus, j: nat) {
    && c.writer == b.writer && |c.subs| == |b.subs|
    && (forall t :: 0 <= t < |b.subs| ==> c.subs[t].filters == b.subs[t].filters)
    && (forall t :: 0 <= t < |b.subs| && t != j ==> c.subs[t].queue == b.subs[t].queue)
  }

  /** What one sender's advance does: it ends, evicts, or leaves its subscriber with a frame in the queue if it
      matches. */
  ghost predicate Advanced(b: Bus, c: Bus, k: nat) {
    k < |b.senders| &&
    var d := b.senders[k];
    OnlyQueue(b, c, d.next) &&
    if d.next == |b.subs| then c.subs == b.subs && c.senders == b.senders[..k] + b.senders[k + 1..]
    else if d.phase == Evicting then
      && AtSub(b, k) && SubOf(b, k).queue != []
      && c.senders == b.senders[k := d.(phase := Refilling)]
    else
      && AtSub(b, k) && c.senders == b.senders[k := Sender(d.frame, d.number, d.next + 1, Offering)]
      && (if MatchesAny(SubOf(b, k).filters, d.frame) then c.subs[d.next].queue != []
          else c.subs[d.next].queue == SubOf(b, k).queue)
  }

  /** The next step of a Send. */
  function StepOf(b: Bus, k: nat): Step
    requires k < |b.senders|
  {
    var d := b.senders[k];
    if d.next == |b.subs| then End(k)
    else match d.phase case Offering => Offer(k) case Evicting => Evict(k) case Refilling => Refill(k)
  }

  /** A Send finds the queue it has to put its frame in full. */
  ghost predicate Crowded(b: Bus, k: nat) {
    && AtSub(b, k) && b.senders[k].phase != Evicting
    && Full(SubOf(b, k)) && MatchesAny(SubOf(b, k).filters, b.senders[k].frame)
  }

  lemma StepAdvances(b: Bus, k: nat)
    requires k < |b.senders| && SenderOk(b, b.senders[k]) && !Waits(b, k) && !Crowded(b, k)
    ensures Enabled(b, StepOf(b, k)) && Advanced(b, Next(b, StepOf(b, k)), k)
  {
    hide MatchesAny;
  }

  /** A Send that is not waiting can be advanced, after one receive if its queue is full. */
  lemma Advance(b: Bus, k: nat) returns (more: seq<Step>, c: Bus)
    requires Shape(b) && k < |b.senders| && !Waits(b, k)
    ensures Path(b, more) == Some(c) && Shape(c) && Advanced(b, c, k)
  {
    assert SenderOk(b, b.senders[k]);
    hide *;
    if Crowded(b, k) {
      more, c := MakeRoom(b, k);
    } else {
      StepAdvances(b, k);
      more, c := Take(b, StepOf(b, k));
    }
  }

  lemma Take(b: Bus, step: Step) returns (more: seq<Step>, c: Bus)
    requires Shape(b) && Enabled(b, step)
    ensures c == Next(b, step) && Path(b, more) == Some(c) && Shape(c)
  {
    hide Shape, Next, Enabled;
    more, c := [step], Next(b, step);
    assert [] + [step] == [step];
    PathAppend(b, [], b, step);
    ShapeStep(b, step);
  }

  lemma MakeRoom(b: Bus, k: nat) returns (more: seq<Step>, c: Bus)
    requires Shape(b) && Crowded(b, k)
    ensures Path(b, more) == Some(c) && Shape(c) && Advanced(b, c, k)
  {
    hide MatchesAny, Path;
    var d := b.senders[k];
    var mid: Bus;
    assert SubOk(SubOf(b, k));
    more, mid := Take(b, Consume(d.next));
    var step := if d.phase == Offering then Offer(k) else Refill(k);
    c := Next(mid, step);
    PathAppend(b, more, mid, step);
    more := more + [step];
    ShapeStep(mid, step);
  }

  lemma LessWork(b: Bus, c: Bus, k: nat)
    requires Shape(b) && Advanced(b, c, k)
    ensures TotalWork(c.senders, |c.subs|) < TotalWork(b.senders, |b.subs|)
  {
    hide MatchesAny, SubOk;
    var d, n := b.senders[k], |b.subs|;
    assert SenderOk(b, d);
    if d.next == n {
      WorkRemove(b.senders, k, n);
    } else {
      WorkUpdate(b.senders, k, c.senders[k], n);
    }
  }

  lemma HelperAfterEnd(b: Bus, c: Bus, k: nat, t: nat, w: nat)
    requires Advanced(b, c, k) && b.senders[k].next == |b.subs|
    requires t < |b.subs| && c.subs[t].queue == [] && EvictingAt(c, w, t) && !DoomedAt(b, t)
    ensures exists i: nat :: Helps(c, i, t)
  {
    hide MatchesAny;
    assert EvictingAt(b, if w < k then w else w + 1, t);
    var i: nat :| Helps(b, i, t);
    assert Helps(c, if i < k then i else i - 1, t);
  }

  lemma HelperAfterMove(b: Bus, c: Bus, k: nat, t: nat, w: nat)
    requires Advanced(b, c, k) && b.senders[k].next < |b.subs| && SenderOk(b, b.senders[k])
    requires t < |b.subs| && c.subs[t].queue == [] && EvictingAt(c, w, t) && !DoomedAt(b, t)
    ensures exists i: nat :: Helps(c, i, t)
  {
    hide MatchesAny;
    var d := b.senders[k];
    if t == d.next && d.phase == Evicting {
      assert Helps(c, k, t);
    } else {
      assert EvictingAt(b, w, t) && b.subs[t].queue == [];
      var i: nat :| Helps(b, i, t);
      assert Helps(c, i, t);
    }
  }

  lemma NotDoomedAfter(b: Bus, c: Bus, k: nat)
    requires Shape(b) && Advanced(b, c, k) && !Doomed(b)
    ensures !Doomed(c)
  {
    hide Shape;
    NextInRange(b, k);
    if t: nat :| DoomedAt(c, t) {
      var w: nat :| EvictingAt(c, w, t);
      if b.senders[k].next == |b.subs| {
        HelperAfterEnd(b, c, k, t, w);
      } else {
        HelperAfterMove(b, c, k, t, w);
      }
    }
  }

  lemma NextInRange(b: Bus, k: nat)
    requires Shape(b) && k < |b.senders|
    ensures SenderOk(b, b.senders[k]) && b.senders[k].next <= |b.subs|
  {
    assert SenderOk(b, b.senders[k]);
  }

  /** Of the Sends in flight, one that has come least far. */
  lemma {:induction false} LeastFar(senders: seq<Sender>) returns (k: nat)
    requires senders != []
    ensures k < |senders| && forall i :: 0 <= i < |senders| ==> senders[k].next <= senders[i].next
    decreases |senders|
  {
    var n := |senders| - 1;
    if n == 0 {
      k := 0;
    } else {
      k := LeastFar(senders[..n]);
      k := if senders[n].next < senders[k].next then n else k;
    }
  }

  /** If every Send in flight waits to evict from a drained queue, nobody can fill the queue of the least advanced. */
  lemma AllStuckIsDoomed(b: Bus)
    requires b.senders != [] && forall k :: 0 <= k < |b.senders| ==> Waits(b, k)
    ensures Doomed(b)
  {
    var k := LeastFar(b.senders);
    var j := b.senders[k].next;
    assert Waits(b, k) && EvictingAt(b, k, j);
    forall i: nat ensures !Helps(b, i, j) {
      assert i < |b.senders| ==> Waits(b, i);
    }
    assert DoomedAt(b, j);
  }

  /** A bus that is not doomed can let every Send in flight end. */
  lemma {:induction false} Drain(b: Bus) returns (more: seq<Step>)
    requires Shape(b) && !Doomed(b)
    ensures Path(b, more).Some?
    ensures Path(b, more).value.senders == [] && Path(b, more).value.writer == b.writer
    decreases TotalWork(b.senders, |b.subs|)
  {
    hide Shape, Doomed, Waits;
    if b.senders == [] {
      more := [];
    } else {
      if forall k :: 0 <= k < |b.senders| ==> Waits(b, k) {
        AllStuckIsDoomed(b);
      }
      var k: nat :| k < |b.senders| && !Waits(b, k);
      var first, c := Advance(b, k);
      LessWork(b, c, k);
      NotDoomedAfter(b, c, k);
      var rest := Drain(c);
      PathConcat(b, first, rest);
      more := first + rest;
    }
  }

  /** While a Close or Subscribe waits for its lock, in any reachable state: the Sends in flight can all end, and the
      lock be got, exactly when the bus is not doomed. */
  lemma CloseReachableIff(steps: seq<Step>)
    requires Run(steps).Some? && Run(steps).value.writer
    ensures var b := Run(steps).value;
            && ((exists more :: Path(b, more).Some? && Enabled(Path(b, more).value, Close)) <==> !Doomed(b))
            && ((exists more :: Path(b, more).Some? && Path(b, more).value.senders == []) <==> !Doomed(b))
  {
    hide Run, Doomed, Shape, Path;
    Reachable(steps);
    var b := Run(steps).value;
    if Doomed(b) {
      forall more | Path(b, more).Some?
        ensures Path(b, more).value.senders != [] && !Enabled(Path(b, more).value, Close)
      {
        DoomedLasts(b, more);
      }
    } else {
      var more := Drain(b);
      assert Enabled(Path(b, more).value, Close);
    }
  }

  // ----- No Send moves at all -----

  lemma DeadlockStep(b: Bus, step: Step)
    requires Deadlocked(b) && Enabled(b, step)
    ensures Deadlocked(Next(b, step)) && Next(b, step).senders == b.senders
    ensures Next(b, step).closed == b.closed && |Next(b, step).subs| == |b.subs|
  {
    hide MatchesAny, Full;
    var c := Next(b, step);
    assert forall k: nat :: k < |b.senders| ==> Waits(b, k) && b.senders[k].phase == Evicting;
    forall k: nat | k < |c.senders| ensures Waits(c, k) {
      assert Waits(b, k);
    }
  }

  /** It lasts: no Send moves, none begins, and the Subscribe or Close never gets its lock, whatever receivers do. */
  lemma {:induction false} DeadlockLasts(b: Bus, steps: seq<Step>)
    requires Deadlocked(b) && Path(b, steps).Some?
    ensures Deadlocked(Path(b, steps).value) && Path(b, steps).value.senders == b.senders
    ensures Path(b, steps).value.closed == b.closed && |Path(b, steps).value.subs| == |b.subs|
    ensures !Enabled(Path(b, steps).value, Close)
    decreases |steps|
  {
    if steps == [] {
    } else {
      hide Deadlocked, Next;
      DeadlockLasts(b, steps[..|steps| - 1]);
      DeadlockStep(Path(b, steps[..|steps| - 1]).value, steps[|steps| - 1]);
    }
  }

  /** Exactly the deadlocked states are those in which no Send in flight ever moves again. */
  lemma DeadlockedIff(steps: seq<Step>)
    requires Run(steps).Some? && Run(steps).value.writer && Run(steps).value.senders != []
    ensures var b := Run(steps).value;
            Deadlocked(b) <==> forall more :: Path(b, more).Some? ==> Path(b, more).value.senders == b.senders
  {
    hide Run, Shape, Path;
    Reachable(steps);
    var b := Run(steps).value;
    if Deadlocked(b) {
      forall more | Path(b, more).Some? ensures Path(b, more).value.senders == b.senders {
        DeadlockLasts(b, more);
      }
    } else {
      var k: nat :| k < |b.senders| && !Waits(b, k);
      var more, c := Advance(b, k);
      LessWork(b, c, k);
      assert Path(b, more).value.senders != b.senders;
    }
  }

  // ----- Both happen -----

  lemma Extend(steps: seq<Step>, b: Bus, step: Step) returns (c: Bus, steps': seq<Step>)
    requires Run(steps) == Some(b) && Enabled(b, step)
    ensures c == Next(b, step) && Run(steps') == Some(c)
  {
    c, steps' := Next(b, step), steps + [step];
    PathAppend(New(), steps, b, step);
  }

  /** One subscriber of depth one whose queue a first Send has filled. */
  lemma FilledOnce(f: Frame) returns (b: Bus, steps: seq<Step>)
    requires Validates(f)
    ensures Run(steps) == Some(b)
    ensures b == Bus([Sub([], 1, DropOldest, true, [f], [], [f], [0], 0, 0)], false, false, [], false, [f], 1, 1, 0, 0)
  {
    hide Validates, Run;
    var s := Sub([], 1, DropOldest, true, [], [], [], [], 0, 0);
    EmptyRun();
    b, steps := Extend([], New(), Lock);
    b, steps := Extend(steps, b, Subscribe([], 1, DropOldest));
    assert b == New().(subs := [s]);
    b, steps := Extend(steps, b, Begin(f));
    assert b == Bus([s], false, false, [Sender(f, 0, 0, Offering)], false, [f], 1, 0, 0, 0);
    b, steps := Extend(steps, b, Offer(0));
    var t := s.(queue := [f], offers := [f], order := [0]);
    assert b.subs[0].queue == [f] && b.subs[0].offers == [f] && b.subs[0].order == [0];
    assert b == Bus([t], false, false, [Sender(f, 0, 1, Offering)], false, [f], 1, 1, 0, 0);
    b, steps := Extend(steps, b, End(0));
  }

  lemma EmptyRun()
    ensures Run([]) == Some(New())
  {
  }

  /** The eviction is not atomic: the queue that was full when it was decided can be drained before it, and the Send
      then waits with the read lock held, keeping Close and Subscribe out. */
  lemma EvictionCanWait(f: Frame, g: Frame) returns (steps: seq<Step>)
    requires Validates(f) && Validates(g)
    ensures Run(steps).Some? && |Run(steps).value.senders| == 1 == |Run(steps).value.subs|
    ensures !CanMove(Run(steps).value, 0) && Enabled(Run(steps).value, Lock)
    ensures Run(steps).value.subs[0].policy == DropOldest
    ensures Deadlocked(Next(Run(steps).value, Lock))
  {
    hide Validates, Run;
    var b: Bus;
    b, steps := FilledOnce(f);
    var s := b.subs[0];
    b, steps := Extend(steps, b, Begin(g));
    assert b == Bus([s], false, false, [Sender(g, 1, 0, Offering)], false, [f, g], 2, 1, 0, 0);
    b, steps := Extend(steps, b, Offer(0));
    assert b == Bus([s], false, false, [Sender(g, 1, 0, Evicting)], false, [f, g], 2, 1, 0, 0);
    b, steps := Extend(steps, b, Consume(0));
    assert b.subs[0].queue == s.queue[1..] == [];
  }

  /** Others may still move: a Send h that has come past a drained queue at which g waits to evict cannot help, and can
      end, but the bus is doomed. */
  lemma DoomedThoughMoving(f: Frame, g: Frame, h: Frame) returns (steps: seq<Step>)
    requires Validates(f) && Validates(g) && Validates(h)
    ensures Run(steps).Some? && Run(steps).value.writer
    ensures Doomed(Run(steps).value) && !Deadlocked(Run(steps).value) && CanMove(Run(steps).value, 1)
  {
    hide Validates, Run;
    var b: Bus;
    b, steps := FilledOnce(f);
    var s := b.subs[0];
    b, steps := Extend(steps, b, Begin(g));
    b, steps := Extend(steps, b, Offer(0));
    b, steps := Extend(steps, b, Consume(0));
    b, steps := Extend(steps, b, Begin(h));
    assert b.senders == [Sender(g, 1, 0, Evicting), Sender(h, 2, 0, Offering)];
    b, steps := Extend(steps, b, Offer(1));
    assert b.senders == [Sender(g, 1, 0, Evicting), Sender(h, 2, 1, Offering)];
    assert b.subs[0].queue == [h];
    b, steps := Extend(steps, b, Consume(0));
    b, steps := Extend(steps, b, Lock);
    assert EvictingAt(b, 0, 0);
    assert DoomedAt(b, 0);
    assert !Waits(b, 1) && Enabled(b, End(1));
  }
}
