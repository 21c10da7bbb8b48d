/** What the ISO-TP sender keeps against any peer, whatever it answers. */
module IsoTpSender {
  import opened Bits
  import opened Can
  import opened IsoTp

  /** The frames a machine has still to send when its peer lets it. */
  function Remaining(s: Sender): seq<Data>
    requires s.Valid()
  {
    match s
    case Begin(payload) => Segments(payload)
    case AwaitFirst(rest) => Consecutives(rest, 1)
    case Ready(rest, sn, _, _) => Consecutives(rest, sn)
    case AwaitResume(rest, sn) => Consecutives(rest, sn)
    case AwaitBlock(rest, sn) => Consecutives(rest, sn)
    case Overflowed => []
    case Finished => []
  }

  ghost predicate Accounted(payload: Data, s: Sender, puts: seq<Data>)
    requires 1 <= |payload| <= MAX_PAYLOAD && s.Valid()
  {
    && (s.Begin? ==> s.payload == payload && puts == [])
    && (s.AwaitFirst? ==> |payload| >= 8 && s.rest == payload[6..])
    && (if s.Overflowed? then puts == [Segments(payload)[0]] else puts + Remaining(s) == Segments(payload))
  }

  lemma RemainingStep(s: Sender)
    requires s.Valid() && s.Out().Some?
    ensures s.Sent().Valid() && Remaining(s) == [s.Out().value] + Remaining(s.Sent())
  {
    match s {
      case Begin(p) =>
      case Ready(rest, sn, _, _) =>
        var rest' := rest[Min(7, |rest|)..];
        assert Remaining(s.Sent()) == Consecutives(rest', (sn + 1) % 0x100);
    }
  }

  lemma PutAccounted(payload: Data, s: Sender, puts: seq<Data>)
    requires 1 <= |payload| <= MAX_PAYLOAD && s.Valid() && s.Out().Some?
    requires Accounted(payload, s, puts)
    ensures Accounted(payload, s.Sent(), puts + [s.Out().value])
  {
    RemainingStep(s);
    assert puts + Remaining(s) == puts + [s.Out().value] + Remaining(s.Sent());
  }

  lemma TookAccounted(payload: Data, s: Sender, puts: seq<Data>, d: Data)
    requires 1 <= |payload| <= MAX_PAYLOAD && s.Valid() && s.Wants()
    requires Accounted(payload, s, puts)
    ensures s.Got(d).Valid() && Accounted(payload, s.Got(d), puts)
  {
  }

  lemma {:induction false} RunAccounted(payload: Data, log: seq<Event>)
    requires 1 <= |payload| <= MAX_PAYLOAD && SenderRun(payload, log).Some?
    ensures Accounted(payload, SenderRun(payload, log).value, Puts(log))
    decreases |log|
  {
    if log != [] {
      hide Accounted;
      var before, e := log[..|log| - 1], log[|log| - 1];
      RunAccounted(payload, before);
      var s := SenderRun(payload, before).value;
      match e {
        case Put(d) => PutAccounted(payload, s, Puts(before));
        case Took(d) =>
          assert Puts(log) == Puts(before);
          TookAccounted(payload, s, Puts(before), d);
      }
    } else {
      assert [] + Segments(payload) == Segments(payload);
    }
  }

  /** For every answer of the peer, what has been sent is a prefix of the one segmentation, and a finished
      sender has sent all of it. */
  lemma SentIsPrefix(payload: Data, log: seq<Event>)
    requires 1 <= |payload| <= MAX_PAYLOAD && SenderRun(payload, log).Some?
    ensures Puts(log) <= Segments(payload)
    ensures SenderRun(payload, log).value.Finished? ==> Puts(log) == Segments(payload)
  {
    RunAccounted(payload, log);
  }

  // ----- Block discipline -----

  ghost predicate IsGrant(e: Event) { e.Took? && IsFC(e.data) }

  /** State s is reached by putting n frames since grant fc was taken, and no grant since. */
  ghost predicate WithinBlock(s: Sender, fc: Grant, n: nat) {
    match s
    case Begin(_) => false
    case AwaitFirst(_) => false
    case Ready(_, _, count, current) => current == fc && count == n && (fc.blockSize > 0 ==> n < fc.blockSize)
    case AwaitResume(_, _) => fc.status == WAIT && (fc.blockSize > 0 ==> n < fc.blockSize)
    case AwaitBlock(_, _) => 0 < fc.blockSize == n
    case Overflowed => n == 0
    case Finished => fc.blockSize > 0 ==> n <= fc.blockSize
  }

  lemma WithinStep(s: Sender, fc: Grant, n: nat, e: Event)
    requires s.Valid() && s.Step(e).Some? && !IsGrant(e) && WithinBlock(s, fc, n)
    ensures WithinBlock(s.Step(e).value, fc, n + (if e.Put? then 1 else 0))
  {
  }

  lemma {:induction false} WithinRun(payload: Data, log: seq<Event>, i: nat)
    requires 1 <= |payload| <= MAX_PAYLOAD && SenderRun(payload, log).Some?
    requires i < |log| && IsGrant(log[i]) && forall j :: i < j < |log| ==> !IsGrant(log[j])
    ensures WithinBlock(SenderRun(payload, log).value, ToGrant(log[i].data), |Puts(log[i + 1..])|)
    decreases |log|
  {
    var before := log[..|log| - 1];
    if i + 1 == |log| {
      assert log[i + 1..] == [];
    } else {
      hide WithinBlock;
      assert before[i] == log[i];
      WithinRun(payload, before, i);
      assert log[i + 1..][..|log| - 1 - (i + 1)] == before[i + 1..];
      WithinStep(SenderRun(payload, before).value, ToGrant(log[i].data), |Puts(before[i + 1..])|, log[|log| - 1]);
    }
  }

  /** After a Flow Control with block size b is taken, whatever block sizes came earlier and although the counter is
      compared as a byte: at most b frames go out before the next one is, unless b is zero. If it is not a Wait, nor
      the Overflow that ends the transfer, the sender wants to put until it has put b, or all it has. */
  lemma BlockBound(payload: Data, log: seq<Event>, i: nat)
    requires 1 <= |payload| <= MAX_PAYLOAD && SenderRun(payload, log).Some?
    requires i < |log| && IsGrant(log[i]) && forall j :: i < j < |log| ==> !IsGrant(log[j])
    ensures var s, fc, n := SenderRun(payload, log).value, ToGrant(log[i].data), |Puts(log[i + 1..])|;
            && (fc.blockSize > 0 ==> n <= fc.blockSize)
            && (fc.status != WAIT && !s.Overflowed? ==>
                  (s.Out().Some? <==> (fc.blockSize == 0 || n < fc.blockSize) && Puts(log) != Segments(payload)))
  {
    hide SenderRun, Puts, Segments;
    WithinRun(payload, log, i);
    SentIsPrefix(payload, log);
    SomethingLeft(payload, log);
  }

  lemma SomethingLeft(payload: Data, log: seq<Event>)
    requires 1 <= |payload| <= MAX_PAYLOAD && SenderRun(payload, log).Some?
    ensures SenderRun(payload, log).value.Out().Some? ==> Puts(log) != Segments(payload)
  {
    hide SenderRun, Puts, Segments;
    RunAccounted(payload, log);
    var s := SenderRun(payload, log).value;
    if s.Out().Some? {
      RemainingStep(s);
    }
  }

  // ----- Wait -----

  ghost predicate IsWait(e: Event) { IsGrant(e) && ToGrant(e.data).status == WAIT }

  /** State s is reached by putting n frames since a Wait: a sender that one already held puts exactly one. */
  ghost predicate Holding(s: Sender, held: bool, n: nat) {
    match s
    case Begin(_) => false
    case Ready(_, _, _, fc) => held && n == 0 && fc.status == WAIT
    case _ => n == if held then 1 else 0
  }

  lemma HoldingStep(s: Sender, held: bool, n: nat, e: Event)
    requires s.Valid() && s.Step(e).Some? && !IsGrant(e) && Holding(s, held, n)
    ensures Holding(s.Step(e).value, held, n + (if e.Put? then 1 else 0))
  {
  }

  lemma {:induction false} WaitHolds(payload: Data, log: seq<Event>, i: nat)
    requires 1 <= |payload| <= MAX_PAYLOAD && SenderRun(payload, log).Some?
    requires i < |log| && IsWait(log[i])
    requires forall j :: i < j < |log| ==> !IsGrant(log[j])
    ensures SenderRun(payload, log[..i]).Some?
    ensures Holding(SenderRun(payload, log).value, SenderRun(payload, log[..i]).value.AwaitResume?,
                    |Puts(log[i + 1..])|)
    decreases |log|
  {
    hide Holding;
    var before := log[..|log| - 1];
    if i + 1 == |log| {
      assert log[i + 1..] == [] && log[..i] == before;
      TopOfWait(SenderRun(payload, before).value, log[i].data);
    } else {
      assert before[i] == log[i] && before[..i] == log[..i];
      WaitHolds(payload, before, i);
      assert log[i + 1..][..|log| - 1 - (i + 1)] == before[i + 1..];
      var held := SenderRun(payload, log[..i]).value.AwaitResume?;
      HoldingStep(SenderRun(payload, before).value, held, |Puts(before[i + 1..])|, log[|log| - 1]);
    }
  }

  /** After a Wait no frame goes out before the next Flow Control, except that a sender which a Wait already held
      puts one, and wants to until it has: the Wait check is made once for each frame. */
  lemma WaitBound(payload: Data, log: seq<Event>, i: nat)
    requires 1 <= |payload| <= MAX_PAYLOAD && SenderRun(payload, log).Some?
    requires i < |log| && IsWait(log[i])
    requires forall j :: i < j < |log| ==> !IsGrant(log[j])
    ensures SenderRun(payload, log[..i]).Some?
    ensures var held, n := SenderRun(payload, log[..i]).value.AwaitResume?, |Puts(log[i + 1..])|;
            && n <= (if held then 1 else 0)
            && (SenderRun(payload, log).value.Out().Some? <==> held && n == 0)
  {
    hide SenderRun, Puts, Holding;
    WaitHolds(payload, log, i);
    WhileHolding(SenderRun(payload, log).value, SenderRun(payload, log[..i]).value.AwaitResume?,
                 |Puts(log[i + 1..])|);
  }

  lemma WhileHolding(s: Sender, held: bool, n: nat)
    requires s.Valid() && Holding(s, held, n)
    ensures n <= (if held then 1 else 0)
    ensures s.Out().Some? <==> held && n == 0
  {
  }

  lemma TopOfWait(s: Sender, d: Data)
    requires s.Valid() && s.Wants() && IsFC(d) && ToGrant(d).status == WAIT
    ensures Holding(s.Got(d), s.AwaitResume?, 0)
  {
  }

  /** The exact exception: a sender that takes a Wait puts its next frame without another Flow Control exactly when a
      Wait held it already. */
  lemma WaitLetsThroughIff(payload: Data, log: seq<Event>, d: Data)
    requires 1 <= |payload| <= MAX_PAYLOAD
    requires SenderRun(payload, log).Some? && SenderRun(payload, log).value.Wants()
    requires IsWait(Took(d))
    ensures SenderRun(payload, log + [Took(d)]).Some?
    ensures var s, t := SenderRun(payload, log).value, SenderRun(payload, log + [Took(d)]).value;
            && (t.Out().Some? <==> s.AwaitResume?)
            && (s.AwaitResume? ==> t.Out() == Some(ConsecutiveFrame(s.rest, s.sn)))
  {
    hide SenderRun;
    SenderAppend(payload, log, SenderRun(payload, log).value, Took(d));
  }

  /** After its first frame a Wait holds the sender. */
  lemma HeldByWait(payload: Data, wait: Data) returns (log: seq<Event>)
    requires 8 <= |payload| <= MAX_PAYLOAD && IsWait(Took(wait))
    ensures SenderRun(payload, log) == Some(AwaitResume(payload[6..], 1))
    ensures log == [Put(FirstFrame(payload)), Took(wait)]
  {
    var first := Put(FirstFrame(payload));
    hide SenderRun, FirstFrame, ConsecutiveFrame;
    StartOfRun(payload);
    SenderAppend(payload, [], Begin(payload), first);
    SenderAppend(payload, [] + [first], AwaitFirst(payload[6..]), Took(wait));
    log := [] + [first] + [Took(wait)];
  }

  /** The exception does occur: after two Waits in a row a consecutive frame is on the bus. */
  lemma SecondWaitLetsOneThrough(payload: Data) returns (log: seq<Event>)
    requires 8 <= |payload| <= MAX_PAYLOAD
    ensures SenderRun(payload, log).Some? && |log| == 4
    ensures log[0].Put? && IsWait(log[1]) && IsWait(log[2]) && log[3] == Put(ConsecutiveFrame(payload[6..], 1))
  {
    var wait: Data := [FC + WAIT, 0, 0];
    var cf := Put(ConsecutiveFrame(payload[6..], 1));
    assert IsWait(Took(wait));
    hide SenderRun, IsWait, ConsecutiveFrame, FirstFrame, Segments, Consecutives;
    log := HeldByWait(payload, wait);
    WaitLetsThroughIff(payload, log, wait);
    log := log + [Took(wait)];
    SenderAppend(payload, log, SenderRun(payload, log).value, cf);
    log := log + [cf];
  }

  lemma StartOfRun(payload: Data)
    requires 1 <= |payload| <= MAX_PAYLOAD
    ensures SenderRun(payload, []) == Some(Begin(payload))
  {
  }
}
