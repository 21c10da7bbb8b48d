/** ISO-TP as bytes: what each frame looks like on the wire, and how a sender or receiver answers to the bytes of any
    frame, said without the constants and classifications of IsoTp. */
module IsoTpWire {
  import opened Bits
  import opened Can
  import opened IsoTp
  import opened IsoTpReceiver
  import opened IsoTpSender

  // ----- What is sent -----

  /** The first byte or two of every frame of a transfer, and the stretch of the payload after them. */
  lemma SegmentBytes(payload: Data, j: nat)
    requires 1 <= |payload| <= 4095 && j < |Segments(payload)|
    ensures |payload| <= 7 ==> Segments(payload) == [[|payload|] + payload]
    ensures |payload| >= 8 ==>
              && 7 * |Segments(payload)| - 8 < |payload| <= 7 * |Segments(payload)| - 1
              && var d := Segments(payload)[j];
              if j == 0 then |d| == 8 && 0x100 * (d[0] as int) + d[1] == 0x1000 + |payload| && d[2..] == payload[..6]
              else d == [0x20 + j % 16] + payload[7 * j - 1..Min(7 * j + 6, |payload|)]
  {
    if |payload| >= 8 {
      hide Segments, CFOf;
      SegmentAt(payload, 0);
      SegmentAt(payload, j);
      FirstFrameFields(payload);
      if j > 0 {
        CFBytes(payload, j);
      }
    }
  }

  /** A short payload is one frame, sent or not. */
  lemma OneFrame(payload: Data, log: seq<Event>)
    requires 1 <= |payload| <= 7 && SenderRun(payload, log).Some?
    requires SenderRun(payload, log).value.Begin? || SenderRun(payload, log).value.Finished?
    ensures Puts(log) == if SenderRun(payload, log).value.Finished? then [[|payload|] + payload] else []
  {
    hide SenderRun, Puts;
    RunAccounted(payload, log);
  }

  lemma CFBytes(payload: Data, j: nat)
    requires 1 <= j <= CFCount(payload)
    ensures CFOf(payload, j) == [0x20 + j % 16] + payload[7 * j - 1..Min(7 * j + 6, |payload|)]
  {
  }

  /** The frames each end waits for, and the one the receiver answers with. */
  lemma ControlBytes(cfg: Config, d: Data)
    ensures IsFC(d) <==> |d| >= 3 && d[0] / 16 == 3
    ensures IsCF(d) <==> |d| >= 1 && d[0] / 16 == 2
    ensures IsFF(d) <==> |d| >= 2 && d[0] / 16 == 1
    ensures IsWait(Took(d)) <==> |d| >= 3 && d[0] == 0x31
    ensures Continue(cfg) == [0x30, cfg.blockSize, cfg.stmin]
  {
  }

  // ----- The first frame a receiver takes -----

  /** A frame delivers a payload at once exactly when it is the payload after its length, with any padding behind. */
  lemma SingleFrameIff(cfg: Config, d: Data, payload: Data)
    ensures ReceiverRun(cfg, [Took(d)]) == Some(Delivered(payload))
       <==> 1 <= |payload| <= 15 && exists pad :: d == [|payload|] + payload + pad
  {
    FirstTaken(cfg, d);
    if ReceiverRun(cfg, [Took(d)]) == Some(Delivered(payload)) {
      assert d == [|payload|] + payload + d[1 + |payload|..];
    }
    if 1 <= |payload| <= 15 && exists pad :: d == [|payload|] + payload + pad {
      var pad :| d == [|payload|] + payload + pad;
      assert d[1..1 + |payload|] == payload;
    }
  }

  lemma FirstTaken(cfg: Config, d: Data)
    ensures ReceiverRun(cfg, [Took(d)]) == Some(Opened(d))
  {
    hide Opened;
    assert [] + [Took(d)] == [Took(d)];
    Unopened(cfg);
    ReceiverAppend(cfg, [], Idle, Took(d));
  }

  lemma Unopened(cfg: Config)
    ensures ReceiverRun(cfg, []) == Some(Idle)
  {
  }

  /** Which first frames are refused, and why. */
  lemma FirstRefusedIff(cfg: Config, d: Data, e: Error)
    ensures ReceiverRun(cfg, [Took(d)]) == Some(Refused(e)) <==>
              || (e == EmptyFrame && d == [])
              || (e == InvalidSFLength && d != [] && d[0] <= 15 && (d[0] == 0 || d[0] >= |d|))
              || (e == FFTooShort && |d| == 1 && 16 <= d[0] <= 31)
              || (e == UnexpectedFrameType && d != [] && d[0] >= 32)
  {
    FirstTaken(cfg, d);
  }

  /** Any other frame opens a message of as many bytes as its twelve bits say. It is answered at once, and what it
      carries itself is kept, but no more than that. */
  lemma FirstFrameTaken(cfg: Config, d: Data)
    requires |d| >= 2 && 16 <= d[0] <= 31
    ensures var n: nat := 0x100 * (d[0] as int - 16) + d[1];
            ReceiverRun(cfg, [Took(d), Put([0x30, cfg.blockSize, cfg.stmin])])
            == Some(if |d| - 2 < n then Collecting(n, d[2..], 1, 0) else Delivered(d[2..2 + n]))
  {
    var fc: Data := [0x30, cfg.blockSize, cfg.stmin];
    FirstTaken(cfg, d);
    assert [Took(d)] + [Put(fc)] == [Took(d), Put(fc)];
    assert d[2..2 + (|d| - 2)] == d[2..];
    hide ReceiverRun;
    ReceiverAppend(cfg, [Took(d)], Opened(d), Put(fc));
  }

  // ----- The frames after it -----

  /** While a message is being collected, in any run: only a frame whose high four bits are 2 matters. It is refused
      exactly when its low four bits are not the number of consecutive frames taken so far plus one, or it has no
      data, and the error tells which. */
  lemma NextTaken(cfg: Config, log: seq<Event>, d: Data)
    requires ReceiverRun(cfg, log).Some? && ReceiverRun(cfg, log).value.Collecting?
    requires Opens(log)
    ensures ReceiverRun(cfg, log + [Took(d)]).Some?
    ensures var r, t := ReceiverRun(cfg, log).value, ReceiverRun(cfg, log + [Took(d)]).value;
            var k := |ConsecutivesOf(Takes(log)[1..])| + 1;
            && (d == [] || d[0] / 16 != 2 ==> t == r)
            && (d != [] && d[0] / 16 == 2 ==>
                  && (t == Refused(UnexpectedSN) <==> d[0] % 16 != k % 16)
                  && (t == Refused(EmptyCF) <==> d[0] % 16 == k % 16 && |d| == 1)
                  && (t.Refused? ==> t.error in {UnexpectedSN, EmptyCF}))
  {
    var r := ReceiverRun(cfg, log).value;
    hide ReceiverRun;
    var g := ReceiverHolds(cfg, log);
    ReceiverAppend(cfg, log, r, Took(d));
    SameLow(r.sn, |ConsecutivesOf(Takes(log)[1..])|);
  }

  // ----- Flow Control at the sender -----

  /** The first Flow Control frame a sender has taken. */
  function FirstGrant(log: seq<Event>): (d: Option<Data>)
    ensures d.Some? ==> |d.value| >= 3
  {
    if log == [] then None
    else
      var before, e := FirstGrant(log[..|log| - 1]), log[|log| - 1];
      if before.Some? then before
      else if e.Took? && |e.data| >= 3 && e.data[0] / 16 == 3 then Some(e.data) else None
  }

  /** Where a sender stands before and after its first Flow Control. */
  ghost predicate Stands(s: Sender, grant: Option<Data>)
    requires grant.Some? ==> |grant.value| >= 3
  {
    if grant.None? then s.Begin? || s.AwaitFirst?
    else !s.Begin? && !s.AwaitFirst? && (s.Overflowed? <==> grant.value[0] % 16 == 2)
  }

  lemma {:induction false} RunStands(payload: Data, log: seq<Event>)
    requires 8 <= |payload| <= 4095 && SenderRun(payload, log).Some?
    ensures Stands(SenderRun(payload, log).value, FirstGrant(log))
    decreases |log|
  {
    if log == [] {
    } else {
      RunStands(payload, log[..|log| - 1]);
    }
  }

  /** A sender has overflowed exactly when the first Flow Control it took has its low four bits equal to 2; it has then
      put its first frame only. */
  lemma OverflowIff(payload: Data, log: seq<Event>)
    requires 8 <= |payload| <= 4095 && SenderRun(payload, log).Some?
    ensures SenderRun(payload, log).value.Overflowed?
       <==> FirstGrant(log).Some? && FirstGrant(log).value[0] % 16 == 2
    ensures SenderRun(payload, log).value.Overflowed? ==> Puts(log) == [Segments(payload)[0]]
  {
    hide SenderRun, Segments, FirstGrant;
    RunStands(payload, log);
    RunAccounted(payload, log);
  }

  /** What a Flow Control with bytes x, b, ... lets a sender do until the next one, if it does not end the transfer:
      with low four bits of x other than 1, the sender wants to put until it has put b frames, or all it has if b
      is zero. */
  lemma GrantedExactly(payload: Data, log: seq<Event>, i: nat)
    requires 8 <= |payload| <= 4095 && SenderRun(payload, log).Some?
    requires i < |log| && log[i].Took? && |log[i].data| >= 3 && log[i].data[0] / 16 == 3
    requires forall j :: i < j < |log| && log[j].Took? && |log[j].data| >= 3 ==> log[j].data[0] / 16 != 3
    requires log[i].data[0] % 16 != 1 && !SenderRun(payload, log).value.Overflowed?
    ensures var b, n := log[i].data[1], |Puts(log[i + 1..])|;
            SenderRun(payload, log).value.Out().Some? <==> (b == 0 || n < b) && Puts(log) != Segments(payload)
  {
    hide SenderRun, Puts, Segments;
    BlockBound(payload, log, i);
  }
}
