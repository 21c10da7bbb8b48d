/** An ISO-TP receiver fed frames of one transfer, damaged only by loss, repetition or reordering, delivers the
    payload of that transfer or nothing. */
module IsoTpSafety {
  import opened Bits
  import opened Can
  import opened IsoTp
  import opened IsoTpReceiver

  /** Once opened by anything but an FF the receiver is done. */
  lemma {:induction false} FirstDecides(cfg: Config, log: seq<Event>)
    requires ReceiverRun(cfg, log).Some? && Takes(log) != [] && !IsFF(Takes(log)[0])
    ensures ReceiverRun(cfg, log).value == Opened(Takes(log)[0])
    ensures !Opened(Takes(log)[0]).Replying? && |Takes(log)| == 1
    decreases |log|
  {
    var before, e := log[..|log| - 1], log[|log| - 1];
    if Takes(before) == [] {
      NothingTaken(cfg, before);
    } else {
      assert Takes(log)[0] == Takes(before)[0];
      FirstDecides(cfg, before);
    }
  }

  lemma {:induction false} ConsecutivesAreTaken(ds: seq<Data>)
    requires forall i :: 0 <= i < |ds| ==> IsCF(ds[i])
    ensures ConsecutivesOf(ds) == ds
    decreases |ds|
  {
    if ds == [] {
    } else {
      ConsecutivesAreTaken(ds[..|ds| - 1]);
    }
  }

  /** Numbers with one residue modulo sixteen that are less than sixteen apart are equal. */
  lemma SameNumber(j: nat, k: nat)
    requires j % 16 == k % 16 && -16 < j - k < 16
    ensures j == k
  {
  }

  lemma InOrderDelivers(cfg: Config, payload: Data, log: seq<Event>)
    requires 8 <= |payload| <= MAX_PAYLOAD
    requires ReceiverRun(cfg, log).Some? && ReceiverRun(cfg, log).value.Delivered?
    requires Takes(log) != [] && Takes(log)[0] == FirstFrame(payload)
    requires var cfs := ConsecutivesOf(Takes(log)[1..]);
             |cfs| <= CFCount(payload) && forall k :: 0 <= k < |cfs| ==> cfs[k] == CFOf(payload, k + 1)
    ensures ReceiverRun(cfg, log).value == Delivered(payload)
  {
    var cfs := ConsecutivesOf(Takes(log)[1..]);
    FirstFrameFields(payload);
    var g := ReceiverHolds(cfg, log);
    JoinedInOrder(payload, cfs);
  }

  /** A consecutive frame of the transfer whose own number is fewer than sixteen away from k. */
  ghost predicate NearPlace(payload: Data, d: Data, k: int)
    requires 8 <= |payload| <= MAX_PAYLOAD
  {
    exists j: nat :: 1 <= j < |Segments(payload)| && d == Segments(payload)[j] && -16 < j - k < 16
  }

  ghost predicate AllNearPlace(payload: Data, cfs: seq<Data>)
    requires 8 <= |payload| <= MAX_PAYLOAD
  {
    forall k :: 0 <= k < |cfs| ==> NearPlace(payload, cfs[k], k + 1)
  }

  /** Loss, repetition and reordering together: as long as each consecutive frame arrives fewer than sixteen
      places away from its own, the sequence numbers let nothing wrong through. Other frames may be mixed in. */
  lemma NearOrderNeverWrong(cfg: Config, payload: Data, log: seq<Event>)
    requires 8 <= |payload| <= MAX_PAYLOAD
    requires ReceiverRun(cfg, log).Some? && Takes(log) != [] && Takes(log)[0] == Segments(payload)[0]
    requires AllNearPlace(payload, ConsecutivesOf(Takes(log)[1..]))
    ensures var r := ReceiverRun(cfg, log).value; r.Delivered? ==> r.payload == payload
  {
    hide ReceiverRun, Takes, ConsecutivesOf, Segments, CFOf, AllNearPlace;
    var cfs := ConsecutivesOf(Takes(log)[1..]);
    SegmentAt(payload, 0);
    if ReceiverRun(cfg, log).value.Delivered? {
      NumberedTakes(cfg, payload, log);
      forall k | 0 <= k < |cfs|
        ensures k < CFCount(payload) && cfs[k] == CFOf(payload, k + 1)
      {
        InItsPlace(payload, cfs, k);
      }
      if cfs != [] {
        InItsPlace(payload, cfs, |cfs| - 1);
      }
      InOrderDelivers(cfg, payload, log);
    }
  }

  lemma NumberedTakes(cfg: Config, payload: Data, log: seq<Event>)
    requires 8 <= |payload| <= MAX_PAYLOAD && ReceiverRun(cfg, log).Some? && ReceiverRun(cfg, log).value.Delivered?
    requires Takes(log) != [] && Takes(log)[0] == FirstFrame(payload)
    ensures Numbered(ConsecutivesOf(Takes(log)[1..]))
  {
    FirstFrameFields(payload);
    var g := ReceiverHolds(cfg, log);
  }

  lemma InItsPlace(payload: Data, cfs: seq<Data>, k: nat)
    requires 8 <= |payload| <= MAX_PAYLOAD && k < |cfs| && Numbered(cfs)
    requires AllNearPlace(payload, cfs)
    ensures k < CFCount(payload) && cfs[k] == CFOf(payload, k + 1)
  {
    hide Segments;
    SegmentAt(payload, 0);
    assert NearPlace(payload, cfs[k], k + 1);
    var j: nat :| 1 <= j < |Segments(payload)| && cfs[k] == Segments(payload)[j] && -16 < j - (k + 1) < 16;
    SegmentAt(payload, j);
    CFNumber(payload, j);
    SameNumber(j, k + 1);
  }

  // ----- Loss alone, of any length -----

  ghost predicate Increasing(numbers: seq<nat>) {
    forall i, j :: 0 <= i < j < |numbers| ==> numbers[i] < numbers[j]
  }

  /** Bytes of the payload carried by the first j consecutive frames. */
  function Carried(payload: Data, j: nat): nat
    requires |payload| >= 6
  {
    Min(7 * j, |payload| - 6)
  }

  lemma CarriedGrows(payload: Data, i: nat, j: nat)
    requires 8 <= |payload| && i <= j <= CFCount(payload)
    ensures Carried(payload, i) + (j - i) <= Carried(payload, j)
    ensures 1 <= j ==> |CFOf(payload, j)| - 1 == Carried(payload, j) - Carried(payload, j - 1)
  {
  }

  lemma {:induction false} IncreasingBound(numbers: seq<nat>, i: nat)
    requires Increasing(numbers) && i < |numbers| && numbers[0] >= 1
    ensures numbers[i] >= i + 1
    decreases i
  {
    if i == 0 {
    } else {
      IncreasingBound(numbers, i - 1);
    }
  }

  /** Each lost frame costs at least one byte. */
  lemma {:induction false} LossCostsBytes(payload: Data, cfs: seq<Data>, numbers: seq<nat>)
    requires 8 <= |payload| && |cfs| == |numbers| >= 1
    requires Increasing(numbers) && forall k :: 0 <= k < |numbers| ==> 1 <= numbers[k] <= CFCount(payload)
    requires forall k :: 0 <= k < |cfs| ==> |cfs[k]| >= 1 && cfs[k] == CFOf(payload, numbers[k])
    ensures |Joined(cfs)| + (numbers[|numbers| - 1] - |numbers|) <= Carried(payload, numbers[|numbers| - 1])
    decreases |cfs|
  {
    var m := |cfs|;
    var last := numbers[m - 1];
    IncreasingBound(numbers, m - 1);
    if m == 1 {
      assert Joined(cfs) == Joined([]) + cfs[0][1..];
      CarriedGrows(payload, last - 1, last);
      CarriedGrows(payload, 0, last - 1);
    } else {
      LossCostsBytes(payload, cfs[..m - 1], numbers[..m - 1]);
      var previous := numbers[m - 2];
      CarriedGrows(payload, previous, last - 1);
      CarriedGrows(payload, last - 1, last);
    }
  }

  /** If the bytes suffice nothing was lost. */
  lemma NothingLost(payload: Data, cfs: seq<Data>, numbers: seq<nat>)
    requires 8 <= |payload| && |cfs| == |numbers|
    requires Increasing(numbers) && forall k :: 0 <= k < |numbers| ==> 1 <= numbers[k] <= CFCount(payload)
    requires forall k :: 0 <= k < |cfs| ==> |cfs[k]| >= 1 && cfs[k] == CFOf(payload, numbers[k])
    requires 6 + |Joined(cfs)| >= |payload|
    ensures forall k :: 0 <= k < |numbers| ==> numbers[k] == k + 1
  {
    assert |cfs| >= 1;
    LossCostsBytes(payload, cfs, numbers);
    var m := |numbers|;
    IncreasingBound(numbers, m - 1);
    assert numbers[m - 1] == m;
    forall k | 0 <= k < m
      ensures numbers[k] == k + 1
    {
      IncreasingBound(numbers, k);
      AtMost(numbers, k);
    }
  }

  lemma {:induction false} AtMost(numbers: seq<nat>, k: nat)
    requires Increasing(numbers) && k < |numbers| && numbers[|numbers| - 1] == |numbers|
    ensures numbers[k] <= k + 1
    decreases |numbers| - k
  {
    if k < |numbers| - 1 {
      AtMost(numbers, k + 1);
    }
  }

  /** Any subsequence of the frames of one transfer, however many are lost and wherever: the sequence number may
      come round, but the bytes cannot add up. */
  lemma LossNeverWrong(cfg: Config, payload: Data, log: seq<Event>, numbers: seq<nat>)
    requires 1 <= |payload| <= MAX_PAYLOAD && ReceiverRun(cfg, log).Some?
    requires |numbers| == |Takes(log)| && Increasing(numbers)
    requires forall i :: 0 <= i < |numbers| ==>
               numbers[i] < |Segments(payload)| && Takes(log)[i] == Segments(payload)[numbers[i]]
    ensures var r := ReceiverRun(cfg, log).value; r.Delivered? ==> r.payload == payload
  {
    if Takes(log) == [] {
      NothingTaken(cfg, log);
    } else if |payload| <= 7 {
      SingleFrame(cfg, payload, log);
    } else if numbers[0] > 0 {
      FirstLost(cfg, payload, log, numbers[0]);
    } else if ReceiverRun(cfg, log).value.Delivered? {
      LossOfConsecutives(cfg, payload, log, numbers);
    }
  }

  lemma SingleFrame(cfg: Config, payload: Data, log: seq<Event>)
    requires 1 <= |payload| <= 7 && ReceiverRun(cfg, log).Some?
    requires Takes(log) != [] && Takes(log)[0] == Segments(payload)[0]
    ensures ReceiverRun(cfg, log).value == Delivered(payload)
  {
    var d := Takes(log)[0];
    assert d == [SF + |payload|] + payload && High(d[0]) == SF && Low(d[0]) == |payload|;
    FirstDecides(cfg, log);
    assert d[1..1 + |payload|] == payload;
  }

  lemma FirstLost(cfg: Config, payload: Data, log: seq<Event>, j: nat)
    requires 8 <= |payload| <= MAX_PAYLOAD && ReceiverRun(cfg, log).Some?
    requires 1 <= j < |Segments(payload)| && Takes(log) != [] && Takes(log)[0] == Segments(payload)[j]
    ensures ReceiverRun(cfg, log).value == Refused(UnexpectedFrameType)
  {
    SegmentAt(payload, 0);
    SegmentAt(payload, j);
    CFNumber(payload, j);
    FirstDecides(cfg, log);
  }

  lemma LossOfConsecutives(cfg: Config, payload: Data, log: seq<Event>, numbers: seq<nat>)
    requires 8 <= |payload| <= MAX_PAYLOAD && ReceiverRun(cfg, log).Some? && ReceiverRun(cfg, log).value.Delivered?
    requires |numbers| == |Takes(log)| >= 1 && Increasing(numbers) && numbers[0] == 0
    requires forall i :: 0 <= i < |numbers| ==>
               numbers[i] < |Segments(payload)| && Takes(log)[i] == Segments(payload)[numbers[i]]
    ensures ReceiverRun(cfg, log).value == Delivered(payload)
  {
    hide ReceiverRun, Takes, ConsecutivesOf, Segments, CFOf, Joined;
    var cfs, tail := Takes(log)[1..], numbers[1..];
    forall k | 0 <= k < |cfs|
      ensures 1 <= tail[k] <= CFCount(payload) && |cfs[k]| >= 2 && IsCF(cfs[k]) && cfs[k] == CFOf(payload, tail[k])
    {
      assert cfs[k] == Takes(log)[k + 1] && tail[k] == numbers[k + 1] > numbers[0];
      IsConsecutiveFrame(payload, tail[k], cfs[k]);
    }
    SegmentAt(payload, 0);
    FirstFrameFields(payload);
    ConsecutivesAreTaken(cfs);
    EnoughBytes(cfg, payload, log);
    NothingLost(payload, cfs, tail);
    assert cfs != [] ==> tail[|cfs| - 1] == |cfs|;
    assert forall k :: 0 <= k < |cfs| ==> cfs[k] == CFOf(payload, tail[k]) && tail[k] == k + 1;
    InOrderDelivers(cfg, payload, log);
  }

  lemma IsConsecutiveFrame(payload: Data, j: nat, d: Data)
    requires 8 <= |payload| <= MAX_PAYLOAD && 1 <= j < |Segments(payload)| && d == Segments(payload)[j]
    ensures j <= CFCount(payload) && d == CFOf(payload, j) && |d| >= 2 && IsCF(d)
  {
    SegmentAt(payload, 0);
    SegmentAt(payload, j);
    CFNumber(payload, j);
  }

  lemma EnoughBytes(cfg: Config, payload: Data, log: seq<Event>)
    requires 8 <= |payload| <= MAX_PAYLOAD && ReceiverRun(cfg, log).Some? && ReceiverRun(cfg, log).value.Delivered?
    requires Takes(log) != [] && Takes(log)[0] == FirstFrame(payload)
    ensures var cfs := ConsecutivesOf(Takes(log)[1..]);
            (forall k :: 0 <= k < |cfs| ==> |cfs[k]| >= 1) && 6 + |Joined(cfs)| >= |payload|
  {
    FirstFrameFields(payload);
    var g := ReceiverHolds(cfg, log);
  }

  // ----- Fewer than sixteen is exact -----

  /** The log leads to a receiver that has gathered buf and expects sequence number sn, or has finished. */
  ghost predicate Gathered(cfg: Config, log: seq<Event>, length: nat, buf: Data, sn: Byte) {
    && ReceiverRun(cfg, log).Some?
    && var r := ReceiverRun(cfg, log).value;
    if |buf| < length then r.Collecting? && r.length == length && r.buf == buf && r.sn == sn else r == Delivered(buf)
  }

  /** What the receiver is after the frame, but for the answer. */
  lemma ExtendedTo(cfg: Config, r: Receiver, d: Data)
    requires r.Collecting? && r.Valid() && IsCF(d) && |d| >= 2 && Low(d[0]) == Low(r.sn)
    ensures var next, buf := r.Extended(cfg, d), (r.buf + d[1..])[..Min(r.length, |r.buf| + |d| - 1)];
            var core := if next.Replying? then next.next else next;
            if |buf| < r.length then core.Collecting? && core.length == r.length && core.buf == buf
                                     && core.sn == (r.sn + 1) % 0x100
            else core == Delivered(buf)
  {
    ExtendedBuffer(r, d);
  }

  /** The receiver takes one more frame, and answers it if a block ends. */
  lemma TakeOne(cfg: Config, log: seq<Event>, length: nat, buf: Data, sn: Byte, d: Data) returns (log': seq<Event>)
    requires Gathered(cfg, log, length, buf, sn) && |buf| < length
    requires IsCF(d) && |d| >= 2 && Low(d[0]) == Low(sn)
    ensures Takes(log') == Takes(log) + [d]
    ensures Gathered(cfg, log', length, (buf + d[1..])[..Min(length, |buf| + |d| - 1)], (sn + 1) % 0x100)
  {
    var r := ReceiverRun(cfg, log).value;
    var next := r.Extended(cfg, d);
    assert r.Collecting? && r.length == length && r.buf == buf && r.sn == sn;
    assert r.Step(cfg, Took(d)) == Some(next);
    assert next.Replying? ==> next.Step(cfg, Put(Continue(cfg))) == Some(next.next);
    ExtendedTo(cfg, r, d);
    hide ReceiverRun, Takes, IsCF, Min;
    ReceiverAppend(cfg, log, r, Took(d));
    AppendEvent(log, Took(d));
    log' := log + [Took(d)];
    if next.Replying? {
      ReceiverAppend(cfg, log', next, Put(Continue(cfg)));
      AppendEvent(log', Put(Continue(cfg)));
      log' := log' + [Put(Continue(cfg))];
    }
  }

  lemma OpenedByFirst(payload: Data)
    requires 8 <= |payload| <= MAX_PAYLOAD
    ensures Opened(FirstFrame(payload)) == Replying(Collecting(|payload|, payload[..6], 1, 0))
  {
    var ff := FirstFrame(payload);
    FirstFrameFields(payload);
    hide FirstFrame;
    assert ff[2..2 + Min(|payload|, |ff| - 2)] == ff[2..][..Min(|payload|, |ff| - 2)] == payload[..6];
  }

  lemma StartOfRun(cfg: Config)
    ensures ReceiverRun(cfg, []) == Some(Idle) && Takes([]) == []
  {
  }

  lemma Opening(cfg: Config, payload: Data) returns (log: seq<Event>)
    requires 8 <= |payload| <= MAX_PAYLOAD
    ensures Takes(log) == [FirstFrame(payload)] && Gathered(cfg, log, |payload|, payload[..6], 1)
  {
    hide ReceiverRun, Takes, FirstFrame, Opened;
    var ff := FirstFrame(payload);
    var r := Replying(Collecting(|payload|, payload[..6], 1, 0));
    OpenedByFirst(payload);
    StartOfRun(cfg);
    ReceiverAppend(cfg, [], Idle, Took(ff));
    AppendEvent([], Took(ff));
    ReceiverAppend(cfg, [] + [Took(ff)], r, Put(Continue(cfg)));
    AppendEvent([] + [Took(ff)], Put(Continue(cfg)));
    log := [] + [Took(ff)] + [Put(Continue(cfg))];
  }

  function Position(payload: Data, k: nat): nat { Min(6 + 7 * k, |payload|) }

  lemma NextPlace(payload: Data, buf: Data, k: nat, m: nat, full: Data) returns (part: Data)
    requires 8 <= |payload| && k < m <= CFCount(payload) && |buf| == Position(payload, k)
    requires full == buf + payload[Position(payload, k)..Position(payload, m)]
    ensures part == buf + payload[Position(payload, k)..Position(payload, m - 1)] && |part| < |payload|
    ensures var d := CFOf(payload, m);
            |d| >= 2 && (part + d[1..])[..Min(|payload|, |part| + |d| - 1)] == full
  {
    part := buf + payload[Position(payload, k)..Position(payload, m - 1)];
    var d := CFOf(payload, m);
    assert d[1..] == payload[Position(payload, m - 1)..Position(payload, m)];
  }

  lemma NextNumber(payload: Data, k: nat, m: nat, takes: seq<Data>)
    requires k < m <= CFCount(payload)
    ensures var d: Data, sn: Byte := CFOf(payload, m), m % 0x100;
            && IsCF(d) && Low(d[0]) == Low(sn) && (sn + 1) % 0x100 == (1 + m) % 0x100
            && takes + CFRange(payload, k + 1, m) + [d] == takes + CFRange(payload, k + 1, m + 1)
  {
    CFNumber(payload, m);
    SameLow(m % 0x100, m - 1);
    hide CFOf;
  }

  /** The consecutive frames after number k up to number m, each in its place. */
  lemma {:induction false} FeedInOrder(cfg: Config, payload: Data, log: seq<Event>, buf: Data, k: nat, m: nat,
      full: Data)
    returns (log': seq<Event>)
    requires 8 <= |payload| <= MAX_PAYLOAD && k <= m <= CFCount(payload) && |buf| == Position(payload, k)
    requires full == buf + payload[Position(payload, k)..Position(payload, m)]
    requires Gathered(cfg, log, |payload|, buf, (1 + k) % 0x100)
    ensures Takes(log') == Takes(log) + CFRange(payload, k + 1, m + 1)
    ensures Gathered(cfg, log', |payload|, full, (1 + m) % 0x100)
    decreases m
  {
    if m == k {
      log' := log;
      assert full == buf;
      assert Takes(log) + CFRange(payload, k + 1, m + 1) == Takes(log);
    } else {
      hide *;
      var part := NextPlace(payload, buf, k, m, full);
      log' := FeedInOrder(cfg, payload, log, buf, k, m - 1, part);
      NextNumber(payload, k, m, Takes(log));
      log' := TakeOne(cfg, log', |payload|, part, m % 0x100, CFOf(payload, m));
    }
  }

  /** The payload with its seventeenth chunk overwritten by the first. */
  function FirstForSeventeenth(payload: Data): Data
    requires |payload| > 118
  {
    payload[..118] + payload[6..6 + Min(7, |payload| - 118)] + payload[Position(payload, 17)..]
  }

  /** What the receiver has gathered at each stage. */
  lemma Stages(payload: Data) returns (first: Data, head: Data, mixed: Data)
    requires 8 <= |payload| && CFCount(payload) >= 17
    ensures first == payload[..6] && |first| == Position(payload, 0)
    ensures head == first + payload[Position(payload, 0)..Position(payload, 16)] && |head| == 118 < |payload|
    ensures var d := CFOf(payload, 1);
            IsCF(d) && |d| >= 2 && Low(d[0]) == Low(17) && (head + d[1..])[..Min(|payload|, 118 + |d| - 1)] == mixed
    ensures |mixed| == Position(payload, 17)
    ensures mixed + payload[Position(payload, 17)..Position(payload, CFCount(payload))] == FirstForSeventeenth(payload)
    ensures |FirstForSeventeenth(payload)| == |payload|
  {
    first, head, mixed := payload[..6], payload[..118], payload[..118] + payload[6..6 + Min(7, |payload| - 118)];
    CFNumber(payload, 1);
    assert CFOf(payload, 1)[1..] == payload[6..13];
  }

  /** Sixteen places are too many, whatever the payload and the block size: the first consecutive frame in the place of
      the seventeenth, all others in their own, is delivered as payload. */
  lemma SixteenAwayGoesThrough(cfg: Config, payload: Data) returns (log: seq<Event>)
    requires 8 <= |payload| <= MAX_PAYLOAD && CFCount(payload) >= 17
    ensures Takes(log) == [FirstFrame(payload)] + CFRange(payload, 1, 17) + [CFOf(payload, 1)]
                          + CFRange(payload, 18, CFCount(payload) + 1)
    ensures ReceiverRun(cfg, log) == Some(Delivered(FirstForSeventeenth(payload)))
  {
    hide *;
    var n, wrong := CFCount(payload), FirstForSeventeenth(payload);
    var first, head, mixed := Stages(payload);
    log := Opening(cfg, payload);
    log := FeedInOrder(cfg, payload, log, first, 0, 16, head);
    log := TakeOne(cfg, log, |payload|, head, 17, CFOf(payload, 1));
    log := FeedInOrder(cfg, payload, log, mixed, 17, n, wrong);
    Finished(cfg, log, |payload|, wrong, (1 + n) % 0x100);
  }

  lemma Finished(cfg: Config, log: seq<Event>, length: nat, buf: Data, sn: Byte)
    requires Gathered(cfg, log, length, buf, sn) && |buf| >= length
    ensures ReceiverRun(cfg, log) == Some(Delivered(buf))
  {
  }

  /** What is delivered is wrong exactly when the two chunks differ where both have bytes. */
  lemma WrongIff(payload: Data)
    requires |payload| > 118
    ensures FirstForSeventeenth(payload) == payload
       <==> payload[6..6 + Min(7, |payload| - 118)] == payload[118..Position(payload, 17)]
  {
    var w, q := Min(7, |payload| - 118), Position(payload, 17);
    assert payload == payload[..118] + payload[118..q] + payload[q..];
    assert FirstForSeventeenth(payload)[118..q] == payload[6..6 + w];
  }

  // ----- What a caller can rely on: the length of the payload -----

  /** Only frames of the one transfer arrive: in any order, any of them any number of times. */
  ghost predicate OfTransfer(payload: Data, ds: seq<Data>)
    requires 1 <= |payload| <= MAX_PAYLOAD
  {
    forall d :: d in ds ==> d in Segments(payload)
  }

  lemma {:induction false} ConsecutivesAreAmong(ds: seq<Data>)
    ensures forall d :: d in ConsecutivesOf(ds) ==> d in ds
    decreases |ds|
  {
    if ds == [] {
    } else {
      ConsecutivesAreAmong(ds[..|ds| - 1]);
    }
  }

  lemma {:induction false} JoinedGrows(cfs: seq<Data>, n: nat)
    requires n <= |cfs| && forall k :: 0 <= k < |cfs| ==> |cfs[k]| >= 1
    ensures |Joined(cfs[..n])| <= |Joined(cfs)|
    decreases |cfs|
  {
    if n == |cfs| {
      assert cfs[..n] == cfs;
    } else {
      assert cfs[..|cfs| - 1][..n] == cfs[..n];
      JoinedGrows(cfs[..|cfs| - 1], n);
    }
  }

  /** With at most sixteen consecutive frames a sequence number names its frame. */
  lemma NumberIsPlace(payload: Data, cfs: seq<Data>, k: nat)
    requires 8 <= |payload| <= 118 && k < |cfs| && k < 16 && Numbered(cfs) && cfs[k] in Segments(payload)
    ensures k < CFCount(payload) && cfs[k] == CFOf(payload, k + 1)
  {
    hide Segments, CFOf;
    SegmentAt(payload, 0);
    FirstFrameFields(payload);
    var j: nat :| j < |Segments(payload)| && cfs[k] == Segments(payload)[j];
    SegmentAt(payload, j);
    CFNumber(payload, j);
    SameNumber(j, k + 1);
  }

  /** The receiver ends with the last frame it needs, so it takes no more than the transfer has. */
  lemma NoMoreThanNeeded(payload: Data, cfs: seq<Data>)
    requires 8 <= |payload| <= 118 && Numbered(cfs) && forall d :: d in cfs ==> d in Segments(payload)
    requires cfs != [] ==> 6 + |Joined(cfs[..|cfs| - 1])| < |payload|
    ensures |cfs| <= CFCount(payload)
  {
    hide Segments, CFOf;
    var n := CFCount(payload);
    if |cfs| > n {
      var taken := cfs[..|cfs| - 1];
      forall k: nat | k < n ensures taken[..n][k] == CFOf(payload, k + 1) {
        NumberIsPlace(payload, cfs, k);
      }
      JoinedInOrder(payload, taken[..n]);
      JoinedGrows(taken, n);
    }
  }

  lemma ShortInOrder(cfg: Config, payload: Data, log: seq<Event>)
    requires 8 <= |payload| <= 118 && ReceiverRun(cfg, log).Some? && ReceiverRun(cfg, log).value.Delivered?
    requires Takes(log) != [] && Takes(log)[0] == Segments(payload)[0] && OfTransfer(payload, Takes(log))
    ensures ReceiverRun(cfg, log).value == Delivered(payload)
  {
    hide ReceiverRun, Takes, Segments, CFOf, ConsecutivesOf, Joined;
    var cfs := ConsecutivesOf(Takes(log)[1..]);
    SegmentAt(payload, 0);
    FirstFrameFields(payload);
    ConsecutivesAreAmong(Takes(log)[1..]);
    var g := ReceiverHolds(cfg, log);
    NoMoreThanNeeded(payload, cfs);
    forall k: nat | k < |cfs| ensures cfs[k] == CFOf(payload, k + 1) {
      NumberIsPlace(payload, cfs, k);
    }
    InOrderDelivers(cfg, payload, log);
  }

  /** The run does not deliver a wrong payload. */
  ghost predicate Safe(cfg: Config, payload: Data, log: seq<Event>)
    requires 1 <= |payload| <= MAX_PAYLOAD
  {
    ReceiverRun(cfg, log).Some? && OfTransfer(payload, Takes(log)) && ReceiverRun(cfg, log).value.Delivered?
    ==> ReceiverRun(cfg, log).value.payload == payload
  }

  /** Up to 118 bytes, sixteen consecutive frames, any order, repetition and loss is safe. */
  lemma ShortIsSafe(cfg: Config, payload: Data, log: seq<Event>)
    requires 1 <= |payload| <= 118
    ensures Safe(cfg, payload, log)
  {
    hide ReceiverRun, Takes, Segments;
    if ReceiverRun(cfg, log).Some? && OfTransfer(payload, Takes(log)) && ReceiverRun(cfg, log).value.Delivered? {
      if Takes(log) == [] {
        NothingTaken(cfg, log);
      } else {
        assert Takes(log)[0] in Segments(payload);
        var j: nat :| j < |Segments(payload)| && Takes(log)[0] == Segments(payload)[j];
        if |payload| <= 7 {
          OneSegment(payload);
          SingleFrame(cfg, payload, log);
        } else if j > 0 {
          FirstLost(cfg, payload, log, j);
        } else {
          ShortInOrder(cfg, payload, log);
        }
      }
    }
  }

  lemma OneSegment(payload: Data)
    requires 1 <= |payload| <= 7
    ensures |Segments(payload)| == 1
  {
  }

  /** A payload whose first and seventeenth chunks differ. */
  lemma Marked(n: nat) returns (payload: Data)
    requires 118 < n <= MAX_PAYLOAD
    ensures |payload| == n && FirstForSeventeenth(payload) != payload
  {
    payload := seq(n, i => if i == 6 then 1 else 0);
    assert payload[6..6 + Min(7, n - 118)][0] == 1 && payload[118..Position(payload, 17)][0] == 0;
    hide FirstForSeventeenth;
    WrongIff(payload);
  }

  /** A longer payload and an order of its frames that delivers another. */
  lemma LongIsUnsafe(cfg: Config, n: nat) returns (payload: Data, log: seq<Event>)
    requires 118 < n <= MAX_PAYLOAD
    ensures |payload| == n && !Safe(cfg, payload, log)
  {
    hide ReceiverRun, Takes, Segments, CFOf, FirstForSeventeenth;
    payload := Marked(n);
    log := SixteenAwayGoesThrough(cfg, payload);
    forall d | d in Takes(log) ensures d in Segments(payload) {
      AmongSegments(payload, d);
    }
  }

  lemma AmongSegments(payload: Data, d: Data)
    requires 8 <= |payload| <= MAX_PAYLOAD
    requires d == FirstFrame(payload) || exists j: nat :: 1 <= j <= CFCount(payload) && d == CFOf(payload, j)
    ensures d in Segments(payload)
  {
    hide Segments, CFOf;
    SegmentAt(payload, 0);
    if d != FirstFrame(payload) {
      var j: nat :| 1 <= j <= CFCount(payload) && d == CFOf(payload, j);
      SegmentAt(payload, j);
    }
  }

  /** Reordering, repetition and loss of the frames of a transfer can never deliver a wrong payload exactly up to a
      length of 118 bytes, whatever the block size. */
  lemma ReorderSafeIff(cfg: Config, n: nat)
    requires 1 <= n <= MAX_PAYLOAD
    ensures (forall payload: Data, log | |payload| == n :: Safe(cfg, payload, log)) <==> n <= 118
  {
    hide Safe;
    if n <= 118 {
      forall payload: Data, log | |payload| == n ensures Safe(cfg, payload, log) {
        ShortIsSafe(cfg, payload, log);
      }
    } else {
      var payload, log := LongIsUnsafe(cfg, n);
    }
  }
}
