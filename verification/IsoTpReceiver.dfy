/** What the ISO-TP receiver keeps against any peer: the exact content of its buffer, the sequence numbers it
    accepts and the Flow Control frames it sends. */
module IsoTpReceiver {
  import opened Bits
  import opened Can
  import opened IsoTp

  function ConsecutivesOf(ds: seq<Data>): seq<Data> {
    if ds == [] then []
    else ConsecutivesOf(ds[..|ds| - 1]) + (if IsCF(ds[|ds| - 1]) then [ds[|ds| - 1]] else [])
  }

  /** The payload bytes of a list of consecutive frames. */
  function Joined(cfs: seq<Data>): Data
    requires forall k :: 0 <= k < |cfs| ==> |cfs[k]| >= 1
  {
    if cfs == [] then [] else Joined(cfs[..|cfs| - 1]) + cfs[|cfs| - 1][1..]
  }

  predicate IsFF(d: Data) { |d| >= 2 && High(d[0]) == FF }

  function DeclaredLength(first: Data): nat
    requires IsFF(first)
  {
    Low(first[0]) * 0x100 + first[1]
  }

  /** The k-th frame carries sequence number k mod 16, counting from one, and at least one byte. */
  ghost predicate Numbered(cfs: seq<Data>) {
    forall k :: 0 <= k < |cfs| ==> |cfs[k]| >= 2 && IsCF(cfs[k]) && Low(cfs[k][0]) == (k + 1) % 16
  }

  function Core(r: Receiver): Receiver { if r.Replying? then r.next else r }

  /** What the machine has gathered from first frame first and the consecutive frames cfs. */
  ghost predicate Content(r: Receiver, first: Data, cfs: seq<Data>) {
    && IsFF(first)
    && Numbered(cfs)
    && var length, gathered := DeclaredLength(first), first[2..] + Joined(cfs);
    && (cfs != [] ==> |first[2..] + Joined(cfs[..|cfs| - 1])| < length)
    && match Core(r)
       case Collecting(l, buf, sn, _) => l == length && buf == gathered && |buf| < length && sn == (1 + |cfs|) % 0x100
       case Delivered(p) => |gathered| >= length && p == gathered[..length]
       case _ => false
  }

  /** How many replies it owes and has sent after m consecutive frames: one for the first frame and one for each
      of the g block boundaries crossed while data was still expected. */
  ghost predicate Counting(cfg: Config, r: Receiver, m: nat, replies: nat, g: nat) {
    && replies + (if r.Replying? then 1 else 0) == 1 + g
    && var b: nat := cfg.blockSize;
    && match Core(r)
       case Collecting(_, _, _, k) => if b == 0 then g == 0 else m == g * b + k && k < b
       case Delivered(_) => if b == 0 || m == 0 then g == 0 else g * b < m <= g * b + b
       case _ => false
  }

  lemma OpenedHolds(cfg: Config, first: Data)
    requires IsFF(first)
    ensures Content(Opened(first), first, []) && Counting(cfg, Opened(first), 0, 0, 0)
  {
  }

  lemma SameLow(sn: Byte, m: nat)
    requires sn == (1 + m) % 0x100
    ensures Low(sn) == (m + 1) % 16 && (sn + 1) % 0x100 == (1 + (m + 1)) % 0x100
  {
    Mod256Mod16(1 + m);
    NextMod(1 + m, 0x100);
  }

  lemma ExtendedContent(cfg: Config, r: Receiver, first: Data, cfs: seq<Data>, d: Data)
    requires Content(r, first, cfs) && r.Collecting? && r.Valid() && IsCF(d)
    requires !r.Extended(cfg, d).Refused?
    ensures Content(r.Extended(cfg, d), first, cfs + [d])
  {
    assert (cfs + [d])[..|cfs + [d]| - 1] == cfs;
    SameLow(r.sn, |cfs|);
    assert first[2..] + Joined(cfs + [d]) == r.buf + d[1..];
    ExtendedBuffer(r, d);
  }

  /** The bytes of d are appended, cut at the declared length. */
  lemma ExtendedBuffer(r: Receiver, d: Data)
    requires r.Collecting? && r.Valid() && |d| >= 2
    ensures var remaining := r.length - |r.buf|;
            var chunk := if |d| - 1 > remaining then d[1..1 + remaining] else d[1..];
            r.buf + chunk == (r.buf + d[1..])[..Min(r.length, |r.buf| + |d| - 1)]
  {
  }

  lemma ExtendedCounting(cfg: Config, r: Receiver, m: nat, replies: nat, g: nat, d: Data) returns (g': nat)
    requires Counting(cfg, r, m, replies, g) && r.Collecting? && r.Valid() && IsCF(d)
    requires !r.Extended(cfg, d).Refused?
    ensures Counting(cfg, r.Extended(cfg, d), m + 1, replies, g')
  {
    g' := if r.Extended(cfg, d).Replying? then g + 1 else g;
    var b: nat := cfg.blockSize;
    assert (g + 1) * b == g * b + b;
  }

  lemma RepliedHolds(cfg: Config, r: Receiver, first: Data, cfs: seq<Data>, replies: nat, g: nat)
    requires r.Replying? && r.Valid() && Content(r, first, cfs) && Counting(cfg, r, |cfs|, replies, g)
    ensures Content(r.next, first, cfs) && Counting(cfg, r.next, |cfs|, replies + 1, g)
  {
  }

  ghost predicate Opens(log: seq<Event>) {
    Takes(log) != [] && IsFF(Takes(log)[0])
  }

  /** The receiver against any peer. Whatever arrives after an FF, a receiver that has not refused holds exactly
      the bytes gathered from numbered consecutive frames, never more than FF_DL of them, and has replied once
      for the FF and once for each block boundary. */
  lemma {:induction false} ReceiverHolds(cfg: Config, log: seq<Event>) returns (g: nat)
    requires ReceiverRun(cfg, log).Some? && !ReceiverRun(cfg, log).value.Refused? && Opens(log)
    ensures var r, cfs := ReceiverRun(cfg, log).value, ConsecutivesOf(Takes(log)[1..]);
            && Content(r, Takes(log)[0], cfs)
            && Counting(cfg, r, |cfs|, |Puts(log)|, g)
    decreases |log|
  {
    hide Content, Counting;
    var before, e := log[..|log| - 1], log[|log| - 1];
    var r := ReceiverRun(cfg, before).value;
    if Takes(before) == [] {
      NothingTaken(cfg, before);
      assert e.Took? && Takes(log) == [e.data] && Takes(log)[1..] == [];
      OpenedHolds(cfg, e.data);
      g := 0;
    } else {
      StillOpen(cfg, before);
      g := ReceiverHolds(cfg, before);
      if e.Put? {
        assert Takes(log) == Takes(before) + [] == Takes(before);
        RepliedHolds(cfg, r, Takes(before)[0], ConsecutivesOf(Takes(before)[1..]), |Puts(before)|, g);
      } else {
        assert Takes(log) == Takes(before) + [e.data];
        g := TookHolds(cfg, r, Takes(before), |Puts(before)|, g, e.data);
      }
    }
  }

  lemma TookHolds(cfg: Config, r: Receiver, takes: seq<Data>, replies: nat, g: nat, d: Data) returns (g': nat)
    requires r.Collecting? && r.Valid() && takes != []
    requires Content(r, takes[0], ConsecutivesOf(takes[1..]))
    requires Counting(cfg, r, |ConsecutivesOf(takes[1..])|, replies, g)
    requires !r.Got(cfg, d).Refused?
    ensures Content(r.Got(cfg, d), takes[0], ConsecutivesOf((takes + [d])[1..]))
    ensures Counting(cfg, r.Got(cfg, d), |ConsecutivesOf((takes + [d])[1..])|, replies, g')
  {
    hide Content, Counting;
    var rest := takes[1..];
    g' := g;
    assert (takes + [d])[1..] == rest + [d] && (rest + [d])[..|rest + [d]| - 1] == rest;
    if IsCF(d) {
      ExtendedContent(cfg, r, takes[0], ConsecutivesOf(rest), d);
      g' := ExtendedCounting(cfg, r, |ConsecutivesOf(rest)|, replies, g, d);
    } else {
      assert ConsecutivesOf(rest) + [] == ConsecutivesOf(rest);
    }
  }

  lemma NothingTaken(cfg: Config, log: seq<Event>)
    requires ReceiverRun(cfg, log).Some? && Takes(log) == []
    ensures log == [] && ReceiverRun(cfg, log).value == Idle
  {
  }

  lemma StillOpen(cfg: Config, log: seq<Event>)
    requires ReceiverRun(cfg, log).Some? && Takes(log) != []
    ensures !ReceiverRun(cfg, log).value.Idle?
  {
  }

  /** The Flow Control frames sent, in closed form: one, plus one per full block while data was expected. */
  lemma FlowControlCount(cfg: Config, log: seq<Event>)
    requires ReceiverRun(cfg, log).Some? && Opens(log)
    ensures var r, m, b := ReceiverRun(cfg, log).value, |ConsecutivesOf(Takes(log)[1..])|, cfg.blockSize as int;
            && (r.Collecting? ==> |Puts(log)| == 1 + (if b == 0 then 0 else m / b))
            && (r.Delivered? ==> |Puts(log)| == 1 + (if b == 0 || m == 0 then 0 else (m - 1) / b))
  {
    var r, m, b := ReceiverRun(cfg, log).value, |ConsecutivesOf(Takes(log)[1..])|, cfg.blockSize as int;
    if r.Collecting? {
      var g := ReceiverHolds(cfg, log);
      if b > 0 {
        ModIs(m, b, g, r.inBlock);
      }
    } else if r.Delivered? {
      var g := ReceiverHolds(cfg, log);
      if b > 0 && m > 0 {
        ModIs(m - 1, b, g, m - 1 - g * b);
      }
    }
  }

  /** Every reply is the Continue frame, and the buffer stays within FF_DL, at most 4095 bytes. */
  lemma {:induction false} RepliesAreContinue(cfg: Config, log: seq<Event>)
    requires ReceiverRun(cfg, log).Some?
    ensures forall k :: 0 <= k < |Puts(log)| ==> Puts(log)[k] == Continue(cfg)
    ensures var r := Core(ReceiverRun(cfg, log).value);
            r.Collecting? ==> |r.buf| < r.length <= MAX_PAYLOAD
    decreases |log|
  {
    if log == [] {
    } else {
      RepliesAreContinue(cfg, log[..|log| - 1]);
    }
  }

  // ----- One transfer, delivered exactly or not at all -----

  /** How many consecutive frames a payload needs: ceil((len - 6) / 7). */
  function CFCount(payload: Data): (n: nat)
    ensures if |payload| <= 6 then n == 0 else 6 + 7 * (n - 1) < |payload| <= 6 + 7 * n
  {
    if |payload| <= 6 then 0 else (|payload| - 6 + 6) / 7
  }

  /** The k-th consecutive frame of a payload, counting from one, in closed form. */
  function CFOf(payload: Data, k: nat): Data
    requires 1 <= k <= CFCount(payload)
  {
    [CF + k % 16] + payload[6 + 7 * (k - 1)..Min(6 + 7 * k, |payload|)]
  }

  lemma CFNumber(payload: Data, j: nat)
    requires 1 <= j <= CFCount(payload)
    ensures |CFOf(payload, j)| >= 2 && IsCF(CFOf(payload, j)) && Low(CFOf(payload, j)[0]) == j % 16
  {
  }

  /** The consecutive frames lo, lo + 1, ... before hi, counting from one. */
  function CFRange(payload: Data, lo: nat, hi: nat): (cfs: seq<Data>)
    requires 1 <= lo <= hi <= CFCount(payload) + 1
    ensures |cfs| == hi - lo
    ensures forall i :: 0 <= i < |cfs| ==> cfs[i] == CFOf(payload, lo + i)
    decreases hi
  {
    if lo == hi then [] else CFRange(payload, lo, hi - 1) + [CFOf(payload, hi - 1)]
  }

  /** What is left of a payload after k consecutive frames. */
  function Rest(payload: Data, k: nat): Data { payload[Min(6 + 7 * k, |payload|)..] }

  lemma CutOne(payload: Data, k: nat, sn: Byte)
    requires k < CFCount(payload) && sn == (k + 1) % 0x100
    ensures Rest(payload, k) != []
    ensures ConsecutiveFrame(Rest(payload, k), sn) == CFOf(payload, k + 1)
    ensures Rest(payload, k)[Min(7, |Rest(payload, k)|)..] == Rest(payload, k + 1)
    ensures (sn + 1) % 0x100 == (k + 2) % 0x100
    ensures Consecutives(Rest(payload, k), sn)
         == [CFOf(payload, k + 1)] + Consecutives(Rest(payload, k + 1), (k + 2) % 0x100)
  {
    var rest := Rest(payload, k);
    SameLow(sn, k);
    assert rest[..Min(7, |rest|)] == payload[6 + 7 * k..Min(6 + 7 * (k + 1), |payload|)];
  }

  lemma {:induction false} SegmentsAre(payload: Data, k: nat)
    requires 8 <= |payload| <= MAX_PAYLOAD && k <= CFCount(payload)
    ensures Segments(payload)
         == [FirstFrame(payload)] + CFRange(payload, 1, k + 1) + Consecutives(Rest(payload, k), (k + 1) % 0x100)
    decreases k
  {
    if k > 0 {
      assert CFRange(payload, 1, k + 1) == CFRange(payload, 1, k) + [CFOf(payload, k)];
      hide *;
      SegmentsAre(payload, k - 1);
      CutOne(payload, k - 1, k % 0x100);
      var tail := Consecutives(Rest(payload, k), (k + 1) % 0x100);
      Reassociate([FirstFrame(payload)], CFRange(payload, 1, k), CFOf(payload, k), tail);
    } else {
      assert [FirstFrame(payload)] + CFRange(payload, 1, 1) == [FirstFrame(payload)];
    }
  }

  lemma Reassociate<T>(a: seq<T>, b: seq<T>, x: T, c: seq<T>)
    ensures a + b + ([x] + c) == a + (b + [x]) + c
  {
  }

  lemma SegmentAt(payload: Data, j: nat)
    requires 8 <= |payload| <= MAX_PAYLOAD && j <= CFCount(payload)
    ensures |Segments(payload)| == 1 + CFCount(payload)
    ensures Segments(payload)[j] == if j == 0 then FirstFrame(payload) else CFOf(payload, j)
  {
    var n := CFCount(payload);
    SegmentsAre(payload, n);
    assert Rest(payload, n) == [];
  }

  lemma FirstFrameFields(payload: Data)
    requires 8 <= |payload| <= MAX_PAYLOAD
    ensures var f := FirstFrame(payload); IsFF(f) && DeclaredLength(f) == |payload| && f[2..] == payload[..6]
  {
  }

  lemma Stretch(payload: Data, i: nat, j: nat, head: Data, joined: Data, cf: Data)
    requires i <= j <= |payload| && |cf| >= 1
    requires head + joined == payload[..i] && cf[1..] == payload[i..j]
    ensures head + (joined + cf[1..]) == payload[..j]
  {
  }

  /** In-order consecutive frames join to the corresponding stretch of the payload. */
  lemma {:induction false} JoinedInOrder(payload: Data, cfs: seq<Data>)
    requires 8 <= |payload| && |cfs| <= CFCount(payload)
    requires forall k :: 0 <= k < |cfs| ==> |cfs[k]| >= 1 && cfs[k] == CFOf(payload, k + 1)
    ensures payload[..6] + Joined(cfs) == payload[..Min(6 + 7 * |cfs|, |payload|)]
    decreases |cfs|
  {
    if cfs == [] {
      assert Joined(cfs) == [];
    } else {
      var m := |cfs|;
      JoinedInOrder(payload, cfs[..m - 1]);
      Stretch(payload, 6 + 7 * (m - 1), Min(6 + 7 * m, |payload|), payload[..6], Joined(cfs[..m - 1]), cfs[m - 1]);
    }
  }
}
