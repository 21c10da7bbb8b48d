/** Whole BAM transfers: SendTP, its round trip through a reassembler, and the independence of sources. */
module BamTransfer {
  import opened Bits
  import opened Can
  import opened J1939
  import opened BamTrace

  // ----- SendTP -----

  datatype SendError = TooShort | TooLong | Stopped

  predicate Sendable(f: JFrame) { 9 <= |f.data| <= TP_MAX_BYTES }

  function BamFrame(f: JFrame, src: Byte): Frame
    requires Sendable(f)
  {
    var n := |f.data|;
    Classic(BroadcastID(f.priority, TP_CM, src), true,
            [BAM_CONTROL, n % 0x100, n / 0x100, Packets(n), 0xFF] + PgnToBytes(f.pgn))
  }

  /** Packet q: its number and seven bytes, padded with 0xFF. */
  function DtData(data: seq<Byte>, q: Byte): (d: seq<Byte>)
    requires 1 <= q <= Packets(|data|)
    ensures |d| == 8 && d[0] == q
    ensures forall i :: 1 <= i < 8 ==>
              d[i] == if (q as int - 1) * 7 + i - 1 < |data| then data[(q as int - 1) * 7 + i - 1] else 0xFF
  {
    seq(8, i requires 0 <= i < 8 =>
      if i == 0 then q
      else if (q as int - 1) * 7 + i - 1 < |data| then data[(q as int - 1) * 7 + i - 1] else 0xFF)
  }

  function DtFrame(f: JFrame, src: Byte, q: Byte): Frame
    requires Sendable(f) && 1 <= q <= Packets(|f.data|)
  {
    Classic(BroadcastID(f.priority, TP_DT, src), true, DtData(f.data, q))
  }

  /** The announcement, then the packets in order: at most 255 of them. */
  function Transfer(f: JFrame, src: Byte): (frames: seq<Frame>)
    requires Sendable(f)
    ensures |frames| == 1 + Packets(|f.data|) <= 256
  {
    [BamFrame(f, src)] + seq(Packets(|f.data|), i requires 0 <= i < Packets(|f.data|) => DtFrame(f, src, i + 1))
  }

  /** The packets of a transfer, by number. */
  lemma PacketAt(f: JFrame, src: Byte, q: Byte)
    requires Sendable(f) && 1 <= q <= Packets(|f.data|)
    ensures Transfer(f, src)[q] == Classic(BroadcastID(f.priority, TP_DT, src), true, DtData(f.data, q))
        == DtFrame(f, src, q)
    ensures DtFrame(f, src, q) in Transfer(f, src)[1..]
  {
    assert Transfer(f, src)[1..][q - 1] == Transfer(f, src)[q];
  }

  /** A bus that will take txLeft more frames, until a send fails or the context ends. */
  class Bus {
    const src: Byte
    var tx: seq<Frame>
    var txLeft: nat

    constructor (src: Byte, sends: nat)
      ensures this.src == src && tx == [] && txLeft == sends
    {
      this.src, tx, txLeft := src, [], sends;
    }

    method CanSend(frame: Frame) returns (ok: bool)
      modifies this
      ensures ok <==> old(txLeft) > 0
      ensures if ok then tx == old(tx) + [frame] && txLeft == old(txLeft) - 1 else tx == old(tx) && txLeft == 0
    {
      ok := txLeft > 0;
      if ok {
        tx, txLeft := tx + [frame], txLeft - 1;
      }
    }

    method SendTP(f: JFrame) returns (err: Option<SendError>)
      modifies this
      ensures |f.data| < 9 ==> err == Some(TooShort) && tx == old(tx)
      ensures |f.data| > 1785 ==> err == Some(TooLong) && tx == old(tx)
      ensures Sendable(f) && old(txLeft) >= |Transfer(f, src)| ==> err == None && tx == old(tx) + Transfer(f, src)
      ensures Sendable(f) && old(txLeft) < |Transfer(f, src)| ==>
                err == Some(Stopped) && tx == old(tx) + Transfer(f, src)[..old(txLeft)]
    {
      hide BroadcastID, PgnToBytes, DtData;
      var n := |f.data|;
      if n < 9 {
        return Some(TooShort);
      }
      if n > TP_MAX_BYTES {
        return Some(TooLong);
      }
      var numPackets: nat := (n + TP_PER_PACKET - 1) / TP_PER_PACKET;
      var bam := [BAM_CONTROL, n % 0x100, n / 0x100, numPackets, 0xFF] + PgnToBytes(f.pgn);
      var ok := CanSend(Classic(BroadcastID(f.priority, TP_CM, src), true, bam));
      if !ok {
        return Some(Stopped);
      }
      assert tx == old(tx) + Transfer(f, src)[..1];
      ok := SendPackets(f, numPackets);
      err := if ok then None else Some(Stopped);
    }

    /** The loop over the packets. */
    method SendPackets(f: JFrame, numPackets: nat) returns (ok: bool)
      requires Sendable(f) && numPackets == Packets(|f.data|)
      modifies this
      ensures ok <==> old(txLeft) >= numPackets
      ensures tx == old(tx) + Transfer(f, src)[1..1 + if ok then numPackets else old(txLeft)]
    {
      hide Transfer, DtFrame, DtData;
      ghost var all := Transfer(f, src);
      for number := 1 to numPackets + 1
        invariant txLeft == old(txLeft) - (number - 1)
        invariant tx == old(tx) + all[1..number]
      {
        var pkt := Packet(f.data, number);
        ok := CanSend(Classic(BroadcastID(f.priority, TP_DT, src), true, pkt));
        if !ok {
          return false;
        }
        PacketAt(f, src, number);
        assert all[1..number] + [all[number]] == all[1..number + 1];
      }
      ok := true;
    }

    /** The inner loop: fills one packet. */
    method Packet(data: seq<Byte>, number: Byte) returns (d: seq<Byte>)
      requires 1 <= number <= Packets(|data|)
      ensures d == DtData(data, number)
    {
      var pkt := new Byte[8](_ => 0);
      pkt[0] := number;
      var offset := (number as int - 1) * TP_PER_PACKET;
      for i := 1 to TP_PER_PACKET + 1
        invariant pkt[0] == number
        invariant forall j :: 1 <= j < i ==> pkt[j] == DtData(data, number)[j]
      {
        var at := offset + i - 1;
        if at < |data| {
          pkt[i] := data[at];
        } else {
          pkt[i] := 0xFF;
        }
      }
      d := pkt[..];
    }
  }

  // ----- What a receiver reads in a transfer -----

  /** What three bytes keep of a PGN. */
  function Low24(pgn: Word32): Word32 { (pgn as int) % 0x100_0000 }

  lemma BamIsRead(f: JFrame, src: Byte)
    requires Sendable(f)
    ensures Read(BamFrame(f, src)) == Bam(src, |f.data|, (f.priority as int) % 8, Low24(f.pgn))
  {
    BroadcastIDFields(f.priority, TP_CM, src);
    hide BroadcastID, DecodeID;
    PgnBytes(f.pgn);
    var d := BamFrame(f, src).data;
    assert |d| == 8 && d[5..] == PgnToBytes(f.pgn);
  }

  lemma PgnBytes(pgn: Word32)
    ensures var b := PgnToBytes(pgn); PgnFromBytes(b[0], b[1], b[2]) == Low24(pgn)
  {
    var x: int := pgn;
    var q1 := x / 0x100;
    var q2 := q1 / 0x100;
    var q3 := q2 / 0x100;
    assert x / 0x1_0000 == q2;
    assert x == 0x100_0000 * q3 + (x % 0x100 + q1 % 0x100 * 0x100 + q2 % 0x100 * 0x1_0000);
    ModIs(x, 0x100_0000, q3, x % 0x100 + q1 % 0x100 * 0x100 + q2 % 0x100 * 0x1_0000);
  }

  lemma DtIsRead(f: JFrame, src: Byte, q: Byte)
    requires Sendable(f) && 1 <= q <= Packets(|f.data|)
    ensures Read(DtFrame(f, src, q)) == Dt(src, q, DtData(f.data, q))
  {
    BroadcastIDFields(f.priority, TP_DT, src);
    hide BroadcastID, DecodeID;
  }

  // ----- Emissions by source -----

  predicate From(f: Frame, s: Byte) { !Read(f).Other? && Read(f).src == s }

  function OfSource(es: seq<JFrame>, s: Byte): seq<JFrame> {
    if es == [] then []
    else OfSource(es[..|es| - 1], s) + (if es[|es| - 1].src == s then [es[|es| - 1]] else [])
  }

  ghost function EmittedFor(pgns: seq<Word32>, ins: seq<Frame>, s: Byte): seq<JFrame> {
    OfSource(Emissions(pgns, ins), s)
  }

  lemma OfSourceAppend(es: seq<JFrame>, e: JFrame, s: Byte)
    ensures OfSource(es + [e], s) == OfSource(es, s) + (if e.src == s then [e] else [])
  {
  }

  /** One more frame adds what it emits, if it comes from s. */
  lemma EmittedNext(pgns: seq<Word32>, ins: seq<Frame>, f: Frame, s: Byte)
    ensures EmittedFor(pgns, ins + [f], s)
         == EmittedFor(pgns, ins, s) + (if From(f, s) then Step(pgns, After(pgns, ins), f).1 else [])
  {
    assert (ins + [f])[..|ins + [f]| - 1] == ins;
    var out := Step(pgns, After(pgns, ins), f).1;
    if out == [] {
      assert Emissions(pgns, ins) + out == Emissions(pgns, ins);
    } else {
      OfSourceAppend(Emissions(pgns, ins), out[0], s);
    }
  }

  // ----- Sources do not interfere -----

  function Project(ins: seq<Frame>, s: Byte): seq<Frame> {
    if ins == [] then []
    else Project(ins[..|ins| - 1], s) + (if From(ins[|ins| - 1], s) then [ins[|ins| - 1]] else [])
  }

  ghost predicate SameSession(a: Sessions, b: Sessions, s: Byte) {
    (s in a <==> s in b) && (s in a ==> a[s] == b[s])
  }

  lemma StepSame(pgns: seq<Word32>, a: Sessions, b: Sessions, f: Frame, s: Byte)
    requires AllValid(a) && AllValid(b) && SameSession(a, b, s)
    ensures From(f, s) ==> SameSession(Step(pgns, a, f).0, Step(pgns, b, f).0, s)
    ensures From(f, s) ==> Step(pgns, a, f).1 == Step(pgns, b, f).1
    ensures !From(f, s) ==> SameSession(Step(pgns, a, f).0, b, s)
  {
  }

  lemma {:induction false} ProjectionDecides(pgns: seq<Word32>, ins: seq<Frame>, s: Byte)
    ensures SameSession(After(pgns, ins), After(pgns, Project(ins, s)), s)
    ensures EmittedFor(pgns, ins, s) == EmittedFor(pgns, Project(ins, s), s)
    decreases |ins|
  {
    if ins == [] {
    } else {
      hide Step, EmittedFor;
      var before, f := ins[..|ins| - 1], ins[|ins| - 1];
      var mine := Project(before, s);
      ProjectionDecides(pgns, before, s);
      StepSame(pgns, After(pgns, before), After(pgns, mine), f, s);
      EmittedNext(pgns, before, f, s);
      assert before + [f] == ins;
      if From(f, s) {
        EmittedNext(pgns, mine, f, s);
        assert (mine + [f])[..|mine + [f]| - 1] == mine;
      } else {
        assert Project(ins, s) == mine;
      }
    }
  }

  /** Two streams that agree on the transport messages of s emit the same frames for s, whatever others send. */
  lemma NonInterference(pgns: seq<Word32>, ins: seq<Frame>, other: seq<Frame>, s: Byte)
    requires Project(ins, s) == Project(other, s)
    ensures EmittedFor(pgns, ins, s) == EmittedFor(pgns, other, s)
  {
    ProjectionDecides(pgns, ins, s);
    ProjectionDecides(pgns, other, s);
  }

  // ----- Round trip -----

  /** The stream carries nothing from src but packets of its transfer of f. */
  ghost predicate OnlyPackets(after: seq<Frame>, f: JFrame, src: Byte)
    requires Sendable(f)
  {
    forall k :: 0 <= k < |after| && From(after[k], src) ==>
      Read(after[k]).Dt? && 1 <= Read(after[k]).number <= Packets(|f.data|)
      && Read(after[k]).data == DtData(f.data, Read(after[k]).number)
  }

  function Delivered(f: JFrame, src: Byte): JFrame {
    JFrame((f.priority as int) % 8, Low24(f.pgn), src, BROADCAST, f.data)
  }

  ghost predicate Announced(ins: seq<Frame>, b: nat, f: JFrame, src: Byte)
    requires Sendable(f)
  {
    && b < |ins| && Read(ins[b]) == Bam(src, |f.data|, (f.priority as int) % 8, Low24(f.pgn))
    && OnlyPackets(ins[b + 1..], f, src)
  }

  lemma AnnouncedIsLatest(ins: seq<Frame>, b: nat, f: JFrame, src: Byte)
    requires Sendable(f) && Announced(ins, b, f, src)
    ensures Latest(ins, src, b)
    ensures forall k :: b < k < |ins| && From(ins[k], src) ==>
              Read(ins[k]).Dt? && 1 <= Read(ins[k]).number <= Packets(|f.data|)
              && Read(ins[k]).data == DtData(f.data, Read(ins[k]).number)
  {
  }

  /** The bytes of the first packets are the payload. */
  lemma PayloadFromFirst(ins: seq<Frame>, b: nat, f: JFrame, src: Byte)
    requires Sendable(f) && Announced(ins, b, f, src)
    ensures FromFirst(ins, b, src, f.data)
  {
    AnnouncedIsLatest(ins, b, f, src);
    forall j: nat, k: nat | j < |f.data| && First(ins, b, src, j / 7 + 1, k)
      ensures f.data[j] == Read(ins[k]).data[1 + j % 7]
    {
      assert From(ins[k], src);
    }
  }

  lemma MissingBefore(ins: seq<Frame>, x: Frame, b: nat, src: Byte, n: nat)
    requires b < |ins| && Read(x).Dt? && Read(x).src == src && 1 <= Read(x).number <= n
    requires AllArrived(ins + [x], b, src, n)
    ensures AllArrived(ins, b, src, n) <==> Arrived(ins, b, src, Read(x).number)
  {
    forall q | 1 <= q <= n && Arrived(ins, b, src, Read(x).number) ensures Arrived(ins, b, src, q) {
      ArrivedNext(ins, x, b, src, q);
    }
  }

  lemma OneMore(ins: seq<Frame>, x: Frame, b: nat, f: JFrame, src: Byte)
    requires Sendable(f) && Announced(ins, b, f, src) && Announced(ins + [x], b, f, src) && From(x, src)
    ensures Read(x).Dt? && 1 <= Read(x).number <= Packets(|f.data|) && Latest(ins, src, b)
    ensures AllArrived(ins + [x], b, src, Packets(|f.data|)) ==>
              (AllArrived(ins, b, src, Packets(|f.data|)) <==> Arrived(ins, b, src, Read(x).number))
  {
    var all := ins + [x];
    assert all[|ins|] == x;
    AnnouncedIsLatest(ins, b, f, src);
    AnnouncedIsLatest(all, b, f, src);
    if AllArrived(all, b, src, Packets(|f.data|)) {
      MissingBefore(ins, x, b, src, Packets(|f.data|));
    }
  }

  /** The last packet missing completes the transfer and emits the frame. */
  lemma LastPacketEmits(pgns: seq<Word32>, ins: seq<Frame>, x: Frame, b: nat, f: JFrame, src: Byte)
    requires Sendable(f) && Matches(Low24(f.pgn), pgns) && Announced(ins, b, f, src) && Announced(ins + [x], b, f, src)
    requires From(x, src) && !AllArrived(ins, b, src, Packets(|f.data|))
        && AllArrived(ins + [x], b, src, Packets(|f.data|))
    ensures Step(pgns, After(pgns, ins), x).1 == [Delivered(f, src)]
  {
    hide Step, FromFirst, AllArrived, Arrived, Announced, Latest, Matches;
    var all, e := ins + [x], Delivered(f, src);
    assert all[..|all| - 1] == ins && all[|all| - 1] == x && all[b] == ins[b] by {
      assert Announced(ins, b, f, src);
      AnnouncedAt(ins, b, f, src);
    }
    AnnouncedAt(ins, b, f, src);
    PayloadFromFirst(all, b, f, src);
    OneMore(ins, x, b, f, src);
    assert Emits(pgns, all, b, e);
    EmissionIff(pgns, all, e);
  }

  lemma AnnouncedAt(ins: seq<Frame>, b: nat, f: JFrame, src: Byte)
    requires Sendable(f) && Announced(ins, b, f, src)
    ensures b < |ins| && Read(ins[b]) == Bam(src, |f.data|, (f.priority as int) % 8, Low24(f.pgn))
  {
  }

  /** Any other packet of the transfer emits nothing. */
  lemma OtherPacketsEmitNothing(pgns: seq<Word32>, ins: seq<Frame>, x: Frame, b: nat, f: JFrame, src: Byte)
    requires Sendable(f) && Announced(ins, b, f, src) && Announced(ins + [x], b, f, src) && From(x, src)
    requires AllArrived(ins, b, src, Packets(|f.data|)) || !AllArrived(ins + [x], b, src, Packets(|f.data|))
    ensures Step(pgns, After(pgns, ins), x).1 == []
  {
    hide Step, FromFirst, AllArrived, Arrived, Announced, Latest, Matches;
    var all := ins + [x];
    AnnouncedAt(ins, b, f, src);
    assert all[..|all| - 1] == ins && all[|all| - 1] == x && all[b] == ins[b];
    OneMore(ins, x, b, f, src);
    var c := EmissionCase(pgns, all);
    if EmitsLast(pgns, all) != [] {
      LatestIsUnique(ins, src, b, c);
      assert false;
    }
  }

  /** After the announcement, exactly one frame once every packet has come, and none before. */
  lemma {:induction false} AfterAnnouncement(pgns: seq<Word32>, start: seq<Frame>, after: seq<Frame>, f: JFrame,
      src: Byte)
    requires Sendable(f) && Matches(Low24(f.pgn), pgns) && start != []
    requires Read(start[|start| - 1]) == Bam(src, |f.data|, (f.priority as int) % 8, Low24(f.pgn))
    requires OnlyPackets(after, f, src)
    ensures EmittedFor(pgns, start + after, src)
         == EmittedFor(pgns, start, src)
          + (if AllArrived(start + after, |start| - 1, src, Packets(|f.data|)) then [Delivered(f, src)] else [])
    decreases |after|
  {
    hide Step, EmittedFor, AllArrived, FromFirst, Latest;
    var b := |start| - 1;
    if after == [] {
      assert start + after == start;
      NoneArrived(start, src, Packets(|f.data|));
      assert EmittedFor(pgns, start, src) + [] == EmittedFor(pgns, start, src);
    } else {
      var before, x := after[..|after| - 1], after[|after| - 1];
      var ins := start + before;
      assert start + after == ins + [x] && ins[b + 1..] == before && (ins + [x])[b + 1..] == after;
      AfterAnnouncement(pgns, start, before, f, src);
      EmittedNext(pgns, ins, x, src);
      if From(x, src) {
        Completion(pgns, ins, x, b, f, src);
      } else {
        StillSame(ins, x, b, src, Packets(|f.data|));
      }
    }
  }

  lemma NoneArrived(start: seq<Frame>, src: Byte, n: nat)
    requires start != [] && n > 0
    ensures !AllArrived(start, |start| - 1, src, n)
  {
    assert !Arrived(start, |start| - 1, src, 1);
  }

  lemma StillSame(ins: seq<Frame>, x: Frame, b: nat, src: Byte, n: nat)
    requires b < |ins| && !From(x, src)
    ensures AllArrived(ins + [x], b, src, n) <==> AllArrived(ins, b, src, n)
  {
    forall q ensures Arrived(ins + [x], b, src, q) <==> Arrived(ins, b, src, q) {
      ArrivedNext(ins, x, b, src, q);
    }
  }

  lemma StillAll(ins: seq<Frame>, x: Frame, b: nat, src: Byte, n: nat)
    requires b < |ins| && AllArrived(ins, b, src, n)
    ensures AllArrived(ins + [x], b, src, n)
  {
    forall q | 1 <= q <= n ensures Arrived(ins + [x], b, src, q) {
      ArrivedNext(ins, x, b, src, q);
    }
  }

  lemma Completion(pgns: seq<Word32>, ins: seq<Frame>, x: Frame, b: nat, f: JFrame, src: Byte)
    requires Sendable(f) && Matches(Low24(f.pgn), pgns) && Announced(ins, b, f, src) && Announced(ins + [x], b, f, src)
    requires From(x, src)
    ensures var n := Packets(|f.data|);
            && (AllArrived(ins, b, src, n) ==> AllArrived(ins + [x], b, src, n))
            && Step(pgns, After(pgns, ins), x).1
            == if !AllArrived(ins, b, src, n) && AllArrived(ins + [x], b, src, n) then [Delivered(f, src)] else []
  {
    hide Step, AllArrived, Announced;
    var n := Packets(|f.data|);
    if AllArrived(ins, b, src, n) {
      AnnouncedAt(ins, b, f, src);
      StillAll(ins, x, b, src, n);
    }
    if !AllArrived(ins, b, src, n) && AllArrived(ins + [x], b, src, n) {
      LastPacketEmits(pgns, ins, x, b, f, src);
    } else {
      OtherPacketsEmitNothing(pgns, ins, x, b, f, src);
    }
  }

  lemma PacketNumber(f: JFrame, src: Byte, d: Frame) returns (q: Byte)
    requires Sendable(f) && d in Transfer(f, src)[1..]
    ensures 1 <= q <= Packets(|f.data|) && d == DtFrame(f, src, q)
  {
    hide DtFrame;
    var i :| 0 <= i < |Transfer(f, src)[1..]| && Transfer(f, src)[1..][i] == d;
    q := i + 1;
  }

  lemma OnlyItsPackets(after: seq<Frame>, f: JFrame, src: Byte)
    requires Sendable(f) && forall k :: 0 <= k < |after| && From(after[k], src) ==> after[k] in Transfer(f, src)[1..]
    ensures OnlyPackets(after, f, src)
  {
    hide Read, DtFrame, Transfer;
    forall k | 0 <= k < |after| && From(after[k], src)
      ensures Read(after[k]).Dt? && 1 <= Read(after[k]).number <= Packets(|f.data|)
              && Read(after[k]).data == DtData(f.data, Read(after[k]).number)
    {
      var q := PacketNumber(f, src, after[k]);
      DtIsRead(f, src, q);
    }
  }

  lemma AllCome(start: seq<Frame>, after: seq<Frame>, f: JFrame, src: Byte)
    requires Sendable(f) && start != [] && forall d :: d in Transfer(f, src)[1..] ==> d in after
    ensures AllArrived(start + after, |start| - 1, src, Packets(|f.data|))
  {
    hide Read, DtFrame, Transfer;
    var b, all := |start| - 1, start + after;
    forall q | 1 <= q <= Packets(|f.data|) ensures Arrived(all, b, src, q) {
      PacketAt(f, src, q);
      var k :| 0 <= k < |after| && after[k] == DtFrame(f, src, q);
      DtIsRead(f, src, q);
      assert all[|start| + k] == after[k];
    }
  }

  /** Round trip. Whatever came before, and whatever other sources send in between: the announcement and then the
      packets SendTP makes, in any order and with any repetition, yield exactly one frame for src once all have
      come, with the payload, the priority modulo eight, the 24 bits the announcement carries of the PGN, and the
      source. */
  lemma RoundTrip(pgns: seq<Word32>, before: seq<Frame>, after: seq<Frame>, f: JFrame, src: Byte)
    requires Sendable(f) && Matches(Low24(f.pgn), pgns)
    requires forall k :: 0 <= k < |after| && From(after[k], src) ==> after[k] in Transfer(f, src)[1..]
    requires forall d :: d in Transfer(f, src)[1..] ==> d in after
    ensures EmittedFor(pgns, before + [Transfer(f, src)[0]] + after, src)
         == EmittedFor(pgns, before, src) + [Delivered(f, src)]
  {
    hide EmittedFor, Read, OnlyPackets, AllArrived, BamFrame;
    BamIsRead(f, src);
    OnlyItsPackets(after, f, src);
    AllCome(before + [BamFrame(f, src)], after, f, src);
    AfterAnnouncement(pgns, before + [BamFrame(f, src)], after, f, src);
    EmittedNext(pgns, before, BamFrame(f, src), src);
    assert EmittedFor(pgns, before, src) + [] == EmittedFor(pgns, before, src);
  }
}
