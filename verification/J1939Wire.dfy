/** J1939 as bits and bytes: where the fields of an identifier lie, what the frames of a transfer look like on the wire,
    and exactly which frames the reassembler reacts to. */
module J1939Wire {
  import opened Bits
  import opened Can
  import opened J1939
  import opened BamTransfer

  // ----- Identifiers -----

  /** The PDU format is 240 or more when its four high bits, 20 to 23, are all set. */
  predicate Broadcasts(id: Word32) { Bit(id, 20) && Bit(id, 21) && Bit(id, 22) && Bit(id, 23) }

  lemma Powers()
    ensures Pow2(0) == 1 && Pow2(1) == 2 && Pow2(2) == 4 && Pow2(3) == 8 && Pow2(8) == 0x100
    ensures Pow2(16) == 0x1_0000 && Pow2(24) == 0x100_0000 && Pow2(26) == 0x400_0000 && Pow2(32) == 0x1_0000_0000
  {
  }

  lemma HighNibble(pf: nat)
    requires pf < 0x100
    ensures pf >= 240 <==> Bit(pf, 4) && Bit(pf, 5) && Bit(pf, 6) && Bit(pf, 7)
  {
    var n := Quotient(pf, 16);
    assert Pow2(4) == 16;
    BitOfQuotient(pf, 4, 0);
    BitOfQuotient(pf, 4, 1);
    BitOfQuotient(pf, 4, 2);
    BitOfQuotient(pf, 4, 3);
    assert Bit(n, 0) == (n % 2 == 1) && Bit(n, 1) == (n / 2 % 2 == 1);
    assert Bit(n, 2) == (n / 2 / 2 % 2 == 1) && Bit(n, 3) == (n / 2 / 2 / 2 % 2 == 1);
  }

  /** Decoding, bit by bit: the source is bits 0 to 7, the priority bits 26 to 28, and the PGN bits 8 to 24 without the
      low eight unless the message is a broadcast one; bits 25 and 29 to 31 are not looked at. */
  lemma DecodedBits(id: Word32, k: nat)
    ensures var h := DecodeID(id);
            && Bit(h.src, k) == (k < 8 && Bit(id, k))
            && Bit(h.priority, k) == (k < 3 && Bit(id, 26 + k))
            && Bit(h.pgn, k) == (k <= 16 && Bit(id, 8 + k) && (k >= 8 || Broadcasts(id)))
  {
    var pf, ps, dp := Quotient(id, 0x1_0000) % 0x100, Quotient(id, 0x100) % 0x100, Quotient(id, 0x100_0000) % 2;
    var low := if pf < 240 then 0 else ps;
    assert DecodeID(id) == Header(Quotient(id, 0x400_0000) % 8, (dp * 0x100 + pf) * 0x100 + low, (id as int) % 0x100);
    Powers();
    hide *;
    BitOfRemainder(id, 8, k);
    BitOfField(id, 26, 3, k);
    BitOfConcat(dp * 0x100 + pf, low, 8, k);
    if k < 8 {
      BitOfField(id, 8, 8, k);
      BitOfZero(k);
    } else {
      BitOfConcat(dp, pf, 8, k - 8);
      if k < 16 {
        BitOfField(id, 16, 8, k - 8);
      } else {
        BitOfField(id, 24, 1, k - 16);
      }
    }
    HighNibble(pf);
    BitOfField(id, 16, 8, 4);
    BitOfField(id, 16, 8, 5);
    BitOfField(id, 16, 8, 6);
    BitOfField(id, 16, 8, 7);
  }

  lemma LowFields(pgn: Word32, low: nat, src: Byte, k: nat)
    requires low == if Quotient(pgn, 0x100) % 0x100 >= 240 then (pgn as int) % 0x100 else 0
    requires k < 16
    ensures Bit(low * 0x100 + src, k)
         == if k < 8 then Bit(src, k)
            else Bit(pgn, k - 8) && Bit(pgn, 12) && Bit(pgn, 13) && Bit(pgn, 14) && Bit(pgn, 15)
  {
    Powers();
    hide *;
    BitOfConcat(low, src, 8, k);
    HighNibble(Quotient(pgn, 0x100) % 0x100);
    BitOfField(pgn, 8, 8, 4);
    BitOfField(pgn, 8, 8, 5);
    BitOfField(pgn, 8, 8, 6);
    BitOfField(pgn, 8, 8, 7);
    if k >= 8 {
      BitOfRemainder(pgn, 8, k - 8);
      BitOfZero(k - 8);
    }
  }

  lemma HighFields(priority: Byte, pgn: Word32, k: nat)
    ensures var pr, dp, pf := (priority as int) % 8, Quotient(pgn, 0x1_0000) % 2, Quotient(pgn, 0x100) % 0x100;
            Bit((pr * 4 + dp) * 0x100 + pf, k)
            == if k <= 8 then Bit(pgn, 8 + k) else 10 <= k < 13 && Bit(priority, k - 10)
  {
    var pr, dp, pf := (priority as int) % 8, Quotient(pgn, 0x1_0000) % 2, Quotient(pgn, 0x100) % 0x100;
    Powers();
    hide *;
    BitOfConcat(pr * 4 + dp, pf, 8, k);
    if k < 8 {
      BitOfField(pgn, 8, 8, k);
    } else {
      BitOfConcat(pr, dp, 2, k - 8);
      BitOfField(pgn, 16, 1, k - 8);
      if k >= 10 {
        BitOfRemainder(priority, 3, k - 10);
      }
    }
  }

  /** Encoding, bit by bit; the low eight bits of the PGN are carried for a broadcast message only. */
  lemma EncodedBits(priority: Byte, pgn: Word32, src: Byte, k: nat)
    ensures Bit(EncodeID(priority, pgn, src), k)
         == if k < 8 then Bit(src, k)
            else if k < 16 then Bit(pgn, k - 8) && Bit(pgn, 12) && Bit(pgn, 13) && Bit(pgn, 14) && Bit(pgn, 15)
            else if k <= 24 then Bit(pgn, k - 8)
            else 26 <= k < 29 && Bit(priority, k - 26)
  {
    var pr, dp, pf := (priority as int) % 8, Quotient(pgn, 0x1_0000) % 2, Quotient(pgn, 0x100) % 0x100;
    var low := if pf >= 240 then (pgn as int) % 0x100 else 0;
    assert EncodeID(priority, pgn, src) == ((pr * 4 + dp) * 0x100 + pf) * 0x1_0000 + (low * 0x100 + src);
    Powers();
    hide *;
    BitOfConcat((pr * 4 + dp) * 0x100 + pf, low * 0x100 + src, 16, k);
    if k < 16 {
      LowFields(pgn, low, src, k);
    } else {
      HighFields(priority, pgn, k - 16);
    }
  }

  // ----- Frames -----

  /** The announcement, byte by byte: it goes to address 0xFF as PDU format 0xEC. */
  lemma BamBytes(f: JFrame, src: Byte)
    requires Sendable(f)
    ensures 9 <= |f.data| <= 1785
    ensures var b, n := BamFrame(f, src), |f.data|;
            && b == Classic((f.priority as int) % 8 * 0x400_0000 + 0xECFF00 + src, true, b.data)
            && |b.data| == 8 && b.data[0] == 0x20 && (b.data[1] as int) + 0x100 * (b.data[2] as int) == n
            && 7 * (b.data[3] as int - 1) < n <= 7 * (b.data[3] as int) && b.data[4] == 0xFF
            && (b.data[5] as int) + 0x100 * (b.data[6] as int) + 0x1_0000 * (b.data[7] as int)
               == (f.pgn as int) % 0x100_0000
  {
    TransportID(f.priority, src);
    var b := BamFrame(f, src);
    assert |b.data| == 8 && b.data[5..] == PgnToBytes(f.pgn);
    hide BroadcastID, PgnToBytes;
    PgnBytes(f.pgn);
  }

  /** A data packet, byte by byte: its number and seven bytes, padded with 0xFF, as PDU format 0xEB. */
  lemma DtBytes(f: JFrame, src: Byte, q: Byte)
    requires Sendable(f) && 1 <= q <= Packets(|f.data|)
    ensures var d := DtFrame(f, src, q);
            && d == Classic((f.priority as int) % 8 * 0x400_0000 + 0xEBFF00 + src, true, d.data)
            && |d.data| == 8 && d.data[0] == q
            && forall i :: 1 <= i < 8 ==>
                 d.data[i] == if 7 * (q as int - 1) + i - 1 < |f.data| then f.data[7 * (q as int - 1) + i - 1] else 0xFF
  {
    TransportID(f.priority, src);
    hide BroadcastID;
  }

  lemma TransportID(priority: Byte, src: Byte)
    ensures BroadcastID(priority, TP_CM, src) == (priority as int) % 8 * 0x400_0000 + 0xECFF00 + src
    ensures BroadcastID(priority, TP_DT, src) == (priority as int) % 8 * 0x400_0000 + 0xEBFF00 + src
  {
  }

  /** A frame is a data packet exactly when it is extended, has PDU format 0xEB on data page 0, and eight bytes. */
  lemma DtIff(f: Frame, src: Byte, number: Byte, data: seq<Byte>)
    ensures Read(f) == Dt(src, number, data) <==>
              && f.ext && (f.id as int) / 0x1_0000 % 0x200 == 0xEB && |f.data| >= 8
              && src == (f.id as int) % 0x100 && number == f.data[0] && data == f.data
  {
    PageAndFormat(f.id, 0xEB);
    PageAndFormat(f.id, 0xEC);
  }

  lemma PageAndFormat(id: Word32, pf: nat)
    requires pf < 240
    ensures DecodeID(id).pgn == pf * 0x100 <==> (id as int) / 0x1_0000 % 0x200 == pf
  {
    var x: int := id;
    var y := x / 0x1_0000;
    assert x / 0x100_0000 == y / 0x100;
    assert y % 0x200 == y / 0x100 % 2 * 0x100 + y % 0x100;
  }

  /** A frame is an announcement exactly when it is extended, has PDU format 0xEC on data page 0, eight bytes, control
      byte 0x20, a size from 9 to 1785 and the number of packets that takes. */
  lemma BamIff(f: Frame, src: Byte, total: nat, priority: Byte, pgn: Word32)
    ensures Read(f) == Bam(src, total, priority, pgn) <==>
              && f.ext && (f.id as int) / 0x1_0000 % 0x200 == 0xEC && |f.data| >= 8 && f.data[0] == 0x20
              && 9 <= total <= 1785 && total == (f.data[1] as int) + 0x100 * (f.data[2] as int)
              && 7 * (f.data[3] as int - 1) < total <= 7 * (f.data[3] as int)
              && src == (f.id as int) % 0x100 && priority == (f.id as int) / 0x400_0000 % 8
              && pgn == (f.data[5] as int) + 0x100 * (f.data[6] as int) + 0x1_0000 * (f.data[7] as int)
  {
    PageAndFormat(f.id, 0xEC);
    if |f.data| >= 8 {
      var t := (f.data[1] as int) + 0x100 * (f.data[2] as int);
      assert f.data[3] == Packets(t) <==> 7 * (f.data[3] as int - 1) < t <= 7 * (f.data[3] as int);
    }
  }

  /** The converse of BamIsRead: whatever is read as an announcement is, up to the reserved fifth byte, anything after
      the eighth, the destination and the reserved bits of its identifier, the announcement of a frame that can be
      sent. */
  lemma ReadBamIff(f: Frame)
    ensures Read(f).Bam? <==> exists g: JFrame, src: Byte :: Sendable(g) && Resembles(f, BamFrame(g, src))
  {
    hide BroadcastID, PgnToBytes, DecodeID;
    if Read(f).Bam? {
      var m := Read(f);
      var g := JFrame(m.priority, m.pgn, m.src, BROADCAST, seq(m.total, _ => 0));
      BamIff(f, m.src, m.total, m.priority, m.pgn);
      ReadsAlike(f, g, m);
    } else if exists g: JFrame, src: Byte :: Sendable(g) && Resembles(f, BamFrame(g, src)) {
      var g: JFrame, src: Byte :| Sendable(g) && Resembles(f, BamFrame(g, src));
      BamIsRead(g, src);
      SameRead(f, BamFrame(g, src));
      assert false;
    }
  }

  /** Alike in all that an announcement is read for. */
  ghost predicate Resembles(f: Frame, b: Frame) {
    && f.ext && b.ext && DecodeID(f.id) == DecodeID(b.id)
    && |f.data| >= 8 && |b.data| >= 8 && f.data[..4] == b.data[..4] && f.data[5..8] == b.data[5..8]
  }

  lemma SameRead(f: Frame, b: Frame)
    requires Resembles(f, b) && Read(b).Bam?
    ensures Read(f) == Read(b)
  {
    hide DecodeID;
    assert f.data[0] == f.data[..4][0] && f.data[1] == f.data[..4][1] && f.data[2] == f.data[..4][2];
    assert f.data[3] == f.data[..4][3] && f.data[5] == f.data[5..8][0] && f.data[6] == f.data[5..8][1];
    assert f.data[7] == f.data[5..8][2];
  }

  lemma ReadsAlike(f: Frame, g: JFrame, m: Message)
    requires m == Read(f) && m.Bam? && Sendable(g) && |g.data| == m.total && g.priority == m.priority && g.pgn == m.pgn
    ensures Resembles(f, BamFrame(g, m.src))
  {
    var b := BamFrame(g, m.src);
    hide BamFrame, Read, DecodeID;
    SameHeader(f, g, m);
    AnnouncedData(f, g, m);
    assert f.data[..4] == b.data[..4] && f.data[5..8] == b.data[5..8];
  }

  lemma SameHeader(f: Frame, g: JFrame, m: Message)
    requires m == Read(f) && m.Bam? && Sendable(g) && g.priority == m.priority
    ensures var b := BamFrame(g, m.src); f.ext && b.ext && DecodeID(f.id) == DecodeID(b.id)
  {
    var h := DecodeID(f.id);
    assert h == Header(m.priority, TP_CM, m.src) && h.priority < 8;
    hide BroadcastID, DecodeID, PgnToBytes, PgnFromBytes, Packets;
    BroadcastIDFields(g.priority, TP_CM, m.src);
  }

  lemma AnnouncedData(f: Frame, g: JFrame, m: Message)
    requires m == Read(f) && m.Bam? && Sendable(g) && |g.data| == m.total && g.pgn == m.pgn
    ensures |f.data| >= 8 && BamFrame(g, m.src).data
         == [f.data[0], f.data[1], f.data[2], f.data[3], 0xFF] + [f.data[5], f.data[6], f.data[7]]
  {
    hide BroadcastID, DecodeID, PgnToBytes, PgnFromBytes, Packets;
    SizeBack(f.data[1], f.data[2]);
    PgnBack(f.data[5], f.data[6], f.data[7]);
  }

  lemma SizeBack(low: Byte, high: Byte)
    ensures var n := (low as int) + (high as int) * 0x100; n % 0x100 == low && n / 0x100 == high
  {
  }

  lemma PgnBack(b0: Byte, b1: Byte, b2: Byte)
    ensures PgnToBytes(PgnFromBytes(b0, b1, b2)) == [b0, b1, b2]
  {
    var x: int := PgnFromBytes(b0, b1, b2);
    assert x / 0x1_0000 == x / 0x100 / 0x100;
    SizeBack(b0, b1);
    ModIs(x, 0x100, (b1 as int) + (b2 as int) * 0x100, b0);
    ModIs((b1 as int) + (b2 as int) * 0x100, 0x100, b2, b1);
  }

  /** Nothing else matters to the reassembler: another control message on the transport PGN, as a request to send or an
      acknowledgement of a connection, leaves every session alone and emits nothing; so does every frame that is
      neither an announcement nor a data packet. */
  lemma OthersIgnored(pgns: seq<Word32>, sessions: Sessions, f: Frame)
    requires AllValid(sessions)
    requires !f.ext || |f.data| < 8 || (f.id as int) / 0x1_0000 % 0x200 !in {0xEB, 0xEC}
             || ((f.id as int) / 0x1_0000 % 0x200 == 0xEC && f.data[0] != 0x20)
    ensures Step(pgns, sessions, f) == (sessions, [])
  {
    PageAndFormat(f.id, 0xEB);
    PageAndFormat(f.id, 0xEC);
  }
}
