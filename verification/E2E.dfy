/** End-to-end protection (safety/e2e.go): the protector prepends a ten-byte header, the receiver checks the
    CRC against its own identifiers and then the sequence counter, which wraps at 2^32. */
module E2E {
  import opened Bits
  import Crc

  const HEADER_SIZE := 10
  const COUNTER_RANGE := 0x1_0000_0000

  datatype Config = Config(dataID: Word16, sourceID: Word16)

  datatype ErrorKind = CRCMismatch | SequenceGap | HeaderTooShort

  datatype Outcome =
    | Accepted(payload: seq<Byte>)
    | Rejected(kind: ErrorKind, counter: Word32)

  // ----- Little-endian fields -----

  function Put16(w: Word16): (r: seq<Byte>)
    ensures |r| == 2
  {
    [w % 0x100, w / 0x100]
  }

  function Put32(w: Word32): (r: seq<Byte>)
    ensures |r| == 4
  {
    Put16(w % 0x1_0000) + Put16(w / 0x1_0000)
  }

  function Get16(b: seq<Byte>): Word16
    requires |b| == 2
  {
    (b[0] as int) + 0x100 * (b[1] as int)
  }

  function Get32(b: seq<Byte>): Word32
    requires |b| == 4
  {
    (Get16(b[..2]) as int) + 0x1_0000 * (Get16(b[2..]) as int)
  }

  lemma Put16Get16(w: Word16)
    ensures Get16(Put16(w)) == w
  {
  }

  lemma Get16Injective(a: seq<Byte>, b: seq<Byte>)
    requires |a| == |b| == 2
    ensures Get16(a) == Get16(b) <==> a == b
  {
  }

  lemma Put32Get32(w: Word32)
    ensures Get32(Put32(w)) == w
  {
    var b := Put32(w);
    assert b[..2] == Put16(w % 0x1_0000) && b[2..] == Put16(w / 0x1_0000);
    Put16Get16(w % 0x1_0000);
    Put16Get16(w / 0x1_0000);
  }

  lemma Get32Put32(b: seq<Byte>)
    requires |b| == 4
    ensures Put32(Get32(b)) == b
  {
    var low, high := Get16(b[..2]), Get16(b[2..]);
    assert Get32(b) % 0x1_0000 == low && Get32(b) / 0x1_0000 == high;
    assert Put16(low) == b[..2] && Put16(high) == b[2..];
  }

  // ----- Frames -----

  /** The bytes the CRC covers: header bytes 0-7, then the payload. */
  function Covered(cfg: Config, counter: Word32, payload: seq<Byte>): seq<Byte> {
    Put16(cfg.dataID) + Put16(cfg.sourceID) + Put32(counter) + payload
  }

  function CrcOf(cfg: Config, counter: Word32, payload: seq<Byte>): Word16 {
    Crc.Checksum(Crc.INIT_WORD, Covered(cfg, counter, payload))
  }

  function Header(cfg: Config, counter: Word32, payload: seq<Byte>): (r: seq<Byte>)
    ensures |r| == HEADER_SIZE
  {
    Put16(cfg.dataID) + Put16(cfg.sourceID) + Put32(counter) + Put16(CrcOf(cfg, counter, payload))
  }

  function Wire(cfg: Config, counter: Word32, payload: seq<Byte>): seq<Byte> {
    Header(cfg, counter, payload) + payload
  }

  method BuildHeader(cfg: Config, counter: Word32, payload: seq<Byte>) returns (hdr: seq<Byte>)
    ensures hdr == Header(cfg, counter, payload)
  {
    hdr := Put16(cfg.dataID) + Put16(cfg.sourceID) + Put32(counter);
    var crc := Crc.Crc16(hdr);
    crc := Crc.Crc16Cont(crc, payload);
    Crc.ChecksumContinues(Crc.INIT_WORD, hdr, payload);
    hdr := hdr + Put16(crc);
  }

  function CounterOf(data: seq<Byte>): Word32
    requires |data| >= HEADER_SIZE
  {
    Get32(data[4..8])
  }

  predicate CrcValid(cfg: Config, data: seq<Byte>) {
    && |data| >= HEADER_SIZE
    && Get16(data[8..10]) == CrcOf(cfg, CounterOf(data), data[HEADER_SIZE..])
  }

  function Next(counter: Word32): Word32 { (counter + 1) % COUNTER_RANGE }

  lemma WireFields(cfg: Config, counter: Word32, payload: seq<Byte>)
    ensures var w := Wire(cfg, counter, payload);
            && |w| == HEADER_SIZE + |payload|
            && CounterOf(w) == counter
            && w[HEADER_SIZE..] == payload
            && Get16(w[8..10]) == CrcOf(cfg, counter, payload)
            && w[..8] + w[10..] == Covered(cfg, counter, payload)
  {
    var w, crc := Wire(cfg, counter, payload), CrcOf(cfg, counter, payload);
    assert w[4..8] == Put32(counter) && w[8..10] == Put16(crc) && w[10..] == payload;
    assert w[..8] == Put16(cfg.dataID) + Put16(cfg.sourceID) + Put32(counter);
    hide *;
    Put32Get32(counter);
    Put16Get16(crc);
  }

  /** What a protector of the same configuration sends, a receiver finds intact. */
  lemma WireIsValid(cfg: Config, counter: Word32, payload: seq<Byte>)
    ensures CrcValid(cfg, Wire(cfg, counter, payload))
  {
    WireFields(cfg, counter, payload);
  }

  // ----- Byte by byte -----

  /** Every field of a frame by position, the low byte first. */
  lemma WireBytes(cfg: Config, counter: Word32, payload: seq<Byte>)
    ensures var w := Wire(cfg, counter, payload);
            && |w| == 10 + |payload| && w[10..] == payload
            && cfg.dataID == (w[0] as int) + 0x100 * (w[1] as int)
            && cfg.sourceID == (w[2] as int) + 0x100 * (w[3] as int)
            && counter == (w[4] as int) + 0x100 * (w[5] as int) + 0x1_0000 * (w[6] as int) + 0x100_0000 * (w[7] as int)
            && (w[8] as int) + 0x100 * (w[9] as int) == Crc.Checksum(Crc.INIT_WORD, w[..8] + w[10..])
  {
    var w := Wire(cfg, counter, payload);
    WireFields(cfg, counter, payload);
    assert w[..2] == Put16(cfg.dataID) && w[2..4] == Put16(cfg.sourceID) && w[4..8] == Put32(counter);
    hide Wire, Covered, Crc.Checksum;
    CounterBytes(w);
  }

  lemma CounterBytes(data: seq<Byte>)
    requires |data| >= 10
    ensures CounterOf(data) == (data[4] as int) + 0x100 * (data[5] as int) + 0x1_0000 * (data[6] as int)
                               + 0x100_0000 * (data[7] as int)
  {
    var b := data[4..8];
    assert b[..2][0] == data[4] && b[..2][1] == data[5] && b[2..][0] == data[6] && b[2..][1] == data[7];
  }

  /** What the receiver checks: the two bytes after the counter against the checksum of its own identifiers, the
      counter and the payload, and the counter against the one before. */
  lemma CheckedBytes(cfg: Config, data: seq<Byte>)
    ensures CrcValid(cfg, data) <==>
              && |data| >= 10
              && (data[8] as int) + 0x100 * (data[9] as int)
                 == Crc.Checksum(Crc.INIT_WORD, [cfg.dataID % 0x100, cfg.dataID / 0x100, cfg.sourceID % 0x100,
                                                 cfg.sourceID / 0x100] + data[4..8] + data[10..])
    ensures forall c: Word32 :: Next(c) == if c == 0xFFFF_FFFF then 0 else c + 1
  {
    if |data| >= 10 {
      var ids: seq<Byte> := [cfg.dataID % 0x100, cfg.dataID / 0x100, cfg.sourceID % 0x100, cfg.sourceID / 0x100];
      assert Covered(cfg, CounterOf(data), data[10..]) == ids + data[4..8] + data[10..] by {
        hide Get32, Put32;
        Get32Put32(data[4..8]);
      }
    }
  }

  // ----- The two ends -----

  class Protector {
    const cfg: Config
    var counter: Word32

    constructor (cfg: Config)
      ensures this.cfg == cfg && counter == 0
    {
      this.cfg := cfg;
      counter := 0;
    }

    method Protect(payload: seq<Byte>) returns (out: seq<Byte>)
      modifies this
      ensures out == Wire(cfg, old(counter), payload)
      ensures counter == Next(old(counter))
    {
      var used := counter;
      counter := (counter + 1) % COUNTER_RANGE;
      var hdr := BuildHeader(cfg, used, payload);
      out := hdr + payload;
    }
  }

  datatype ReceiverState = ReceiverState(first: bool, last: Word32)

  const FRESH := ReceiverState(true, 0)

  class Receiver {
    const cfg: Config
    var first: bool
    var last: Word32

    constructor (cfg: Config)
      ensures this.cfg == cfg && State() == FRESH
    {
      this.cfg := cfg;
      first, last := true, 0;
    }

    function State(): ReceiverState
      reads this
    {
      ReceiverState(first, last)
    }

    method Unwrap(data: seq<Byte>) returns (r: Outcome)
      modifies this
      ensures r == Judge(cfg, old(State()), data)
      ensures State() == After(cfg, old(State()), data)
    {
      if |data| < HEADER_SIZE {
        return Rejected(HeaderTooShort, 0);
      }
      var counter := Get32(data[4..8]);
      var receivedCRC := Get16(data[8..10]);
      var payload := data[HEADER_SIZE..];
      var hdr := BuildHeader(cfg, counter, payload);
      var expectedCRC := Get16(hdr[8..10]);
      assert hdr[8..10] == Put16(CrcOf(cfg, counter, payload));
      Put16Get16(CrcOf(cfg, counter, payload));
      if receivedCRC != expectedCRC {
        return Rejected(CRCMismatch, counter);
      }
      if !first && counter != (last + 1) % COUNTER_RANGE {
        last := counter;
        return Rejected(SequenceGap, counter);
      }
      first := false;
      last := counter;
      return Accepted(payload);
    }
  }

  function Judge(cfg: Config, s: ReceiverState, data: seq<Byte>): Outcome {
    if |data| < HEADER_SIZE then Rejected(HeaderTooShort, 0)
    else if !CrcValid(cfg, data) then Rejected(CRCMismatch, CounterOf(data))
    else if !s.first && CounterOf(data) != Next(s.last) then Rejected(SequenceGap, CounterOf(data))
    else Accepted(data[HEADER_SIZE..])
  }

  function After(cfg: Config, s: ReceiverState, data: seq<Byte>): ReceiverState {
    if CrcValid(cfg, data) then ReceiverState(false, CounterOf(data)) else s
  }

  // ----- Error detection -----

  /** The two frames differ, and only inside a burst of the bytes the CRC covers. */
  ghost predicate DamagedByBurst(sent: seq<Byte>, got: seq<Byte>, start: nat) {
    && |sent| == |got| >= HEADER_SIZE
    && sent[8..10] == got[8..10]
    && Crc.BurstOf16(sent[..8] + sent[10..], got[..8] + got[10..], start)
  }

  /** Such damage includes any change to one byte of the counter or the payload. */
  lemma OneByteIsABurst(w: seq<Byte>, i: nat, b: Byte)
    requires |w| >= HEADER_SIZE && 4 <= i < |w| && i != 8 && i != 9 && b != w[i]
    ensures DamagedByBurst(w, w[i := b], 8 * (if i < 8 then i else i - 2))
  {
    var got, at: nat := w[i := b], if i < 8 then i else i - 2;
    var sent, damaged := w[..8] + w[10..], got[..8] + got[10..];
    assert damaged == sent[at := b] && damaged[at] != sent[at];
    Crc.TwoBytesAreABurst(sent, damaged, at);
  }

  /** A frame damaged by a burst of at most sixteen bits of the covered stream, wherever it starts (the CRC slot is
      skipped), is refused as a CRC mismatch exactly when the burst reaches the counter or the payload. */
  lemma BurstRefused(cfg: Config, s: ReceiverState, counter: Word32, payload: seq<Byte>, data: seq<Byte>, start: nat)
    requires DamagedByBurst(Wire(cfg, counter, payload), data, start)
    ensures Judge(cfg, s, data) == Rejected(CRCMismatch, CounterOf(data))
        <==> data[4..] != Wire(cfg, counter, payload)[4..]
    ensures data[4..] != Wire(cfg, counter, payload)[4..] ==> After(cfg, s, data) == s
    ensures data[4..] == Wire(cfg, counter, payload)[4..] ==>
              Judge(cfg, s, data) == Judge(cfg, s, Wire(cfg, counter, payload))
  {
    var w := Wire(cfg, counter, payload);
    if data[4..] == w[4..] {
      WireIsValid(cfg, counter, payload);
      IdentifierBytesUnread(cfg, s, data, w);
    } else {
      RestoredRefused(cfg, counter, payload, data, start);
      IdentifierBytesUnread(cfg, s, data, w[..4] + data[4..]);
      assert CounterOf(w[..4] + data[4..]) == CounterOf(data) by { assert (w[..4] + data[4..])[4..8] == data[4..8]; }
    }
  }

  /** Frames that differ from byte 4 on, but not in the CRC slot, differ there in the covered bytes. */
  lemma CoveredDiffers(w: seq<Byte>, data: seq<Byte>)
    requires |w| == |data| >= HEADER_SIZE && w[8..10] == data[8..10] && w[4..] != data[4..]
    ensures (w[..8] + w[10..])[..4] + (data[..8] + data[10..])[4..] != w[..8] + w[10..]
  {
    var sent, mixed := w[..8] + w[10..], (w[..8] + w[10..])[..4] + (data[..8] + data[10..])[4..];
    assert sent[4..8] == w[4..8] && sent[8..] == w[10..] && mixed[4..8] == data[4..8] && mixed[8..] == data[10..];
    assert w[4..] == w[4..8] + w[8..10] + w[10..] && data[4..] == data[4..8] + data[8..10] + data[10..];
  }

  /** The frame with bytes 0-3 restored fails the CRC check. */
  lemma RestoredRefused(cfg: Config, counter: Word32, payload: seq<Byte>, data: seq<Byte>, start: nat)
    requires DamagedByBurst(Wire(cfg, counter, payload), data, start) && data[4..] != Wire(cfg, counter, payload)[4..]
    ensures !CrcValid(cfg, Wire(cfg, counter, payload)[..4] + data[4..])
  {
    hide Wire, Put16, Put32, Get16, Get32, Crc.Checksum, Crc.BurstOf16;
    var w := Wire(cfg, counter, payload);
    var restored := w[..4] + data[4..];
    var sent, got := w[..8] + w[10..], data[..8] + data[10..];
    var mixed := sent[..4] + got[4..];
    WireFields(cfg, counter, payload);
    CoveredOfRestored(cfg, counter, payload, data);
    CoveredDiffers(w, data);
    PartOfBurst(sent, got, start);
    Crc.BurstChangesChecksum(Crc.INIT_WORD, sent, mixed, start);
    assert Get16(restored[8..10]) == CrcOf(cfg, counter, payload);
    assert CrcOf(cfg, CounterOf(restored), restored[HEADER_SIZE..]) != CrcOf(cfg, counter, payload);
  }

  /** What the receiver recomputes over the restored frame. */
  lemma CoveredOfRestored(cfg: Config, counter: Word32, payload: seq<Byte>, data: seq<Byte>)
    requires |data| == |Wire(cfg, counter, payload)|
    ensures var w := Wire(cfg, counter, payload);
            var restored := w[..4] + data[4..];
            && |restored| == |data| >= HEADER_SIZE && restored[8..10] == data[8..10]
            && Covered(cfg, CounterOf(restored), restored[HEADER_SIZE..])
               == (w[..8] + w[10..])[..4] + (data[..8] + data[10..])[4..]
  {
    var w := Wire(cfg, counter, payload);
    var restored := w[..4] + data[4..];
    assert w[..4] == Put16(cfg.dataID) + Put16(cfg.sourceID);
    assert restored[4..8] == data[4..8] && restored[HEADER_SIZE..] == data[10..];
    Get32Put32(data[4..8]);
    assert (data[..8] + data[10..])[4..] == data[4..8] + data[10..];
  }

  /** What is left of a burst when the first four bytes are restored is still one. */
  lemma PartOfBurst(m: seq<Byte>, m': seq<Byte>, start: nat)
    requires Crc.BurstOf16(m, m', start) && |m| >= 8 && m[..4] + m'[4..] != m
    ensures Crc.BurstOf16(m, m[..4] + m'[4..], start)
  {
    var n := m[..4] + m'[4..];
    forall k | 0 <= k < 8 * |m| && Crc.MessageBits(m)[k] != Crc.MessageBits(n)[k]
      ensures start <= k < start + 16
    {
      var i, j := k / 8, k % 8;
      Crc.BitsAt(m, i, j);
      Crc.BitsAt(n, i, j);
      Crc.BitsAt(m', i, j);
    }
  }

  /** The identifier bytes, for which the CRC alone stands in. */
  function Identifiers(cfg: Config): seq<Byte> { Put16(cfg.dataID) + Put16(cfg.sourceID) }

  function IdentifierCrc(cfg: Config): Word16 { Crc.Checksum(Crc.INIT_WORD, Identifiers(cfg)) }

  /** A frame from a protector with other identifiers is refused exactly when the identifier bytes alone have another
      checksum, whatever it carries; otherwise it is taken as if it were from a protector of this configuration. */
  lemma ForeignFrameIff(cfg: Config, theirs: Config, s: ReceiverState, counter: Word32, payload: seq<Byte>)
    ensures Judge(cfg, s, Wire(theirs, counter, payload)) == Rejected(CRCMismatch, counter)
        <==> IdentifierCrc(cfg) != IdentifierCrc(theirs)
    ensures After(cfg, s, Wire(theirs, counter, payload))
         == if IdentifierCrc(cfg) != IdentifierCrc(theirs) then s else ReceiverState(false, counter)
    ensures IdentifierCrc(cfg) == IdentifierCrc(theirs) ==>
              Judge(cfg, s, Wire(theirs, counter, payload)) == Judge(cfg, s, Wire(cfg, counter, payload))
  {
    hide Wire, Crc.Checksum, Put16, Get16;
    WireFields(theirs, counter, payload);
    WireFields(cfg, counter, payload);
    CrcFromIdentifiers(cfg, counter, payload);
    CrcFromIdentifiers(theirs, counter, payload);
    if CrcOf(cfg, counter, payload) == CrcOf(theirs, counter, payload) {
      Crc.ChecksumInjective(IdentifierCrc(cfg), IdentifierCrc(theirs), Put32(counter) + payload);
    }
  }

  lemma CrcFromIdentifiers(cfg: Config, counter: Word32, payload: seq<Byte>)
    ensures CrcOf(cfg, counter, payload) == Crc.Checksum(IdentifierCrc(cfg), Put32(counter) + payload)
  {
    assert Covered(cfg, counter, payload) == Identifiers(cfg) + (Put32(counter) + payload);
    Crc.ChecksumContinues(Crc.INIT_WORD, Identifiers(cfg), Put32(counter) + payload);
  }

  /** So a protector that differs in one identifier only is always told apart. */
  lemma ForeignIdentifierRefused(cfg: Config, theirs: Config, s: ReceiverState, counter: Word32, payload: seq<Byte>)
    requires cfg != theirs && (cfg.dataID == theirs.dataID || cfg.sourceID == theirs.sourceID)
    ensures Judge(cfg, s, Wire(theirs, counter, payload)) == Rejected(CRCMismatch, counter)
    ensures After(cfg, s, Wire(theirs, counter, payload)) == s
  {
    var ours, other := Identifiers(cfg), Identifiers(theirs);
    var at := if cfg.dataID != theirs.dataID then 0 else 2;
    assert ours[at] != other[at] || ours[at + 1] != other[at + 1] by {
      Put16Get16(cfg.dataID); Put16Get16(theirs.dataID);
      Put16Get16(cfg.sourceID); Put16Get16(theirs.sourceID);
    }
    Crc.TwoBytesAreABurst(ours, other, at);
    Crc.BurstChangesChecksum(Crc.INIT_WORD, ours, other, 8 * at);
    ForeignFrameIff(cfg, theirs, s, counter, payload);
  }

  /** One that differs in both may not be: whatever a protector of these other identifiers sends, a receiver takes for
      its own, because the identifier bytes differ by the polynomial. */
  lemma ForeignFramePasses(s: ReceiverState, counter: Word32, payload: seq<Byte>)
    ensures var cfg, theirs := Config(0, 0), Config(0x0100, 0x2110);
            Judge(cfg, s, Wire(theirs, counter, payload)) == Judge(cfg, s, Wire(cfg, counter, payload))
  {
    var cfg, theirs := Config(0, 0), Config(0x0100, 0x2110);
    IdentifiersCollide();
    ForeignFrameIff(cfg, theirs, s, counter, payload);
  }

  lemma BitsOfTwo(a: Byte, b: Byte)
    ensures Crc.MessageBits([a, b]) == Digits(a, 8) + Digits(b, 8)
  {
    hide Digits;
    var first, second := [a], [b];
    assert first + second == [a, b] && first[1..] == [] && second[1..] == [];
    Crc.BitsAppend(first, second);
  }

  lemma NibblesOfThePolynomial()
    ensures Pow2(4) == 16
    ensures Digits(0, 4) == [false, false, false, false]
    ensures Digits(1, 4) == [false, false, false, true]
    ensures Digits(2, 4) == [false, false, true, false]
  {
  }

  lemma BytesOfThePolynomial()
    ensures Digits(0, 8) == [false, false, false, false, false, false, false, false]
    ensures Digits(1, 8) == [false, false, false, false, false, false, false, true]
    ensures Digits(0x10, 8) == [false, false, false, true, false, false, false, false]
    ensures Digits(0x21, 8) == [false, false, true, false, false, false, false, true]
  {
    hide *;
    NibblesOfThePolynomial();
    DigitsConcat(0, 4, 0, 4);
    DigitsConcat(0, 4, 1, 4);
    DigitsConcat(1, 4, 0, 4);
    DigitsConcat(2, 4, 1, 4);
  }

  /** The zero identifiers and the two whose bytes are the polynomial, as bits. */
  lemma TwoIdentifiers()
    ensures Crc.MessageBits(Identifiers(Config(0, 0))) == seq(32, i => false)
    ensures Crc.MessageBits(Identifiers(Config(0x0100, 0x2110))) == seq(15, i => false) + [true] + Crc.POLY
  {
    BytesOfThePolynomial();
    hide Crc.MessageBits, Digits;
    assert Identifiers(Config(0, 0)) == [0, 0] + [0, 0];
    assert Identifiers(Config(0x0100, 0x2110)) == [0, 1] + [0x10, 0x21];
    Crc.BitsAppend([0, 0], [0, 0]);
    Crc.BitsAppend([0, 1], [0x10, 0x21]);
    BitsOfTwo(0, 0);
    BitsOfTwo(0, 1);
    BitsOfTwo(0x10, 0x21);
  }

  lemma IdentifiersCollide()
    ensures IdentifierCrc(Config(0, 0)) == IdentifierCrc(Config(0x0100, 0x2110))
  {
    var front, m := seq(15, i => false), seq(17, i => false);
    var c, n := Crc.Coefficients(Crc.INIT_WORD), Crc.PolyChange(m);
    assert n == [true] + Crc.POLY;
    assert front + n == front + [true] + Crc.POLY;
    assert front + m == seq(32, i => false);
    Crc.SeventeenBitsCollide(Crc.Feed(c, front), m);
    hide Crc.Checksum, Crc.Feed, Identifiers, Crc.MessageBits, Crc.PolyChange;
    Crc.FeedAppend(c, front, m);
    Crc.FeedAppend(c, front, n);
    TwoIdentifiers();
    Crc.ChecksumFeeds(Crc.INIT_WORD, Identifiers(Config(0, 0)));
    Crc.ChecksumFeeds(Crc.INIT_WORD, Identifiers(Config(0x0100, 0x2110)));
    Crc.Pow16();
    DigitsInjective(IdentifierCrc(Config(0, 0)), IdentifierCrc(Config(0x0100, 0x2110)), 16);
  }

  /** The parity of an acceptable frame from byte 4 on is a constant of the configuration. */
  lemma ValidParity(cfg: Config, data: seq<Byte>)
    requires CrcValid(cfg, data)
    ensures Crc.Odd(Crc.MessageBits(data[4..]))
         == (Crc.Odd(Crc.Coefficients(Crc.INIT_WORD)) != Crc.Odd(Crc.MessageBits(Identifiers(cfg))))
  {
    var counter, slot, payload := data[4..8], data[8..10], data[10..];
    var crc := Get16(slot);
    assert data[4..] == counter + slot + payload;
    assert crc == CrcOf(cfg, CounterOf(data), payload);
    assert Covered(cfg, CounterOf(data), payload) == Identifiers(cfg) + counter + payload by {
      hide Put16, Get32, Put32;
      Get32Put32(counter);
    }
    assert crc == Crc.Checksum(Crc.INIT_WORD, Identifiers(cfg) + counter + payload);
    hide *;
    Crc.ChecksumFeeds(Crc.INIT_WORD, Identifiers(cfg) + counter + payload);
    Crc.FeedParity(Crc.Coefficients(Crc.INIT_WORD), Crc.MessageBits(Identifiers(cfg) + counter + payload));
    SlotParity(slot);
    ParityAppend(Identifiers(cfg), counter);
    ParityAppend(Identifiers(cfg) + counter, payload);
    ParityAppend(counter, slot);
    ParityAppend(counter + slot, payload);
  }

  lemma ParityAppend(a: seq<Byte>, b: seq<Byte>)
    ensures Crc.Odd(Crc.MessageBits(a + b)) == (Crc.Odd(Crc.MessageBits(a)) != Crc.Odd(Crc.MessageBits(b)))
  {
    Crc.BitsAppend(a, b);
    Crc.OddAppend(Crc.MessageBits(a), Crc.MessageBits(b));
  }

  /** The CRC is stored with its low byte first, which is no matter to its parity. */
  lemma SlotParity(slot: seq<Byte>)
    requires |slot| == 2
    ensures Crc.Odd(Crc.Coefficients(Get16(slot))) == Crc.Odd(Crc.MessageBits(slot))
  {
    var low, high := [slot[0]], [slot[1]];
    assert slot == low + high;
    assert Crc.MessageBits(low) == Digits(slot[0], 8) && Crc.MessageBits(high) == Digits(slot[1], 8);
    Crc.Pow16();
    DigitsConcat(slot[1], 8, slot[0], 8);
    hide *;
    assert Crc.Coefficients(Get16(slot)) == Crc.MessageBits(high) + Crc.MessageBits(low);
    ParityAppend(low, high);
    Crc.OddAppend(Crc.MessageBits(high), Crc.MessageBits(low));
  }

  /** A frame in which an odd number of bits is wrong from byte 4 on, the CRC slot included, is refused, wherever they
      are. */
  lemma OddDamageRefused(cfg: Config, s: ReceiverState, counter: Word32, payload: seq<Byte>, data: seq<Byte>)
    requires |data| == |Wire(cfg, counter, payload)|
    requires Crc.DifferInOdd(Crc.MessageBits(Wire(cfg, counter, payload)[4..]), Crc.MessageBits(data[4..]))
    ensures Judge(cfg, s, data) == Rejected(CRCMismatch, CounterOf(data)) && After(cfg, s, data) == s
  {
    hide CrcValid, Wire;
    var w := Wire(cfg, counter, payload);
    WireIsValid(cfg, counter, payload);
    ValidParity(cfg, w);
    Crc.DifferInOddIff(Crc.MessageBits(w[4..]), Crc.MessageBits(data[4..]));
    if CrcValid(cfg, data) {
      ValidParity(cfg, data);
    }
  }

  /** Any damage confined to the CRC slot is refused. */
  lemma DamagedCrcRefused(cfg: Config, s: ReceiverState, counter: Word32, payload: seq<Byte>, slot: seq<Byte>)
    requires |slot| == 2 && slot != Put16(CrcOf(cfg, counter, payload))
    ensures var w := Wire(cfg, counter, payload);
            Judge(cfg, s, w[..8] + slot + w[10..]) == Rejected(CRCMismatch, counter)
  {
    var w := Wire(cfg, counter, payload);
    var data := w[..8] + slot + w[10..];
    WireFields(cfg, counter, payload);
    assert data[4..8] == w[4..8] && data[8..10] == slot && data[HEADER_SIZE..] == w[HEADER_SIZE..];
    Get16Injective(slot, w[8..10]);
  }

  /** What the code does not protect: bytes 0-3 of a received frame are never read. */
  lemma IdentifierBytesUnread(cfg: Config, s: ReceiverState, data: seq<Byte>, data': seq<Byte>)
    requires |data| == |data'| && (|data| >= 4 ==> data[4..] == data'[4..])
    ensures Judge(cfg, s, data) == Judge(cfg, s, data') && After(cfg, s, data) == After(cfg, s, data')
  {
    if |data| >= HEADER_SIZE {
      assert data[4..8] == data[4..][..4] == data'[4..8];
      assert data[8..10] == data[4..][4..6] == data'[8..10];
      assert data[HEADER_SIZE..] == data[4..][6..] == data'[HEADER_SIZE..];
    }
  }

  // ----- Whole runs -----

  function StateAfter(cfg: Config, frames: seq<seq<Byte>>): ReceiverState {
    if frames == [] then FRESH
    else After(cfg, StateAfter(cfg, frames[..|frames| - 1]), frames[|frames| - 1])
  }

  /** The outcome of frame k of a stream fed to a fresh receiver. */
  function OutcomeAt(cfg: Config, frames: seq<seq<Byte>>, k: nat): Outcome
    requires k < |frames|
  {
    Judge(cfg, StateAfter(cfg, frames[..k]), frames[k])
  }

  /** All that the sequence check sees of a frame. */
  datatype Mark = Invalid | Valid(counter: Word32)

  function MarkOf(cfg: Config, data: seq<Byte>): Mark {
    if CrcValid(cfg, data) then Valid(CounterOf(data)) else Invalid
  }

  function Marks(cfg: Config, frames: seq<seq<Byte>>): (marks: seq<Mark>)
    ensures |marks| == |frames|
  {
    seq(|frames|, k requires 0 <= k < |frames| => MarkOf(cfg, frames[k]))
  }

  /** Frame i is the last CRC-valid one before position k. */
  ghost predicate LastValid(marks: seq<Mark>, i: nat, k: nat)
    requires k <= |marks|
  {
    i < k && marks[i].Valid? && forall j :: i < j < k ==> marks[j].Invalid?
  }

  /** Frame k continues the stream: nothing valid came before it, or it carries the successor of the counter
      of the last CRC-valid frame. */
  ghost predicate Consecutive(marks: seq<Mark>, k: nat)
    requires k < |marks| && marks[k].Valid?
  {
    forall i: nat :: LastValid(marks, i, k) ==> marks[k].counter == Next(marks[i].counter)
  }

  ghost predicate Remembers(s: ReceiverState, marks: seq<Mark>, k: nat)
    requires k <= |marks|
  {
    && (s.first ==> forall j :: 0 <= j < k ==> marks[j].Invalid?)
    && (!s.first ==> exists i: nat :: LastValid(marks, i, k) && s.last == marks[i].counter)
  }

  lemma RememberStep(s: ReceiverState, marks: seq<Mark>, k: nat)
    requires k < |marks| && Remembers(s, marks, k)
    ensures Remembers(if marks[k].Valid? then ReceiverState(false, marks[k].counter) else s, marks, k + 1)
  {
  }

  /** The receiver remembers exactly the last CRC-valid frame, accepted or not. */
  lemma {:induction false} StateIsLastValid(cfg: Config, frames: seq<seq<Byte>>, k: nat)
    requires k <= |frames|
    ensures Remembers(StateAfter(cfg, frames[..k]), Marks(cfg, frames), k)
    decreases k
  {
    if k == 0 {
    } else {
      StateIsLastValid(cfg, frames, k - 1);
      assert frames[..k][..k - 1] == frames[..k - 1];
      RememberStep(StateAfter(cfg, frames[..k - 1]), Marks(cfg, frames), k - 1);
      assert Marks(cfg, frames)[k - 1] == MarkOf(cfg, frames[k - 1]);
    }
  }

  lemma ConsecutiveByState(s: ReceiverState, marks: seq<Mark>, k: nat)
    requires k < |marks| && marks[k].Valid? && Remembers(s, marks, k)
    ensures Consecutive(marks, k) <==> s.first || marks[k].counter == Next(s.last)
  {
  }

  /** The outcome of every frame, in terms of the stream alone. */
  lemma RunCharacterised(cfg: Config, frames: seq<seq<Byte>>, k: nat)
    requires k < |frames|
    ensures OutcomeAt(cfg, frames, k)
         == if |frames[k]| < HEADER_SIZE then Rejected(HeaderTooShort, 0)
            else if !CrcValid(cfg, frames[k]) then Rejected(CRCMismatch, CounterOf(frames[k]))
            else if Consecutive(Marks(cfg, frames), k) then Accepted(frames[k][HEADER_SIZE..])
            else Rejected(SequenceGap, CounterOf(frames[k]))
  {
    StateIsLastValid(cfg, frames, k);
    if CrcValid(cfg, frames[k]) {
      ConsecutiveByState(StateAfter(cfg, frames[..k]), Marks(cfg, frames), k);
    }
  }

  /** Frames of one protector, numbered from zero: number n carries counter n mod 2^32. */
  function Emitted(cfg: Config, payloads: seq<seq<Byte>>, n: nat): seq<Byte>
    requires n < |payloads|
  {
    Wire(cfg, n % COUNTER_RANGE, payloads[n])
  }

  ghost predicate Delivery(payloads: seq<seq<Byte>>, numbers: seq<nat>) {
    && (forall k :: 0 <= k < |numbers| ==> numbers[k] < |payloads|)
    && (forall k :: 0 < k < |numbers| ==> numbers[k - 1] < numbers[k])
  }

  ghost function Delivered(cfg: Config, payloads: seq<seq<Byte>>, numbers: seq<nat>): (frames: seq<seq<Byte>>)
    requires Delivery(payloads, numbers)
    ensures |frames| == |numbers|
  {
    seq(|numbers|, k requires 0 <= k < |numbers| => Emitted(cfg, payloads, numbers[k]))
  }

  /** A protector called for one payload after another numbers its frames from its counter; a fresh one emits the
      frames that the theorems below are about. */
  method ProtectAll(p: Protector, payloads: seq<seq<Byte>>) returns (frames: seq<seq<Byte>>)
    modifies p
    ensures |frames| == |payloads|
    ensures forall n :: 0 <= n < |frames| ==>
              frames[n] == Wire(p.cfg, (old(p.counter) + n) % COUNTER_RANGE, payloads[n])
    ensures old(p.counter) == 0 ==> forall n: nat :: n < |frames| ==> frames[n] == Emitted(p.cfg, payloads, n)
    ensures p.counter == (old(p.counter) + |payloads|) % COUNTER_RANGE
  {
    hide Wire;
    frames := [];
    for k := 0 to |payloads|
      invariant |frames| == k && p.counter == (old(p.counter) + k) % COUNTER_RANGE
      invariant forall n :: 0 <= n < k ==> frames[n] == Wire(p.cfg, (old(p.counter) + n) % COUNTER_RANGE, payloads[n])
    {
      var frame := p.Protect(payloads[k]);
      frames := frames + [frame];
    }
  }

  /** How many frames were lost between deliveries k - 1 and k. */
  ghost function Lost(numbers: seq<nat>, k: nat): int
    requires k < |numbers|
  {
    if k == 0 then 0 else (numbers[k] as int) - (numbers[k - 1] as int) - 1
  }

  /** Over a lossy but ordered channel a frame is accepted, with its own payload, exactly when the loss just
      before it is a multiple of 2^32; otherwise it is reported as a gap. */
  lemma LossyDelivery(cfg: Config, payloads: seq<seq<Byte>>, numbers: seq<nat>, k: nat)
    requires Delivery(payloads, numbers) && k < |numbers|
    ensures OutcomeAt(cfg, Delivered(cfg, payloads, numbers), k)
         == if Lost(numbers, k) % COUNTER_RANGE == 0 then Accepted(payloads[numbers[k]])
            else Rejected(SequenceGap, numbers[k] % COUNTER_RANGE)
  {
    var frames := Delivered(cfg, payloads, numbers);
    assert frames[k] == Wire(cfg, numbers[k] % COUNTER_RANGE, payloads[numbers[k]]);
    if k > 0 {
      DeliveredState(cfg, payloads, numbers, k);
    }
    LossyStep(cfg, StateAfter(cfg, frames[..k]), numbers, k, payloads[numbers[k]]);
  }

  lemma LossyStep(cfg: Config, s: ReceiverState, numbers: seq<nat>, k: nat, payload: seq<Byte>)
    requires k < |numbers| && (k > 0 ==> numbers[k - 1] < numbers[k])
    requires s == if k == 0 then FRESH else ReceiverState(false, numbers[k - 1] % COUNTER_RANGE)
    ensures Judge(cfg, s, Wire(cfg, numbers[k] % COUNTER_RANGE, payload))
         == if Lost(numbers, k) % COUNTER_RANGE == 0 then Accepted(payload)
            else Rejected(SequenceGap, numbers[k] % COUNTER_RANGE)
  {
    hide Judge, Wire;
    JudgeWire(cfg, s, numbers[k] % COUNTER_RANGE, payload);
    ShortLossIsSeen(0);
    if k > 0 {
      CounterFollows(numbers[k], numbers[k - 1]);
    }
  }

  lemma CounterFollows(n: nat, before: nat)
    requires before < n
    ensures n % COUNTER_RANGE == Next(before % COUNTER_RANGE) <==> (n - before - 1) % COUNTER_RANGE == 0
  {
    NextMod(before, COUNTER_RANGE);
    SameResidue(n, before + 1);
  }

  lemma SameResidue(a: nat, b: nat)
    requires a >= b
    ensures a % COUNTER_RANGE == b % COUNTER_RANGE <==> (a - b) % COUNTER_RANGE == 0
  {
  }

  /** An intact frame is judged by its counter alone. */
  lemma JudgeWire(cfg: Config, s: ReceiverState, counter: Word32, payload: seq<Byte>)
    ensures Judge(cfg, s, Wire(cfg, counter, payload))
         == if s.first || counter == Next(s.last) then Accepted(payload) else Rejected(SequenceGap, counter)
  {
    hide Wire;
    WireFields(cfg, counter, payload);
  }

  lemma DeliveredState(cfg: Config, payloads: seq<seq<Byte>>, numbers: seq<nat>, k: nat)
    requires Delivery(payloads, numbers) && 0 < k < |numbers|
    ensures StateAfter(cfg, Delivered(cfg, payloads, numbers)[..k])
        == ReceiverState(false, numbers[k - 1] % COUNTER_RANGE)
  {
    var frames := Delivered(cfg, payloads, numbers);
    WireFields(cfg, numbers[k - 1] % COUNTER_RANGE, payloads[numbers[k - 1]]);
    assert frames[..k][..k - 1] == frames[..k - 1];
  }

  /** In-order delivery without loss: every payload comes out, across the wrap of the counter. */
  lemma LosslessDelivery(cfg: Config, payloads: seq<seq<Byte>>, k: nat)
    requires k < |payloads|
    ensures OutcomeAt(cfg, Delivered(cfg, payloads, Everything(payloads)), k) == Accepted(payloads[k])
  {
    var numbers := Everything(payloads);
    assert numbers[k] == k && Lost(numbers, k) == 0;
    ShortLossIsSeen(Lost(numbers, k));
    LossyDelivery(cfg, payloads, numbers, k);
  }

  ghost function Everything(payloads: seq<seq<Byte>>): (numbers: seq<nat>)
    ensures Delivery(payloads, numbers)
    ensures |numbers| == |payloads| && forall k :: 0 <= k < |numbers| ==> numbers[k] == k
  {
    seq(|payloads|, i requires 0 <= i < |payloads| => i)
  }

  predicate IsGap(r: Outcome) { r.Rejected? && r.kind == SequenceGap }

  function Outcomes(cfg: Config, frames: seq<seq<Byte>>): (outs: seq<Outcome>)
    ensures |outs| == |frames|
    ensures forall k :: 0 <= k < |outs| ==> outs[k] == OutcomeAt(cfg, frames, k)
  {
    seq(|frames|, k requires 0 <= k < |frames| => OutcomeAt(cfg, frames, k))
  }

  function GapErrors(outs: seq<Outcome>): nat {
    if outs == [] then 0
    else GapErrors(outs[..|outs| - 1]) + (if IsGap(outs[|outs| - 1]) then 1 else 0)
  }

  ghost function LostRuns(numbers: seq<nat>, k: nat): nat
    requires k <= |numbers|
  {
    if k == 0 then 0 else LostRuns(numbers, k - 1) + (if Lost(numbers, k - 1) > 0 then 1 else 0)
  }

  lemma {:induction false} CountsAgree(outs: seq<Outcome>, numbers: seq<nat>, k: nat)
    requires k <= |outs| == |numbers|
    requires forall i :: 0 <= i < k ==> (IsGap(outs[i]) <==> Lost(numbers, i) > 0)
    ensures GapErrors(outs[..k]) == LostRuns(numbers, k)
    decreases k
  {
    if k == 0 {
    } else {
      CountsAgree(outs, numbers, k - 1);
      assert outs[..k][..k - 1] == outs[..k - 1];
    }
  }

  lemma ShortLossIsSeen(lost: int)
    requires 0 <= lost < COUNTER_RANGE
    ensures lost % COUNTER_RANGE == 0 <==> lost == 0
  {
  }

  lemma ShortLossIsAGap(cfg: Config, payloads: seq<seq<Byte>>, numbers: seq<nat>, k: nat)
    requires Delivery(payloads, numbers) && k < |numbers| && Lost(numbers, k) < COUNTER_RANGE
    ensures IsGap(OutcomeAt(cfg, Delivered(cfg, payloads, numbers), k)) <==> Lost(numbers, k) > 0
  {
    LossyDelivery(cfg, payloads, numbers, k);
    ShortLossIsSeen(Lost(numbers, k));
  }

  /** Each interior run of lost frames shorter than 2^32 raises exactly one gap error. */
  lemma GapErrorsCountLostRuns(cfg: Config, payloads: seq<seq<Byte>>, numbers: seq<nat>)
    requires Delivery(payloads, numbers)
    requires forall i :: 0 <= i < |numbers| ==> Lost(numbers, i) < COUNTER_RANGE
    ensures GapErrors(Outcomes(cfg, Delivered(cfg, payloads, numbers))) == LostRuns(numbers, |numbers|)
  {
    var frames := Delivered(cfg, payloads, numbers);
    GapsAreLosses(cfg, payloads, numbers, frames, Outcomes(cfg, frames), |numbers|);
    CountsAgree(Outcomes(cfg, frames), numbers, |numbers|);
    WholePrefix(Outcomes(cfg, frames));
  }

  lemma WholePrefix(outs: seq<Outcome>)
    ensures outs[..|outs|] == outs
  {
  }

  lemma {:induction false} GapsAreLosses(cfg: Config, payloads: seq<seq<Byte>>, numbers: seq<nat>,
                                         frames: seq<seq<Byte>>, outs: seq<Outcome>, n: nat)
    requires Delivery(payloads, numbers) && frames == Delivered(cfg, payloads, numbers)
    requires |outs| == |frames| && forall k :: 0 <= k < |outs| ==> outs[k] == OutcomeAt(cfg, frames, k)
    requires forall i :: 0 <= i < |numbers| ==> Lost(numbers, i) < COUNTER_RANGE
    requires n <= |numbers|
    ensures forall k :: 0 <= k < n ==> (IsGap(outs[k]) <==> Lost(numbers, k) > 0)
    decreases n
  {
    if n == 0 {
    } else {
      GapsAreLosses(cfg, payloads, numbers, frames, outs, n - 1);
      ShortLossIsAGap(cfg, payloads, numbers, n - 1);
    }
  }
}
