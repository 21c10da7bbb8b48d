/** What a BAM receiver emits, told from the stream alone: no session, no buffer, only which frames arrived when. */
module BamTrace {
  import opened Bits
  import opened Can
  import opened J1939

  predicate IsBam(f: Frame, s: Byte) { Read(f).Bam? && Read(f).src == s }

  predicate IsDt(f: Frame, s: Byte, q: int) { Read(f).Dt? && Read(f).src == s && Read(f).number == q }

  /** Position b holds the latest valid BAM of source s. */
  ghost predicate Latest(ins: seq<Frame>, s: Byte, b: nat) {
    b < |ins| && IsBam(ins[b], s) && forall k :: b < k < |ins| ==> !IsBam(ins[k], s)
  }

  /** Packet q of source s has arrived after position b. */
  ghost predicate Arrived(ins: seq<Frame>, b: nat, s: Byte, q: int) {
    exists k :: b < k < |ins| && IsDt(ins[k], s, q)
  }

  /** Position k holds the first packet q of source s after position b. */
  ghost predicate First(ins: seq<Frame>, b: nat, s: Byte, q: int, k: nat) {
    b < k < |ins| && IsDt(ins[k], s, q) && forall j :: b < j < k ==> !IsDt(ins[j], s, q)
  }

  ghost predicate AllArrived(ins: seq<Frame>, b: nat, s: Byte, n: nat) {
    forall q :: 1 <= q <= n ==> Arrived(ins, b, s, q)
  }

  /** Each byte comes from the first packet with its number. */
  ghost predicate FromFirst(ins: seq<Frame>, b: nat, s: Byte, data: seq<Byte>) {
    forall j: nat, k: nat :: j < |data| && First(ins, b, s, j / 7 + 1, k) ==> data[j] == Read(ins[k]).data[1 + j % 7]
  }

  /** The last frame of a stream completes the transfer announced at position b, and emits e. */
  ghost predicate Emits(pgns: seq<Word32>, ins: seq<Frame>, b: nat, e: JFrame) {
    ins != [] &&
    var before, m := ins[..|ins| - 1], Read(ins[|ins| - 1]);
    && m.Dt? && Latest(before, m.src, b)
    && var bam := Read(ins[b]);
    && 1 <= m.number <= Packets(bam.total) && !Arrived(before, b, m.src, m.number)
    && AllArrived(ins, b, m.src, Packets(bam.total))
    && Matches(bam.pgn, pgns)
    && e == JFrame(bam.priority, bam.pgn, m.src, BROADCAST, e.data)
    && |e.data| == bam.total && FromFirst(ins, b, m.src, e.data)
  }

  // ----- The sessions follow the trace -----

  /** A session records exactly what has arrived since its BAM. */
  ghost predicate Records(ins: seq<Frame>, s: Byte, b: nat, p: Partial) {
    && Latest(ins, s, b)
    && var bam := Read(ins[b]);
    && p.total == bam.total == |p.buf| && p.priority == bam.priority && p.pgn == bam.pgn
    && |p.seen| == Packets(bam.total)
    && (forall i :: 0 <= i < |p.seen| ==> p.seen[i] == Arrived(ins, b, s, i + 1))
    && FromFirst(ins, b, s, p.buf)
  }

  ghost predicate Settled(ins: seq<Frame>, s: Byte) {
    forall b: nat :: Latest(ins, s, b) ==> AllArrived(ins, b, s, Packets(Read(ins[b]).total))
  }

  lemma FirstExists(ins: seq<Frame>, b: nat, s: Byte, q: int) returns (k: nat)
    requires Arrived(ins, b, s, q)
    ensures First(ins, b, s, q, k)
  {
    k := b + 1;
    while !IsDt(ins[k], s, q)
      invariant b < k < |ins|
      invariant forall j :: b < j < k ==> !IsDt(ins[j], s, q)
      invariant exists j :: k <= j < |ins| && IsDt(ins[j], s, q)
      decreases |ins| - k
    {
      k := k + 1;
    }
  }

  lemma LatestIsUnique(ins: seq<Frame>, s: Byte, b: nat, c: nat)
    requires Latest(ins, s, b) && Latest(ins, s, c)
    ensures b == c
  {
  }

  // One more frame.

  lemma LatestNext(ins: seq<Frame>, f: Frame, s: Byte, b: nat)
    ensures Latest(ins + [f], s, b) <==> if IsBam(f, s) then b == |ins| else Latest(ins, s, b)
  {
    var next := ins + [f];
    if Latest(next, s, b) && !IsBam(f, s) {
      forall k | b < k < |ins| ensures !IsBam(ins[k], s) {
        assert next[k] == ins[k];
      }
    }
    assert IsBam(f, s) ==> next[|ins|] == f;
  }

  lemma ArrivedNext(ins: seq<Frame>, f: Frame, b: nat, s: Byte, q: int)
    requires b < |ins|
    ensures Arrived(ins + [f], b, s, q) <==> Arrived(ins, b, s, q) || IsDt(f, s, q)
  {
    var next := ins + [f];
    if Arrived(ins, b, s, q) {
      var k :| b < k < |ins| && IsDt(ins[k], s, q);
      assert next[k] == ins[k];
    }
    assert next[|ins|] == f;
  }

  lemma FirstNext(ins: seq<Frame>, f: Frame, b: nat, s: Byte, q: int, k: nat)
    requires b < |ins|
    ensures First(ins + [f], b, s, q, k)
        <==> First(ins, b, s, q, k) || (k == |ins| && IsDt(f, s, q) && !Arrived(ins, b, s, q))
  {
    var next := ins + [f];
    assert forall j :: b < j < |ins| ==> next[j] == ins[j];
    assert next[|ins|] == f;
  }

  /** A frame that brings source s nothing new changes nothing for it. */
  lemma NothingNew(ins: seq<Frame>, f: Frame, s: Byte, b: nat, p: Partial)
    requires Records(ins, s, b, p) && !IsBam(f, s)
    requires forall q :: 1 <= q <= |p.seen| && IsDt(f, s, q) ==> Arrived(ins, b, s, q)
    ensures Records(ins + [f], s, b, p)
  {
    LatestNext(ins, f, s, b);
    forall i | 0 <= i < |p.seen| ensures p.seen[i] == Arrived(ins + [f], b, s, i + 1) {
      ArrivedNext(ins, f, b, s, i + 1);
    }
    forall j: nat, k: nat | j < |p.buf| && First(ins + [f], b, s, j / 7 + 1, k)
      ensures p.buf[j] == Read((ins + [f])[k]).data[1 + j % 7]
    {
      FirstNext(ins, f, b, s, j / 7 + 1, k);
      assert 1 <= j / 7 + 1 <= |p.seen|;
    }
  }

  lemma SettledNext(ins: seq<Frame>, f: Frame, s: Byte)
    requires Settled(ins, s) && !IsBam(f, s)
    ensures Settled(ins + [f], s)
  {
    forall b: nat | Latest(ins + [f], s, b) ensures AllArrived(ins + [f], b, s, Packets(Read((ins + [f])[b]).total)) {
      LatestNext(ins, f, s, b);
      forall q | 1 <= q <= Packets(Read(ins[b]).total) ensures Arrived(ins + [f], b, s, q) {
        ArrivedNext(ins, f, b, s, q);
      }
    }
  }

  lemma NewBam(ins: seq<Frame>, f: Frame, s: Byte)
    requires IsBam(f, s)
    ensures var m := Read(f); Records(ins + [f], s, |ins|, Opened(m.total, m.priority, m.pgn))
  {
  }

  lemma NewPacket(ins: seq<Frame>, f: Frame, s: Byte, b: nat, p: Partial)
    requires Records(ins, s, b, p) && Read(f).Dt? && Read(f).src == s && p.Wanted(Read(f).number)
    ensures Records(ins + [f], s, b, p.Applied(Read(f).number, Read(f).data))
  {
    var q0, data, next := Read(f).number, Read(f).data, ins + [f];
    var p' := p.Applied(q0, data);
    LatestNext(ins, f, s, b);
    forall i | 0 <= i < |p.seen| ensures p'.seen[i] == Arrived(next, b, s, i + 1) {
      ArrivedNext(ins, f, b, s, i + 1);
    }
    forall j: nat, k: nat | j < |p'.buf| && First(next, b, s, j / 7 + 1, k)
      ensures p'.buf[j] == Read(next[k]).data[1 + j % 7]
    {
      FirstNext(ins, f, b, s, j / 7 + 1, k);
      if k == |ins| {
        assert j / 7 == q0 - 1;
      } else {
        assert Arrived(ins, b, s, j / 7 + 1);
      }
    }
  }

  lemma FullIsAllArrived(ins: seq<Frame>, s: Byte, b: nat, p: Partial)
    requires Records(ins, s, b, p)
    ensures Count(p.seen) == |p.seen| <==> AllArrived(ins, b, s, |p.seen|)
  {
    CountFull(p.seen);
    if AllArrived(ins, b, s, |p.seen|) {
      forall i | 0 <= i < |p.seen| ensures p.seen[i] {
        assert Arrived(ins, b, s, i + 1);
      }
    }
    if Count(p.seen) == |p.seen| {
      forall q | 1 <= q <= |p.seen| ensures Arrived(ins, b, s, q) {
        assert p.seen[q - 1];
      }
    }
  }

  ghost predicate Tracks(ins: seq<Frame>, s: Byte, sessions: Sessions, b: nat) {
    if s in sessions then Records(ins, s, b, sessions[s]) else Settled(ins, s)
  }

  lemma StepTracks(pgns: seq<Word32>, ins: seq<Frame>, f: Frame, s: Byte, sessions: Sessions, b: nat) returns (b': nat)
    requires AllValid(sessions) && Tracks(ins, s, sessions, b)
    ensures Tracks(ins + [f], s, Step(pgns, sessions, f).0, b')
  {
    hide Records, Settled, Partial.Applied, Opened, Count, Packets;
    b' := b;
    var m := Read(f);
    if IsBam(f, s) {
      b' := |ins|;
      NewBam(ins, f, s);
    } else if s !in sessions {
      SettledNext(ins, f, s);
    } else if m.Dt? && m.src == s && sessions[s].Wanted(m.number) {
      PacketTracks(pgns, ins, f, s, sessions, b);
    } else {
      NotWanted(ins, f, s, b, sessions[s]);
      NothingNew(ins, f, s, b, sessions[s]);
    }
  }

  lemma NotWanted(ins: seq<Frame>, f: Frame, s: Byte, b: nat, p: Partial)
    requires Records(ins, s, b, p) && !(Read(f).Dt? && Read(f).src == s && p.Wanted(Read(f).number))
    ensures forall q :: 1 <= q <= |p.seen| && IsDt(f, s, q) ==> Arrived(ins, b, s, q)
  {
  }

  lemma PacketTracks(pgns: seq<Word32>, ins: seq<Frame>, f: Frame, s: Byte, sessions: Sessions, b: nat)
    requires AllValid(sessions) && s in sessions && Records(ins, s, b, sessions[s])
    requires Read(f).Dt? && Read(f).src == s && sessions[s].Wanted(Read(f).number)
    ensures Tracks(ins + [f], s, Step(pgns, sessions, f).0, b)
  {
    hide Partial.Applied, Count, Packets;
    var p := sessions[s].Applied(Read(f).number, Read(f).data);
    AppliedValid(sessions[s], Read(f).number, Read(f).data);
    NewPacket(ins, f, s, b, sessions[s]);
    if p.received == |p.seen| {
      FullIsAllArrived(ins + [f], s, b, p);
      forall c: nat | Latest(ins + [f], s, c) ensures c == b {
        LatestIsUnique(ins + [f], s, b, c);
      }
    }
  }

  /** After every stream, each source has a session exactly recording its latest BAM, or has nothing to wait for. */
  lemma {:induction false} Tracked(pgns: seq<Word32>, ins: seq<Frame>, s: Byte) returns (b: nat)
    ensures Tracks(ins, s, After(pgns, ins), b)
    decreases |ins|
  {
    if ins == [] {
      b := 0;
    } else {
      hide Tracks, Step;
      var before, f := ins[..|ins| - 1], ins[|ins| - 1];
      b := Tracked(pgns, before, s);
      assert before + [f] == ins;
      b := StepTracks(pgns, before, f, s, After(pgns, before), b);
    }
  }

  // ----- Emission -----

  lemma CompletesEmits(pgns: seq<Word32>, before: seq<Frame>, f: Frame, b: nat, p: Partial)
    requires Read(f).Dt? && p.Valid() && Records(before, Read(f).src, b, p) && p.Wanted(Read(f).number)
    ensures var e := Assembled(p.Applied(Read(f).number, Read(f).data), Read(f).src);
            p.received + 1 == |p.seen| && Matches(p.pgn, pgns) ==> Emits(pgns, before + [f], b, e)
  {
    hide Packets;
    var m, ins := Read(f), before + [f];
    var p' := p.Applied(m.number, m.data);
    assert ins[..|ins| - 1] == before && ins[|ins| - 1] == f && ins[b] == before[b];
    AppliedValid(p, m.number, m.data);
    NewPacket(before, f, m.src, b, p);
    FullIsAllArrived(ins, m.src, b, p');
    assert p.seen[m.number - 1] == Arrived(before, b, m.src, m.number - 1 + 1);
  }

  lemma EmitsIsUnique(pgns: seq<Word32>, ins: seq<Frame>, b: nat, e: JFrame, c: nat, d: JFrame)
    requires Emits(pgns, ins, b, e) && Emits(pgns, ins, c, d)
    ensures b == c && e == d
  {
    var m := Read(ins[|ins| - 1]);
    LatestIsUnique(ins[..|ins| - 1], m.src, b, c);
    forall j: nat | j < |e.data| ensures e.data[j] == d.data[j] {
      var k := FirstExists(ins, b, m.src, j / 7 + 1);
    }
  }

  /** The last frame of a stream emits e exactly when it completes the latest BAM of its source: every packet has
      arrived since, its own for the first time; and then e carries the first of each. */
  lemma EmissionIff(pgns: seq<Word32>, ins: seq<Frame>, e: JFrame)
    requires ins != []
    ensures EmitsLast(pgns, ins) == [e] <==> exists b: nat :: Emits(pgns, ins, b, e)
    ensures |EmitsLast(pgns, ins)| <= 1
  {
    var before, f := ins[..|ins| - 1], ins[|ins| - 1];
    var m, sessions := Read(f), After(pgns, before);
    assert before + [f] == ins;
    if m.Dt? {
      var b := Tracked(pgns, before, m.src);
      EmissionStep(pgns, before, f, sessions, b, e);
    } else if exists b: nat :: Emits(pgns, ins, b, e) {
      assert false;
    }
  }

  lemma EmissionCase(pgns: seq<Word32>, ins: seq<Frame>) returns (b: nat)
    requires ins != []
    ensures EmitsLast(pgns, ins) != [] ==> Emits(pgns, ins, b, EmitsLast(pgns, ins)[0])
  {
    b := 0;
    if EmitsLast(pgns, ins) != [] {
      var e := EmitsLast(pgns, ins)[0];
      EmissionIff(pgns, ins, e);
      assert EmitsLast(pgns, ins) == [e];
      b :| Emits(pgns, ins, b, e);
    }
  }

  lemma EmissionStep(pgns: seq<Word32>, before: seq<Frame>, f: Frame, sessions: Sessions, b: nat, e: JFrame)
    requires AllValid(sessions) && Read(f).Dt? && Tracks(before, Read(f).src, sessions, b)
    ensures Step(pgns, sessions, f).1 == [e] <==> exists c: nat :: Emits(pgns, before + [f], c, e)
  {
    var m, ins := Read(f), before + [f];
    assert ins[..|ins| - 1] == before && ins[|ins| - 1] == f;
    if m.src in sessions && sessions[m.src].Wanted(m.number) {
      var p := sessions[m.src];
      CompletesEmits(pgns, before, f, b, p);
      AppliedValid(p, m.number, m.data);
      if c: nat :| Emits(pgns, ins, c, e) {
        EmitsNeedsFull(pgns, before, f, b, p, c, e);
        EmitsIsUnique(pgns, ins, b, Assembled(p.Applied(m.number, m.data), m.src), c, e);
      }
    } else {
      forall c: nat ensures !Emits(pgns, ins, c, e) {
        NoSessionNoEmission(pgns, before, f, sessions, b, c, e);
      }
    }
  }

  lemma EmitsNeedsFull(pgns: seq<Word32>, before: seq<Frame>, f: Frame, b: nat, p: Partial, c: nat, e: JFrame)
    requires Read(f).Dt? && p.Valid() && Records(before, Read(f).src, b, p) && p.Wanted(Read(f).number)
    requires Emits(pgns, before + [f], c, e)
    ensures p.received + 1 == |p.seen| && Matches(p.pgn, pgns)
  {
    hide Packets;
    var m, ins := Read(f), before + [f];
    assert ins[..|ins| - 1] == before && ins[|ins| - 1] == f && ins[c] == before[c];
    LatestIsUnique(before, m.src, b, c);
    AppliedValid(p, m.number, m.data);
    NewPacket(before, f, m.src, b, p);
    FullIsAllArrived(ins, m.src, b, p.Applied(m.number, m.data));
  }

  lemma NoSessionNoEmission(pgns: seq<Word32>, before: seq<Frame>, f: Frame, sessions: Sessions, b: nat, c: nat,
      e: JFrame)
    requires Read(f).Dt? && Tracks(before, Read(f).src, sessions, b)
    requires !(Read(f).src in sessions && sessions[Read(f).src].Wanted(Read(f).number))
    ensures !Emits(pgns, before + [f], c, e)
  {
  }

  lemma EmitsMeans(pgns: seq<Word32>, ins: seq<Frame>, b: nat, e: JFrame)
    requires Emits(pgns, ins, b, e)
    ensures b < |ins| - 1 && Read(ins[b]).Bam?
    ensures var bam, m := Read(ins[b]), Read(ins[|ins| - 1]);
            && m.Dt? && m.src == bam.src && 1 <= m.number <= Packets(bam.total)
            && !Arrived(ins[..|ins| - 1], b, m.src, m.number) && AllArrived(ins, b, m.src, Packets(bam.total))
  {
    assert ins[..|ins| - 1][b] == ins[b];
  }

  /** Each BAM is emitted at most once. */
  lemma OncePerBam(pgns: seq<Word32>, ins: seq<Frame>, i: nat, j: nat, b: nat, e: JFrame, d: JFrame)
    requires i < j < |ins|
    requires Emits(pgns, ins[..i + 1], b, e)
    ensures !Emits(pgns, ins[..j + 1], b, d)
  {
    if Emits(pgns, ins[..j + 1], b, d) {
      hide *;
      var early, late := ins[..i + 1], ins[..j + 1];
      EmitsMeans(pgns, early, b, e);
      EmitsMeans(pgns, late, b, d);
      assert early[b] == late[b] && late[..|late| - 1] == early + late[i + 1..|late| - 1];
      var m := Read(late[|late| - 1]);
      ArrivedStays(early, late[i + 1..|late| - 1], b, m.src, m.number, Packets(Read(early[b]).total));
      assert false;
    }
  }

  lemma ArrivedStays(ins: seq<Frame>, more: seq<Frame>, b: nat, s: Byte, q: int, n: nat)
    requires AllArrived(ins, b, s, n) && 1 <= q <= n
    ensures Arrived(ins + more, b, s, q)
  {
    assert Arrived(ins, b, s, q);
    var k :| b < k < |ins| && IsDt(ins[k], s, q);
    assert (ins + more)[k] == ins[k];
  }
}
