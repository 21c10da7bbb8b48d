/** J1939 identifiers (j1939/pgn.go) and the BAM transport protocol (j1939/tp.go): the messages on the bus, the
    reassembly step, and the goroutine that runs it with its sessions updated in place. */
module J1939 {
  import opened Bits
  import opened Can

  const BROADCAST: Byte := 0xFF
  const TP_CM: Word32 := 0xEC00
  const TP_DT: Word32 := 0xEB00
  const BAM_CONTROL: Byte := 0x20
  const TP_MAX_BYTES := 1785
  const TP_PER_PACKET := 7

  // ----- Identifiers: their fields lie in disjoint bits, so OR is addition -----

  datatype Header = Header(priority: Byte, pgn: Word32, src: Byte)

  function DecodeID(id: Word32): Header {
    var pf, ps, dp := (id as int) / 0x1_0000 % 0x100, (id as int) / 0x100 % 0x100, (id as int) / 0x100_0000 % 2;
    Header((id as int) / 0x400_0000 % 8, dp * 0x1_0000 + pf * 0x100 + (if pf < 240 then 0 else ps), (id as int) % 0x100)
  }

  predicate PeerToPeer(pgn: Word32) { (pgn as int) / 0x100 % 0x100 < 240 }

  function EncodeID(priority: Byte, pgn: Word32, src: Byte): Word32 {
    var pf, ps, dp := (pgn as int) / 0x100 % 0x100, (pgn as int) % 0x100, (pgn as int) / 0x1_0000 % 2;
    (priority as int) % 8 * 0x400_0000 + dp * 0x100_0000 + pf * 0x1_0000 + (if pf >= 240 then ps * 0x100 else 0) + src
  }

  /** The identifier of a broadcast peer-to-peer PGN: the destination goes where EncodeID left zeros. */
  function BroadcastID(priority: Byte, pgn: Word32, src: Byte): Word32
    requires PeerToPeer(pgn)
  {
    (EncodeID(priority, pgn, src) as int) + (BROADCAST as int) * 0x100
  }

  lemma FieldsOf(id: int, pr: int, dp: int, pf: int, ps: int, src: int)
    requires 0 <= pr < 8 && 0 <= dp < 2 && 0 <= pf < 0x100 && 0 <= ps < 0x100 && 0 <= src < 0x100
    requires id == pr * 0x400_0000 + dp * 0x100_0000 + pf * 0x1_0000 + ps * 0x100 + src
    ensures id / 0x400_0000 % 8 == pr && id / 0x100_0000 % 2 == dp && id / 0x1_0000 % 0x100 == pf
    ensures id / 0x100 % 0x100 == ps && id % 0x100 == src
  {
    assert id / 0x100 == pr * 0x4_0000 + dp * 0x1_0000 + pf * 0x100 + ps;
    assert id / 0x1_0000 == pr * 0x400 + dp * 0x100 + pf;
    assert id / 0x100_0000 == pr * 4 + dp;
  }

  /** Decoding an encoded identifier gives every field back exactly when the priority fits three bits, the PGN has
      no bit above its data page, and a peer-to-peer PGN has an empty low byte. */
  lemma IDRoundTrip(priority: Byte, pgn: Word32, src: Byte)
    ensures DecodeID(EncodeID(priority, pgn, src)) == Header(priority, pgn, src)
       <==> priority < 8 && pgn < 0x2_0000 && (PeerToPeer(pgn) ==> pgn % 0x100 == 0)
  {
    var pf, ps, dp := (pgn as int) / 0x100 % 0x100, (pgn as int) % 0x100, (pgn as int) / 0x1_0000 % 2;
    FieldsOf(EncodeID(priority, pgn, src), (priority as int) % 8, dp, pf, if pf >= 240 then ps else 0, src);
    assert pgn < 0x2_0000 <==> pgn == dp * 0x1_0000 + pf * 0x100 + ps;
  }

  lemma BroadcastIDFields(priority: Byte, pgn: Word32, src: Byte)
    requires pgn == TP_CM || pgn == TP_DT
    ensures DecodeID(BroadcastID(priority, pgn, src)) == Header((priority as int) % 8, pgn, src)
  {
    FieldsOf(BroadcastID(priority, pgn, src), (priority as int) % 8, 0, (pgn as int) / 0x100 % 0x100, 0xFF, src);
  }

  // ----- Messages -----

  datatype JFrame = JFrame(priority: Byte, pgn: Word32, src: Byte, dst: Byte, data: seq<Byte>)

  function Packets(total: nat): nat { (total + TP_PER_PACKET - 1) / TP_PER_PACKET }

  datatype Message =
    | Bam(src: Byte, total: nat, priority: Byte, pgn: Word32)
    | Dt(src: Byte, number: Byte, data: seq<Byte>)
    | Other

  function PgnFromBytes(b0: Byte, b1: Byte, b2: Byte): Word32 {
    (b0 as int) + (b1 as int) * 0x100 + (b2 as int) * 0x1_0000
  }

  function PgnToBytes(pgn: Word32): seq<Byte> {
    [(pgn as int) % 0x100, (pgn as int) / 0x100 % 0x100, (pgn as int) / 0x1_0000 % 0x100]
  }

  /** What the transport protocol reads in a frame. */
  function Read(f: Frame): (m: Message)
    ensures m.Bam? ==> 9 <= m.total <= TP_MAX_BYTES
    ensures m.Dt? ==> |m.data| >= 8
  {
    var h := DecodeID(f.id);
    if !f.ext || |f.data| < 8 then Other
    else if h.pgn == TP_CM then
      var total := (f.data[1] as int) + (f.data[2] as int) * 0x100;
      if f.data[0] == BAM_CONTROL && 9 <= total <= TP_MAX_BYTES && f.data[3] == Packets(total)
      then Bam(h.src, total, h.priority, PgnFromBytes(f.data[5], f.data[6], f.data[7])) else Other
    else if h.pgn == TP_DT then Dt(h.src, f.data[0], f.data)
    else Other
  }

  predicate Matches(pgn: Word32, pgns: seq<Word32>) { pgns == [] || pgn in pgns }

  method MatchesPGNs(pgn: Word32, filter: seq<Word32>) returns (ok: bool)
    ensures ok == Matches(pgn, filter)
    ensures ok <==> |filter| == 0 || exists i :: 0 <= i < |filter| && filter[i] == pgn
  {
    if |filter| == 0 {
      return true;
    }
    for i := 0 to |filter|
      invariant pgn !in filter[..i]
    {
      if filter[i] == pgn {
        return true;
      }
    }
    return false;
  }

  // ----- One session, as a value -----

  function Count(seen: seq<bool>): nat {
    if seen == [] then 0 else Count(seen[..|seen| - 1]) + (if seen[|seen| - 1] then 1 else 0)
  }

  datatype Partial = Partial(total: nat, priority: Byte, pgn: Word32, buf: seq<Byte>, received: nat, seen: seq<bool>) {
    /** received counts the entries of seen. */
    predicate Valid() {
      && 9 <= total <= TP_MAX_BYTES && |buf| == total && |seen| == Packets(total)
      && received == Count(seen) < |seen|
    }

    predicate Wanted(number: Byte) { 1 <= number <= |seen| && !seen[number - 1] }

    /** The packet's seven bytes go to their place, those past the end are dropped. */
    function Applied(number: Byte, data: seq<Byte>): Partial
      requires Wanted(number) && |data| >= 8 && |buf| == total
    {
      this.(buf := seq(total, j requires 0 <= j < total => if j / 7 == number - 1 then data[1 + j % 7] else buf[j]),
            received := received + 1,
            seen := seen[number - 1 := true])
    }
  }

  function Opened(total: nat, priority: Byte, pgn: Word32): Partial {
    Partial(total, priority, pgn, seq(total, _ => 0), 0, seq(Packets(total), _ => false))
  }

  lemma {:induction false} CountUpdate(seen: seq<bool>, k: nat)
    requires k < |seen| && !seen[k]
    ensures Count(seen[k := true]) == Count(seen) + 1
  {
    var n := |seen| - 1;
    if k == n {
      assert seen[k := true][..n] == seen[..n];
    } else {
      CountUpdate(seen[..n], k);
      assert seen[k := true][..n] == seen[..n][k := true];
    }
  }

  lemma {:induction false} CountFull(seen: seq<bool>)
    ensures Count(seen) <= |seen|
    ensures Count(seen) == |seen| <==> forall k :: 0 <= k < |seen| ==> seen[k]
  {
    if seen == [] {
    } else {
      CountFull(seen[..|seen| - 1]);
    }
  }

  lemma {:induction false} CountNone(n: nat)
    ensures Count(seq(n, _ => false)) == 0
  {
    if n == 0 {
    } else {
      CountNone(n - 1);
      assert seq(n, _ => false)[..n - 1] == seq(n - 1, _ => false);
    }
  }

  // ----- One step -----

  type Sessions = map<Byte, Partial>

  ghost predicate AllValid(sessions: Sessions) { forall s :: s in sessions ==> sessions[s].Valid() }

  function Assembled(p: Partial, src: Byte): JFrame { JFrame(p.priority, p.pgn, src, BROADCAST, p.buf) }

  /** What one frame does to the sessions, and what it emits. */
  function Step(pgns: seq<Word32>, sessions: Sessions, f: Frame): (Sessions, seq<JFrame>)
    requires AllValid(sessions)
  {
    match Read(f)
    case Other => (sessions, [])
    case Bam(src, total, priority, pgn) => (sessions[src := Opened(total, priority, pgn)], [])
    case Dt(src, number, data) => TakeDt(pgns, sessions, src, number, data)
  }

  function TakeDt(pgns: seq<Word32>, sessions: Sessions, src: Byte, number: Byte, data: seq<Byte>)
    : (Sessions, seq<JFrame>)
    requires AllValid(sessions) && |data| >= 8
  {
    if src !in sessions || !sessions[src].Wanted(number) then (sessions, [])
    else
      var p := sessions[src].Applied(number, data);
      if p.received < |p.seen| then (sessions[src := p], [])
      else (sessions - {src}, if Matches(p.pgn, pgns) then [Assembled(p, src)] else [])
  }

  lemma WantedDt(pgns: seq<Word32>, sessions: Sessions, src: Byte, number: Byte, data: seq<Byte>)
    requires AllValid(sessions) && |data| >= 8 && src in sessions && sessions[src].Wanted(number)
    ensures var p := sessions[src].Applied(number, data);
            TakeDt(pgns, sessions, src, number, data)
            == if p.received < |p.seen| then (sessions[src := p], [])
               else (sessions - {src}, if Matches(p.pgn, pgns) then [Assembled(p, src)] else [])
  {
  }

  lemma StepValid(pgns: seq<Word32>, sessions: Sessions, f: Frame)
    requires AllValid(sessions)
    ensures AllValid(Step(pgns, sessions, f).0)
  {
    match Read(f) {
      case Other =>
      case Bam(_, total, priority, pgn) => OpenedValid(total, priority, pgn);
      case Dt(src, number, data) =>
        if src in sessions && sessions[src].Wanted(number) {
          AppliedValid(sessions[src], number, data);
        }
    }
  }

  lemma OpenedValid(total: nat, priority: Byte, pgn: Word32)
    requires 9 <= total <= TP_MAX_BYTES
    ensures Opened(total, priority, pgn).Valid()
  {
    CountNone(Packets(total));
  }

  lemma AppliedValid(p: Partial, number: Byte, data: seq<Byte>)
    requires p.Valid() && p.Wanted(number) && |data| >= 8
    ensures var p' := p.Applied(number, data); p'.received == Count(p'.seen) <= |p'.seen| == |p.seen|
    ensures p.Applied(number, data).received < |p.seen| ==> p.Applied(number, data).Valid()
  {
    CountUpdate(p.seen, number - 1);
    CountFull(p.seen);
  }

  // ----- A whole stream -----

  ghost function After(pgns: seq<Word32>, ins: seq<Frame>): (r: Sessions)
    ensures AllValid(r)
  {
    if ins == [] then map[]
    else
      var before := After(pgns, ins[..|ins| - 1]);
      StepValid(pgns, before, ins[|ins| - 1]);
      Step(pgns, before, ins[|ins| - 1]).0
  }

  /** What the last frame of a stream emits. */
  ghost function EmitsLast(pgns: seq<Word32>, ins: seq<Frame>): seq<JFrame>
    requires ins != []
  {
    Step(pgns, After(pgns, ins[..|ins| - 1]), ins[|ins| - 1]).1
  }

  ghost function Emissions(pgns: seq<Word32>, ins: seq<Frame>): seq<JFrame> {
    if ins == [] then [] else Emissions(pgns, ins[..|ins| - 1]) + EmitsLast(pgns, ins)
  }

  // ----- The goroutine -----

  class BamSession {
    const totalSize: nat
    const numPackets: nat
    const pgn: Word32
    const priority: Byte
    const src: Byte
    const buf: array<Byte>
    var received: nat
    const seen: array<bool>

    constructor (totalSize: nat, numPackets: nat, pgn: Word32, priority: Byte, src: Byte)
      requires 9 <= totalSize <= TP_MAX_BYTES && numPackets == Packets(totalSize)
      ensures fresh(buf) && fresh(seen)
      ensures this.src == src && Value() == Opened(totalSize, priority, pgn) && Sized()
    {
      this.totalSize, this.numPackets, this.pgn, this.priority, this.src := totalSize, numPackets, pgn, priority, src;
      buf := new Byte[totalSize](_ => 0);
      received := 0;
      seen := new bool[numPackets](_ => false);
      new;
      assert buf[..] == seq(totalSize, _ => 0);
      assert seen[..] == seq(numPackets, _ => false);
    }

    predicate Sized() {
      && 9 <= totalSize <= TP_MAX_BYTES && numPackets == Packets(totalSize)
      && buf.Length == totalSize && seen.Length == numPackets
    }

    ghost function Value(): Partial
      reads this, buf, seen
    {
      Partial(totalSize, priority, pgn, buf[..], received, seen[..])
    }

    method Apply(number: Byte, data: seq<Byte>)
      requires Sized() && Value().Wanted(number) && |data| >= 8
      modifies this`received, buf, seen
      ensures Value() == old(Value()).Applied(number, data)
    {
      seen[number - 1] := true;
      var offset := (number - 1) * TP_PER_PACKET;
      for i := 1 to TP_PER_PACKET + 1
        invariant received == old(received) && seen[..] == old(seen[..])[number - 1 := true]
        invariant forall j :: 0 <= j < totalSize ==>
                    buf[j] == if j / 7 == number - 1 && j % 7 < i - 1 then data[1 + j % 7] else old(buf[j])
      {
        var dst := offset + i - 1;
        assert dst / 7 == number - 1 && dst % 7 == i - 1;
        assert forall j :: j / 7 == number - 1 && j % 7 == i - 1 <==> j == dst;
        if dst < totalSize {
          buf[dst] := data[i];
        }
      }
      received := received + 1;
      assert buf[..] == old(Value()).Applied(number, data).buf;
    }
  }

  class Reassembler {
    const pgns: seq<Word32>
    var sessions: map<Byte, BamSession>
    var out: seq<JFrame>
    ghost var view: Sessions
    /** The source each session object and array was made for. */
    ghost var owner: map<object, Byte>

    constructor (pgns: seq<Word32>)
      ensures this.pgns == pgns && Valid() && view == map[] && out == [] && owner == map[]
    {
      this.pgns := pgns;
      sessions, out, view, owner := map[], [], map[], map[];
    }

    static ghost predicate Owned(owner: map<object, Byte>, s: Byte, session: BamSession) {
      && session in owner && session.buf in owner && session.seen in owner
      && owner[session] == s && owner[session.buf] == s && owner[session.seen] == s
      && session.src == s && session.Sized()
    }

    static ghost predicate Shows(session: BamSession, p: Partial)
      reads session, session.buf, session.seen
    {
      session.Value() == p && p.Valid()
    }

    /** The view gives the sessions by value; no two sessions share anything, for each object has one owner. */
    ghost predicate Valid()
      reads this, owner.Keys
    {
      && this !in owner
      && sessions.Keys == view.Keys
      && (forall s :: s in sessions ==> Owned(owner, s, sessions[s]))
      && (forall s :: s in sessions ==> Shows(sessions[s], view[s]))
    }

    /** One turn of the loop. */
    method Handle(f: Frame)
      requires Valid()
      modifies this, owner.Keys
      ensures Valid() && fresh(owner.Keys - old(owner).Keys)
      ensures var after := Step(pgns, old(view), f); view == after.0 && out == old(out) + after.1
    {
      hide Valid, TakeDt;
      if !f.ext {
        return;
      }
      var id := DecodeID(f.id);
      if id.pgn == TP_CM {
        if |f.data| < 8 || f.data[0] != BAM_CONTROL {
          return;
        }
        var totalSize: nat := (f.data[1] as int) + (f.data[2] as int) * 0x100;
        var numPackets: nat := f.data[3];
        if totalSize < 9 || totalSize > TP_MAX_BYTES || numPackets == 0 || numPackets != Packets(totalSize) {
          return;
        }
        var targetPGN := PgnFromBytes(f.data[5], f.data[6], f.data[7]);
        OnBam(id, totalSize, numPackets, targetPGN);
      } else if id.pgn == TP_DT {
        if |f.data| < 8 {
          return;
        }
        OnDt(id.src, f.data);
      }
    }

    /** A valid BAM replaces any stale session of its source. */
    method OnBam(id: Header, totalSize: nat, numPackets: nat, pgn: Word32)
      requires Valid()
      requires 9 <= totalSize <= TP_MAX_BYTES && numPackets == Packets(totalSize)
      modifies this
      ensures Valid() && fresh(owner.Keys - old(owner).Keys)
      ensures out == old(out) && view == old(view)[id.src := Opened(totalSize, id.priority, pgn)]
    {
      hide Opened, Valid;
      OpenedValid(totalSize, id.priority, pgn);
      var session := new BamSession(totalSize, numPackets, pgn, id.priority, id.src);
      Install(id.src, session);
    }

    method Install(src: Byte, session: BamSession)
      requires Valid() && session.src == src && session.Sized() && session.Value().Valid()
      requires {session, session.buf, session.seen} !! owner.Keys && this !in {session, session.buf, session.seen}
      modifies this`sessions, this`view, this`owner
      ensures Valid() && owner.Keys == old(owner).Keys + {session, session.buf, session.seen}
      ensures view == old(view)[src := session.Value()]
    {
      hide Owned, Count, Packets, Partial.Valid, BamSession.Value;
      sessions := sessions[src := session];
      owner := owner[session := src][session.buf := src][session.seen := src];
      view := view[src := session.Value()];
      forall t | t in sessions ensures Owned(owner, t, sessions[t]) {
        if t == src {
          OwnedNow(old(owner), src, session);
        } else {
          OwnedStill(old(owner), t, sessions[t], src, session);
        }
      }
    }

    static lemma OwnedNow(owner: map<object, Byte>, src: Byte, session: BamSession)
      requires session.src == src && session.Sized()
      ensures Owned(owner[session := src][session.buf := src][session.seen := src], src, session)
    {
    }

    static lemma OwnedStill(owner: map<object, Byte>, t: Byte, other: BamSession, src: Byte, session: BamSession)
      requires Owned(owner, t, other) && {session, session.buf, session.seen} !! owner.Keys
      ensures Owned(owner[session := src][session.buf := src][session.seen := src], t, other)
    {
    }

    lemma Held(src: Byte)
      requires Valid() && src in sessions
      ensures AllValid(view) && sessions[src].Value() == view[src] && sessions[src].Sized() && sessions[src].src == src
      ensures {sessions[src], sessions[src].buf, sessions[src].seen} <= owner.Keys
    {
    }

    /** Applies one packet to the session of src; the others are not touched. */
    method ApplyTo(src: Byte, session: BamSession, number: Byte, data: seq<Byte>)
      requires Valid() && src in sessions && sessions[src] == session && view[src].Wanted(number) && |data| >= 8
      modifies this`view, session, session.buf, session.seen
      ensures view == old(view)[src := old(view)[src].Applied(number, data)]
      ensures forall t :: t in sessions && t != src ==> Shows(sessions[t], view[t])
      ensures session.received == view[src].received && session.numPackets == |view[src].seen|
      ensures session.Value() == view[src] && (view[src].Valid() ==> Shows(session, view[src]))
    {
      hide Count, Packets, Partial.Valid, Partial.Applied;
      Held(src);
      assert Owned(owner, src, session);
      session.Apply(number, data);
      view := view[src := session.Value()];
      forall t | t in sessions && t != src ensures Shows(sessions[t], view[t]) {
        assert Owned(owner, t, sessions[t]);
      }
    }

    method OnDt(src: Byte, data: seq<Byte>)
      requires Valid() && |data| >= 8
      modifies this, owner.Keys
      ensures Valid() && owner == old(owner)
      ensures var after := TakeDt(pgns, old(view), src, data[0], data); view == after.0 && out == old(out) + after.1
    {
      hide Owned, Shows, Count, Packets, Partial.Valid, Partial.Applied;
      if src !in sessions {
        return;
      }
      var session, number := sessions[src], data[0];
      Held(src);
      if number < 1 || number > session.numPackets {
        return;
      }
      if session.seen[number - 1] {
        return;
      }
      TakeWanted(src, session, number, data);
    }

    method TakeWanted(src: Byte, session: BamSession, number: Byte, data: seq<Byte>)
      requires Valid() && src in sessions && sessions[src] == session && view[src].Wanted(number) && |data| >= 8
      modifies this`sessions, this`view, this`out, session, session.buf, session.seen
      ensures Valid()
      ensures var after := TakeDt(pgns, old(view), src, number, data); view == after.0 && out == old(out) + after.1
    {
      hide Owned, Shows, Count, Packets, Partial.Valid, Partial.Applied, BamSession.Value, TakeDt, Partial.Wanted;
      Held(src);
      WantedDt(pgns, view, src, number, data);
      AppliedValid(view[src], number, data);
      ApplyTo(src, session, number, data);
      if session.received == session.numPackets {
        sessions := sessions - {src};
        view := view - {src};
        Emit(session);
      }
    }

    /** All packets received: the frame goes out if its PGN is subscribed. */
    method Emit(session: BamSession)
      modifies this`out
      ensures var p := session.Value();
              out == old(out) + if Matches(p.pgn, pgns) then [Assembled(p, session.src)] else []
    {
      var matches := MatchesPGNs(session.pgn, pgns);
      if matches {
        out := out + [JFrame(session.priority, session.pgn, session.src, BROADCAST, session.buf[..])];
      }
    }

    /** The loop, over the frames that arrive before it is stopped. */
    method Run(ins: seq<Frame>)
      requires Valid() && view == map[] && out == []
      modifies this, owner.Keys
      ensures Valid() && out == Emissions(pgns, ins) && view == After(pgns, ins)
    {
      assert ins[..0] == [];
      for i := 0 to |ins|
        invariant Valid() && fresh(owner.Keys - old(owner).Keys)
        invariant view == After(pgns, ins[..i]) && out == Emissions(pgns, ins[..i])
      {
        assert ins[..i + 1][..i] == ins[..i];
        Handle(ins[i]);
      }
      assert ins[..|ins|] == ins;
    }
  }
}
