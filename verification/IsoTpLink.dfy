/** A sender and a receiver joined by two FIFO queues, under every interleaving of their steps and no timeouts. */
module IsoTpLink {
  import opened Bits
  import opened Can
  import opened IsoTp
  import opened IsoTpReceiver

  datatype Sys = Sys(sender: Sender, receiver: Receiver, toRx: seq<Data>, toTx: seq<Data>)

  datatype Move = SenderPuts | ReceiverTakes | ReceiverPuts | SenderTakes

  /** A queue of bounded depth loses the newest frame when it is full; one without a depth loses nothing. */
  function Push<T>(q: seq<T>, d: T, depth: Option<nat>): seq<T> {
    if depth.Some? && |q| >= depth.value then q else q + [d]
  }

  function Start(payload: Data): Sys { Sys(Begin(payload), Idle, [], []) }

  predicate Enabled(cfg: Config, s: Sys, m: Move) {
    match m
    case SenderPuts => s.sender.Valid() && s.sender.Out().Some?
    case ReceiverTakes => s.receiver.Valid() && s.receiver.Wants() && s.toRx != []
    case ReceiverPuts => s.receiver.Out(cfg).Some?
    case SenderTakes => s.sender.Wants() && s.toTx != []
  }

  function Next(cfg: Config, depth: Option<nat>, s: Sys, m: Move): Sys
    requires Enabled(cfg, s, m)
  {
    match m
    case SenderPuts => s.(sender := s.sender.Sent(), toRx := Push(s.toRx, s.sender.Out().value, depth))
    case ReceiverTakes => s.(receiver := s.receiver.Got(cfg, s.toRx[0]), toRx := s.toRx[1..])
    case ReceiverPuts => s.(receiver := s.receiver.next, toTx := Push(s.toTx, Continue(cfg), depth))
    case SenderTakes => s.(sender := s.sender.Got(s.toTx[0]), toTx := s.toTx[1..])
  }

  /** The state after a run of moves, if every one of them could be made. */
  function Run(cfg: Config, depth: Option<nat>, payload: Data, moves: seq<Move>): Option<Sys> {
    if moves == [] then Some(Start(payload))
    else
      var s := Run(cfg, depth, payload, moves[..|moves| - 1]);
      if s.Some? && Enabled(cfg, s.value, moves[|moves| - 1]) then Some(Next(cfg, depth, s.value, moves[|moves| - 1]))
      else None
  }

  // ----- Every reachable state -----

  /** Where a transfer stands. FirstOut: the FF is in flight. Owed, Granted: k blocks are through and the next
      Flow Control is pending or in flight. Block: bc frames of block k are sent and cib of them taken. */
  datatype Phase = AtStart | FirstOut | Owed(k: nat) | Granted(k: nat) | Block(k: nat, bc: nat, cib: nat)

  function Sent(cfg: Config, p: Phase): nat {
    match p
    case AtStart => 0
    case FirstOut => 0
    case Owed(k) => k * (cfg.blockSize as nat)
    case Granted(k) => k * (cfg.blockSize as nat)
    case Block(k, bc, _) => k * (cfg.blockSize as nat) + bc
  }

  function Taken(cfg: Config, p: Phase): nat {
    if p.Block? then p.k * (cfg.blockSize as nat) + p.cib else Sent(cfg, p)
  }

  ghost predicate Fits(cfg: Config, payload: Data, p: Phase) {
    var n, b := CFCount(payload), cfg.blockSize as nat;
    && 8 <= |payload| <= MAX_PAYLOAD
    && (p.Owed? || p.Granted? || p.Block? ==> p.k * b < n && (b == 0 ==> p.k == 0))
    && (p.Block? ==>
          && p.cib <= p.bc && Sent(cfg, p) <= n
          && (b > 0 ==> p.bc <= b && (p.cib < b || Taken(cfg, p) == n)))
  }

  function SenderAt(cfg: Config, payload: Data, p: Phase): Sender {
    var e, b := Sent(cfg, p), cfg.blockSize as nat;
    var rest, sn := Rest(payload, e), (e + 1) % 0x100;
    match p
    case AtStart => Begin(payload)
    case FirstOut => AwaitFirst(Rest(payload, 0))
    case Owed(k) => if k == 0 then AwaitFirst(rest) else AwaitBlock(rest, sn)
    case Granted(k) => if k == 0 then AwaitFirst(rest) else AwaitBlock(rest, sn)
    case Block(_, bc, _) =>
      if b > 0 && bc == b then AwaitBlock(rest, sn)
      else Top(rest, sn, bc, Grant(CONTINUE, cfg.blockSize, cfg.stmin))
  }

  function ReceiverAt(cfg: Config, payload: Data, r: nat, cib: nat): Receiver {
    if r < CFCount(payload) then
      Collecting(|payload|, payload[..Min(6 + 7 * r, |payload|)], (r + 1) % 0x100,
                 if cfg.blockSize == 0 then 0 else cib)
    else Delivered(payload)
  }

  /** The one state a system can be in at a phase. */
  function Shape(cfg: Config, payload: Data, p: Phase): Sys
    requires Fits(cfg, payload, p)
  {
    var r := Taken(cfg, p);
    var receiver := ReceiverAt(cfg, payload, r, if p.Block? then p.cib else 0);
    Sys(SenderAt(cfg, payload, p),
        if p.AtStart? || p.FirstOut? then Idle else if p.Owed? then Replying(receiver) else receiver,
        if p.FirstOut? then [FirstFrame(payload)] else CFRange(payload, r + 1, Sent(cfg, p) + 1),
        if p.Granted? then [Continue(cfg)] else [])
  }

  /** How a phase advances. */
  function After(cfg: Config, payload: Data, p: Phase, m: Move): Phase {
    match (p, m)
    case (AtStart, _) => FirstOut
    case (FirstOut, _) => Owed(0)
    case (Owed(k), _) => Granted(k)
    case (Granted(k), _) => Block(k, 0, 0)
    case (Block(k, bc, cib), SenderPuts) => Block(k, bc + 1, cib)
    case (Block(k, bc, cib), _) =>
      if cfg.blockSize > 0 && cib + 1 == cfg.blockSize && Taken(cfg, p) + 1 < CFCount(payload) then Owed(k + 1)
      else Block(k, bc, cib + 1)
  }

  /** How many moves lead to a phase. */
  function Moves(cfg: Config, p: Phase): nat {
    match p
    case AtStart => 0
    case FirstOut => 1
    case Owed(k) => 2 + 2 * k + Sent(cfg, p) + Taken(cfg, p)
    case Granted(k) => 3 + 2 * k + Sent(cfg, p) + Taken(cfg, p)
    case Block(k, _, _) => 4 + 2 * k + Sent(cfg, p) + Taken(cfg, p)
  }

  /** Which moves a phase allows. */
  predicate Open(cfg: Config, payload: Data, p: Phase, m: Move) {
    match m
    case SenderPuts =>
      p.AtStart? || (p.Block? && Sent(cfg, p) < CFCount(payload) && (cfg.blockSize == 0 || p.bc < cfg.blockSize))
    case ReceiverTakes => p.FirstOut? || (p.Block? && Taken(cfg, p) < Sent(cfg, p))
    case ReceiverPuts => p.Owed?
    case SenderTakes => p.Granted?
  }

  /** The queue holds a block, or a whole transfer. */
  predicate Roomy(cfg: Config, payload: Data, depth: Option<nat>) {
    depth.Some? ==> depth.value > 0 && (0 < cfg.blockSize <= depth.value || CFCount(payload) <= depth.value)
  }

  /** A move out of a phase finds room in the queue it puts to. */
  predicate HasRoom(p: Phase, m: Move, depth: Option<nat>) {
    depth.Some? ==> depth.value > 0 && (p.Block? && m.SenderPuts? ==> p.bc - p.cib < depth.value)
  }

  lemma RoomyHasRoom(cfg: Config, payload: Data, p: Phase, m: Move, depth: Option<nat>)
    requires Fits(cfg, payload, p) && Open(cfg, payload, p, m) && Roomy(cfg, payload, depth)
    ensures HasRoom(p, m, depth)
  {
    hide CFCount, Fits;
    if p.Block? {
      Counted(p.k, cfg.blockSize, p.bc);
    }
  }

  lemma Counted(k: nat, b: nat, bc: nat)
    ensures k * b + bc >= bc
  {
  }

  lemma RestLeft(payload: Data, k: nat)
    ensures Rest(payload, k) != [] <==> k < CFCount(payload)
  {
  }

  lemma EnabledIffOpen(cfg: Config, payload: Data, p: Phase, m: Move)
    requires Fits(cfg, payload, p)
    ensures Enabled(cfg, Shape(cfg, payload, p), m) <==> Open(cfg, payload, p, m)
  {
  }

  // ----- One step -----

  lemma BeginStep(cfg: Config, depth: Option<nat>, payload: Data)
    requires Fits(cfg, payload, AtStart) && HasRoom(AtStart, SenderPuts, depth)
    ensures Enabled(cfg, Shape(cfg, payload, AtStart), SenderPuts)
    ensures Next(cfg, depth, Shape(cfg, payload, AtStart), SenderPuts) == Shape(cfg, payload, FirstOut)
  {
  }

  lemma OpeningStep(cfg: Config, depth: Option<nat>, payload: Data)
    requires Fits(cfg, payload, FirstOut) && HasRoom(FirstOut, ReceiverTakes, depth)
    ensures Enabled(cfg, Shape(cfg, payload, FirstOut), ReceiverTakes)
    ensures Next(cfg, depth, Shape(cfg, payload, FirstOut), ReceiverTakes) == Shape(cfg, payload, Owed(0))
  {
  }

  lemma GrantStep(cfg: Config, depth: Option<nat>, payload: Data, k: nat)
    requires Fits(cfg, payload, Owed(k)) && HasRoom(Owed(k), ReceiverPuts, depth)
    ensures Next(cfg, depth, Shape(cfg, payload, Owed(k)), ReceiverPuts) == Shape(cfg, payload, Granted(k))
  {
  }

  lemma GrantTaken(cfg: Config, payload: Data, k: nat)
    requires Fits(cfg, payload, Granted(k))
    ensures var s := SenderAt(cfg, payload, Granted(k));
            s.Wants() && s.Got(Continue(cfg)) == SenderAt(cfg, payload, Block(k, 0, 0))
  {
  }

  lemma GrantedStep(cfg: Config, depth: Option<nat>, payload: Data, k: nat)
    requires Fits(cfg, payload, Granted(k))
    ensures Enabled(cfg, Shape(cfg, payload, Granted(k)), SenderTakes)
    ensures Fits(cfg, payload, Block(k, 0, 0))
    ensures Next(cfg, depth, Shape(cfg, payload, Granted(k)), SenderTakes) == Shape(cfg, payload, Block(k, 0, 0))
  {
    hide CFOf, CFRange, SenderAt, ReceiverAt, CFCount;
    GrantTaken(cfg, payload, k);
    var q: seq<Data> := [Continue(cfg)];
    assert q[1..] == [];
  }

  lemma NextChunk(cfg: Config, payload: Data, k: nat, bc: nat, cib: nat)
    requires Fits(cfg, payload, Block(k, bc, cib)) && Open(cfg, payload, Block(k, bc, cib), SenderPuts)
    ensures var p := Block(k, bc, cib);
            var s := SenderAt(cfg, payload, p);
            && Fits(cfg, payload, Block(k, bc + 1, cib))
            && s.Valid() && s.Out() == Some(CFOf(payload, Sent(cfg, p) + 1))
            && s.Sent() == SenderAt(cfg, payload, Block(k, bc + 1, cib))
  {
    hide CFOf, Consecutives, ConsecutiveFrame, Segments, Rest;
    var e := Sent(cfg, Block(k, bc, cib));
    RestLeft(payload, e);
    RestLeft(payload, e + 1);
    CutOne(payload, e, (e + 1) % 0x100);
    if cfg.blockSize > 0 {
      CountedByte(cfg, bc + 1);
    }
  }

  lemma ChunkStep(cfg: Config, depth: Option<nat>, payload: Data, k: nat, bc: nat, cib: nat)
    requires Fits(cfg, payload, Block(k, bc, cib)) && HasRoom(Block(k, bc, cib), SenderPuts, depth)
    requires Open(cfg, payload, Block(k, bc, cib), SenderPuts)
    ensures Fits(cfg, payload, Block(k, bc + 1, cib))
    ensures Enabled(cfg, Shape(cfg, payload, Block(k, bc, cib)), SenderPuts)
    ensures Next(cfg, depth, Shape(cfg, payload, Block(k, bc, cib)), SenderPuts)
        == Shape(cfg, payload, Block(k, bc + 1, cib))
  {
    hide CFOf, CFRange, SenderAt, ReceiverAt, CFCount;
    var p := Block(k, bc, cib);
    NextChunk(cfg, payload, k, bc, cib);
    AddBack(payload, Taken(cfg, p) + 1, Sent(cfg, p) + 1);
  }

  lemma AddBack(payload: Data, lo: nat, hi: nat)
    requires 1 <= lo <= hi <= CFCount(payload)
    ensures CFRange(payload, lo, hi + 1) == CFRange(payload, lo, hi) + [CFOf(payload, hi)]
  {
  }

  lemma CountedByte(cfg: Config, n: nat)
    requires n <= cfg.blockSize
    ensures n % 0x100 >= cfg.blockSize <==> n == cfg.blockSize
  {
  }

  lemma NextSlice(payload: Data, r: nat)
    requires 8 <= |payload| && r < CFCount(payload)
    ensures 6 + 7 * r < |payload| && (r + 1 == CFCount(payload) <==> 6 + 7 * (r + 1) >= |payload|)
    ensures |CFOf(payload, r + 1)| == 1 + Min(6 + 7 * (r + 1), |payload|) - (6 + 7 * r)
    ensures payload[..6 + 7 * r] + CFOf(payload, r + 1)[1..] == payload[..Min(6 + 7 * (r + 1), |payload|)]
    ensures r + 1 == CFCount(payload) ==> payload[..Min(6 + 7 * (r + 1), |payload|)] == payload
  {
  }

  /** The receiver takes the next consecutive frame: what it becomes. */
  lemma Accepts(cfg: Config, payload: Data, r: nat, cib: nat)
    requires 8 <= |payload| <= MAX_PAYLOAD && r < CFCount(payload)
    ensures var at, d := ReceiverAt(cfg, payload, r, cib), CFOf(payload, r + 1);
            && at.Wants() && at.Valid()
            && at.Got(cfg, d)
            == if cfg.blockSize > 0 && cib + 1 == cfg.blockSize && r + 1 < CFCount(payload)
               then Replying(ReceiverAt(cfg, payload, r + 1, 0)) else ReceiverAt(cfg, payload, r + 1, cib + 1)
  {
    hide CFOf, CFCount;
    CFNumber(payload, r + 1);
    SameLow(ReceiverAt(cfg, payload, r, cib).sn, r);
    NextSlice(payload, r);
  }

  lemma TakeFront(payload: Data, lo: nat, hi: nat)
    requires 1 <= lo < hi <= CFCount(payload) + 1
    ensures CFRange(payload, lo, hi)[1..] == CFRange(payload, lo + 1, hi)
  {
  }

  lemma TakeStep(cfg: Config, depth: Option<nat>, payload: Data, k: nat, bc: nat, cib: nat)
    requires Fits(cfg, payload, Block(k, bc, cib)) && Open(cfg, payload, Block(k, bc, cib), ReceiverTakes)
    ensures var p := Block(k, bc, cib);
            && Fits(cfg, payload, After(cfg, payload, p, ReceiverTakes))
            && Enabled(cfg, Shape(cfg, payload, p), ReceiverTakes)
            && Next(cfg, depth, Shape(cfg, payload, p), ReceiverTakes)
            == Shape(cfg, payload, After(cfg, payload, p, ReceiverTakes))
  {
    hide CFOf, CFRange, Consecutives, ReceiverAt, Rest;
    var p := Block(k, bc, cib);
    var b: nat := cfg.blockSize;
    var r := Taken(cfg, p);
    EnabledIffOpen(cfg, payload, p, ReceiverTakes);
    assert Shape(cfg, payload, p).toRx[0] == CFOf(payload, r + 1);
    Accepts(cfg, payload, r, cib);
    TakeFront(payload, r + 1, Sent(cfg, p) + 1);
    assert (k + 1) * b == k * b + b;
  }

  lemma OneMove(cfg: Config, payload: Data, p: Phase, m: Move)
    requires Fits(cfg, payload, p) && Open(cfg, payload, p, m)
    ensures Moves(cfg, After(cfg, payload, p, m)) == Moves(cfg, p) + 1
  {
  }

  /** Every move of a system in a known phase leads to the phase that follows. */
  lemma Advance(cfg: Config, depth: Option<nat>, payload: Data, p: Phase, m: Move)
    requires Fits(cfg, payload, p) && HasRoom(p, m, depth) && Enabled(cfg, Shape(cfg, payload, p), m)
    ensures var q := After(cfg, payload, p, m);
            && Fits(cfg, payload, q) && Moves(cfg, q) == Moves(cfg, p) + 1
            && Next(cfg, depth, Shape(cfg, payload, p), m) == Shape(cfg, payload, q)
  {
    hide Enabled, Next, Shape, CFCount, Moves, Sent, Taken;
    EnabledIffOpen(cfg, payload, p, m);
    OneMove(cfg, payload, p, m);
    match p {
      case AtStart => BeginStep(cfg, depth, payload);
      case FirstOut => OpeningStep(cfg, depth, payload);
      case Owed(k) => GrantStep(cfg, depth, payload, k);
      case Granted(k) => GrantedStep(cfg, depth, payload, k);
      case Block(k, bc, cib) =>
        if m.SenderPuts? {
          ChunkStep(cfg, depth, payload, k, bc, cib);
        } else {
          TakeStep(cfg, depth, payload, k, bc, cib);
        }
    }
  }

  ghost predicate Reached(cfg: Config, depth: Option<nat>, payload: Data, moves: seq<Move>, p: Phase) {
    && Fits(cfg, payload, p) && Moves(cfg, p) == |moves|
    && Run(cfg, depth, payload, moves) == Some(Shape(cfg, payload, p))
  }

  /** Every reachable state is the shape of a phase. */
  lemma {:induction false} ReachesAPhase(cfg: Config, depth: Option<nat>, payload: Data, moves: seq<Move>)
    returns (p: Phase)
    requires 8 <= |payload| <= MAX_PAYLOAD && Roomy(cfg, payload, depth) && Run(cfg, depth, payload, moves).Some?
    ensures Reached(cfg, depth, payload, moves, p)
    decreases |moves|
  {
    if moves == [] {
      p := AtStart;
    } else {
      var before, m := moves[..|moves| - 1], moves[|moves| - 1];
      p := ReachesAPhase(cfg, depth, payload, before);
      EnabledIffOpen(cfg, payload, p, m);
      RoomyHasRoom(cfg, payload, p, m, depth);
      Advance(cfg, depth, payload, p, m);
      p := After(cfg, payload, p, m);
    }
  }

  // ----- Whole runs -----

  /** The number of Flow Control frames a transfer needs. */
  function Grants(cfg: Config, payload: Data): nat {
    var n, b := CFCount(payload), cfg.blockSize as nat;
    1 + if b == 0 || n == 0 then 0 else (n - 1) / b
  }

  /** Each frame is put once and taken once. */
  function WholeRun(cfg: Config, payload: Data): nat { 2 * (1 + CFCount(payload) + Grants(cfg, payload)) }

  ghost predicate Stuck(cfg: Config, s: Sys) { forall m :: !Enabled(cfg, s, m) }

  lemma BlocksBefore(n: nat, b: nat, k: nat)
    requires b > 0 && k * b < n
    ensures k <= (n - 1) / b
    ensures n <= k * b + b ==> k == (n - 1) / b
  {
    var q := (n - 1) / b;
    assert (q + 1) * b == q * b + b && (k + 1) * b == k * b + b;
    if k > q {
      Multiply(q + 1, k, b);
    } else if k < q {
      Multiply(k + 1, q, b);
    }
  }

  lemma Multiply(x: nat, y: nat, b: nat)
    requires x <= y
    ensures x * b <= y * b
  {
  }

  lemma MovesLeft(cfg: Config, payload: Data, p: Phase)
    requires Fits(cfg, payload, p)
    ensures Moves(cfg, p) <= WholeRun(cfg, payload)
    ensures (forall m :: !Open(cfg, payload, p, m)) <==> Moves(cfg, p) == WholeRun(cfg, payload)
    ensures Moves(cfg, p) == WholeRun(cfg, payload) ==>
              p.Block? && Sent(cfg, p) == CFCount(payload) == Taken(cfg, p)
  {
    var n, b := CFCount(payload), cfg.blockSize as nat;
    if b > 0 && !p.AtStart? && !p.FirstOut? {
      BlocksBefore(n, b, p.k);
    }
    SomeMove(cfg, payload, p);
  }

  lemma SomeMove(cfg: Config, payload: Data, p: Phase)
    requires Fits(cfg, payload, p)
    ensures (exists m :: Open(cfg, payload, p, m)) <==> !(p.Block? && Sent(cfg, p) == CFCount(payload) == Taken(cfg, p))
  {
    hide CFCount;
    assert p.AtStart? ==> Open(cfg, payload, p, SenderPuts);
    assert p.FirstOut? ==> Open(cfg, payload, p, ReceiverTakes);
    assert p.Owed? ==> Open(cfg, payload, p, ReceiverPuts);
    assert p.Granted? ==> Open(cfg, payload, p, SenderTakes);
    if p.Block? {
      assert Taken(cfg, p) < Sent(cfg, p) ==> Open(cfg, payload, p, ReceiverTakes);
      assert Taken(cfg, p) == Sent(cfg, p) < CFCount(payload) ==> Open(cfg, payload, p, SenderPuts);
    }
  }

  /** Two parties, every payload, every block size, every interleaving over lossless queues. A run never makes more
      moves than a whole transfer has, and while it has made fewer some move is possible. A run that can make no
      more has delivered exactly the payload, and the sender has finished unless the block size divides the number
      of consecutive frames: then it is left waiting for a Flow Control that never comes. */
  lemma TwoParty(cfg: Config, depth: Option<nat>, payload: Data, moves: seq<Move>)
    requires 8 <= |payload| <= MAX_PAYLOAD && Roomy(cfg, payload, depth) && Run(cfg, depth, payload, moves).Some?
    ensures |moves| <= WholeRun(cfg, payload)
    ensures Stuck(cfg, Run(cfg, depth, payload, moves).value) <==> |moves| == WholeRun(cfg, payload)
    ensures |moves| == WholeRun(cfg, payload) ==>
              var s := Run(cfg, depth, payload, moves).value;
              var b: nat := cfg.blockSize;
              && s.toRx == [] && s.toTx == [] && s.receiver == Delivered(payload)
              && s.sender == if b > 0 && CFCount(payload) % b == 0
                             then AwaitBlock([], (CFCount(payload) + 1) % 0x100) else Finished
  {
    var p := ReachesAPhase(cfg, depth, payload, moves);
    MovesLeft(cfg, payload, p);
    StuckIffClosed(cfg, payload, p);
    if |moves| == WholeRun(cfg, payload) {
      AtTheEnd(cfg, payload, p);
    }
  }

  lemma StuckIffClosed(cfg: Config, payload: Data, p: Phase)
    requires Fits(cfg, payload, p)
    ensures Stuck(cfg, Shape(cfg, payload, p)) <==> forall m :: !Open(cfg, payload, p, m)
  {
    hide Enabled, Open, Shape;
    forall m ensures Enabled(cfg, Shape(cfg, payload, p), m) <==> Open(cfg, payload, p, m) {
      EnabledIffOpen(cfg, payload, p, m);
    }
  }

  lemma AtTheEnd(cfg: Config, payload: Data, p: Phase)
    requires Fits(cfg, payload, p) && p.Block? && Sent(cfg, p) == CFCount(payload) == Taken(cfg, p)
    ensures var s, n, b := Shape(cfg, payload, p), CFCount(payload), cfg.blockSize as nat;
            && s.toRx == [] && s.toTx == [] && s.receiver == Delivered(payload)
            && s.sender == if b > 0 && n % b == 0 then AwaitBlock([], (n + 1) % 0x100) else Finished
  {
    hide CFOf, Consecutives;
    var n, b := CFCount(payload), cfg.blockSize as nat;
    assert Rest(payload, n) == [];
    if b > 0 {
      if p.bc == b {
        assert (p.k + 1) * b == p.k * b + b;
        ModIs(n, b, p.k + 1, 0);
      } else {
        ModIs(n, b, p.k, p.bc);
      }
    }
  }

  /** In flight: with a block size there are never more consecutive frames queued than a block has, nor more than
      one Flow Control. */
  lemma InFlight(cfg: Config, depth: Option<nat>, payload: Data, moves: seq<Move>)
    requires 8 <= |payload| <= MAX_PAYLOAD && cfg.blockSize > 0 && Roomy(cfg, payload, depth)
    requires Run(cfg, depth, payload, moves).Some?
    ensures var s := Run(cfg, depth, payload, moves).value;
            |s.toRx| <= cfg.blockSize && |s.toTx| <= 1
  {
    hide CFOf;
    var p := ReachesAPhase(cfg, depth, payload, moves);
  }

  /** A queue that holds a block or a whole transfer drops nothing: the bounded system runs as the lossless one. */
  lemma {:induction false} NothingDropped(cfg: Config, depth: nat, payload: Data, moves: seq<Move>)
    requires 8 <= |payload| <= MAX_PAYLOAD && Roomy(cfg, payload, Some(depth))
    ensures Run(cfg, Some(depth), payload, moves) == Run(cfg, None, payload, moves)
    decreases |moves|
  {
    if moves == [] {
    } else {
      hide Roomy, HasRoom, Next, Shape;
      var before, m := moves[..|moves| - 1], moves[|moves| - 1];
      NothingDropped(cfg, depth, payload, before);
      var s := Run(cfg, None, payload, before);
      if s.Some? && Enabled(cfg, s.value, m) {
        SameNext(cfg, depth, payload, before, m);
      }
    }
  }

  lemma SameNext(cfg: Config, depth: nat, payload: Data, moves: seq<Move>, m: Move)
    requires 8 <= |payload| <= MAX_PAYLOAD && Roomy(cfg, payload, Some(depth))
    requires Run(cfg, None, payload, moves).Some? && Enabled(cfg, Run(cfg, None, payload, moves).value, m)
    ensures var s := Run(cfg, None, payload, moves).value;
            Next(cfg, Some(depth), s, m) == Next(cfg, None, s, m)
  {
    hide Enabled, Next, Shape, Run;
    Lossless(cfg, payload);
    var p := ReachesAPhase(cfg, None, payload, moves);
    EnabledIffOpen(cfg, payload, p, m);
    RoomyHasRoom(cfg, payload, p, m, Some(depth));
    Advance(cfg, None, payload, p, m);
    Advance(cfg, Some(depth), payload, p, m);
  }

  lemma Lossless(cfg: Config, payload: Data)
    ensures Roomy(cfg, payload, None)
  {
  }

  /** The moves that open a transfer and then put k consecutive frames while the receiver takes none. */
  function Burst(k: nat): (moves: seq<Move>)
    ensures |moves| == 4 + k
  {
    if k == 0 then [SenderPuts, ReceiverTakes, ReceiverPuts, SenderTakes] else Burst(k - 1) + [SenderPuts]
  }

  lemma Extend(cfg: Config, depth: Option<nat>, payload: Data, moves: seq<Move>, p: Phase, m: Move)
    requires Reached(cfg, depth, payload, moves, p) && Open(cfg, payload, p, m) && HasRoom(p, m, depth)
    ensures Reached(cfg, depth, payload, moves + [m], After(cfg, payload, p, m))
  {
    hide Shape, Enabled, Next, Fits, Open, After, Moves, HasRoom;
    assert (moves + [m])[..|moves + [m]| - 1] == moves;
    EnabledIffOpen(cfg, payload, p, m);
    Advance(cfg, depth, payload, p, m);
  }

  /** While the queue has room the burst runs in a bounded system as in the lossless one. */
  lemma {:induction false} BurstRuns(cfg: Config, depth: Option<nat>, payload: Data, k: nat)
    requires 8 <= |payload| <= MAX_PAYLOAD && k <= CFCount(payload) && (cfg.blockSize == 0 || k <= cfg.blockSize)
    requires depth.Some? ==> k <= depth.value && depth.value > 0
    ensures Reached(cfg, depth, payload, Burst(k), Block(0, k, 0))
    decreases k
  {
    hide Shape, Run, CFCount;
    if k == 0 {
      StartReached(cfg, depth, payload);
      Extend(cfg, depth, payload, [], AtStart, SenderPuts);
      Extend(cfg, depth, payload, [] + [SenderPuts], FirstOut, ReceiverTakes);
      Extend(cfg, depth, payload, [] + [SenderPuts] + [ReceiverTakes], Owed(0), ReceiverPuts);
      Extend(cfg, depth, payload, [] + [SenderPuts] + [ReceiverTakes] + [ReceiverPuts], Granted(0), SenderTakes);
      assert [] + [SenderPuts] + [ReceiverTakes] + [ReceiverPuts] + [SenderTakes] == Burst(0);
    } else {
      BurstRuns(cfg, depth, payload, k - 1);
      Extend(cfg, depth, payload, Burst(k - 1), Block(0, k - 1, 0), SenderPuts);
    }
  }

  lemma StartReached(cfg: Config, depth: Option<nat>, payload: Data)
    requires 8 <= |payload| <= MAX_PAYLOAD
    ensures Reached(cfg, depth, payload, [], AtStart)
  {
  }

  /** A smaller queue loses a frame: when the receiver is slow, the bounded system makes the same moves as the lossless
      one and is in the same state, but for the newest consecutive frame, which is missing from its queue. */
  lemma DropsWhenSmaller(cfg: Config, depth: nat, payload: Data)
    requires 8 <= |payload| <= MAX_PAYLOAD && 0 < depth < CFCount(payload)
    requires cfg.blockSize == 0 || depth < cfg.blockSize
    ensures var all, kept := Run(cfg, None, payload, Burst(depth + 1)),
        Run(cfg, Some(depth), payload, Burst(depth + 1));
            && all.Some? && |all.value.toRx| == depth + 1
            && kept == Some(all.value.(toRx := all.value.toRx[..depth]))
  {
    var p := Block(0, depth, 0);
    var full := Burst(depth + 1);
    BurstRuns(cfg, Some(depth), payload, depth);
    BurstRuns(cfg, None, payload, depth);
    assert full[..|full| - 1] == Burst(depth) && full[|full| - 1] == SenderPuts;
    hide Run, Shape, Enabled, Next, CFCount, Fits;
    OverrunStep(cfg, depth, payload);
    assert Run(cfg, None, payload, full) == Some(Next(cfg, None, Shape(cfg, payload, p), SenderPuts)) by {
      RunLast(cfg, None, payload, full);
    }
    assert Run(cfg, Some(depth), payload, full) == Some(Next(cfg, Some(depth), Shape(cfg, payload, p), SenderPuts)) by {
      RunLast(cfg, Some(depth), payload, full);
    }
  }

  lemma RunLast(cfg: Config, depth: Option<nat>, payload: Data, moves: seq<Move>)
    requires moves != []
    ensures var before, m := Run(cfg, depth, payload, moves[..|moves| - 1]), moves[|moves| - 1];
            Run(cfg, depth, payload, moves)
            == if before.Some? && Enabled(cfg, before.value, m) then Some(Next(cfg, depth, before.value, m)) else None
  {
  }

  lemma OverrunStep(cfg: Config, depth: nat, payload: Data)
    requires Fits(cfg, payload, Block(0, depth, 0)) && depth < CFCount(payload)
    requires cfg.blockSize == 0 || depth < cfg.blockSize
    ensures var s := Shape(cfg, payload, Block(0, depth, 0));
            && Enabled(cfg, s, SenderPuts)
            && var all := Next(cfg, None, s, SenderPuts);
            |all.toRx| == depth + 1 && Next(cfg, Some(depth), s, SenderPuts) == all.(toRx := all.toRx[..depth])
  {
    hide CFCount, CFOf;
    EnabledIffOpen(cfg, payload, Block(0, depth, 0), SenderPuts);
    var s := Shape(cfg, payload, Block(0, depth, 0));
    assert |s.toRx| == depth;
    assert (s.toRx + [s.sender.Out().value])[..depth] == s.toRx;
  }

  /** Exactly when a queue of positive depth loses nothing: it holds a block, or it holds every consecutive frame. */
  lemma NoLossIff(cfg: Config, depth: nat, payload: Data)
    requires 8 <= |payload| <= MAX_PAYLOAD && depth > 0
    ensures (forall moves :: Run(cfg, Some(depth), payload, moves) == Run(cfg, None, payload, moves))
       <==> 0 < cfg.blockSize <= depth || CFCount(payload) <= depth
  {
    if 0 < cfg.blockSize <= depth || CFCount(payload) <= depth {
      forall moves ensures Run(cfg, Some(depth), payload, moves) == Run(cfg, None, payload, moves) {
        NothingDropped(cfg, depth, payload, moves);
      }
    } else {
      DropsWhenSmaller(cfg, depth, payload);
    }
  }
}
