/** ISO-TP (isotp/transport.go): the two ends as step machines, and the Send and Recv loops proved to run them.

    A machine either wants to put a frame on the bus (Out), or waits for one (Wants), or has ended. What a run
    did is a log of the frames it put and took, in order; a log is legal when the machine can replay it. */
module IsoTp {
  import opened Bits
  import opened Can

  type Data = seq<Byte>

  const MAX_PAYLOAD := 4095

  const SF: Byte := 0x00
  const FF: Byte := 0x10
  const CF: Byte := 0x20
  const FC: Byte := 0x30

  const CONTINUE := 0
  const WAIT := 1
  const OVERFLOW := 2

  /** b & 0xF0 and b & 0x0F */
  function High(b: Byte): int { b / 16 * 16 }
  function Low(b: Byte): int { b % 16 }

  datatype Event = Put(data: Data) | Took(data: Data)

  function Puts(log: seq<Event>): seq<Data> {
    if log == [] then []
    else Puts(log[..|log| - 1]) + (if log[|log| - 1].Put? then [log[|log| - 1].data] else [])
  }

  function Takes(log: seq<Event>): seq<Data> {
    if log == [] then []
    else Takes(log[..|log| - 1]) + (if log[|log| - 1].Took? then [log[|log| - 1].data] else [])
  }

  // ----- Segmentation -----

  function Min(a: nat, b: nat): nat { if a < b then a else b }

  function FirstFrame(payload: Data): Data
    requires 8 <= |payload| <= MAX_PAYLOAD
  {
    [FF + |payload| / 0x100, |payload| % 0x100] + payload[..6]
  }

  /** The consecutive frames for the rest of a payload, the first of them numbered sn. */
  function Consecutives(rest: Data, sn: Byte): seq<Data> {
    if rest == [] then []
    else [ConsecutiveFrame(rest, sn)] + Consecutives(rest[Min(7, |rest|)..], (sn + 1) % 0x100)
  }

  function ConsecutiveFrame(rest: Data, sn: Byte): Data {
    [CF + Low(sn)] + rest[..Min(7, |rest|)]
  }

  /** The one way to cut a payload into frames. */
  function Segments(payload: Data): seq<Data>
    requires 1 <= |payload| <= MAX_PAYLOAD
  {
    if |payload| <= 7 then [[SF + |payload|] + payload]
    else [FirstFrame(payload)] + Consecutives(payload[6..], 1)
  }

  // ----- The sender -----

  datatype Grant = Grant(status: nat, blockSize: Byte, stmin: Byte)

  /** A frame the sender recognises as Flow Control. */
  predicate IsFC(d: Data) { |d| >= 3 && High(d[0]) == FC }

  function ToGrant(d: Data): Grant
    requires IsFC(d)
  {
    Grant(Low(d[0]), d[1], d[2])
  }

  datatype Sender =
    | Begin(payload: Data)
    | AwaitFirst(rest: Data)
    | Ready(rest: Data, sn: Byte, blockCount: nat, fc: Grant)
    | AwaitResume(rest: Data, sn: Byte)
    | AwaitBlock(rest: Data, sn: Byte)
    | Overflowed
    | Finished
  {
    predicate Valid() {
      && (Begin? ==> 1 <= |payload| <= MAX_PAYLOAD)
      && (Ready? || AwaitResume? ==> rest != [])
    }

    function Out(): Option<Data>
      requires Valid()
    {
      match this
      case Begin(payload) => Some(Segments(payload)[0])
      case Ready(rest, sn, _, _) => Some(ConsecutiveFrame(rest, sn))
      case _ => None
    }

    function Sent(): Sender
      requires Valid() && Out().Some?
    {
      match this
      case Begin(payload) => if |payload| <= 7 then Finished else AwaitFirst(payload[6..])
      case Ready(rest, sn, blockCount, fc) =>
        var rest', sn', count' := rest[Min(7, |rest|)..], (sn + 1) % 0x100, blockCount + 1;
        if fc.blockSize > 0 && count' % 0x100 >= fc.blockSize then AwaitBlock(rest', sn')
        else Top(rest', sn', count', fc)
    }

    predicate Wants() { AwaitFirst? || AwaitResume? || AwaitBlock? }

    /** A frame arrives: anything but Flow Control is skipped. */
    function Got(d: Data): Sender
      requires Wants()
    {
      if !IsFC(d) then this
      else
        var fc := ToGrant(d);
        match this
        case AwaitFirst(rest) => if fc.status == OVERFLOW then Overflowed else Top(rest, 1, 0, fc)
        case AwaitResume(rest, sn) => if rest == [] then Finished else Ready(rest, sn, 0, fc)
        case AwaitBlock(rest, sn) => Top(rest, sn, 0, fc)
    }

    function Step(e: Event): Option<Sender>
      requires Valid()
    {
      match e
      case Put(d) => if Out() == Some(d) then Some(Sent()) else None
      case Took(d) => if Wants() then Some(Got(d)) else None
    }
  }

  /** The head of the sending loop. */
  function Top(rest: Data, sn: Byte, blockCount: nat, fc: Grant): Sender {
    if rest == [] then Finished
    else if fc.status == WAIT then AwaitResume(rest, sn)
    else Ready(rest, sn, blockCount, fc)
  }

  function SenderRun(payload: Data, log: seq<Event>): (s: Option<Sender>)
    requires 1 <= |payload| <= MAX_PAYLOAD
    ensures s.Some? ==> s.value.Valid()
  {
    if log == [] then Some(Begin(payload))
    else
      var s := SenderRun(payload, log[..|log| - 1]);
      if s.None? then None else s.value.Step(log[|log| - 1])
  }

  // ----- The receiver -----

  datatype Config = Config(blockSize: Byte, stmin: Byte)

  datatype Error = EmptyPayload | PayloadTooLarge | EmptyFrame | InvalidSFLength | FFTooShort
                 | UnexpectedFrameType | UnexpectedSN | EmptyCF | ReceiverOverflow | BusFailed | TimedOut

  predicate IsCF(d: Data) { |d| > 0 && High(d[0]) == CF }

  function Continue(cfg: Config): Data { [FC + CONTINUE, cfg.blockSize, cfg.stmin] }

  datatype Receiver =
    | Idle
    | Collecting(length: nat, buf: Data, sn: Byte, inBlock: nat)
    | Replying(next: Receiver)
    | Delivered(payload: Data)
    | Refused(error: Error)
  {
    function Out(cfg: Config): Option<Data> {
      if Replying? then Some(Continue(cfg)) else None
    }

    predicate Valid() {
      && (Collecting? ==> |buf| < length)
      && (Replying? ==> !next.Replying? && next.Valid())
    }

    predicate Wants() { Idle? || Collecting? }

    function Got(cfg: Config, d: Data): (r: Receiver)
      requires Wants() && Valid()
      ensures r.Valid()
    {
      if Idle? then Opened(d) else if IsCF(d) then Extended(cfg, d) else this
    }

    /** The next consecutive frame. */
    function Extended(cfg: Config, d: Data): (r: Receiver)
      requires Collecting? && Valid() && IsCF(d)
      ensures r.Valid()
    {
      if Low(d[0]) != Low(sn) then Refused(UnexpectedSN)
      else if |d| < 2 then Refused(EmptyCF)
      else
        var remaining := length - |buf|;
        var chunk := if |d| - 1 > remaining then d[1..1 + remaining] else d[1..];
        var buf', sn' := buf + chunk, (sn + 1) % 0x100;
        if cfg.blockSize == 0 then Loop(length, buf', sn', inBlock)
        else if inBlock + 1 == cfg.blockSize && |buf'| < length then Replying(Loop(length, buf', sn', 0))
        else Loop(length, buf', sn', inBlock + 1)
    }

    function Step(cfg: Config, e: Event): Option<Receiver>
      requires Valid()
    {
      match e
      case Put(d) => if Out(cfg) == Some(d) then Some(next) else None
      case Took(d) => if Wants() then Some(Got(cfg, d)) else None
    }
  }

  /** The head of the reassembly loop. */
  function Loop(length: nat, buf: Data, sn: Byte, inBlock: nat): Receiver {
    if |buf| < length then Collecting(length, buf, sn, inBlock) else Delivered(buf)
  }

  /** The first frame of a message. */
  function Opened(d: Data): Receiver {
    if d == [] then Refused(EmptyFrame)
    else if High(d[0]) == SF then
      var length := Low(d[0]);
      if length == 0 || length > |d| - 1 then Refused(InvalidSFLength) else Delivered(d[1..1 + length])
    else if High(d[0]) == FF then
      if |d| < 2 then Refused(FFTooShort)
      else
        var length := Low(d[0]) * 0x100 + d[1];
        Replying(Loop(length, d[2..2 + Min(length, |d| - 2)], 1, 0))
    else Refused(UnexpectedFrameType)
  }

  function ReceiverRun(cfg: Config, log: seq<Event>): (r: Option<Receiver>)
    ensures r.Some? ==> r.value.Valid()
  {
    if log == [] then Some(Idle)
    else
      var r := ReceiverRun(cfg, log[..|log| - 1]);
      if r.None? then None else r.value.Step(cfg, log[|log| - 1])
  }

  // ----- Logs grow at the end -----

  lemma AppendEvent(log: seq<Event>, e: Event)
    ensures Puts(log + [e]) == Puts(log) + (if e.Put? then [e.data] else [])
    ensures Takes(log + [e]) == Takes(log) + (if e.Took? then [e.data] else [])
  {
  }

  lemma SenderAppend(payload: Data, log: seq<Event>, s: Sender, e: Event)
    requires 1 <= |payload| <= MAX_PAYLOAD && SenderRun(payload, log) == Some(s)
    ensures SenderRun(payload, log + [e]) == s.Step(e)
  {
  }

  lemma ReceiverAppend(cfg: Config, log: seq<Event>, r: Receiver, e: Event)
    requires ReceiverRun(cfg, log) == Some(r)
    ensures ReceiverRun(cfg, log + [e]) == r.Step(cfg, e)
  {
  }
}
