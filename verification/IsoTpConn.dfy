/** The Send and Recv loops of an ISO-TP connection. The environment is three fields: the frames that will
    still arrive on the subscription before a wait is given up, the frames put on the bus, and how many more
    times the bus will accept one. */
module IsoTpConn {
  import opened Bits
  import opened Can
  import opened IsoTp
  import opened IsoTpWire

  datatype Result = Ok(payload: Data) | Err(error: Error)

  function Datas(frames: seq<Frame>): (ds: seq<Data>)
    ensures |ds| == |frames|
  {
    seq(|frames|, i requires 0 <= i < |frames| => frames[i].data)
  }

  function Wrapped(id: Word32, ext: bool, ds: seq<Data>): (frames: seq<Frame>)
    ensures |frames| == |ds|
  {
    seq(|ds|, i requires 0 <= i < |ds| => Classic(id, ext, ds[i]))
  }

  lemma WrappedNext(id: Word32, ext: bool, tx0: seq<Frame>, ds: seq<Data>, d: Data)
    ensures tx0 + Wrapped(id, ext, ds) + Wrapped(id, ext, [d]) == tx0 + Wrapped(id, ext, ds + [d])
  {
  }

  lemma PutAppended(log: seq<Event>, d: Data)
    ensures Puts(log + [Put(d)]) == Puts(log) + [d] && Takes(log + [Put(d)]) == Takes(log)
  {
    AppendEvent(log, Put(d));
  }

  class Conn {
    const txID: Word32
    const extIDs: bool
    const cfg: Config
    var rx: seq<Frame>
    var tx: seq<Frame>
    var txLeft: nat

    constructor (txID: Word32, extIDs: bool, cfg: Config, arriving: seq<Frame>, sends: nat)
      ensures this.txID == txID && this.extIDs == extIDs && this.cfg == cfg
      ensures rx == arriving && tx == [] && txLeft == sends
    {
      this.txID, this.extIDs, this.cfg := txID, extIDs, cfg;
      rx, tx, txLeft := arriving, [], sends;
    }

    method BusSend(data: Data) returns (ok: bool)
      modifies this`tx, this`txLeft
      ensures ok <==> old(txLeft) > 0
      ensures tx == if ok then old(tx) + Wrapped(txID, extIDs, [data]) else old(tx)
      ensures txLeft == if ok then old(txLeft) - 1 else old(txLeft)
    {
      ok := txLeft > 0;
      if ok {
        tx := tx + [Classic(txID, extIDs, data)];
        txLeft := txLeft - 1;
      }
    }

    /** The log accounts for everything that left and entered the connection since it held rx0 and tx0. */
    ghost predicate Accounts(rx0: seq<Frame>, tx0: seq<Frame>, log: seq<Event>)
      reads this
    {
      && Datas(rx0) == Takes(log) + Datas(rx)
      && tx == tx0 + Wrapped(txID, extIDs, Puts(log))
    }

    /** One arriving frame. */
    method Take(ghost rx0: seq<Frame>, ghost tx0: seq<Frame>, ghost log: seq<Event>)
        returns (d: Data, ghost log': seq<Event>)
      requires rx != [] && Accounts(rx0, tx0, log)
      modifies this`rx
      ensures log' == log + [Took(d)] && Accounts(rx0, tx0, log')
      ensures d == old(rx)[0].data && rx == old(rx)[1..]
    {
      d := rx[0].data;
      rx := rx[1..];
      log' := log + [Took(d)];
      AppendEvent(log, Took(d));
      assert Datas(old(rx)) == [d] + Datas(rx);
    }

    /** One bus.Send. */
    method Put1(data: Data, ghost rx0: seq<Frame>, ghost tx0: seq<Frame>, ghost log: seq<Event>)
      returns (ok: bool, ghost log': seq<Event>)
      requires Accounts(rx0, tx0, log)
      modifies this`tx, this`txLeft
      ensures Accounts(rx0, tx0, log')
      ensures if ok then log' == log + [Put(data)] else log' == log && txLeft == 0
    {
      log' := log;
      ok := BusSend(data);
      if ok {
        log' := log + [Put(data)];
        hide Puts, Takes, Wrapped, Datas;
        PutAppended(log, data);
        WrappedNext(txID, extIDs, tx0, Puts(log), data);
      }
    }

    /** One bus.Send of the sender: the frame its machine wants out. */
    method SendNext(data: Data, ghost payload: Data, ghost s: Sender,
                    ghost rx0: seq<Frame>, ghost tx0: seq<Frame>, ghost log0: seq<Event>)
      returns (ok: bool, ghost log: seq<Event>)
      requires 1 <= |payload| <= MAX_PAYLOAD
      requires SenderRun(payload, log0) == Some(s) && s.Out() == Some(data)
      requires Accounts(rx0, tx0, log0)
      modifies this`tx, this`txLeft
      ensures Accounts(rx0, tx0, log)
      ensures if ok then SenderRun(payload, log) == Some(s.Sent())
          else txLeft == 0 && SenderRun(payload, log) == Some(s)
    {
      ok, log := Put1(data, rx0, tx0, log0);
      SenderAppend(payload, log0, s, Put(data));
    }

    /** One bus.Send of the receiver: a Flow Control frame. */
    method Reply(ghost r: Receiver, ghost rx0: seq<Frame>, ghost tx0: seq<Frame>, ghost log0: seq<Event>)
      returns (ok: bool, ghost log: seq<Event>)
      requires ReceiverRun(cfg, log0) == Some(r) && r.Replying?
      requires Accounts(rx0, tx0, log0)
      modifies this`tx, this`txLeft
      ensures Accounts(rx0, tx0, log)
      ensures if ok then ReceiverRun(cfg, log) == Some(r.next) else txLeft == 0 && ReceiverRun(cfg, log) == Some(r)
    {
      var fc := [FC + CONTINUE, cfg.blockSize, cfg.stmin];
      ok, log := Put1(fc, rx0, tx0, log0);
      ReceiverAppend(cfg, log0, r, Put(fc));
    }

    method Send(payload: Data) returns (err: Option<Error>, ghost log: seq<Event>)
      modifies this`rx, this`tx, this`txLeft
      ensures Accounts(old(rx), old(tx), log)
      ensures |payload| == 0 ==> err == Some(EmptyPayload) && log == []
      ensures |payload| > 4095 ==> err == Some(PayloadTooLarge) && log == []
      ensures 1 <= |payload| <= 4095 ==> SenderEnds(payload, err, log)
      ensures 1 <= |payload| <= 7 ==> Puts(log) == if err.None? then [[|payload|] + payload] else []
      ensures 8 <= |payload| <= 4095 ==>
                (err == Some(ReceiverOverflow) <==> FirstGrant(log).Some? && FirstGrant(log).value[0] % 16 == 2)
      ensures err == Some(ReceiverOverflow) ==> 8 <= |payload| <= 4095 && Puts(log) == [Segments(payload)[0]]
    {
      log := [];
      assert Datas(rx) == [] + Datas(rx) && tx == tx + Wrapped(txID, extIDs, []);
      if |payload| == 0 {
        return Some(EmptyPayload), log;
      }
      if |payload| > MAX_PAYLOAD {
        return Some(PayloadTooLarge), log;
      }
      if |payload| <= 7 {
        err, log := SendSingleFrame(payload, rx, tx);
      } else {
        err, log := SendMultiFrame(payload, rx, tx);
        OverflowIff(payload, log);
      }
    }

    /** How Send's verdict follows from the state in which the machine was left. */
    ghost predicate SenderEnds(payload: Data, err: Option<Error>, log: seq<Event>)
      requires 1 <= |payload| <= MAX_PAYLOAD
      reads this
    {
      var s := SenderRun(payload, log);
      && s.Some?
      && (err.None? <==> s.value.Finished?)
      && (err == Some(ReceiverOverflow) <==> s.value.Overflowed?)
      && (err == Some(TimedOut) ==> s.value.Wants() && rx == [])
      && (err == Some(BusFailed) ==> s.value.Out().Some? && txLeft == 0)
      && (err.Some? ==> err.value in {ReceiverOverflow, TimedOut, BusFailed})
    }

    method SendSingleFrame(payload: Data, ghost rx0: seq<Frame>, ghost tx0: seq<Frame>)
      returns (err: Option<Error>, ghost log: seq<Event>)
      requires 1 <= |payload| <= 7
      requires Accounts(rx0, tx0, [])
      modifies this`tx, this`txLeft
      ensures Accounts(rx0, tx0, log) && SenderEnds(payload, err, log)
      ensures Puts(log) == if err.None? then [[|payload|] + payload] else []
    {
      var data := [SF + |payload|] + payload;
      var ok: bool;
      ok, log := SendNext(data, payload, Begin(payload), rx0, tx0, []);
      err := if ok then None else Some(BusFailed);
      OneFrame(payload, log);
    }

    method SendMultiFrame(payload: Data, ghost rx0: seq<Frame>, ghost tx0: seq<Frame>)
      returns (err: Option<Error>, ghost log: seq<Event>)
      requires 8 <= |payload| <= MAX_PAYLOAD
      requires Accounts(rx0, tx0, [])
      modifies this`rx, this`tx, this`txLeft
      ensures Accounts(rx0, tx0, log) && SenderEnds(payload, err, log)
    {
      var ok: bool;
      var ff := [FF + |payload| / 0x100, |payload| % 0x100] + payload[..6];
      ok, log := SendNext(ff, payload, Begin(payload), rx0, tx0, []);
      if !ok {
        return Some(BusFailed), log;
      }

      var answer: Option<Data>;
      answer, log := WaitFC(payload, AwaitFirst(payload[6..]), rx0, tx0, log);
      if answer.None? {
        return Some(TimedOut), log;
      }
      var fc := answer.value;
      if Low(fc[0]) == OVERFLOW {
        return Some(ReceiverOverflow), log;
      }

      err, log := SendConsecutives(payload[6..], fc, payload, rx0, tx0, log);
    }

    /** The loop of sendMultiFrame. */
    method SendConsecutives(rest0: Data, fc0: Data, ghost payload: Data,
                            ghost rx0: seq<Frame>, ghost tx0: seq<Frame>, ghost log0: seq<Event>)
      returns (err: Option<Error>, ghost log: seq<Event>)
      requires 8 <= |payload| <= MAX_PAYLOAD
      requires IsFC(fc0) && SenderRun(payload, log0) == Some(Top(rest0, 1, 0, ToGrant(fc0)))
      requires Accounts(rx0, tx0, log0)
      modifies this`rx, this`tx, this`txLeft
      ensures Accounts(rx0, tx0, log) && SenderEnds(payload, err, log)
    {
      hide Accounts, SenderRun;
      log := log0;
      var fc, rest, sn: Byte, blockCount: nat := fc0, rest0, 1, 0;
      while |rest| > 0
        invariant IsFC(fc)
        invariant SenderRun(payload, log) == Some(Top(rest, sn, blockCount, ToGrant(fc)))
        invariant Accounts(rx0, tx0, log)
        decreases |rest|
      {
        var ok: bool;
        ok, fc, blockCount, log := Hold(rest, sn, fc, blockCount, payload, rx0, tx0, log);
        if !ok {
          return Some(TimedOut), log;
        }
        ghost var ready := Ready(rest, sn, blockCount, ToGrant(fc));
        ok, rest, log := SendChunk(rest, sn, payload, ready, rx0, tx0, log);
        if !ok {
          return Some(BusFailed), log;
        }
        sn, blockCount := (sn + 1) % 0x100, blockCount + 1;
        ok, fc, blockCount, log := EndBlock(rest, sn, fc, blockCount, payload, ready.Sent(), rx0, tx0, log);
        if !ok {
          return Some(TimedOut), log;
        }
      }
      err := None;
    }

    /** The Wait check at the head of the loop. */
    method Hold(rest: Data, sn: Byte, fc: Data, blockCount: nat, ghost payload: Data,
                ghost rx0: seq<Frame>, ghost tx0: seq<Frame>, ghost log0: seq<Event>)
      returns (ok: bool, fc': Data, blockCount': nat, ghost log: seq<Event>)
      requires 1 <= |payload| <= MAX_PAYLOAD && rest != [] && IsFC(fc)
      requires SenderRun(payload, log0) == Some(Top(rest, sn, blockCount, ToGrant(fc)))
      requires Accounts(rx0, tx0, log0)
      modifies this`rx
      ensures Accounts(rx0, tx0, log)
      ensures ok ==> IsFC(fc') && SenderRun(payload, log) == Some(Ready(rest, sn, blockCount', ToGrant(fc')))
      ensures !ok ==> rx == [] && SenderRun(payload, log) == Some(AwaitResume(rest, sn))
    {
      ok, fc', blockCount', log := true, fc, blockCount, log0;
      if Low(fc[0]) == WAIT {
        var answer: Option<Data>;
        answer, log := WaitFC(payload, AwaitResume(rest, sn), rx0, tx0, log);
        if answer.None? {
          return false, fc, blockCount, log;
        }
        fc', blockCount' := answer.value, 0;
      }
    }

    /** The block check at the end of the loop body. */
    method EndBlock(rest: Data, sn: Byte, fc: Data, blockCount: nat, ghost payload: Data, ghost s: Sender,
                    ghost rx0: seq<Frame>, ghost tx0: seq<Frame>, ghost log0: seq<Event>)
      returns (ok: bool, fc': Data, blockCount': nat, ghost log: seq<Event>)
      requires 1 <= |payload| <= MAX_PAYLOAD && IsFC(fc)
      requires s == if ToGrant(fc).blockSize > 0 && blockCount % 0x100 >= ToGrant(fc).blockSize
                    then AwaitBlock(rest, sn)
                    else Top(rest, sn, blockCount, ToGrant(fc))
      requires SenderRun(payload, log0) == Some(s)
      requires Accounts(rx0, tx0, log0)
      modifies this`rx
      ensures Accounts(rx0, tx0, log)
      ensures ok ==> IsFC(fc') && SenderRun(payload, log) == Some(Top(rest, sn, blockCount', ToGrant(fc')))
      ensures !ok ==> rx == [] && SenderRun(payload, log) == Some(AwaitBlock(rest, sn))
    {
      ok, fc', blockCount', log := true, fc, blockCount, log0;
      if fc[1] > 0 && blockCount % 0x100 >= fc[1] {
        var answer: Option<Data>;
        answer, log := WaitFC(payload, AwaitBlock(rest, sn), rx0, tx0, log);
        if answer.None? {
          return false, fc, blockCount, log;
        }
        fc', blockCount' := answer.value, 0;
      }
    }

    /** Cuts one consecutive frame off the rest and sends it. */
    method SendChunk(rest: Data, sn: Byte, ghost payload: Data, ghost s: Sender,
                     ghost rx0: seq<Frame>, ghost tx0: seq<Frame>, ghost log0: seq<Event>)
      returns (ok: bool, rest': Data, ghost log: seq<Event>)
      requires 1 <= |payload| <= MAX_PAYLOAD
      requires s.Ready? && s.rest == rest && s.sn == sn && SenderRun(payload, log0) == Some(s)
      requires Accounts(rx0, tx0, log0)
      modifies this`tx, this`txLeft
      ensures Accounts(rx0, tx0, log)
      ensures rest' == rest[Min(7, |rest|)..] && |rest'| < |rest|
      ensures if ok then SenderRun(payload, log) == Some(s.Sent())
          else txLeft == 0 && SenderRun(payload, log) == Some(s)
    {
      var chunk := if |rest| > 7 then rest[..7] else rest;
      var cf := [CF + Low(sn)] + chunk;
      IsConsecutive(rest, sn, chunk, cf);
      ok, log := SendNext(cf, payload, s, rx0, tx0, log0);
      rest' := rest[|chunk|..];
    }

    lemma IsConsecutive(rest: Data, sn: Byte, chunk: Data, cf: Data)
      requires chunk == (if |rest| > 7 then rest[..7] else rest) && cf == [CF + Low(sn)] + chunk
      ensures cf == ConsecutiveFrame(rest, sn) && |chunk| == Min(7, |rest|)
    {
    }

    /** Skips arriving frames until one is Flow Control. */
    method WaitFC(ghost payload: Data, ghost s: Sender, ghost rx0: seq<Frame>, ghost tx0: seq<Frame>,
        ghost log0: seq<Event>)
      returns (fc: Option<Data>, ghost log: seq<Event>)
      requires 1 <= |payload| <= MAX_PAYLOAD
      requires SenderRun(payload, log0) == Some(s) && s.Wants()
      requires Accounts(rx0, tx0, log0)
      modifies this`rx
      ensures Accounts(rx0, tx0, log)
      ensures fc.Some? ==> IsFC(fc.value) && SenderRun(payload, log) == Some(s.Got(fc.value))
      ensures fc.None? ==> rx == [] && SenderRun(payload, log) == Some(s)
    {
      log := log0;
      while rx != []
        invariant SenderRun(payload, log) == Some(s)
        invariant Accounts(rx0, tx0, log)
        decreases |rx|
      {
        ghost var before := log;
        var d: Data;
        d, log := Take(rx0, tx0, log);
        SenderAppend(payload, before, s, Took(d));
        if |d| >= 3 && High(d[0]) == FC {
          return Some(d), log;
        }
      }
      fc := None;
    }

    /** How Recv's verdict follows from the state in which the machine was left. */
    ghost predicate ReceiverEnds(r: Result, log: seq<Event>)
      reads this
    {
      var end := ReceiverRun(cfg, log);
      && end.Some?
      && (r.Ok? <==> end.value.Delivered?)
      && (r.Ok? ==> end.value.payload == r.payload)
      && (r.Err? && r.error !in {TimedOut, BusFailed} <==> end.value.Refused?)
      && (end.value.Refused? ==> r == Err(end.value.error))
      && (r == Err(TimedOut) ==> end.value.Wants() && rx == [])
      && (r == Err(BusFailed) ==> end.value.Replying? && txLeft == 0)
    }

    /** A first frame with high bits 0 is judged alone, by its length, whatever padding follows; so is any other but a
        first frame of a longer message. */
    method Recv() returns (r: Result, ghost log: seq<Event>)
      modifies this`rx, this`tx, this`txLeft
      ensures Accounts(old(rx), old(tx), log) && ReceiverEnds(r, log)
      ensures old(rx) != [] ==>
                var d := old(rx)[0].data;
                && (d == [] ==> r == Err(EmptyFrame))
                && (d != [] && d[0] <= 15 ==>
                      r == if 1 <= d[0] < |d| then Ok(d[1..1 + d[0]]) else Err(InvalidSFLength))
                && (d != [] && 16 <= d[0] <= 31 && |d| == 1 ==> r == Err(FFTooShort))
                && (d != [] && d[0] >= 32 ==> r == Err(UnexpectedFrameType))
    {
      ghost var rx0, tx0 := rx, tx;
      log := [];
      assert Datas(rx) == [] + Datas(rx) && tx == tx + Wrapped(txID, extIDs, []);
      if rx == [] {
        return Err(TimedOut), log;
      }
      var first: Data;
      first, log := Take(rx0, tx0, log);
      ReceiverAppend(cfg, [], Idle, Took(first));
      if |first| == 0 {
        return Err(EmptyFrame), log;
      }
      if High(first[0]) == SF {
        var length := Low(first[0]);
        if length == 0 || length > |first| - 1 {
          return Err(InvalidSFLength), log;
        }
        return Ok(first[1..1 + length]), log;
      } else if High(first[0]) == FF {
        if |first| < 2 {
          return Err(FFTooShort), log;
        }
        r, log := Reassemble(first, rx0, tx0, log);
      } else {
        return Err(UnexpectedFrameType), log;
      }
    }

    method Reassemble(first: Data, ghost rx0: seq<Frame>, ghost tx0: seq<Frame>, ghost log0: seq<Event>)
      returns (r: Result, ghost log: seq<Event>)
      requires |first| >= 2 && High(first[0]) == FF
      requires ReceiverRun(cfg, log0) == Some(Opened(first))
      requires Accounts(rx0, tx0, log0)
      modifies this`rx, this`tx, this`txLeft
      ensures Accounts(rx0, tx0, log) && ReceiverEnds(r, log)
    {
      var length := Low(first[0]) * 0x100 + first[1];
      var ffPayload := first[2..];
      if |ffPayload| > length {
        ffPayload := ffPayload[..length];
      }
      var buf := ffPayload;
      assert buf == first[2..2 + Min(length, |first| - 2)];
      var ok: bool;
      ok, log := Reply(Opened(first), rx0, tx0, log0);
      if !ok {
        return Err(BusFailed), log;
      }

      r, log := CollectRest(length, buf, rx0, tx0, log);
    }

    /** The reassembly loop. */
    method CollectRest(length: nat, buf0: Data, ghost rx0: seq<Frame>, ghost tx0: seq<Frame>, ghost log0: seq<Event>)
      returns (r: Result, ghost log: seq<Event>)
      requires ReceiverRun(cfg, log0) == Some(Loop(length, buf0, 1, 0))
      requires Accounts(rx0, tx0, log0)
      modifies this`rx, this`tx, this`txLeft
      ensures Accounts(rx0, tx0, log) && ReceiverEnds(r, log)
    {
      hide Accounts, ReceiverRun;
      log := log0;
      var buf := buf0;
      var sn: Byte, cfInBlock: nat := 1, 0;
      while |buf| < length
        invariant ReceiverRun(cfg, log) == Some(Loop(length, buf, sn, cfInBlock))
        invariant Accounts(rx0, tx0, log)
        decreases length - |buf|
      {
        ghost var at := Loop(length, buf, sn, cfInBlock);
        var answer: Option<Data>;
        answer, log := RecvCF(at, rx0, tx0, log);
        if answer.None? {
          return Err(TimedOut), log;
        }
        var cf := answer.value;
        if Low(cf[0]) != Low(sn) {
          return Err(UnexpectedSN), log;
        }
        if |cf| < 2 {
          return Err(EmptyCF), log;
        }
        var remaining := length - |buf|;
        var chunk := cf[1..];
        if |chunk| > remaining {
          chunk := chunk[..remaining];
        }
        assert chunk == if |cf| - 1 > remaining then cf[1..1 + remaining] else cf[1..];
        buf, sn := buf + chunk, (sn + 1) % 0x100;
        if cfg.blockSize != 0 {
          cfInBlock := cfInBlock + 1;
          if cfInBlock == cfg.blockSize && |buf| < length {
            cfInBlock := 0;
            var ok: bool;
            ok, log := Reply(Replying(Loop(length, buf, sn, 0)), rx0, tx0, log);
            if !ok {
              return Err(BusFailed), log;
            }
          }
        }
      }
      r := Ok(buf);
    }

    /** Skips arriving frames until one is a consecutive frame. */
    method RecvCF(ghost at: Receiver, ghost rx0: seq<Frame>, ghost tx0: seq<Frame>, ghost log0: seq<Event>)
      returns (cf: Option<Data>, ghost log: seq<Event>)
      requires ReceiverRun(cfg, log0) == Some(at) && at.Collecting?
      requires Accounts(rx0, tx0, log0)
      modifies this`rx
      ensures Accounts(rx0, tx0, log)
      ensures cf.Some? ==> IsCF(cf.value) && at.Valid() && ReceiverRun(cfg, log) == Some(at.Got(cfg, cf.value))
      ensures cf.None? ==> rx == [] && ReceiverRun(cfg, log) == Some(at)
    {
      log := log0;
      while rx != []
        invariant ReceiverRun(cfg, log) == Some(at)
        invariant Accounts(rx0, tx0, log)
        decreases |rx|
      {
        ghost var before := log;
        var d: Data;
        d, log := Take(rx0, tx0, log);
        ReceiverAppend(cfg, before, at, Took(d));
        if |d| > 0 && High(d[0]) == CF {
          return Some(d), log;
        }
      }
      cf := None;
    }
  }
}
