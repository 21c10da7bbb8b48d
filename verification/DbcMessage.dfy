/** Whole messages: encoding a map of signals in any order, and decoding it back (dbc/encode.go, dbc/parser.go). */
module DbcMessage {
  import opened Bits
  import opened Can
  import opened DbcBits
  import opened Dbc

  datatype Message = Message(dlc: nat, signals: map<string, Signal>) {
    ghost predicate Valid() { forall name :: name in signals ==> signals[name].Valid() }
  }

  datatype Result<T> = Ok(value: T) | UnknownMessage | UnknownSignal(name: string)

  // ----- Encoding -----

  /** A given signal lays a one at position p. */
  ghost predicate Lays(msg: Message, values: map<string, real>, beyond: int -> int, name: string, p: nat)
    requires msg.Valid() && values.Keys <= msg.signals.Keys
  {
    name in values &&
    var sig := msg.signals[name];
    Laid(sig.layout, PhysicalToRaw(values[name], sig, beyond), sig.layout.length, p)
  }

  /** A signal of names lays a one at position p. */
  ghost predicate SetBy(msg: Message, values: map<string, real>, beyond: int -> int, names: set<string>, p: nat)
    requires msg.Valid() && values.Keys <= msg.signals.Keys && names <= values.Keys
  {
    exists name :: name in names && Lays(msg, values, beyond, name, p)
  }

  /** Every bit of the payload is set by some signal of names, or clear. */
  ghost predicate Image(data: seq<Byte>, msg: Message, values: map<string, real>, beyond: int -> int,
      names: set<string>)
    requires msg.Valid() && values.Keys <= msg.signals.Keys && names <= values.Keys
  {
    |data| == msg.dlc && forall p: nat :: p / 8 < msg.dlc ==> (BitAt(data, p) <==> SetBy(msg, values, beyond, names, p))
  }

  lemma EmptyImage(data: seq<Byte>, msg: Message, values: map<string, real>, beyond: int -> int)
    requires msg.Valid() && values.Keys <= msg.signals.Keys
    requires |data| == msg.dlc && forall i :: 0 <= i < |data| ==> data[i] == 0
    ensures Image(data, msg, values, beyond, {})
  {
    forall p: nat | p / 8 < msg.dlc ensures !BitAt(data, p) {
      BitOfZero(p % 8);
    }
  }

  lemma GrowImage(before: seq<Byte>, after: seq<Byte>, msg: Message, values: map<string, real>, beyond: int -> int,
                  names: set<string>, name: string)
    requires msg.Valid() && values.Keys <= msg.signals.Keys && names <= values.Keys && name in values
    requires Image(before, msg, values, beyond, names)
    requires var sig := msg.signals[name];
             Packed(before, after, sig.layout, PhysicalToRaw(values[name], sig, beyond), sig.layout.length)
    ensures Image(after, msg, values, beyond, names + {name})
  {
    hide PhysicalToRaw, Laid;
    var sig := msg.signals[name];
    var raw := PhysicalToRaw(values[name], sig, beyond);
    forall p: nat | p / 8 < msg.dlc
      ensures SetBy(msg, values, beyond, names + {name}, p) <==>
              SetBy(msg, values, beyond, names, p) || Laid(sig.layout, raw, sig.layout.length, p)
    {
    }
  }

  /** db.Encode: the map is walked in no particular order. */
  method Encode(db: map<Word32, Message>, id: Word32, values: map<string, real>, beyond: int -> int)
    returns (r: Result<seq<Byte>>)
    requires forall m :: m in db ==> db[m].Valid()
    ensures r == UnknownMessage <==> id !in db
    ensures r.UnknownSignal? <==> id in db && !(values.Keys <= db[id].signals.Keys)
    ensures r.UnknownSignal? ==> r.name in values && r.name !in db[id].signals
    ensures r.Ok? ==> Image(r.value, db[id], values, beyond, values.Keys)
  {
    if id !in db {
      return UnknownMessage;
    }
    var msg := db[id];
    var names := values.Keys;
    while names != {}
      invariant names <= values.Keys && values.Keys - names <= msg.signals.Keys
      decreases |names|
    {
      var name :| name in names;
      if name !in msg.signals {
        return UnknownSignal(name);
      }
      names := names - {name};
    }
    var data := PackAll(msg, values, beyond);
    r := Ok(data);
  }

  /** The packing loop. */
  method PackAll(msg: Message, values: map<string, real>, beyond: int -> int) returns (payload: seq<Byte>)
    requires msg.Valid() && values.Keys <= msg.signals.Keys
    ensures Image(payload, msg, values, beyond, values.Keys)
  {
    hide Image, PhysicalToRaw, Packed;
    var data := new Byte[msg.dlc](_ => 0);
    var names := values.Keys;
    EmptyImage(data[..], msg, values, beyond);
    assert values.Keys - names == {};
    while names != {}
      invariant names <= values.Keys
      invariant Image(data[..], msg, values, beyond, values.Keys - names)
      decreases |names|
    {
      var name :| name in names;
      var sig := msg.signals[name];
      ghost var before, done := data[..], values.Keys - names;
      var raw := PhysicalToRaw(values[name], sig, beyond);
      PackRaw(data, raw, sig.layout);
      GrowImage(before, data[..], msg, values, beyond, done, name);
      names := names - {name};
      assert values.Keys - names == done + {name};
    }
    assert values.Keys - {} == values.Keys;
    payload := data[..];
  }

  lemma BitsOfByte(x: Byte, y: Byte)
    requires forall k :: 0 <= k < 8 ==> Bit(x, k) == Bit(y, k)
    ensures x == y
  {
    assert Pow2(8) == 0x100;
    BitsInjective(x, y, 8);
  }

  /** Whatever order the map was walked in, the payload is the same. */
  lemma OrderIrrelevant(a: seq<Byte>, b: seq<Byte>, msg: Message, values: map<string, real>, beyond: int -> int)
    requires msg.Valid() && values.Keys <= msg.signals.Keys
    requires Image(a, msg, values, beyond, values.Keys) && Image(b, msg, values, beyond, values.Keys)
    ensures a == b
  {
    hide SetBy;
    forall i | 0 <= i < msg.dlc ensures a[i] == b[i] {
      forall k | 0 <= k < 8 ensures Bit(a[i], k) == Bit(b[i], k) {
        var p := 8 * i + k;
        assert p / 8 == i && p % 8 == k;
        assert BitAt(a, p) == BitAt(b, p);
      }
      BitsOfByte(a[i], b[i]);
    }
  }

  // ----- Decoding -----

  /** The raw value the loop of extractRaw has after n steps. */
  ghost function RawAfter(data: seq<Byte>, l: Layout, n: nat): (raw: nat)
    requires n <= l.length
    ensures Extracted(data, raw, l, n)
    decreases n
  {
    if n == 0 then
      ExtractedNothing(data, l);
      0
    else
      var raw := RawAfter(data, l, n - 1);
      ExtractStep(data, raw, l, n - 1);
      if BitAt(data, Walk(l, n - 1)) then SetBit(raw, ValueBit(l, n - 1)) else raw
  }

  ghost function RawAt(data: seq<Byte>, l: Layout): nat { RawAfter(data, l, l.length) }

  lemma ReadsAs(data: seq<Byte>, l: Layout, raw: nat)
    requires Extracted(data, raw, l, l.length)
    ensures raw == RawAt(data, l)
  {
    ExtractedIsUnique(data, l, raw, RawAt(data, l));
  }

  /** Signal.Decode */
  method DecodeSignal(data: seq<Byte>, sig: Signal) returns (v: real)
    requires sig.Valid()
    ensures v == Physical(Value(RawAt(data, sig.layout), sig), sig)
  {
    hide Pow2, Bit, Wrap64, Shl64, Extracted, RawAt;
    var raw := ExtractRaw(data, sig.layout);
    ReadsAs(data, sig.layout, raw);
    var k: int := raw;
    if sig.signed {
      k := Wrap64(raw);
      if Bit(raw, sig.layout.length - 1) {
        k := Wrap64(Wrap64(raw) - Shl64(sig.layout.length));
      }
    }
    v := k as real * sig.factor + sig.offset;
  }

  /** A value for every signal: the one its bits stand for. */
  ghost predicate Decoded(msg: Message, data: seq<Byte>, result: map<string, real>)
    requires msg.Valid()
  {
    result.Keys == msg.signals.Keys && forall name :: name in msg.signals ==>
      var sig := msg.signals[name]; result[name] == Physical(Value(RawAt(data, sig.layout), sig), sig)
  }

  /** db.Decode: nothing for an unknown message, otherwise all its signals. */
  method Decode(db: map<Word32, Message>, id: Word32, data: seq<Byte>) returns (r: Option<map<string, real>>)
    requires forall m :: m in db ==> db[m].Valid()
    ensures r.None? <==> id !in db
    ensures r.Some? ==> Decoded(db[id], data, r.value)
  {
    if id !in db {
      return None;
    }
    var signals := db[id].signals;
    var names, result: map<string, real> := signals.Keys, map[];
    while names != {}
      invariant names <= signals.Keys && result.Keys == signals.Keys - names
      invariant forall name :: name in result ==>
                  result[name] == Physical(Value(RawAt(data, signals[name].layout), signals[name]), signals[name])
      decreases |names|
    {
      var name :| name in names;
      var v := DecodeSignal(data, signals[name]);
      result := result[name := v];
      names := names - {name};
    }
    r := Some(result);
  }

  // ----- Round trip -----

  /** The raw value a signal is given: zero if it is not set. */
  function RawOf(msg: Message, values: map<string, real>, beyond: int -> int, name: string): nat
    requires msg.Valid() && values.Keys <= msg.signals.Keys && name in msg.signals
  {
    if name in values then PhysicalToRaw(values[name], msg.signals[name], beyond) else 0
  }

  /** The signal's own one bits lie inside the payload, and where it has a zero no other given signal lays a one. */
  ghost predicate Undisturbed(msg: Message, values: map<string, real>, beyond: int -> int, name: string)
    requires msg.Valid() && values.Keys <= msg.signals.Keys && name in msg.signals
  {
    var l, raw := msg.signals[name].layout, RawOf(msg, values, beyond, name);
    && (forall t :: 0 <= t < l.length && Bit(raw, ValueBit(l, t)) ==> Walk(l, t) / 8 < msg.dlc)
    && (forall t, other :: 0 <= t < l.length && other != name && Lays(msg, values, beyond, other, Walk(l, t)) ==>
          Walk(l, t) / 8 >= msg.dlc || Bit(raw, ValueBit(l, t)))
  }

  lemma RawFits(msg: Message, values: map<string, real>, beyond: int -> int, name: string)
    requires msg.Valid() && values.Keys <= msg.signals.Keys && name in msg.signals
    ensures RawOf(msg, values, beyond, name) < Pow2(msg.signals[name].layout.length)
  {
    hide PhysicalToRaw;
    if name in values {
      DecodedIs(values[name], msg.signals[name], beyond);
    }
  }

  /** What the payload holds where step t of a signal goes: its own bit, or another's. */
  lemma BitOnPath(data: seq<Byte>, msg: Message, values: map<string, real>, beyond: int -> int, name: string, t: nat)
    requires msg.Valid() && values.Keys <= msg.signals.Keys && name in msg.signals
        && t < msg.signals[name].layout.length
    requires Image(data, msg, values, beyond, values.Keys)
    ensures var l := msg.signals[name].layout;
            var p := Walk(l, t);
            BitAt(data, p) <==>
              p / 8 < msg.dlc && (Bit(RawOf(msg, values, beyond, name), ValueBit(l, t))
                                  || exists other :: other != name && Lays(msg, values, beyond, other, p))
  {
    hide PhysicalToRaw;
    var l := msg.signals[name].layout;
    var p := Walk(l, t);
    WalkIsPath(l, t, p);
    BitOfZero(ValueBit(l, t));
    assert Lays(msg, values, beyond, name, p) <==> Bit(RawOf(msg, values, beyond, name), ValueBit(l, t));
  }

  /** In any message, however its signals overlap, a signal reads back the raw value it was given exactly when it is
      undisturbed. */
  lemma RawRoundTripIff(data: seq<Byte>, msg: Message, values: map<string, real>, beyond: int -> int, name: string)
    requires msg.Valid() && values.Keys <= msg.signals.Keys && name in msg.signals
    requires Image(data, msg, values, beyond, values.Keys)
    ensures RawAt(data, msg.signals[name].layout) == RawOf(msg, values, beyond, name)
       <==> Undisturbed(msg, values, beyond, name)
  {
    hide RawOf, Lays, Image, Walk, ValueBit, Bit, BitAt;
    var l, raw := msg.signals[name].layout, RawOf(msg, values, beyond, name);
    RawFits(msg, values, beyond, name);
    forall t: nat | t < l.length
      ensures BitAt(data, Walk(l, t)) <==>
                Walk(l, t) / 8 < msg.dlc
                && (Bit(raw, ValueBit(l, t))
                    || exists other :: other != name && Lays(msg, values, beyond, other, Walk(l, t)))
    {
      BitOnPath(data, msg, values, beyond, name, t);
    }
    assert Extracted(data, RawAt(data, l), l, l.length);
    if Undisturbed(msg, values, beyond, name) {
      ExtractedIsUnique(data, l, RawAt(data, l), raw);
    }
  }

  /** No two signals of a message share a bit, and each lies inside the payload. */
  ghost predicate WellPlaced(msg: Message) {
    && (forall name, t :: name in msg.signals && 0 <= t < msg.signals[name].layout.length ==>
          Walk(msg.signals[name].layout, t) / 8 < msg.dlc)
    && (forall a, b, p: nat :: a in msg.signals && b in msg.signals && a != b ==>
          StepAt(msg.signals[a].layout, p).None? || StepAt(msg.signals[b].layout, p).None?)
  }

  /** Then, whatever the values, each signal reads its own raw value, and zero if it was not set. */
  lemma RawRoundTrip(data: seq<Byte>, msg: Message, values: map<string, real>, beyond: int -> int, name: string)
    requires msg.Valid() && values.Keys <= msg.signals.Keys && WellPlaced(msg) && name in msg.signals
    requires Image(data, msg, values, beyond, values.Keys)
    ensures RawAt(data, msg.signals[name].layout) == RawOf(msg, values, beyond, name)
  {
    hide PhysicalToRaw, Walk;
    var l := msg.signals[name].layout;
    forall t, other | 0 <= t < l.length && other != name ensures !Lays(msg, values, beyond, other, Walk(l, t)) {
      WalkIsPath(l, t, Walk(l, t));
    }
    RawRoundTripIff(data, msg, values, beyond, name);
  }

  /** Overlap does harm: a one bit of one signal on the path of another makes that other one, unset, read something
      else than zero. */
  lemma OverlapLeaks(data: seq<Byte>, msg: Message, values: map<string, real>, beyond: int -> int, a: string,
      b: string, t: nat)
    requires msg.Valid() && values.Keys <= msg.signals.Keys && a in values && b in msg.signals && b !in values
    requires Image(data, msg, values, beyond, values.Keys)
    requires var l := msg.signals[b].layout;
             t < l.length && Walk(l, t) / 8 < msg.dlc && Lays(msg, values, beyond, a, Walk(l, t))
    ensures RawAt(data, msg.signals[b].layout) != 0
  {
    hide PhysicalToRaw, Laid;
    BitOfZero(ValueBit(msg.signals[b].layout, t));
    RawRoundTripIff(data, msg, values, beyond, b);
  }

  /** Encoding and decoding an undisturbed signal: a value it can carry comes back exactly, any other one as a nearest
      value if the conversion is sound, and an unset signal as its offset. */
  lemma MessageRoundTrip(data: seq<Byte>, msg: Message, values: map<string, real>, beyond: int -> int, name: string)
    requires msg.Valid() && values.Keys <= msg.signals.Keys && name in msg.signals
    requires Image(data, msg, values, beyond, values.Keys) && Undisturbed(msg, values, beyond, name)
    ensures var sig := msg.signals[name];
            var k := Value(RawAt(data, sig.layout), sig);
            && (name !in values ==> Physical(k, sig) == sig.offset)
            && (name in values ==>
                  (Nearest(k, sig, values[name]) <==> Converts(Rounded(values[name], sig), sig, beyond)))
            && (name in values && (exists j :: Representable(j, sig) && Physical(j, sig) == values[name]) ==>
                  Physical(k, sig) == values[name])
  {
    var sig := msg.signals[name];
    RawRoundTripIff(data, msg, values, beyond, name);
    hide Undisturbed, Image, Nearest, Converts, PhysicalToRaw, RawAt;
    if name in values {
      EncodingIsOptimal(values[name], sig, beyond);
      if j :| Representable(j, sig) && Physical(j, sig) == values[name] {
        ExactValue(j, sig);
      }
    } else {
      ZeroValue(sig);
    }
  }

  lemma ExactValue(j: int, sig: Signal)
    requires sig.Valid()
    ensures Rounded(Physical(j, sig), sig) == j
  {
    var v, f := Physical(j, sig), sig.factor;
    var x := (v - sig.offset) / f;
    assert x * f == j as real * f;
    assert x == j as real;
  }

  lemma ZeroValue(sig: Signal)
    requires sig.Valid()
    ensures Value(0, sig) == 0
  {
    hide Pow2;
    BitOfZero(sig.layout.length - 1);
    RangeFits(1);
    WrapIs(0, 0, 0);
  }
}
