/** The candump line format (recorder/recorder.go): printing, parsing, and the frames a log carries. A time is a
    number of nanoseconds since the epoch. */
module Candump {
  import opened Bits
  import opened Can

  // ----- Numbers in text -----

  /** unicode.IsSpace */
  predicate IsSpace(c: char) {
    var n := c as int;
    9 <= n <= 13 || n == 0x20 || n == 0x85 || n == 0xA0 || n == 0x1680 || 0x2000 <= n <= 0x200A
    || n == 0x2028 || n == 0x2029 || n == 0x202F || n == 0x205F || n == 0x3000
  }

  /** An upper-case digit. */
  function Digit(n: nat): (c: char)
    requires n < 16
    ensures DigitValue(c) == Some(n) && Plain(c)
  {
    (if n < 10 then 48 + n else 55 + n) as char
  }

  /** The value of a digit in either case. */
  function DigitValue(c: char): Option<nat> {
    var n := c as int;
    if 48 <= n <= 57 then Some(n - 48)
    else if 65 <= n <= 70 then Some(n - 55)
    else if 97 <= n <= 102 then Some(n - 87)
    else None
  }

  /** A digit as it is printed, not a blank or any other character the format gives a meaning to. */
  ghost predicate Plain(c: char) {
    DigitValue(c).Some? && !IsSpace(c) && c !in "#.-+" && ('0' <= c <= '9' || 'A' <= c <= 'F')
  }

  ghost predicate Digits(s: string) { forall i :: 0 <= i < |s| ==> Plain(s[i]) }

  lemma DivMod(n: nat, base: nat)
    requires base >= 2
    ensures n == n / base * base + n % base && n % base < base
    ensures n >= base ==> n / base < n
  {
  }

  /** %d and %X of a natural number. */
  function Show(n: nat, base: nat): (s: string)
    requires 2 <= base <= 16
    ensures |s| > 0 && Digits(s)
  {
    DivMod(n, base);
    if n < base then [Digit(n)] else Show(n / base, base) + [Digit(n % base)]
  }

  function Power(base: nat, k: nat): nat { if k == 0 then 1 else base * Power(base, k - 1) }

  /** The k lowest digits. */
  function ShowFixed(n: nat, base: nat, k: nat): (s: string)
    requires 2 <= base <= 16
    ensures |s| == k && Digits(s)
    decreases k
  {
    if k == 0 then "" else ShowFixed(n / base, base, k - 1) + [Digit(n % base)]
  }

  /** The number a string of digits stands for. */
  function Number(s: string, base: nat): Option<nat> {
    if s == [] then Some(0)
    else
      var high, low := Number(s[..|s| - 1], base), DigitValue(s[|s| - 1]);
      if high.Some? && low.Some? && low.value < base then Some(high.value * base + low.value) else None
  }

  lemma NumberAppend(s: string, d: nat, base: nat, high: nat)
    requires 2 <= base <= 16 && d < base && Number(s, base) == Some(high)
    ensures Number(s + [Digit(d)], base) == Some(high * base + d)
  {
  }

  lemma {:induction false} NumberShown(n: nat, base: nat)
    requires 2 <= base <= 16
    ensures Number(Show(n, base), base) == Some(n)
    decreases n
  {
    hide Number, Plain, Digits, Digit;
    DivMod(n, base);
    if n >= base {
      NumberShown(n / base, base);
      NumberAppend(Show(n / base, base), n % base, base, n / base);
    } else {
      EmptyNumber(base);
      NumberAppend([], n, base, 0);
      assert [] + [Digit(n)] == [Digit(n)];
    }
  }

  lemma EmptyNumber(base: nat)
    ensures Number([], base) == Some(0)
  {
  }

  lemma {:induction false} NumberFixed(n: nat, base: nat, k: nat)
    requires 2 <= base <= 16 && n < Power(base, k)
    ensures Number(ShowFixed(n, base, k), base) == Some(n)
    decreases k
  {
    if k == 0 {
    } else {
      assert Power(base, k) == base * Power(base, k - 1);
      DivMod(n, base);
      assert ShowFixed(n, base, k) == ShowFixed(n / base, base, k - 1) + [Digit(n % base)];
      hide *;
      QuotientBound(n, base, Power(base, k - 1));
      NumberFixed(n / base, base, k - 1);
      NumberAppend(ShowFixed(n / base, base, k - 1), n % base, base, n / base);
    }
  }

  lemma QuotientBound(n: nat, base: nat, p: nat)
    requires base > 0 && n < base * p
    ensures n / base < p
  {
  }

  /** strconv.ParseUint(s, 16, 32) */
  function ParseHex32(s: string): Option<Word32> {
    var n := Number(s, 16);
    if s != [] && n.Some? && n.value < 0x1_0000_0000 then Some(n.value) else None
  }

  const MIN_INT64 := -0x8000_0000_0000_0000
  const MAX_INT64 := 0x7FFF_FFFF_FFFF_FFFF

  /** strconv.ParseInt(s, 10, 64) */
  function ParseInt64(s: string): Option<int> {
    var negative := s != [] && s[0] == '-';
    var digits := if s != [] && (s[0] == '-' || s[0] == '+') then s[1..] else s;
    var n := Number(digits, 10);
    if digits == [] || n.None? then None
    else
      var v: int := if negative then -(n.value as int) else n.value;
      if MIN_INT64 <= v <= MAX_INT64 then Some(v) else None
  }

  function ShowInt(v: int): string { if v < 0 then "-" + Show(-v, 10) else Show(v, 10) }

  lemma Int64Shown(v: int)
    requires MIN_INT64 <= v <= MAX_INT64
    ensures ParseInt64(ShowInt(v)) == Some(v)
  {
    var n: nat := if v < 0 then -v else v;
    NumberShown(n, 10);
    assert ("-" + Show(n, 10))[1..] == Show(n, 10);
  }

  // ----- Bytes in text -----

  function HexOf(data: seq<Byte>): (s: string)
    ensures |s| == 2 * |data| && Digits(s)
  {
    if data == [] then ""
    else
      var last := data[|data| - 1] as int;
      HexOf(data[..|data| - 1]) + [Digit(last / 16), Digit(last % 16)]
  }

  /** hex.DecodeString */
  function BytesOf(s: string): (r: Option<seq<Byte>>)
    ensures r.Some? ==> 2 * |r.value| == |s|
  {
    if s == [] then Some([])
    else if |s| == 1 then None
    else
      var front, high, low := BytesOf(s[..|s| - 2]), DigitValue(s[|s| - 2]), DigitValue(s[|s| - 1]);
      if front.Some? && high.Some? && low.Some? && high.value < 16 && low.value < 16
      then Some(front.value + [high.value * 16 + low.value]) else None
  }

  lemma ByteAppend(s: string, front: seq<Byte>, b: Byte)
    requires BytesOf(s) == Some(front)
    ensures BytesOf(s + [Digit((b as int) / 16), Digit((b as int) % 16)]) == Some(front + [b])
  {
    hide Plain, DigitValue;
    var x: int := b;
    var t := s + [Digit(x / 16), Digit(x % 16)];
    assert t[..|t| - 2] == s && t[|t| - 2] == Digit(x / 16) && t[|t| - 1] == Digit(x % 16);
    assert x / 16 * 16 + x % 16 == x;
  }

  lemma {:induction false} HexRoundTrip(data: seq<Byte>)
    ensures BytesOf(HexOf(data)) == Some(data)
    decreases |data|
  {
    if data == [] {
    } else {
      var front, b := data[..|data| - 1], data[|data| - 1];
      assert HexOf(data) == HexOf(front) + [Digit((b as int) / 16), Digit((b as int) % 16)] && front + [b] == data;
      hide *;
      HexRoundTrip(front);
      ByteAppend(HexOf(front), front, b);
    }
  }

  // ----- Splitting -----

  function WordLength(s: string): (n: nat)
    ensures n <= |s| && (forall i :: 0 <= i < n ==> !IsSpace(s[i])) && (n < |s| ==> IsSpace(s[n]))
  {
    if s == [] || IsSpace(s[0]) then 0 else 1 + WordLength(s[1..])
  }

  /** strings.Fields */
  function Fields(s: string): seq<string>
    decreases |s|
  {
    if s == [] then []
    else if IsSpace(s[0]) then Fields(s[1..])
    else [s[..WordLength(s)]] + Fields(s[WordLength(s)..])
  }

  ghost predicate Word(s: string) { s != [] && forall i :: 0 <= i < |s| ==> !IsSpace(s[i]) }

  lemma FieldThen(w: string, rest: string)
    requires Word(w) && (rest != [] ==> IsSpace(rest[0]))
    ensures Fields(w + rest) == [w] + Fields(if rest == [] then [] else rest[1..])
  {
    var s := w + rest;
    WordLengthIs(s, |w|);
    assert s[..|w|] == w && s[|w|..] == rest;
  }

  lemma {:induction false} WordLengthIs(s: string, n: nat)
    requires n <= |s| && (forall i :: 0 <= i < n ==> !IsSpace(s[i])) && (n < |s| ==> IsSpace(s[n]))
    ensures WordLength(s) == n
  {
  }

  lemma BlankIsSpace()
    ensures IsSpace(' ') && Fields([]) == []
  {
  }

  lemma ThreeFields(a: string, b: string, c: string)
    requires Word(a) && Word(b) && Word(c)
    ensures Fields(a + " " + b + " " + c) == [a, b, c]
  {
    hide Fields, IsSpace;
    var rest := " " + b + " " + c;
    BlankIsSpace();
    assert a + " " + b + " " + c == a + rest;
    FieldThen(a, rest);
    assert rest[1..] == b + (" " + c);
    FieldThen(b, " " + c);
    assert (" " + c)[1..] == c == c + [];
    FieldThen(c, []);
  }

  /** strings.Index for one character, and for the same character twice. */
  function IndexOf(s: string, c: char): (i: Option<nat>)
    ensures i.Some? ==> i.value < |s| && s[i.value] == c
  {
    if s == [] then None
    else if s[0] == c then Some(0)
    else
      var i := IndexOf(s[1..], c);
      if i.Some? then Some(i.value + 1) else None
  }

  function IndexOfPair(s: string, c: char): (i: Option<nat>)
    ensures i.Some? ==> i.value + 1 < |s| && s[i.value] == c && s[i.value + 1] == c
  {
    if |s| < 2 then None
    else if s[0] == c && s[1] == c then Some(0)
    else
      var i := IndexOfPair(s[1..], c);
      if i.Some? then Some(i.value + 1) else None
  }

  lemma {:induction false} IndexIs(s: string, c: char, n: nat)
    requires n < |s| && s[n] == c && forall i :: 0 <= i < n ==> s[i] != c
    ensures IndexOf(s, c) == Some(n)
    decreases n
  {
    if n == 0 {
    } else {
      IndexIs(s[1..], c, n - 1);
    }
  }

  lemma {:induction false} PairIs(s: string, c: char, n: nat)
    requires n + 1 < |s| && s[n] == c && s[n + 1] == c && forall i :: 0 <= i < n ==> s[i] != c
    ensures IndexOfPair(s, c) == Some(n)
    decreases n
  {
    if n == 0 {
    } else {
      PairIs(s[1..], c, n - 1);
    }
  }

  lemma {:induction false} NoPair(s: string, c: char, n: nat)
    requires n < |s| && forall i :: 0 <= i < |s| && i != n ==> s[i] != c
    ensures IndexOfPair(s, c) == None
    decreases |s|
  {
  }

  // ----- Printing -----

  const SECOND := 1_000_000_000

  function FrameText(f: Frame): string {
    if f.fd then Show(f.id, 16) + "##" + ShowFixed(if f.brs then 1 else 0, 16, 2) + HexOf(f.data)
    else Show(f.id, 16) + "#" + HexOf(f.data)
  }

  function TimeText(t: int): string { "(" + ShowInt(t / SECOND) + "." + ShowFixed(t % SECOND / 1000, 10, 6) + ")" }

  function FormatLine(iface: string, t: int, f: Frame): string { TimeText(t) + " " + iface + " " + FrameText(f) }

  // ----- Parsing -----

  datatype Parsed = Line(iface: string, time: int, frame: Frame) | Malformed

  function Six(frac: string): (s: string)
    ensures |s| == 6
  {
    if |frac| >= 6 then frac[..6] else frac + seq(6 - |frac|, _ => '0')
  }

  function ParseTime(s: string): Option<int> {
    if |s| < 2 || s[0] != '(' || s[|s| - 1] != ')' then None
    else
      var inner := s[1..|s| - 1];
      var dot := IndexOf(inner, '.');
      var sec := ParseInt64(if dot.Some? then inner[..dot.value] else inner);
      var usec := if dot.Some? then ParseInt64(Six(inner[dot.value + 1..])) else Some(0);
      if sec.Some? && usec.Some? then Some(sec.value * SECOND + usec.value * 1000) else None
  }

  const ZERO_FRAME := Classic(0, false, [])

  function ParseFD(id: Option<Word32>, rest: string): Option<Frame> {
    if id.None? || |rest| < 2 then None
    else
      var flags, data := BytesOf(rest[..2]), BytesOf(rest[2..]);
      if flags.Some? && data.Some?
      then Some(ZERO_FRAME.(id := id.value, fd := true, brs := flags.value[0] % 2 == 1, data := data.value)) else None
  }

  function ParseClassic(id: Option<Word32>, text: string): Option<Frame> {
    var data := BytesOf(text);
    if id.Some? && data.Some? then Some(Classic(id.value, id.value > MAX_STD_ID, data.value)) else None
  }

  function ParseFrame(s: string): Option<Frame> {
    var pair, one := IndexOfPair(s, '#'), IndexOf(s, '#');
    if pair.Some? then ParseFD(ParseHex32(s[..pair.value]), s[pair.value + 2..])
    else if one.Some? then ParseClassic(ParseHex32(s[..one.value]), s[one.value + 1..])
    else None
  }

  function Parse(line: string): Parsed {
    var parts := Fields(line);
    if |parts| != 3 then Malformed
    else
      var t, f := ParseTime(parts[0]), ParseFrame(parts[2]);
      if t.Some? && f.Some? then Line(parts[1], t.value, f.value) else Malformed
  }

  /** The padding loop: six digits of microseconds. */
  method PadOrCut(digits: string) returns (frac: string)
    ensures frac == Six(digits)
  {
    frac := digits;
    while |frac| < 6
      invariant |digits| >= 6 ==> frac == digits
      invariant |digits| <= 6 ==> |digits| <= |frac| <= 6 && frac == digits + seq(|frac| - |digits|, _ => '0')
      decreases 6 - |frac|
    {
      frac := frac + ['0'];
    }
    frac := frac[..6];
  }

  /** The third field: ID##FLAGSDATA or ID#DATA, the frame filled in step by step. */
  method ParseFrameText(text: string) returns (f: Frame, ok: bool)
    ensures ParseFrame(text) == if ok then Some(f) else None
  {
    hide BytesOf, ParseHex32, IndexOf, IndexOfPair;
    f, ok := ZERO_FRAME, false;
    var idx := IndexOfPair(text, '#');
    if idx.Some? {
      var rest := text[idx.value + 2..];
      var id := ParseHex32(text[..idx.value]);
      if id.None? {
        return;
      }
      f := f.(id := id.value, fd := true);
      if |rest| < 2 {
        return;
      }
      var flags := BytesOf(rest[..2]);
      if flags.None? {
        return;
      }
      f := f.(brs := flags.value[0] % 2 == 1);
      if |rest| > 2 {
        var data := BytesOf(rest[2..]);
        if data.None? {
          return;
        }
        f := f.(data := data.value);
      } else {
        NoBytes(rest[2..]);
      }
    } else {
      idx := IndexOf(text, '#');
      if idx.None? {
        return;
      }
      var data := text[idx.value + 1..];
      var id := ParseHex32(text[..idx.value]);
      if id.None? {
        return;
      }
      f := f.(id := id.value);
      if f.id > MAX_STD_ID {
        f := f.(ext := true);
      }
      if data != "" {
        var bytes := BytesOf(data);
        if bytes.None? {
          return;
        }
        f := f.(data := bytes.value);
      } else {
        NoBytes(data);
      }
    }
    ok := true;
  }

  lemma NoBytes(s: string)
    requires s == []
    ensures BytesOf(s) == Some([])
  {
  }

  /** ParseLine fills its results step by step. */
  method ParseLine(line: string) returns (r: Parsed)
    ensures r == Parse(line)
  {
    hide Fields, ParseFrame, ParseInt64, IndexOf, Six;
    var parts := Fields(line);
    if |parts| != 3 {
      return Malformed;
    }
    var text := parts[0];
    if |text| < 2 || text[0] != '(' || text[|text| - 1] != ')' {
      return Malformed;
    }
    text := text[1..|text| - 1];
    var dot := IndexOf(text, '.');
    var sec, usec: Option<int> := None, Some(0);
    if dot.None? {
      sec := ParseInt64(text);
    } else {
      sec := ParseInt64(text[..dot.value]);
      var frac := PadOrCut(text[dot.value + 1..]);
      usec := ParseInt64(frac);
    }
    if sec.None? || usec.None? {
      return Malformed;
    }
    var f, ok := ParseFrameText(parts[2]);
    if !ok {
      return Malformed;
    }
    r := Line(parts[1], sec.value * SECOND + usec.value * 1000, f);
  }

  // ----- Round trip -----

  /** What a line carries of a frame. */
  function Carried(f: Frame): Frame {
    if f.fd then Frame(f.id, false, false, true, f.brs, false, false, 0, 0, 0, false, f.data)
    else Classic(f.id, f.id > MAX_STD_ID, f.data)
  }

  predicate Representable(f: Frame) {
    && !f.rtr && !f.esi && !f.xl && f.sdt == 0 && f.vcid == 0 && f.af == 0 && !f.sec
    && (if f.fd then !f.ext else !f.brs && (f.ext <==> f.id > MAX_STD_ID))
  }

  lemma CarriedIsSame(f: Frame)
    ensures Carried(f) == f <==> Representable(f)
  {
  }

  lemma HexID(id: Word32)
    ensures ParseHex32(Show(id, 16)) == Some(id)
  {
    NumberShown(id, 16);
  }

  lemma FlagsText(brs: bool)
    ensures var s := ShowFixed(if brs then 1 else 0, 16, 2);
            BytesOf(s) == Some([if brs then 1 else 0])
  {
    var n: Byte := if brs then 1 else 0;
    var s := ShowFixed(n, 16, 2);
    assert s == [Digit(0), Digit(n)];
    assert HexOf([n]) == [Digit(0), Digit(n)];
    HexRoundTrip([n]);
  }

  lemma FDText(f: Frame)
    requires f.fd
    ensures ParseFrame(FrameText(f)) == Some(Carried(f)) && Word(FrameText(f))
  {
    hide Show, ShowFixed, HexOf, BytesOf, IndexOf, IndexOfPair, ParseHex32, DigitValue;
    var id, flags, data := Show(f.id, 16), ShowFixed(if f.brs then 1 else 0, 16, 2), HexOf(f.data);
    var s := FrameText(f);
    assert s == id + "##" + flags + data;
    PairIs(s, '#', |id|);
    assert s[..|id|] == id && s[|id| + 2..] == flags + data;
    assert (flags + data)[..2] == flags && (flags + data)[2..] == data;
    HexID(f.id);
    FlagsText(f.brs);
    HexRoundTrip(f.data);
  }

  lemma ClassicText(f: Frame)
    requires !f.fd
    ensures ParseFrame(FrameText(f)) == Some(Carried(f)) && Word(FrameText(f))
  {
    hide Show, HexOf, BytesOf, IndexOf, IndexOfPair, ParseHex32, DigitValue;
    var id, data := Show(f.id, 16), HexOf(f.data);
    var s := FrameText(f);
    assert s == id + "#" + data;
    NoPair(s, '#', |id|);
    IndexIs(s, '#', |id|);
    assert s[..|id|] == id && s[|id| + 1..] == data;
    HexID(f.id);
    HexRoundTrip(f.data);
  }

  predicate Unix(t: int) { MIN_INT64 <= t / SECOND <= MAX_INT64 }

  lemma PlainInt(v: int)
    ensures Word(ShowInt(v)) && '.' !in ShowInt(v)
  {
  }

  lemma TimeRoundTrip(t: int)
    requires Unix(t)
    ensures ParseTime(TimeText(t)) == Some(t - t % 1000) && Word(TimeText(t))
  {
    hide ShowInt, ShowFixed, IndexOf, ParseInt64, DigitValue;
    var sec, frac, s := ShowInt(t / SECOND), ShowFixed(t % SECOND / 1000, 10, 6), TimeText(t);
    var inner := sec + "." + frac;
    PlainInt(t / SECOND);
    assert s == "(" + inner + ")" && s[1..|s| - 1] == inner;
    IndexIs(inner, '.', |sec|);
    assert inner[..|sec|] == sec && inner[|sec| + 1..] == frac && frac[..6] == frac;
    Int64Shown(t / SECOND);
    MicrosShown(t % SECOND / 1000);
    Truncated(t);
  }

  lemma MicrosShown(n: nat)
    requires n < 1_000_000
    ensures ParseInt64(ShowFixed(n, 10, 6)) == Some(n)
  {
    assert Power(10, 6) == 1_000_000;
    NumberFixed(n, 10, 6);
  }

  lemma Truncated(t: int)
    ensures t / SECOND * SECOND + t % SECOND / 1000 * 1000 == t - t % 1000
  {
  }

  /** Parsing a printed line gives the interface, the time truncated to microseconds and what the line carries of the
      frame: the frame itself exactly when it is representable. */
  lemma LineRoundTrip(iface: string, t: int, f: Frame)
    requires Word(iface) && Unix(t)
    ensures Parse(FormatLine(iface, t, f)) == Line(iface, t - t % 1000, Carried(f))
    ensures Parse(FormatLine(iface, t, f)) == Line(iface, t - t % 1000, f) <==> Representable(f)
  {
    hide TimeText, FrameText, ParseTime, ParseFrame, Carried, Representable, Word;
    TimeRoundTrip(t);
    if f.fd {
      FDText(f);
    } else {
      ClassicText(f);
    }
    ThreeFields(TimeText(t), iface, FrameText(f));
    CarriedIsSame(f);
  }

  lemma ParsedIsRepresentable(text: string)
    ensures ParseFrame(text).Some? ==> Representable(ParseFrame(text).value)
  {
    hide IndexOf, IndexOfPair, ParseHex32, BytesOf;
  }

  lemma {:induction false} FieldsAreWords(s: string)
    ensures forall i :: 0 <= i < |Fields(s)| ==> Word(Fields(s)[i])
    decreases |s|
  {
    if s == [] {
    } else if IsSpace(s[0]) {
      FieldsAreWords(s[1..]);
    } else {
      FieldsAreWords(s[WordLength(s)..]);
    }
  }

  /** Every line that parses means what its printed form means: printing its parts again and parsing them gives the
      same parts, whatever case, blanks, leading zeros or flags the line had. */
  lemma Reprint(line: string)
    requires Parse(line).Line? && Unix(Parse(line).time)
    ensures Parse(FormatLine(Parse(line).iface, Parse(line).time, Parse(line).frame)) == Parse(line)
  {
    hide FormatLine, Representable, Unix, ParseFrame, Fields, Word, ParseInt64, IndexOf;
    var p := Parse(line);
    FieldsAreWords(line);
    ParsedIsRepresentable(Fields(line)[2]);
    assert p.time % 1000 == 0;
    LineRoundTrip(p.iface, p.time, p.frame);
  }

  // ----- Logs -----

  function TrimLeft(s: string): string { if s != [] && IsSpace(s[0]) then TrimLeft(s[1..]) else s }

  function TrimRight(s: string): string { if s != [] && IsSpace(s[|s| - 1]) then TrimRight(s[..|s| - 1]) else s }

  /** The frame a line of a log is replayed as; blank lines, comments and malformed lines are skipped. */
  function Replayed(line: string): seq<Frame> {
    var s := TrimRight(TrimLeft(line));
    if s == [] || s[0] == '#' || Parse(s).Malformed? then [] else [Parse(s).frame]
  }

  function ReplayedAll(lines: seq<string>): seq<Frame> {
    if lines == [] then [] else ReplayedAll(lines[..|lines| - 1]) + Replayed(lines[|lines| - 1])
  }

  function Prefix<T>(s: seq<T>, n: nat): seq<T> { if n < |s| then s[..n] else s }

  /** Replay, on a bus that takes sends frames and then fails. */
  method Replay(lines: seq<string>, sends: nat) returns (sent: seq<Frame>, ok: bool)
    ensures sent == Prefix(ReplayedAll(lines), sends)
    ensures ok <==> |ReplayedAll(lines)| <= sends
  {
    hide Parse, TrimLeft, TrimRight, ReplayedAll;
    sent := [];
    NothingReplayed();
    assert lines[..0] == [];
    for i := 0 to |lines|
      invariant sent == ReplayedAll(lines[..i]) && |sent| <= sends
    {
      ReplayedNext(lines, i);
      Longer(lines, i + 1);
      var line := TrimRight(TrimLeft(lines[i]));
      if line == "" || line[0] == '#' {
        continue;
      }
      var p := ParseLine(line);
      if p.Malformed? {
        continue;
      }
      if |sent| == sends {
        return sent, false;
      }
      sent := sent + [p.frame];
    }
    assert lines[..|lines|] == lines;
    ok := true;
  }

  lemma NothingReplayed()
    ensures ReplayedAll([]) == []
  {
  }

  lemma ReplayedNext(lines: seq<string>, i: nat)
    requires i < |lines|
    ensures ReplayedAll(lines[..i + 1]) == ReplayedAll(lines[..i]) + Replayed(lines[i])
  {
    hide Replayed;
    assert lines[..i + 1][..i] == lines[..i];
  }

  lemma {:induction false} Longer(lines: seq<string>, i: nat)
    requires i <= |lines|
    ensures ReplayedAll(lines[..i]) <= ReplayedAll(lines)
    decreases |lines|
  {
    if i == |lines| {
      assert lines[..i] == lines;
    } else {
      Longer(lines[..|lines| - 1], i);
      assert lines[..|lines| - 1][..i] == lines[..i];
    }
  }

  /** Record, for frames received at given times. */
  method Record(iface: string, times: seq<int>, frames: seq<Frame>) returns (lines: seq<string>)
    requires |times| == |frames|
    ensures |lines| == |frames| && forall i :: 0 <= i < |lines| ==> lines[i] == FormatLine(iface, times[i], frames[i])
    ensures Word(iface) && (forall i :: 0 <= i < |times| ==> Unix(times[i])) ==> IsLog(iface, times, frames, lines)
  {
    hide FormatLine;
    lines := [];
    for i := 0 to |frames|
      invariant |lines| == i && forall j :: 0 <= j < i ==> lines[j] == FormatLine(iface, times[j], frames[j])
    {
      lines := lines + [FormatLine(iface, times[i], frames[i])];
    }
  }

  lemma FormattedIsTrimmed(iface: string, t: int, f: Frame)
    requires Word(iface) && Unix(t)
    ensures var s := FormatLine(iface, t, f); s != [] && s[0] == '(' && TrimRight(TrimLeft(s)) == s
  {
  }

  lemma LineReplayed(iface: string, t: int, f: Frame)
    requires Word(iface) && Unix(t)
    ensures Replayed(FormatLine(iface, t, f)) == [Carried(f)]
  {
    hide FormatLine, Parse, Carried, Representable, Unix, Word, TrimLeft, TrimRight;
    LineRoundTrip(iface, t, f);
    FormattedIsTrimmed(iface, t, f);
  }

  function CarriedAll(frames: seq<Frame>): (r: seq<Frame>)
    ensures |r| == |frames| && forall i :: 0 <= i < |frames| ==> r[i] == Carried(frames[i])
  {
    if frames == [] then [] else CarriedAll(frames[..|frames| - 1]) + [Carried(frames[|frames| - 1])]
  }

  ghost predicate IsLog(iface: string, times: seq<int>, frames: seq<Frame>, lines: seq<string>) {
    && Word(iface) && |times| == |frames| == |lines|
    && forall i :: 0 <= i < |times| ==> Unix(times[i]) && lines[i] == FormatLine(iface, times[i], frames[i])
  }

  /** Replaying a recorded log sends what its lines carry of the recorded frames, in order. */
  lemma {:induction false} LogRoundTrip(iface: string, times: seq<int>, frames: seq<Frame>, lines: seq<string>)
    requires IsLog(iface, times, frames, lines)
    ensures ReplayedAll(lines) == CarriedAll(frames)
    decreases |lines|
  {
    hide FormatLine, Replayed, Carried, Unix, Word;
    if lines == [] {
    } else {
      var n := |lines| - 1;
      LogRoundTrip(iface, times[..n], frames[..n], lines[..n]);
      LineReplayed(iface, times[n], frames[n]);
    }
  }

  /** The log brings back exactly the recorded frames when, and only when, all of them are representable. */
  lemma LogIsExact(iface: string, times: seq<int>, frames: seq<Frame>, lines: seq<string>)
    requires IsLog(iface, times, frames, lines)
    ensures ReplayedAll(lines) == frames <==> forall i :: 0 <= i < |frames| ==> Representable(frames[i])
  {
    hide FormatLine, ReplayedAll, Carried, Representable, IsLog;
    LogRoundTrip(iface, times, frames, lines);
    forall i | 0 <= i < |frames| ensures CarriedAll(frames)[i] == frames[i] <==> Representable(frames[i]) {
      CarriedIsSame(frames[i]);
    }
  }
}
