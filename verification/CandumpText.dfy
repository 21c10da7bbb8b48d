/** Candump lines that the printer does not make, or that are published as examples: what the parser takes them for. */
module CandumpText {
  import opened Bits
  import opened Can
  import opened Candump

  // ----- Case -----

  function Lower(c: char): char { if 'A' <= c <= 'Z' then c + 32 as char else c }

  function Lowered(s: string): (t: string)
    ensures |t| == |s|
  {
    seq(|s|, i requires 0 <= i < |s| => Lower(s[i]))
  }

  lemma LowerDigit(c: char)
    ensures DigitValue(Lower(c)) == DigitValue(c) && (Lower(c) == '#' <==> c == '#')
  {
  }

  lemma {:induction false} LowerNumber(s: string, base: nat)
    ensures Number(Lowered(s), base) == Number(s, base)
    decreases |s|
  {
    if s == [] {
    } else {
      LowerDigit(s[|s| - 1]);
      LowerNumber(s[..|s| - 1], base);
      assert Lowered(s)[..|s| - 1] == Lowered(s[..|s| - 1]);
    }
  }

  lemma {:induction false} LowerBytes(s: string)
    ensures BytesOf(Lowered(s)) == BytesOf(s)
    decreases |s|
  {
    if |s| >= 2 {
      LowerDigit(s[|s| - 2]);
      LowerDigit(s[|s| - 1]);
      LowerBytes(s[..|s| - 2]);
      assert Lowered(s)[..|s| - 2] == Lowered(s[..|s| - 2]);
    } else {
      assert s == [] <==> Lowered(s) == [];
    }
  }

  lemma {:induction false} LowerIndex(s: string)
    ensures IndexOf(Lowered(s), '#') == IndexOf(s, '#') && IndexOfPair(Lowered(s), '#') == IndexOfPair(s, '#')
    decreases |s|
  {
    if s == [] {
    } else {
      LowerDigit(s[0]);
      if |s| >= 2 {
        LowerDigit(s[1]);
      }
      LowerIndex(s[1..]);
      assert Lowered(s)[1..] == Lowered(s[1..]);
    }
  }

  lemma LowerSlices(s: string, i: nat)
    requires i <= |s|
    ensures Lowered(s)[..i] == Lowered(s[..i]) && Lowered(s)[i..] == Lowered(s[i..])
  {
  }

  /** The frame of a line may be written in either case. */
  lemma CaseIgnored(s: string)
    ensures ParseFrame(Lowered(s)) == ParseFrame(s)
  {
    hide IndexOf, IndexOfPair, BytesOf, Number, Lowered;
    LowerIndex(s);
    var pair, one := IndexOfPair(s, '#'), IndexOf(s, '#');
    if pair.Some? {
      var rest := s[pair.value + 2..];
      LowerSlices(s, pair.value);
      LowerSlices(s, pair.value + 2);
      LowerNumber(s[..pair.value], 16);
      if |rest| >= 2 {
        LowerSlices(rest, 2);
        LowerBytes(rest[..2]);
        LowerBytes(rest[2..]);
      }
    } else if one.Some? {
      LowerSlices(s, one.value);
      LowerSlices(s, one.value + 1);
      LowerNumber(s[..one.value], 16);
      LowerBytes(s[one.value + 1..]);
    }
  }

  /** The printer writes upper case. */
  lemma PrintedUpper(f: Frame)
    ensures forall c :: c in FrameText(f) ==> '0' <= c <= '9' || 'A' <= c <= 'F' || c == '#'
  {
  }

  // ----- Identifiers and flags -----

  /** An identifier of any length in hexadecimal digits: it is taken if it fits 32 bits, and a classic frame is an
      extended one from 0x800 on. */
  lemma IdentifierRead(id: nat, data: seq<Byte>)
    ensures ParseFrame(Show(id, 16) + "#" + HexOf(data))
         == if id < 0x1_0000_0000 then Some(Classic(id, id >= 0x800, data)) else None
  {
    hide Show, HexOf, BytesOf, IndexOf, IndexOfPair, DigitValue, Number;
    var text, s := Show(id, 16), Show(id, 16) + "#" + HexOf(data);
    NoPair(s, '#', |text|);
    IndexIs(s, '#', |text|);
    assert s[..|text|] == text && s[|text| + 1..] == HexOf(data);
    NumberShown(id, 16);
    HexRoundTrip(data);
  }

  /** Of the two flag digits of a CAN FD line only the lowest bit is looked at. */
  lemma FlagsRead(id: Word32, flags: Byte, data: seq<Byte>)
    ensures ParseFrame(Show(id, 16) + "##" + HexOf([flags]) + HexOf(data))
         == Some(Frame(id, false, false, true, (flags as int) % 2 == 1, false, false, 0, 0, 0, false, data))
  {
    hide Show, HexOf, BytesOf, IndexOf, IndexOfPair, ParseHex32, DigitValue;
    var text, s := Show(id, 16), Show(id, 16) + "##" + HexOf([flags]) + HexOf(data);
    PairIs(s, '#', |text|);
    assert s[..|text|] == text && s[|text| + 2..] == HexOf([flags]) + HexOf(data);
    assert (HexOf([flags]) + HexOf(data))[..2] == HexOf([flags]);
    assert (HexOf([flags]) + HexOf(data))[2..] == HexOf(data);
    HexID(id);
    HexRoundTrip([flags]);
    HexRoundTrip(data);
  }

  /** A CAN FD line with an odd number of digits after its two marks, as one with a single flag digit has, is
      refused. */
  lemma OddFlagsRefused(s: string, i: nat)
    requires IndexOfPair(s, '#') == Some(i) && |s| % 2 != i % 2
    ensures ParseFrame(s) == None
  {
    hide IndexOf, IndexOfPair, ParseFD, ParseHex32;
    OddRest(ParseHex32(s[..i]), s[i + 2..]);
  }

  lemma OddRest(id: Option<Word32>, rest: string)
    requires |rest| % 2 == 1
    ensures ParseFD(id, rest) == None
  {
    hide BytesOf;
  }

  // ----- Fractions of a second -----

  function Zeros(n: nat): (s: string)
    ensures |s| == n
  {
    seq(n, _ => '0')
  }

  lemma OneZero(s: string, v: nat)
    requires Number(s, 10) == Some(v)
    ensures Number(s + ['0'], 10) == Some(v * 10)
  {
    assert (s + ['0'])[..|s|] == s;
  }

  lemma {:induction false} NumberOfZeros(s: string, n: nat, v: nat)
    requires Number(s, 10) == Some(v)
    ensures Number(s + Zeros(n), 10) == Some(v * Power(10, n))
    decreases n
  {
    if n == 0 {
      assert s + Zeros(n) == s;
    } else {
      assert s + Zeros(n) == s + Zeros(n - 1) + ['0'];
      assert Power(10, n) == 10 * Power(10, n - 1);
      hide *;
      NumberOfZeros(s, n - 1, v);
      OneZero(s + Zeros(n - 1), v * Power(10, n - 1));
      Tenfold(v, Power(10, n - 1));
    }
  }

  lemma Tenfold(v: nat, p: nat)
    ensures v * p * 10 == v * (10 * p)
  {
  }

  lemma {:induction false} PowerPositive(k: nat)
    ensures Power(10, k) > 0
  {
    if k == 0 {
    } else {
      PowerPositive(k - 1);
    }
  }

  /** n without its m lowest decimal digits. */
  function Without(n: nat, m: nat): nat {
    PowerPositive(m);
    Quotient(n, Power(10, m))
  }

  lemma WithoutOne(n: nat, m: nat)
    ensures Without(n, m + 1) == Without(n / 10, m) && Without(n, 0) == n
  {
    hide Quotient;
    PowerPositive(m);
    TenthThenDivide(n, Power(10, m));
    DividedByOne(n);
  }

  lemma DividedByOne(n: nat)
    ensures Quotient(n, 1) == n
  {
  }

  lemma {:induction false} FirstDigits(n: nat, k: nat, j: nat)
    requires j <= k
    ensures ShowFixed(n, 10, k)[..j] == ShowFixed(Without(n, k - j), 10, j)
    decreases k
  {
    if j == k {
      WithoutOne(n, 0);
      assert ShowFixed(n, 10, k)[..j] == ShowFixed(n, 10, k);
    } else {
      var front := ShowFixed(n / 10, 10, k - 1);
      assert ShowFixed(n, 10, k) == front + [Digit(n % 10)];
      hide ShowFixed, Without;
      assert ShowFixed(n, 10, k)[..j] == front[..j];
      FirstDigits(n / 10, k - 1, j);
      WithoutOne(n, k - 1 - j);
    }
  }

  lemma TenthThenDivide(n: nat, p: nat)
    requires p > 0
    ensures Quotient(n / 10, p) == Quotient(n, 10 * p)
  {
    var q, r := n / 10 / p, n / 10 % p;
    assert n / 10 == p * q + r;
    assert n == 10 * p * q + (10 * r + n % 10);
    ModIs(n, 10 * p, q, 10 * r + n % 10);
  }

  lemma {:induction false} WithoutBound(n: nat, m: nat, j: nat)
    requires n < Power(10, m + j)
    ensures Without(n, m) < Power(10, j)
    decreases m
  {
    if m == 0 {
      WithoutOne(n, 0);
    } else {
      assert Power(10, m + j) == 10 * Power(10, m - 1 + j);
      hide Without, Power;
      assert n / 10 < Power(10, m - 1 + j);
      WithoutBound(n / 10, m - 1, j);
      WithoutOne(n, m - 1);
    }
  }

  lemma {:induction false} NumberBound(s: string)
    ensures Number(s, 10).Some? ==> Number(s, 10).value < Power(10, |s|)
    decreases |s|
  {
    if s == [] {
    } else {
      NumberBound(s[..|s| - 1]);
    }
  }

  /** The microseconds of a fraction with k digits that stand for n: padded with zeros to six, or cut. */
  function Micros(n: nat, k: nat): nat { if k <= 6 then n * Power(10, 6 - k) else Without(n, k - 6) }

  lemma SixDigits(n: nat, k: nat)
    requires n < Power(10, k)
    ensures Number(Six(ShowFixed(n, 10, k)), 10) == Some(Micros(n, k)) && Micros(n, k) < 1_000_000
    ensures Candump.Digits(Six(ShowFixed(n, 10, k)))
  {
    hide *;
    if k <= 6 {
      Padded(n, k);
    } else {
      Cut(n, k);
    }
  }

  lemma Padded(n: nat, k: nat)
    requires n < Power(10, k) && k <= 6
    ensures Number(Six(ShowFixed(n, 10, k)), 10) == Some(Micros(n, k)) && Micros(n, k) < 1_000_000
    ensures Candump.Digits(Six(ShowFixed(n, 10, k)))
  {
    var s := ShowFixed(n, 10, k);
    Million();
    PaddedIs(s);
    assert Micros(n, k) == n * Power(10, 6 - k) && |s| == k && |Six(s)| == 6;
    hide *;
    NumberFixed(n, 10, k);
    NumberOfZeros(s, 6 - k, n);
    NumberBound(Six(s));
  }

  lemma PaddedIs(s: string)
    requires |s| <= 6 && Candump.Digits(s)
    ensures Six(s) == s + Zeros(6 - |s|) && Candump.Digits(Six(s))
  {
    ZeroIsPlain();
  }

  lemma Cut(n: nat, k: nat)
    requires n < Power(10, k) && k > 6
    ensures Number(Six(ShowFixed(n, 10, k)), 10) == Some(Micros(n, k)) && Micros(n, k) < 1_000_000
    ensures Candump.Digits(Six(ShowFixed(n, 10, k)))
  {
    Million();
    hide ShowFixed, Number, Power, Plain, Without;
    FirstDigits(n, k, 6);
    WithoutBound(n, k - 6, 6);
    NumberFixed(Without(n, k - 6), 10, 6);
  }

  lemma Million()
    ensures Power(10, 6) == 1_000_000
  {
  }

  lemma ZeroIsPlain()
    ensures Plain('0')
  {
  }

  lemma PlainDigitsParsed(s: string, v: nat)
    requires |s| == 6 && Candump.Digits(s) && Number(s, 10) == Some(v) && v < 1_000_000
    ensures ParseInt64(s) == Some(v)
  {
    assert Plain(s[0]);
  }

  /** A time with any number of digits behind its point, or without a point. */
  lemma FractionRead(sec: int, n: nat, k: nat)
    requires MIN_INT64 <= sec <= MAX_INT64 && n < Power(10, k)
    ensures ParseTime("(" + ShowInt(sec) + "." + ShowFixed(n, 10, k) + ")")
         == Some(sec * 1_000_000_000 + Micros(n, k) * 1000)
    ensures ParseTime("(" + ShowInt(sec) + ")") == Some(sec * 1_000_000_000)
  {
    hide ShowInt, ShowFixed, IndexOf, ParseInt64, DigitValue, Power, Micros, Six, Number;
    var whole, frac := ShowInt(sec), ShowFixed(n, 10, k);
    var inner := whole + "." + frac;
    PlainInt(sec);
    Int64Shown(sec);
    SixDigits(n, k);
    PlainDigitsParsed(Six(frac), Micros(n, k));
    IndexIs(inner, '.', |whole|);
    NoIndex(whole, '.');
    assert ("(" + whole + ".") + frac + ")" == "(" + inner + ")";
    assert ("(" + inner + ")")[1..|inner| + 1] == inner && ("(" + whole + ")")[1..|whole| + 1] == whole;
    assert inner[..|whole|] == whole && inner[|whole| + 1..] == frac;
  }

  lemma {:induction false} NoIndex(s: string, c: char)
    requires c !in s
    ensures IndexOf(s, c) == None
    decreases |s|
  {
    if s == [] {
    } else {
      NoIndex(s[1..], c);
    }
  }

  // ----- The published examples -----

  lemma ShownExample()
    ensures Show(1_609_459_200, 10) == "1609459200" && Show(0x123, 16) == "123"
  {
    assert Show(1, 10) == "1" && Show(16, 10) == "16" && Show(160, 10) == "160" && Show(1609, 10) == "1609";
    assert Show(16094, 10) == "16094" && Show(160945, 10) == "160945" && Show(1609459, 10) == "1609459";
    assert Show(16094592, 10) == "16094592" && Show(160945920, 10) == "160945920";
    assert Show(1, 16) == "1" && Show(0x12, 16) == "12";
  }

  lemma HexAppend(front: seq<Byte>, b: Byte)
    ensures HexOf(front + [b]) == HexOf(front) + [Digit((b as int) / 16), Digit((b as int) % 16)]
  {
    assert (front + [b])[..|front + [b]| - 1] == front;
  }

  lemma ExampleBytes()
    ensures HexOf([0xDE, 0xAD, 0xBE, 0xEF]) == "DEADBEEF"
  {
    NoHex();
    LetterDigits();
    assert [] + [0xDE] == [0xDE] && [0xDE] + [0xAD] == [0xDE, 0xAD];
    assert [0xDE, 0xAD] + [0xBE] == [0xDE, 0xAD, 0xBE];
    assert [0xDE, 0xAD, 0xBE] + [0xEF] == [0xDE, 0xAD, 0xBE, 0xEF];
    hide *;
    HexAppend([], 0xDE);
    HexAppend([0xDE], 0xAD);
    HexAppend([0xDE, 0xAD], 0xBE);
    HexAppend([0xDE, 0xAD, 0xBE], 0xEF);
  }

  lemma NoHex()
    ensures HexOf([]) == ""
  {
  }

  lemma LetterDigits()
    ensures Digit(10) == 'A' && Digit(11) == 'B' && Digit(12) == 'C' && Digit(13) == 'D' && Digit(14) == 'E'
    ensures Digit(15) == 'F'
  {
  }

  lemma NoMicros()
    ensures ShowFixed(0, 10, 6) == "000000"
  {
    assert Digit(0) == '0' && ShowFixed(0, 10, 0) == "";
    assert ShowFixed(0, 10, 2) == "00" && ShowFixed(0, 10, 4) == "0000";
  }

  /** The first of January 2021. */
  const EXAMPLE_TIME := 1_609_459_200_000_000_000

  lemma TimeParts(whole: string, micros: string)
    requires whole == Show(1_609_459_200, 10) && micros == ShowFixed(0, 10, 6)
    ensures TimeText(EXAMPLE_TIME) == "(" + whole + "." + micros + ")"
  {
    hide Show, ShowFixed;
    assert EXAMPLE_TIME / SECOND == 1_609_459_200 && EXAMPLE_TIME % SECOND / 1000 == 0;
  }

  const EXAMPLE_FRAME := Classic(0x123, false, [0xDE, 0xAD, 0xBE, 0xEF])

  lemma FrameParts(id: string, data: string)
    requires id == Show(0x123, 16) && data == HexOf([0xDE, 0xAD, 0xBE, 0xEF])
    ensures FrameText(EXAMPLE_FRAME) == id + "#" + data && Representable(EXAMPLE_FRAME)
  {
    hide Show, HexOf;
  }

  lemma LineParts(time: string, frame: string)
    requires time == TimeText(EXAMPLE_TIME) && frame == FrameText(EXAMPLE_FRAME)
    ensures FormatLine("vcan0", EXAMPLE_TIME, EXAMPLE_FRAME) == time + " " + "vcan0" + " " + frame
  {
  }

  lemma JoinedTime()
    ensures "(" + "1609459200" + "." + "000000" + ")" == "(1609459200.000000)"
  {
  }

  lemma JoinedFrame()
    ensures "123" + "#" + "DEADBEEF" == "123#DEADBEEF"
  {
  }

  lemma JoinedLine()
    ensures "(1609459200.000000)" + " " + "vcan0" + " " + "123#DEADBEEF" == "(1609459200.000000) vcan0 123#DEADBEEF"
  {
  }

  lemma ExampleLine() returns (line: string)
    ensures line == "(1609459200.000000) vcan0 123#DEADBEEF" && Representable(EXAMPLE_FRAME)
    ensures FormatLine("vcan0", EXAMPLE_TIME, EXAMPLE_FRAME) == line
  {
    hide *;
    ShownExample();
    NoMicros();
    ExampleBytes();
    TimeParts("1609459200", "000000");
    JoinedTime();
    FrameParts("123", "DEADBEEF");
    JoinedFrame();
    LineParts("(1609459200.000000)", "123#DEADBEEF");
    JoinedLine();
    line := FormatLine("vcan0", EXAMPLE_TIME, EXAMPLE_FRAME);
  }

  lemma ExampleWords()
    ensures Word("vcan0") && Word("(1609459200.000000)") && Word("123##0DEADBEEF") && Unix(EXAMPLE_TIME)
  {
  }

  /** The documented line of a classic frame is what the printer makes of it, and it is read back. */
  lemma PublishedLine()
    ensures FormatLine("vcan0", EXAMPLE_TIME, EXAMPLE_FRAME) == "(1609459200.000000) vcan0 123#DEADBEEF"
    ensures Parse("(1609459200.000000) vcan0 123#DEADBEEF") == Line("vcan0", EXAMPLE_TIME, EXAMPLE_FRAME)
  {
    assert EXAMPLE_TIME % 1000 == 0;
    hide *;
    var line := ExampleLine();
    ExampleWords();
    LineRoundTrip("vcan0", EXAMPLE_TIME, EXAMPLE_FRAME);
  }

  /** The documented line of a CAN FD frame has a single flag digit, and is refused. */
  lemma PublishedFDLine()
    ensures Parse("(1609459200.000000) vcan0 123##0DEADBEEF") == Malformed
  {
    var a, b, c := "(1609459200.000000)", "vcan0", "123##0DEADBEEF";
    ExampleWords();
    assert a + " " + b + " " + c == "(1609459200.000000) vcan0 123##0DEADBEEF";
    assert c[3] == '#' && c[4] == '#' && |c| % 2 == 0;
    FieldsOfMalformed(a, b, c);
  }

  lemma FieldsOfMalformed(a: string, b: string, c: string)
    requires Word(a) && Word(b) && Word(c) && |c| % 2 == 0 && |c| > 4 && c[3] == '#' && c[4] == '#'
    requires c[0] != '#' && c[1] != '#' && c[2] != '#'
    ensures Parse(a + " " + b + " " + c) == Malformed
  {
    hide Fields, Word, ParseTime, ParseFrame, IndexOfPair;
    PairIs(c, '#', 3);
    OddFlagsRefused(c, 3);
    ThreeFields(a, b, c);
  }
}
