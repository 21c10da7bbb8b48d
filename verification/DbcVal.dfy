/** The tokeniser of value-table lines (dbc/parser.go): quoted strings are single tokens, quotes stripped. */
module DbcVal {

  predicate Blank(c: char) { c == ' ' || c == '\t' }

  /** How far the characters of s stay clear of a stop: a quote, or a blank. */
  function Span(s: string, quoted: bool): (n: nat)
    ensures n <= |s|
    ensures forall i :: 0 <= i < n ==> !(if quoted then s[i] == '"' else Blank(s[i]))
    ensures n < |s| ==> if quoted then s[n] == '"' else Blank(s[n])
  {
    if s == [] || (if quoted then s[0] == '"' else Blank(s[0])) then 0 else 1 + Span(s[1..], quoted)
  }

  function Tokens(line: string): seq<string>
    decreases |line|
  {
    if line == [] then []
    else if Blank(line[0]) then Tokens(line[1..])
    else if line[0] == '"' then
      var n := Span(line[1..], true);
      [line[1..1 + n]] + Tokens(line[if 1 + n < |line| then 2 + n else 1 + n..])
    else
      var n := Span(line, false);
      [line[..n]] + Tokens(line[n..])
  }

  lemma {:induction false} SpanIs(s: string, quoted: bool, n: nat)
    requires n <= |s| && forall i :: 0 <= i < n ==> !(if quoted then s[i] == '"' else Blank(s[i]))
    requires n < |s| ==> if quoted then s[n] == '"' else Blank(s[n])
    ensures Span(s, quoted) == n
  {
  }

  // What the tokens of a line are from position i on.

  lemma BlankStep(line: string, i: nat)
    requires i < |line| && Blank(line[i])
    ensures Tokens(line[i..]) == Tokens(line[i + 1..])
  {
  }

  lemma QuotedStep(line: string, i: nat, j: nat)
    requires i < j <= |line| && line[i] == '"' && (forall k :: i < k < j ==> line[k] != '"')
    requires j < |line| ==> line[j] == '"'
    ensures Tokens(line[i..]) == [line[i + 1..j]] + Tokens(line[if j < |line| then j + 1 else j..])
  {
    var rest, n := line[i..], j - i - 1;
    SpanIs(rest[1..], true, n);
    assert rest[1..1 + n] == line[i + 1..j];
    assert j < |line| ==> rest[2 + n..] == line[j + 1..];
    assert j == |line| ==> rest[1 + n..] == line[j..];
  }

  lemma BareStep(line: string, i: nat, j: nat)
    requires i < j <= |line| && line[i] != '"' && (forall k :: i <= k < j ==> !Blank(line[k]))
    requires j < |line| ==> Blank(line[j])
    ensures Tokens(line[i..]) == [line[i..j]] + Tokens(line[j..])
  {
    var rest, n := line[i..], j - i;
    SpanIs(rest, false, n);
    assert rest[..n] == line[i..j] && rest[n..] == line[j..];
  }

  lemma NoTokens()
    ensures Tokens([]) == []
  {
  }

  /** tokeniseVAL */
  method Tokenise(line: string) returns (tokens: seq<string>)
    ensures tokens == Tokens(line)
  {
    hide Tokens;
    tokens := [];
    var i: nat := 0;
    assert line[0..] == line;
    while i < |line|
      invariant i <= |line| && tokens + Tokens(line[i..]) == Tokens(line)
      decreases |line| - i
    {
      ghost var start := i;
      while i < |line| && Blank(line[i])
        invariant start <= i <= |line| && Tokens(line[i..]) == Tokens(line[start..])
      {
        BlankStep(line, i);
        i := i + 1;
      }
      if i >= |line| {
        break;
      }
      ghost var at := i;
      if line[i] == '"' {
        i := i + 1;
        var j := i;
        while j < |line| && line[j] != '"'
          invariant i <= j <= |line| && forall k :: i <= k < j ==> line[k] != '"'
        {
          j := j + 1;
        }
        QuotedStep(line, at, j);
        tokens := tokens + [line[i..j]];
        if j < |line| {
          j := j + 1;
        }
        i := j;
      } else {
        var j := i;
        while j < |line| && line[j] != ' ' && line[j] != '\t'
          invariant i <= j <= |line| && forall k :: i <= k < j ==> !Blank(line[k])
        {
          j := j + 1;
        }
        BareStep(line, i, j);
        tokens := tokens + [line[i..j]];
        i := j;
      }
    }
    assert line[|line|..] == [];
    NoTokens();
  }

  // ----- Rendering -----

  datatype Piece = Bare(text: string) | Quoted(text: string) {
    predicate Valid() {
      match this
      case Bare(text) => text != [] && text[0] != '"' && forall i :: 0 <= i < |text| ==> !Blank(text[i])
      case Quoted(text) => '"' !in text
    }

    function Show(): string {
      match this
      case Bare(text) => text
      case Quoted(text) => ['"'] + text + ['"']
    }
  }

  /** A token with the blanks before it. */
  datatype Item = Item(gap: string, piece: Piece)

  predicate Blanks(s: string) { forall i :: 0 <= i < |s| ==> Blank(s[i]) }

  function Render(items: seq<Item>, tail: string): string {
    if items == [] then tail else items[0].gap + items[0].piece.Show() + Render(items[1..], tail)
  }

  function Texts(items: seq<Item>): seq<string> {
    if items == [] then [] else [items[0].piece.text] + Texts(items[1..])
  }

  /** A bare token must be followed by a blank before the next one. */
  ghost predicate WellFormed(items: seq<Item>, tail: string) {
    Blanks(tail) && (items != [] ==>
      && Blanks(items[0].gap) && items[0].piece.Valid()
      && (items[0].piece.Bare? && |items| > 1 ==> items[1].gap != [])
      && WellFormed(items[1..], tail))
  }

  lemma {:induction false} SkipBlanks(gap: string, s: string)
    requires Blanks(gap)
    ensures Tokens(gap + s) == Tokens(s)
  {
    if gap == [] {
      assert gap + s == s;
    } else {
      SkipBlanks(gap[1..], s);
      assert (gap + s)[1..] == gap[1..] + s;
    }
  }

  lemma ShownToken(piece: Piece, s: string)
    requires piece.Valid() && (piece.Bare? && s != [] ==> Blank(s[0]))
    ensures Tokens(piece.Show() + s) == [piece.text] + Tokens(s)
  {
    hide Tokens;
    var line, n := piece.Show() + s, |piece.text|;
    if piece.Bare? {
      assert line == piece.text + s && line[0..] == line && line[0..n] == piece.text && line[n..] == s;
      hide Piece.Show;
      BareStep(line, 0, n);
    } else {
      assert line == ['"'] + piece.text + ['"'] + s && line[0..] == line;
      hide Piece.Show;
      assert forall k :: 0 < k <= n ==> line[k] == piece.text[k - 1];
      assert line[1..n + 1] == piece.text && line[n + 2..] == s;
      QuotedStep(line, 0, n + 1);
    }
  }

  lemma RenderStartsBlank(items: seq<Item>, tail: string)
    requires WellFormed(items, tail) && (items != [] ==> items[0].gap != [])
    ensures Render(items, tail) != [] ==> Blank(Render(items, tail)[0])
  {
  }

  /** Tokenising undoes rendering: any tokens, bare or quoted, with any blanks around them. */
  lemma {:induction false} TokeniseRendered(items: seq<Item>, tail: string)
    requires WellFormed(items, tail)
    ensures Tokens(Render(items, tail)) == Texts(items)
  {
    if items == [] {
      SkipBlanks(tail, []);
      assert tail + [] == tail;
    } else {
      var rest := Render(items[1..], tail);
      if items[0].piece.Bare? {
        RenderStartsBlank(items[1..], tail);
      }
      ShownToken(items[0].piece, rest);
      SkipBlanks(items[0].gap, items[0].piece.Show() + rest);
      assert items[0].gap + (items[0].piece.Show() + rest) == Render(items, tail);
      TokeniseRendered(items[1..], tail);
    }
  }

  /** Only spaces and tabs separate tokens, and only the double quote quotes. */
  lemma OneCharacter(c: char)
    ensures Tokens([c]) == if c == ' ' || c == '\t' then [] else if c == '"' then [""] else [[c]]
  {
    var line := [c];
    hide Tokens;
    NoTokens();
    assert line[0..] == line && line[1..] == [];
    if c == ' ' || c == '\t' {
      BlankStep(line, 0);
    } else if c == '"' {
      QuotedStep(line, 0, 1);
      assert line[1..1] == "";
    } else {
      BareStep(line, 0, 1);
      assert line[0..1] == line;
    }
  }

  // ----- Every line is a rendering -----

  function Widen(items: seq<Item>, c: char): seq<Item>
    requires items != []
  {
    [Item([c] + items[0].gap, items[0].piece)] + items[1..]
  }

  lemma WidenRender(items: seq<Item>, tail: string, c: char)
    requires items != []
    ensures Render(Widen(items, c), tail) == [c] + Render(items, tail)
  {
  }

  lemma WidenKeeps(items: seq<Item>, tail: string, c: char)
    requires items != [] && WellFormed(items, tail) && Blank(c)
    ensures WellFormed(Widen(items, c), tail) && Texts(Widen(items, c)) == Texts(items)
  {
  }

  lemma PrependBlank(items: seq<Item>, tail: string, c: char) returns (items': seq<Item>, tail': string)
    requires WellFormed(items, tail) && Blank(c)
    ensures WellFormed(items', tail') && Texts(items') == Texts(items)
    ensures Render(items', tail') == [c] + Render(items, tail)
    ensures items' != [] ==> items'[0].gap != []
    ensures items' == [] <==> items == []
  {
    if items == [] {
      items', tail' := items, [c] + tail;
    } else {
      items', tail' := Widen(items, c), tail;
      hide WellFormed, Render, Texts;
      WidenRender(items, tail, c);
      WidenKeeps(items, tail, c);
    }
  }

  lemma PrependPiece(items: seq<Item>, tail: string, piece: Piece) returns (items': seq<Item>)
    requires WellFormed(items, tail) && piece.Valid() && (piece.Bare? && items != [] ==> items[0].gap != [])
    ensures WellFormed(items', tail) && Texts(items') == [piece.text] + Texts(items)
    ensures Render(items', tail) == piece.Show() + Render(items, tail)
  {
    items' := [Item([], piece)] + items;
    assert items'[1..] == items;
    assert [] + piece.Show() == piece.Show();
  }

  function Quote(open: bool): string { if open then ['"'] else [] }

  /** Every line is the rendering of its own tokens, but for a quote that may be missing at the very end. */
  lemma {:induction false} EveryLine(line: string) returns (items: seq<Item>, tail: string, open: bool)
    ensures WellFormed(items, tail) && Texts(items) == Tokens(line)
    ensures Render(items, tail) == line + Quote(open)
    ensures line != [] && Blank(line[0]) && items != [] ==> items[0].gap != []
    ensures line == [] ==> items == []
    decreases |line|, 1
  {
    hide WellFormed, Render, Texts, Tokens, Piece.Show;
    NothingLeft();
    if line == [] {
      items, tail, open := [], [], false;
    } else if Blank(line[0]) {
      items, tail, open := EveryLine(line[1..]);
      items, tail := PrependBlank(items, tail, line[0]);
      BlankStep(line, 0);
      Associate([line[0]], line[1..], Quote(open));
      assert line[0..] == line && [line[0]] + line[1..] == line;
    } else if line[0] == '"' {
      var j := 1 + Span(line[1..], true);
      items, tail, open := QuotedLine(line, j);
    } else {
      var j := Span(line, false);
      items, tail, open := EveryLine(line[j..]);
      items := PrependPiece(items, tail, Bare(line[..j]));
      ShownBare(line, j);
      Associate(Bare(line[..j]).Show(), line[j..], Quote(open));
    }
  }

  lemma {:induction false} QuotedLine(line: string, j: nat) returns (items: seq<Item>, tail: string, open: bool)
    requires 0 < j <= |line| && line[0] == '"' && (forall k :: 0 < k < j ==> line[k] != '"')
    requires j < |line| ==> line[j] == '"'
    ensures WellFormed(items, tail) && Texts(items) == Tokens(line)
    ensures Render(items, tail) == line + Quote(open)
    decreases |line|, 0
  {
    hide WellFormed, Render, Texts, Tokens, Piece.Show;
    NothingLeft();
    var piece := Quoted(line[1..j]);
    ShownQuoted(line, j);
    if j == |line| {
      items := PrependPiece([], [], piece);
      tail, open := [], true;
    } else {
      items, tail, open := EveryLine(line[j + 1..]);
      items := PrependPiece(items, tail, piece);
      Associate(piece.Show(), line[j + 1..], Quote(open));
    }
  }

  lemma Associate(a: string, b: string, c: string)
    ensures a + (b + c) == (a + b) + c
  {
  }

  lemma NothingLeft()
    ensures WellFormed([], []) && Texts([]) == [] && Render([], []) == [] && Tokens([]) == []
  {
  }

  lemma ShownQuoted(line: string, j: nat)
    requires 0 < j <= |line| && line[0] == '"' && (forall k :: 0 < k < j ==> line[k] != '"')
    requires j < |line| ==> line[j] == '"'
    ensures Tokens(line) == [line[1..j]] + Tokens(if j < |line| then line[j + 1..] else [])
    ensures Quoted(line[1..j]).Show() + (if j < |line| then line[j + 1..] else []) == line + Quote(j == |line|)
  {
    hide Tokens;
    QuotedStep(line, 0, j);
    assert line[0..] == line && line[|line|..] == [];
    assert ['"'] + line[1..j] + line[j..] == line;
    if j < |line| {
      assert line[j..] == ['"'] + line[j + 1..];
    }
  }

  lemma ShownBare(line: string, j: nat)
    requires 0 < j <= |line| && line[0] != '"' && (forall k :: 0 <= k < j ==> !Blank(line[k]))
    requires j < |line| ==> Blank(line[j])
    ensures Tokens(line) == [line[..j]] + Tokens(line[j..])
    ensures Bare(line[..j]).Show() + line[j..] == line
  {
    assert Bare(line[..j]).Show() == line[..j];
    hide Tokens, Piece.Show;
    BareStep(line, 0, j);
    assert line[0..] == line && line[0..j] == line[..j];
    assert line[..j] + line[j..] == line;
  }
}
