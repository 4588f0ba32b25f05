/**
 The board configuration text of `cfg_parse.c`: lines such as `i2c: {sda: 1, scl: 2}`, the parser
 that reads them, and the printer that echoes them.
 */
module BoardConfig {
  import opened Bytes

  const BOARD_SECTION := "Board:"

  predicate IsWord(c: char)
  {
    'A' <= c <= 'Z' || 'a' <= c <= 'z' || '0' <= c <= '9' || c == '_' || c == '-' || c == '.'
  }

  /** A configuration line; attributes and values are the words their pointers designate. */
  datatype Line = Line(kind: string, attrs: seq<(string, string)>)

  predicate AllWord(w: string)
  {
    forall i :: 0 <= i < |w| ==> IsWord(w[i])
  }

  predicate Token(w: string)
  {
    w != "" && AllWord(w)
  }

  // ---------------------------------------------------------------------------------------
  // Reading
  // ---------------------------------------------------------------------------------------

  /** The word a pointer designates: what str_len measures. */
  function Word(t: string): (w: string)
    ensures AllWord(w) && w <= t
  {
    if t == "" || !IsWord(t[0]) then "" else [t[0]] + Word(t[1..])
  }

  /** str_same: `a` starts with `b`, and no word character follows. */
  predicate StrSame(a: string, b: string)
  {
    if b == "" then a == "" || !IsWord(a[0])
    else a != "" && a[0] == b[0] && StrSame(a[1..], b[1..])
  }

  /** The text from the first word on, comments skipped. */
  function SkipToName(t: string, comment: bool): (r: string)
    ensures |r| <= |t| && (r != "" ==> IsWord(r[0]))
  {
    if t == "" then ""
    else
      var comment' := comment || t[0] == '#';
      if !comment' && IsWord(t[0]) then t else SkipToName(t[1..], comment' && t[0] != '\n')
  }

  /** The text behind the first '{'; None is a walk off the end. */
  function AfterBrace(t: string): (r: Option<string>)
    ensures r.Some? ==> |r.value| < |t|
  {
    if t == "" then None else if t[0] == '{' then Some(t[1..]) else AfterBrace(t[1..])
  }

  /** The attribute loop: the pairs found, and the text behind the '}' if there is one. */
  function Attributes(t: string, inWord: bool, attr: Option<string>, found: seq<(string, string)>)
    : (r: (seq<(string, string)>, Option<string>))
    ensures r.1.Some? ==> |r.1.value| < |t|
    decreases |t|
  {
    if t == "" then (found, None)
    else if t[0] == '}' then (found, Some(t[1..]))
    else if !IsWord(t[0]) then Attributes(t[1..], false, attr, found)
    else if inWord then Attributes(t[1..], true, attr, found)
    else if attr.None? then Attributes(t[1..], true, Some(Word(t)), found)
    else Attributes(t[1..], true, None, found + [(attr.value, Word(t))])
  }

  /** How parse_section ends; `rest` is the text behind the closing brace. */
  datatype Section = NoSection | Closed(line: Line, rest: string) | Unclosed(line: Line) | Overrun

  function ParseSection(t: string): (s: Section)
    ensures s.Closed? ==> |s.rest| < |t|
  {
    var name := SkipToName(t, false);
    if name == "" || StrSame(name, BOARD_SECTION) then NoSection
    else
      var body := AfterBrace(name);
      if body.None? then Overrun
      else
        var (attrs, rest) := Attributes(body.value, false, None, []);
        if rest.Some? then Closed(Line(Word(name), attrs), rest.value) else Unclosed(Line(Word(name), attrs))
  }

  // ---------------------------------------------------------------------------------------
  // Filling the board's tables
  // ---------------------------------------------------------------------------------------

  const MAX_I2C_NUM := 2
  const MAX_CODEC_NUM := 2

  /** The table that a line fills; the names it does not know are ignored. */
  datatype Table = I2c | I2s | Sdcard | Codec | Lcd | Camera | Ignored

  function TableOf(kind: string): Table
  {
    if kind == "i2c" then I2c
    else if kind == "i2s" then I2s
    else if kind == "sdcard" then Sdcard
    else if kind == "in_out" || kind == "out" || kind == "in" then Codec
    else if kind == "lcd" then Lcd
    else if kind == "camera" then Camera
    else Ignored
  }

  /** How many entries of a table there are room for; the i2s check uses the i2c constant. */
  function Limit(t: Table): nat
  {
    match t
    case I2c => MAX_I2C_NUM
    case I2s => MAX_I2C_NUM
    case Codec => MAX_CODEC_NUM
    case Ignored => 0
    case _ => 1
  }

  /** The entry counters of `board_section_t`, zero when a board is looked up. */
  datatype Counts = Counts(i2c: nat, i2s: nat, sdcard: nat, codec: nat, lcd: nat, camera: nat)

  const NONE := Counts(0, 0, 0, 0, 0, 0)

  function Held(c: Counts, t: Table): nat
  {
    match t
    case I2c => c.i2c
    case I2s => c.i2s
    case Sdcard => c.sdcard
    case Codec => c.codec
    case Lcd => c.lcd
    case Camera => c.camera
    case Ignored => 0
  }

  function Bump(c: Counts, t: Table): Counts
  {
    match t
    case I2c => c.(i2c := c.i2c + 1)
    case I2s => c.(i2s := c.i2s + 1)
    case Sdcard => c.(sdcard := c.sdcard + 1)
    case Codec => c.(codec := c.codec + 1)
    case Lcd => c.(lcd := c.lcd + 1)
    case Camera => c.(camera := c.camera + 1)
    case Ignored => c
  }

  predicate IsDigit(c: char)
  {
    '0' <= c <= '9'
  }

  /** The number that the leading digits of `w` continue `acc` to. */
  function Digits(w: string, acc: nat): nat
  {
    if w == "" || !IsDigit(w[0]) then acc else Digits(w[1..], 10 * acc + (w[0] - '0') as nat)
  }

  /** atoi of a word, saturating at the bounds of int. */
  function Atoi(w: string): int
  {
    if w != "" && w[0] == '-' then
      var n: int := -(Digits(w[1..], 0) as int);
      if n < -INT_MAX - 1 then -INT_MAX - 1 else n
    else
      var n := Digits(w, 0);
      if n > INT_MAX then INT_MAX else n
  }

  /** The port numbers are stored in an int8_t before they are compared. */
  function Int8(n: int): (r: int)
    ensures -128 <= r <= 127 && (r - n) % 256 == 0
  {
    (n + 128) % 256 - 128
  }

  /** get_codec_type finds a codec. */
  predicate KnownCodec(w: string)
  {
    w == "ES8311" || w == "ES8388" || w == "ES7243" || w == "ES7210" || w == "ES8389" || w == "DUMMY"
  }

  /** An attribute that fill_codec_cfg lets pass: a port refers to an entry that is already there. */
  predicate CodecAttrOk(a: (string, string), i2cNum: nat, i2sNum: nat)
  {
    if a.0 == "i2c_port" then Int8(Atoi(a.1)) < i2cNum
    else if a.0 == "i2s_port" then Int8(Atoi(a.1)) < i2sNum
    else a.0 == "codec" ==> KnownCodec(a.1)
  }

  predicate CodecOk(attrs: seq<(string, string)>, i2cNum: nat, i2sNum: nat)
  {
    forall k :: 0 <= k < |attrs| ==> CodecAttrOk(attrs[k], i2cNum, i2sNum)
  }

  /** fill_cfg returns -1. */
  predicate Refuses(l: Line, c: Counts)
  {
    var t := TableOf(l.kind);
    !t.Ignored? && (Held(c, t) >= Limit(t) || (t.Codec? && !CodecOk(l.attrs, c.i2c, c.i2s)))
  }

  /** The counters after fill_cfg has accepted a line. */
  function Fill(l: Line, c: Counts): Counts
  {
    Bump(c, TableOf(l.kind))
  }

  function Left(held: nat, limit: nat): nat
  {
    if held < limit then limit - held else 0
  }

  /** The number of lines that still fit the tables. */
  function Room(c: Counts): nat
  {
    Left(c.i2c, Limit(I2c)) + Left(c.i2s, Limit(I2s)) + Left(c.sdcard, 1) + Left(c.codec, Limit(Codec))
    + Left(c.lcd, 1) + Left(c.camera, 1)
  }

  // ---------------------------------------------------------------------------------------
  // parse_cfg
  // ---------------------------------------------------------------------------------------

  /** How parse_cfg ends, with the lines it saw; `Refused` is its -1, caused by the last of them. */
  datatype Config =
    | Parsed(lines: seq<Line>)
    | Refused(lines: seq<Line>)
    | LoopsForever(lines: seq<Line>)
    | OutOfBounds(lines: seq<Line>)

  /**
   parse_cfg; a section without '}' makes it advance by the previous line's length, at first 0. It
   then sees the same line again, for ever unless filling a table refuses it one day.
   */
  function ParseCfg(t: string, consume: nat, c: Counts): (r: Config)
    decreases |t|, Room(c)
  {
    match ParseSection(t)
    case NoSection => Parsed([])
    case Overrun => OutOfBounds([])
    case Closed(line, rest) =>
      if Refuses(line, c) then Refused([line])
      else Prepend(line, ParseCfg(rest, |t| - |rest|, Fill(line, c)))
    case Unclosed(line) =>
      if Refuses(line, c) then Refused([line])
      else if consume > |t| then OutOfBounds([line])
      else if consume == 0 && TableOf(line.kind).Ignored? then LoopsForever([line])
      else Prepend(line, ParseCfg(t[consume..], consume, Fill(line, c)))
  }

  function Prepend(line: Line, c: Config): Config
  {
    match c
    case Parsed(lines) => Parsed([line] + lines)
    case Refused(lines) => Refused([line] + lines)
    case LoopsForever(lines) => LoopsForever([line] + lines)
    case OutOfBounds(lines) => OutOfBounds([line] + lines)
  }

  // ---------------------------------------------------------------------------------------
  // Printing
  // ---------------------------------------------------------------------------------------

  function PrintAttrs(attrs: seq<(string, string)>): string
  {
    if attrs == [] then ""
    else attrs[0].0 + (": " + (attrs[0].1 + (if |attrs| > 1 then ", " + PrintAttrs(attrs[1..]) else "")))
  }

  /** print_cfg_line */
  function PrintLine(l: Line): string
  {
    l.kind + ": {" + PrintAttrs(l.attrs) + "}\n"
  }

  function PrintAll(ls: seq<Line>): string
  {
    if ls == [] then "" else PrintLine(ls[0]) + PrintAll(ls[1..])
  }

  predicate PrintableLine(l: Line)
  {
    && Token(l.kind) && l.kind != "Board"
    && forall i :: 0 <= i < |l.attrs| ==> Token(l.attrs[i].0) && Token(l.attrs[i].1)
  }

  // ---------------------------------------------------------------------------------------
  // The parser undoes the printer
  // ---------------------------------------------------------------------------------------

  lemma {:induction false} WordOf(w: string, r: string)
    requires AllWord(w) && (r == "" || !IsWord(r[0]))
    ensures Word(w + r) == w
  {
    if w == "" {
      assert w + r == r;
    } else {
      assert (w + r)[1..] == w[1..] + r;
      WordOf(w[1..], r);
    }
  }

  lemma {:induction false} BraceAfterWord(w: string, r: string)
    requires AllWord(w)
    ensures AfterBrace(w + ": {" + r) == Some(r)
  {
    var t := w + ": {" + r;
    if w == "" {
      assert t == [':', ' ', '{'] + r;
      assert t[1..] == [' ', '{'] + r;
      assert t[1..][1..] == ['{'] + r;
      assert t[1..][1..][1..] == r;
      assert AfterBrace(t[1..][1..]) == Some(r);
      assert AfterBrace(t[1..]) == Some(r);
    } else {
      assert t[1..] == w[1..] + ": {" + r;
      BraceAfterWord(w[1..], r);
    }
  }

  /** The rest of a word is skipped. */
  lemma {:induction false} SkipWord(w: string, r: string, attr: Option<string>, found: seq<(string, string)>)
    requires AllWord(w)
    ensures Attributes(w + r, true, attr, found) == Attributes(r, true, attr, found)
  {
    if w == "" {
      assert w + r == r;
    } else {
      assert (w + r)[1..] == w[1..] + r;
      SkipWord(w[1..], r, attr, found);
    }
  }

  /** A whole word becomes an attribute name, or the value of the pending one. */
  lemma TakeWord(w: string, r: string, attr: Option<string>, found: seq<(string, string)>)
    requires Token(w) && r != "" && !IsWord(r[0])
    ensures Attributes(w + r, false, attr, found) ==
            if attr.None? then Attributes(r, true, Some(w), found)
            else Attributes(r, true, None, found + [(attr.value, w)])
  {
    assert (w + r)[1..] == w[1..] + r;
    WordOf(w, r);
    SkipWord(w[1..], r, if attr.None? then Some(w) else None,
             if attr.None? then found else found + [(attr.value, w)]);
  }

  lemma Separator(c: char, d: char, r: string, attr: Option<string>, found: seq<(string, string)>)
    requires !IsWord(c) && !IsWord(d) && c != '}' && d != '}'
    ensures Attributes([c, d] + r, true, attr, found) == Attributes(r, false, attr, found)
  {
    assert ([c, d] + r)[1..] == [d] + r;
    assert ([d] + r)[1..] == r;
  }

  /** One printed pair. */
  lemma PairOf(a: string, v: string, x: string, found: seq<(string, string)>)
    requires Token(a) && Token(v) && x != "" && !IsWord(x[0])
    ensures Attributes(a + (": " + (v + x)), false, None, found) == Attributes(x, true, None, found + [(a, v)])
  {
    hide Attributes, Token;
    TakeWord(a, ": " + (v + x), None, found);
    Separator(':', ' ', v + x, Some(a), found);
    assert [':', ' '] + (v + x) == ": " + (v + x);
    TakeWord(v, x, Some(a), found);
  }

  lemma ClosingBrace(r: string, inWord: bool, found: seq<(string, string)>)
    ensures Attributes("}" + r, inWord, None, found) == (found, Some(r))
  {
    assert ("}" + r)[1..] == r;
  }

  lemma Push(x: string, y: string, z: string, w: string)
    ensures (x + y) + z + w == x + (y + z + w)
    ensures "" + z + w == z + w
  {
  }

  lemma PrintAttrsStep(attrs: seq<(string, string)>, r: string)
    requires attrs != []
    ensures PrintAttrs(attrs) + "}" + r ==
            attrs[0].0 + (": " + (attrs[0].1 +
              (if |attrs| > 1 then ", " + (PrintAttrs(attrs[1..]) + "}" + r) else "}" + r)))
  {
    var more := PrintAttrs(attrs[1..]);
    var tail := if |attrs| > 1 then ", " + more else "";
    var (a, v) := attrs[0];
    assert PrintAttrs(attrs) == a + (": " + (v + tail));
    hide PrintAttrs;
    PushPair(a, v, tail, "}", r);
    Push(", ", more, "}", r);
    Push("", "", "}", r);
  }

  lemma PushPair(a: string, v: string, tail: string, z: string, w: string)
    ensures a + (": " + (v + tail)) + z + w == a + (": " + (v + (tail + z + w)))
  {
    Push(a, ": " + (v + tail), z, w);
    Push(": ", v + tail, z, w);
    Push(v, tail, z, w);
  }

  lemma {:induction false} AttributesOf(attrs: seq<(string, string)>, r: string, found: seq<(string, string)>)
    requires forall i :: 0 <= i < |attrs| ==> Token(attrs[i].0) && Token(attrs[i].1)
    ensures Attributes(PrintAttrs(attrs) + "}" + r, false, None, found) == (found + attrs, Some(r))
    decreases |attrs|
  {
    hide Attributes, Token;
    if attrs == [] {
      ClosingBrace(r, false, found);
      assert PrintAttrs(attrs) + "}" + r == "}" + r;
      assert found + attrs == found;
    } else {
      var (a, v) := attrs[0];
      var tail := PrintAttrs(attrs[1..]) + "}" + r;
      var found' := found + [(a, v)];
      PrintAttrsStep(attrs, r);
      hide PrintAttrs;
      assert found' + attrs[1..] == found + attrs;
      if |attrs| > 1 {
        PairOf(a, v, ", " + tail, found);
        Separator(',', ' ', tail, None, found');
        assert [',', ' '] + tail == ", " + tail;
        AttributesOf(attrs[1..], r, found');
      } else {
        PairOf(a, v, "}" + r, found);
        ClosingBrace(r, true, found');
        assert found' == found + attrs;
      }
    }
  }

  // Not only printed text: any separators will do.

  predicate Separates(s: string)
  {
    s != "" && forall i :: 0 <= i < |s| ==> !IsWord(s[i]) && s[i] != '}'
  }

  /** Words, each followed by what separates it from the next. */
  function Spread(ws: seq<(string, string)>): string
  {
    if ws == [] then "" else ws[0].0 + (ws[0].1 + Spread(ws[1..]))
  }

  /** The words taken two by two, beginning with a value for `attr` if there is one. */
  function PairUp(ws: seq<(string, string)>, attr: Option<string>): seq<(string, string)>
  {
    if ws == [] then []
    else if attr.None? then PairUp(ws[1..], Some(ws[0].0))
    else [(attr.value, ws[0].0)] + PairUp(ws[1..], None)
  }

  lemma {:induction false} SkipSeparator(s: string, r: string, inWord: bool, attr: Option<string>, found: seq<(string, string)>)
    requires forall i :: 0 <= i < |s| ==> !IsWord(s[i]) && s[i] != '}'
    ensures s != "" || !inWord ==> Attributes(s + r, inWord, attr, found) == Attributes(r, false, attr, found)
    decreases |s|
  {
    if s == "" {
      assert s + r == r;
    } else {
      assert (s + r)[1..] == s[1..] + r;
      SkipSeparator(s[1..], r, false, attr, found);
    }
  }

  lemma SpreadStep(ws: seq<(string, string)>, r: string)
    requires ws != []
    ensures Spread(ws) + "}" + r == ws[0].0 + (ws[0].1 + (Spread(ws[1..]) + "}" + r))
  {
    PushSpread(ws[0].0, ws[0].1, Spread(ws[1..]), "}", r);
  }

  lemma PushSpread(a: string, b: string, c: string, z: string, w: string)
    ensures (a + (b + c)) + z + w == a + (b + (c + z + w))
  {
    Push(a, b + c, z, w);
    Push(b, c, z, w);
  }

  /**
   The attribute loop on words with any separators, newlines and braces that open included: first
   word and second make the first pair, and so on; a last word without a partner is dropped.
   */
  lemma {:induction false} AttributesAnySeparators(ws: seq<(string, string)>, r: string, attr: Option<string>,
                                                  found: seq<(string, string)>)
    requires forall i :: 0 <= i < |ws| ==> Token(ws[i].0) && Separates(ws[i].1)
    ensures Attributes(Spread(ws) + "}" + r, false, attr, found) == (found + PairUp(ws, attr), Some(r))
    decreases |ws|
  {
    hide Attributes, Token;
    if ws == [] {
      assert Spread(ws) + "}" + r == "}" + r;
      BraceEnds(r, attr, found);
      assert found + PairUp(ws, attr) == found;
    } else {
      var (w, sep) := ws[0];
      var rest := Spread(ws[1..]) + "}" + r;
      SpreadStep(ws, r);
      TakeWord(w, sep + rest, attr, found);
      if attr.None? {
        SkipSeparator(sep, rest, true, Some(w), found);
        AttributesAnySeparators(ws[1..], r, Some(w), found);
      } else {
        var found' := found + [(attr.value, w)];
        SkipSeparator(sep, rest, true, None, found');
        AttributesAnySeparators(ws[1..], r, None, found');
        assert found' + PairUp(ws[1..], None) == found + ([(attr.value, w)] + PairUp(ws[1..], None));
      }
    }
  }

  lemma BraceEnds(r: string, attr: Option<string>, found: seq<(string, string)>)
    ensures Attributes("}" + r, false, attr, found) == (found, Some(r))
  {
    assert ("}" + r)[1..] == r;
  }

  lemma {:induction false} SameAsBoard(w: string, b: string, r: string)
    requires AllWord(w) && AllWord(b)
    ensures StrSame(w + ": {" + r, b + ":") <==> w == b
  {
    var t, u := w + ": {" + r, b + ":";
    if w == "" || b == "" {
      if w == "" && b == "" {
        assert t[1..] == " {" + r && u[1..] == "";
      }
    } else {
      assert t[1..] == w[1..] + ": {" + r && u[1..] == b[1..] + ":";
      SameAsBoard(w[1..], b[1..], r);
      assert w == b <==> w[0] == b[0] && w[1..] == b[1..] by {
        assert w == [w[0]] + w[1..] && b == [b[0]] + b[1..];
      }
    }
  }

  /** What is left of the previous line, and the start of this one. */
  lemma NameAt(l: Line, r: string)
    requires Token(l.kind)
    ensures SkipToName(PrintLine(l) + r, false) == SkipToName("\n" + (PrintLine(l) + r), false) == PrintLine(l) + r
    ensures PrintLine(l) + r == l.kind + ": {" + (PrintAttrs(l.attrs) + "}" + ("\n" + r))
  {
    var t := PrintLine(l) + r;
    assert t[0] == l.kind[0];
    assert ("\n" + t)[1..] == t;
  }

  /** What parse_section makes of a text that starts with a line's name. */
  lemma LineBody(l: Line, rest: string)
    requires Token(l.kind) && forall i :: 0 <= i < |l.attrs| ==> Token(l.attrs[i].0) && Token(l.attrs[i].1)
    ensures var body := PrintAttrs(l.attrs) + "}" + rest;
            var t := l.kind + ": {" + body;
            && t != "" && Word(t) == l.kind && AfterBrace(t) == Some(body)
            && Attributes(body, false, None, []) == (l.attrs, Some(rest))
            && (StrSame(t, BOARD_SECTION) <==> l.kind == "Board")
  {
    var body := PrintAttrs(l.attrs) + "}" + rest;
    hide PrintAttrs, Attributes, AfterBrace, StrSame, Word;
    assert AllWord("Board") && "Board" + ":" == BOARD_SECTION;
    SameAsBoard(l.kind, "Board", body);
    BraceAfterWord(l.kind, body);
    AttributesOf(l.attrs, rest, []);
    assert [] + l.attrs == l.attrs;
    assert l.kind + ": {" + body == l.kind + (": {" + body);
    WordOf(l.kind, ": {" + body);
  }

  /** A printed line, with or without the previous line's newline, is parsed back whole. */
  lemma LineReadsBack(l: Line, r: string)
    requires PrintableLine(l)
    ensures ParseSection(PrintLine(l) + r) == Closed(l, "\n" + r)
    ensures ParseSection("\n" + (PrintLine(l) + r)) == Closed(l, "\n" + r)
  {
    NameAt(l, r);
    LineBody(l, "\n" + r);
    hide SkipToName, PrintLine, PrintAttrs, Attributes, AfterBrace, StrSame, Word;
  }

  lemma BlankEnds()
    ensures ParseSection("") == NoSection && ParseSection("\n") == NoSection
  {
  }

  /** Every section of a text, by calling parse_section again behind each closing brace. */
  function Sections(t: string): seq<Line>
    decreases |t|
  {
    match ParseSection(t)
    case Closed(line, rest) => [line] + Sections(rest)
    case _ => []
  }

  /** The parser of sections undoes the printer on any list of lines. */
  lemma SectionsReadBack(ls: seq<Line>)
    requires forall i :: 0 <= i < |ls| ==> PrintableLine(ls[i])
    ensures Sections(PrintAll(ls)) == ls
  {
    hide ParseSection, PrintLine, PrintableLine;
    if ls == [] {
      BlankEnds();
    } else {
      LineReadsBack(ls[0], PrintAll(ls[1..]));
      RestOfSections(ls[1..]);
    }
  }

  lemma {:induction false} RestOfSections(ls: seq<Line>)
    requires forall i :: 0 <= i < |ls| ==> PrintableLine(ls[i])
    ensures Sections("\n" + PrintAll(ls)) == ls
    decreases |ls|
  {
    hide ParseSection, PrintLine, PrintableLine;
    if ls == [] {
      assert "\n" + PrintAll(ls) == "\n";
      BlankEnds();
    } else {
      LineReadsBack(ls[0], PrintAll(ls[1..]));
      RestOfSections(ls[1..]);
    }
  }

  /** The index of the first line that filling the tables refuses, or the number of lines. */
  function FirstRefused(ls: seq<Line>, c: Counts): (k: nat)
    ensures k <= |ls|
  {
    if ls == [] || Refuses(ls[0], c) then 0 else 1 + FirstRefused(ls[1..], Fill(ls[0], c))
  }

  /** parse_cfg on these lines one after the other. */
  function Stops(ls: seq<Line>, c: Counts): Config
  {
    var k := FirstRefused(ls, c);
    if k == |ls| then Parsed(ls) else Refused(ls[..k + 1])
  }

  lemma NoStop(c: Counts)
    ensures Stops([], c) == Parsed([])
  {
  }

  lemma StopsStep(ls: seq<Line>, c: Counts)
    requires ls != []
    ensures Stops(ls, c) ==
            if Refuses(ls[0], c) then Refused([ls[0]]) else Prepend(ls[0], Stops(ls[1..], Fill(ls[0], c)))
  {
    hide Refuses, Fill;
    assert [ls[0]] + ls[1..] == ls;
    if !Refuses(ls[0], c) {
      var k := FirstRefused(ls[1..], Fill(ls[0], c));
      if k < |ls| - 1 {
        assert [ls[0]] + ls[1..][..k + 1] == ls[..k + 2];
      }
    } else {
      assert ls[..1] == [ls[0]];
    }
  }

  /** From the second line on the text starts with the newline the previous section left behind. */
  lemma {:induction false} RestReadsBack(ls: seq<Line>, consume: nat, c: Counts)
    requires forall i :: 0 <= i < |ls| ==> PrintableLine(ls[i])
    ensures ParseCfg("\n" + PrintAll(ls), consume, c) == Stops(ls, c)
    decreases |ls|
  {
    hide ParseSection, PrintLine, PrintableLine, Refuses, Fill, Room, Stops, FirstRefused;
    NoStop(c);
    if ls == [] {
      assert "\n" + PrintAll(ls) == "\n";
      BlankEnds();
    } else {
      LineReadsBack(ls[0], PrintAll(ls[1..]));
      var t, rest := "\n" + PrintAll(ls), "\n" + PrintAll(ls[1..]);
      RestReadsBack(ls[1..], |t| - |rest|, Fill(ls[0], c));
      StopsStep(ls, c);
    }
  }

  /**
   Parsing what the printer printed gives the same lines back, in order: all of them, or those up
   to the first one that does not fit the board's tables.
   */
  lemma PrinterParserInverse(ls: seq<Line>)
    requires forall i :: 0 <= i < |ls| ==> PrintableLine(ls[i])
    ensures ParseCfg(PrintAll(ls), 0, NONE) == Stops(ls, NONE)
  {
    hide ParseSection, PrintLine, PrintableLine, Refuses, Fill, Room, Stops, FirstRefused;
    NoStop(NONE);
    if ls == [] {
      BlankEnds();
    } else {
      LineReadsBack(ls[0], PrintAll(ls[1..]));
      var t, rest := PrintAll(ls), "\n" + PrintAll(ls[1..]);
      RestReadsBack(ls[1..], |t| - |rest|, Fill(ls[0], NONE));
      StopsStep(ls, NONE);
    }
  }

  /** How many of the lines fill table `t`. */
  function Uses(ls: seq<Line>, t: Table): (n: nat)
  {
    if ls == [] then 0 else (if TableOf(ls[0].kind) == t then 1 else 0) + Uses(ls[1..], t)
  }

  /** Line `k` fits: its table has room behind the lines before it, and its ports are among them. */
  predicate LineFits(ls: seq<Line>, k: nat)
    requires k < |ls|
  {
    var t := TableOf(ls[k].kind);
    t.Ignored? || (
      && Uses(ls[..k], t) < Limit(t)
      && (t.Codec? ==> CodecOk(ls[k].attrs, Uses(ls[..k], I2c), Uses(ls[..k], I2s))))
  }

  lemma {:induction false} UsesSplit(ls: seq<Line>, more: seq<Line>, t: Table)
    ensures Uses(ls + more, t) == Uses(ls, t) + Uses(more, t)
  {
    if ls == [] {
      assert ls + more == more;
    } else {
      assert (ls + more)[1..] == ls[1..] + more;
      UsesSplit(ls[1..], more, t);
    }
  }

  lemma UsesSnoc(ls: seq<Line>, l: Line, t: Table)
    ensures Uses(ls + [l], t) == Uses(ls, t) + (if TableOf(l.kind) == t then 1 else 0)
  {
    UsesSplit(ls, [l], t);
    hide TableOf;
    assert [l][1..] == [];
  }

  ghost predicate CountsAre(c: Counts, ls: seq<Line>)
  {
    forall t: Table :: !t.Ignored? ==> Held(c, t) == Uses(ls, t)
  }

  lemma CountsSnoc(c: Counts, ls: seq<Line>, l: Line)
    requires CountsAre(c, ls)
    ensures CountsAre(Fill(l, c), ls + [l])
  {
    hide TableOf, Uses;
    forall t: Table | !t.Ignored? ensures Held(Fill(l, c), t) == Uses(ls + [l], t) {
      UsesSnoc(ls, l, t);
    }
  }

  lemma RefusesIff(ls: seq<Line>, k: nat, c: Counts)
    requires k < |ls| && CountsAre(c, ls[..k])
    ensures Refuses(ls[k], c) <==> !LineFits(ls, k)
  {
    hide TableOf, Uses, CodecOk;
    assert c.i2c == Held(c, I2c) && c.i2s == Held(c, I2s);
  }

  lemma {:induction false} RefusedFrom(ls: seq<Line>, k: nat, c: Counts)
    requires k <= |ls| && CountsAre(c, ls[..k])
    ensures var n := k + FirstRefused(ls[k..], c);
            && (forall i :: k <= i < n && i < |ls| ==> LineFits(ls, i))
            && (n < |ls| ==> !LineFits(ls, n))
    decreases |ls| - k
  {
    hide Refuses, Fill, CountsAre, LineFits;
    if k < |ls| {
      RefusesIff(ls, k, c);
      assert ls[k..][1..] == ls[k + 1..];
      if !Refuses(ls[k], c) {
        CountsSnoc(c, ls[..k], ls[k]);
        assert ls[..k] + [ls[k]] == ls[..k + 1];
        RefusedFrom(ls, k + 1, Fill(ls[k], c));
      }
    }
  }

  /**
   The refused line is the first that does not fit: one i2c or i2s line, or codec, too many (two
   each), a second lcd, camera or sdcard, or a codec line with an unknown codec or with a port
   number that no earlier line has.
   */
  lemma FirstRefusedIsFirstMisfit(ls: seq<Line>)
    ensures var n := FirstRefused(ls, NONE);
            && (forall i :: 0 <= i < n && i < |ls| ==> LineFits(ls, i))
            && (n < |ls| ==> !LineFits(ls, n))
  {
    assert ls[..0] == [] && ls[0..] == ls;
    assert CountsAre(NONE, []);
    RefusedFrom(ls, 0, NONE);
  }

  /** The name `Board` is the one that cannot be printed and read back: it ends the section. */
  lemma BoardEndsSection(l: Line, r: string)
    requires l.kind == "Board" && Token(l.kind)
    requires forall i :: 0 <= i < |l.attrs| ==> Token(l.attrs[i].0) && Token(l.attrs[i].1)
    ensures ParseSection(PrintLine(l) + r) == NoSection
  {
    NameAt(l, r);
    LineBody(l, "\n" + r);
    hide SkipToName, PrintLine, PrintAttrs, Attributes, AfterBrace, StrSame, Word;
  }

  // ---------------------------------------------------------------------------------------
  // When parse_cfg stops
  // ---------------------------------------------------------------------------------------

  /** Where parse_cfg is at the start of a round: the text left, its step, the tables so far. */
  datatype Position = Position(text: string, consume: nat, counts: Counts)

  /** The position after one round, if parse_cfg is still running then. */
  function NextPosition(at: Position): Option<Position>
  {
    match ParseSection(at.text)
    case NoSection => None
    case Overrun => None
    case Closed(line, rest) =>
      if Refuses(line, at.counts) then None
      else Some(Position(rest, |at.text| - |rest|, Fill(line, at.counts)))
    case Unclosed(line) =>
      if Refuses(line, at.counts) || at.consume > |at.text| then None
      else Some(Position(at.text[at.consume..], at.consume, Fill(line, at.counts)))
  }

  /** The position after `n` rounds, if parse_cfg runs that long. */
  function After(at: Position, n: nat): Option<Position>
    decreases n
  {
    if n == 0 then Some(at)
    else
      var next := NextPosition(at);
      if next.None? then None else After(next.value, n - 1)
  }

  /** parse_cfg is still running after `n` rounds of its loop. */
  predicate Running(t: string, consume: nat, c: Counts, n: nat)
  {
    After(Position(t, consume, c), n).Some?
  }

  lemma {:induction false} StillRunning(t: string, consume: nat, c: Counts, n: nat)
    requires ParseCfg(t, consume, c).LoopsForever?
    ensures Running(t, consume, c, n)
    decreases n
  {
    hide ParseSection, Refuses, Room;
    if n > 0 {
      match ParseSection(t)
      case Closed(line, rest) => StillRunning(rest, |t| - |rest|, Fill(line, c), n - 1);
      case Unclosed(line) =>
        if consume == 0 {
          assert t[0..] == t;
        }
        StillRunning(t[consume..], consume, Fill(line, c), n - 1);
    }
  }

  lemma {:induction false} Halts(t: string, consume: nat, c: Counts) returns (n: nat)
    requires !ParseCfg(t, consume, c).LoopsForever?
    ensures !Running(t, consume, c, n)
    decreases |t|, Room(c)
  {
    hide ParseSection, Refuses;
    n := 1;
    match ParseSection(t)
    case Closed(line, rest) =>
      if !Refuses(line, c) {
        n := Halts(rest, |t| - |rest|, Fill(line, c));
        n := n + 1;
      }
    case Unclosed(line) =>
      if !Refuses(line, c) && consume <= |t| {
        if consume == 0 {
          FillTakesRoom(line, c);
        }
        n := Halts(t[consume..], consume, Fill(line, c));
        n := n + 1;
      }
    case _ =>
  }

  lemma FillTakesRoom(l: Line, c: Counts)
    requires !Refuses(l, c) && !TableOf(l.kind).Ignored?
    ensures Room(Fill(l, c)) < Room(c)
  {
    hide TableOf, CodecOk;
  }

  /** The ending `LoopsForever` is what it says: the loop outlasts every number of rounds. */
  lemma LoopsForeverMeansForever(t: string, consume: nat, c: Counts)
    ensures ParseCfg(t, consume, c).LoopsForever? <==> forall n: nat :: Running(t, consume, c, n)
  {
    hide ParseCfg, Running;
    if ParseCfg(t, consume, c).LoopsForever? {
      forall n: nat ensures Running(t, consume, c, n) {
        StillRunning(t, consume, c, n);
      }
    } else {
      var n := Halts(t, consume, c);
    }
  }

  /**
   The round that begins here leaves the text: the search for a '{' runs off its end, or a section
   without '}' is accepted and then skipped by more characters than are left.
   */
  predicate LeavesText(at: Position)
  {
    var s := ParseSection(at.text);
    s.Overrun? || (s.Unclosed? && !Refuses(s.line, at.counts) && at.consume > |at.text|)
  }

  lemma {:induction false} FindsExit(t: string, consume: nat, c: Counts) returns (n: nat)
    requires ParseCfg(t, consume, c).OutOfBounds?
    ensures var at := After(Position(t, consume, c), n); at.Some? && LeavesText(at.value)
    decreases |t|, Room(c)
  {
    hide ParseSection, Refuses;
    n := 0;
    if !LeavesText(Position(t, consume, c)) {
      match ParseSection(t)
      case Closed(line, rest) =>
        n := FindsExit(rest, |t| - |rest|, Fill(line, c));
        n := n + 1;
      case Unclosed(line) =>
        if consume == 0 {
          FillTakesRoom(line, c);
        }
        n := FindsExit(t[consume..], consume, Fill(line, c));
        n := n + 1;
      case _ =>
    }
  }

  lemma {:induction false} ExitIsOut(t: string, consume: nat, c: Counts, n: nat)
    requires var at := After(Position(t, consume, c), n); at.Some? && LeavesText(at.value)
    ensures ParseCfg(t, consume, c).OutOfBounds? || ParseCfg(t, consume, c).LoopsForever?
    decreases n
  {
    hide ParseSection, Refuses, Room;
    if n > 0 {
      match ParseSection(t)
      case Closed(line, rest) => ExitIsOut(rest, |t| - |rest|, Fill(line, c), n - 1);
      case Unclosed(line) =>
        if consume == 0 {
          assert t[0..] == t;
        }
        ExitIsOut(t[consume..], consume, Fill(line, c), n - 1);
    }
  }

  lemma {:induction false} NoExitAfter(at: Position, n: nat, m: nat)
    requires After(at, n).Some? && LeavesText(After(at, n).value) && m > n
    ensures After(at, m).None?
    decreases n
  {
    hide ParseSection, Refuses;
    if n > 0 {
      NoExitAfter(NextPosition(at).value, n - 1, m - 1);
    }
  }

  /** parse_cfg walks off the text exactly when it gets, in some number of rounds, where that happens. */
  lemma OutOfBoundsIff(t: string, consume: nat, c: Counts)
    ensures ParseCfg(t, consume, c).OutOfBounds? <==>
            exists n :: After(Position(t, consume, c), n).Some? && LeavesText(After(Position(t, consume, c), n).value)
  {
    hide ParseCfg, After, LeavesText;
    var at := Position(t, consume, c);
    if ParseCfg(t, consume, c).OutOfBounds? {
      var n := FindsExit(t, consume, c);
    } else {
      forall n: nat | After(at, n).Some? ensures !LeavesText(After(at, n).value) {
        if LeavesText(After(at, n).value) {
          ExitIsOut(t, consume, c, n);
          NoExitAfter(at, n, n + 1);
          if ParseCfg(t, consume, c).LoopsForever? {
            StillRunning(t, consume, c, n + 1);
          }
          assert false;
        }
      }
    }
  }

  lemma {:induction false} BraceIff(t: string)
    ensures AfterBrace(t).None? <==> '{' !in t
  {
    if t != "" {
      assert '{' in t <==> t[0] == '{' || '{' in t[1..] by {
        assert t == [t[0]] + t[1..];
      }
      BraceIff(t[1..]);
    }
  }

  /** The first way out of the text: a name other than `Board:` with no '{' anywhere behind it. */
  lemma OverrunIff(t: string)
    ensures ParseSection(t).Overrun? <==>
            var name := SkipToName(t, false); name != "" && !StrSame(name, BOARD_SECTION) && '{' !in name
  {
    BraceIff(SkipToName(t, false));
    hide SkipToName, StrSame, Attributes, Word;
  }

  lemma {:induction false} AdvancesOnceStarted(t: string, consume: nat, c: Counts)
    requires consume > 0
    ensures !ParseCfg(t, consume, c).LoopsForever?
    decreases |t|
  {
    hide ParseSection, Refuses, Room, TableOf;
    match ParseSection(t)
    case Closed(line, rest) => AdvancesOnceStarted(rest, |t| - |rest|, Fill(line, c));
    case Unclosed(line) =>
      if consume <= |t| {
        if t == "" {
          BlankEnds();
        }
        AdvancesOnceStarted(t[consume..], consume, Fill(line, c));
      }
    case _ =>
  }

  /** A line of a known name that is seen over and over fills its table up and is refused. */
  lemma {:induction false} KnownNameIsRefused(t: string, c: Counts)
    requires ParseSection(t).Unclosed? && !TableOf(ParseSection(t).line.kind).Ignored?
    ensures ParseCfg(t, 0, c).Refused?
    decreases Room(c)
  {
    hide ParseSection, Refuses, TableOf, Room;
    var line := ParseSection(t).line;
    if !Refuses(line, c) {
      FillTakesRoom(line, c);
      assert t[0..] == t;
      KnownNameIsRefused(t, Fill(line, c));
    }
  }

  /** Behind a line that was read, a section without '}' is skipped by as many characters as that line took. */
  lemma LaterUnclosedIsSkipped(t: string, consume: nat, c: Counts)
    requires ParseSection(t).Unclosed? && !Refuses(ParseSection(t).line, c) && 0 < consume <= |t|
    ensures ParseCfg(t, consume, c) ==
            Prepend(ParseSection(t).line, ParseCfg(t[consume..], consume, Fill(ParseSection(t).line, c)))
  {
    hide ParseSection, Refuses, Fill, Room;
  }

  /**
   parse_cfg fails to terminate exactly when the first section of the text lacks its '}' and is
   none of the eight kinds that fill a table; of those the same line is seen until it is refused.
   */
  lemma LoopsIffFirstUnclosed(t: string)
    ensures ParseCfg(t, 0, NONE).LoopsForever? <==>
            ParseSection(t).Unclosed? && TableOf(ParseSection(t).line.kind).Ignored?
    ensures ParseSection(t).Unclosed? && !TableOf(ParseSection(t).line.kind).Ignored? ==>
              ParseCfg(t, 0, NONE).Refused?
  {
    hide ParseSection, TableOf, Refuses, Room, Fill;
    UnknownIsNotRefused(ParseSection(t));
    match ParseSection(t)
    case Closed(line, rest) => AdvancesOnceStarted(rest, |t| - |rest|, Fill(line, NONE));
    case Unclosed(line) =>
      if !TableOf(line.kind).Ignored? {
        KnownNameIsRefused(t, NONE);
      }
    case _ =>
  }

  lemma UnknownIsNotRefused(s: Section)
    ensures s.Unclosed? && TableOf(s.line.kind).Ignored? ==> !Refuses(s.line, NONE)
  {
    hide TableOf;
  }

  /** The attribute loop finds an end exactly when there is a '}'. */
  lemma {:induction false} EndIffBrace(t: string, inWord: bool, attr: Option<string>, found: seq<(string, string)>)
    ensures Attributes(t, inWord, attr, found).1.Some? <==> '}' in t
    decreases |t|
  {
    hide Word;
    if t != "" {
      assert '}' in t <==> t[0] == '}' || '}' in t[1..] by {
        assert t == [t[0]] + t[1..];
      }
      EndIffBrace(t[1..], false, attr, found);
      EndIffBrace(t[1..], true, attr, found);
      EndIffBrace(t[1..], true, Some(Word(t)), found);
      if attr.Some? {
        EndIffBrace(t[1..], true, None, found + [(attr.value, Word(t))]);
      }
    }
  }

  lemma UnclosedText(kind: string, body: string)
    requires Token(kind) && kind != "Board" && '}' !in body
    ensures ParseSection(kind + ": {" + body).Unclosed? && ParseSection(kind + ": {" + body).line.kind == kind
  {
    var t := kind + ": {" + body;
    EndIffBrace(body, false, None, []);
    assert AllWord("Board") && "Board" + ":" == BOARD_SECTION;
    SameAsBoard(kind, "Board", body);
    BraceAfterWord(kind, body);
    assert t == kind + (": {" + body);
    WordOf(kind, ": {" + body);
    assert t[0] == kind[0];
    hide Attributes, AfterBrace, StrSame, Word;
  }

  /** For text that lacks its '}', the name alone decides. */
  lemma UnclosedTextLoops(kind: string, body: string)
    requires Token(kind) && kind != "Board" && '}' !in body
    ensures ParseCfg(kind + ": {" + body, 0, NONE).LoopsForever? <==> TableOf(kind).Ignored?
    ensures ParseCfg(kind + ": {" + body, 0, NONE).Refused? <==> !TableOf(kind).Ignored?
  {
    UnclosedText(kind, body);
    LoopsIffFirstUnclosed(kind + ": {" + body);
    hide ParseCfg, ParseSection, TableOf;
  }

  lemma ExampleNames()
    ensures TableOf("x").Ignored? && TableOf("lcd").Lcd?
    ensures Token("x") && Token("lcd") && '}' !in "y"
  {
  }

  /** A text that is a single name walks off at once. */
  lemma LoneName(name: string)
    requires Token(name) && name != "Board"
    ensures ParseCfg(name, 0, NONE) == OutOfBounds([])
  {
    OverrunIff(name);
    assert SkipToName(name, false) == name;
    WordOf(name, "");
    assert name + "" == name;
    assert !StrSame(name, BOARD_SECTION) by {
      WordHasNoColon(name, BOARD_SECTION);
    }
    hide SkipToName, StrSame, Attributes, Word;
  }

  lemma {:induction false} WordHasNoColon(w: string, b: string)
    requires AllWord(w) && ':' in b
    ensures !StrSame(w, b)
  {
    if w != "" && w[0] == b[0] {
      assert b == [b[0]] + b[1..];
      WordHasNoColon(w[1..], b[1..]);
    }
  }

  /** So does a section without '}' that is shorter than the line before it. */
  lemma ShortRest(l: Line, kind: string, body: string)
    requires PrintableLine(l) && Token(kind) && kind != "Board" && '}' !in body
    requires TableOf(l.kind).Ignored? && TableOf(kind).Ignored?
    requires |kind + ": {" + body| + 1 < |PrintLine(l)| - 1
    ensures ParseCfg(PrintLine(l) + (kind + ": {" + body), 0, NONE).OutOfBounds?
  {
    var r := kind + ": {" + body;
    LineReadsBack(l, r);
    UnclosedText(kind, body);
    BlankBefore(r);
    assert r[0] == kind[0];
    hide ParseSection, PrintLine, TableOf;
  }

  lemma {:induction false} CommentIsSkipped(c: string, t: string)
    requires '\n' !in c
    ensures SkipToName(c + ("\n" + t), true) == SkipToName(t, false)
    decreases |c|
  {
    if c == "" {
      assert c + ("\n" + t) == "\n" + t && ("\n" + t)[1..] == t;
    } else {
      assert (c + ("\n" + t))[1..] == c[1..] + ("\n" + t);
      assert c[0] != '\n' && '\n' !in c[1..];
      CommentIsSkipped(c[1..], t);
    }
  }

  /** A comment line in front of a section changes nothing, whatever it contains. */
  lemma CommentChangesNothing(c: string, t: string)
    requires '\n' !in c
    ensures ParseSection("#" + c + "\n" + t) == ParseSection(t)
  {
    var u := "#" + c + "\n" + t;
    assert u[1..] == c + ("\n" + t);
    CommentIsSkipped(c, t);
    assert SkipToName(u, false) == SkipToName(t, false);
    hide SkipToName, StrSame, Attributes, AfterBrace, Word;
  }

  /** The newline left over from the line before changes nothing but the length. */
  lemma BlankBefore(t: string)
    ensures ParseSection("\n" + t) == ParseSection(t)
  {
    assert ("\n" + t)[1..] == t;
    assert SkipToName("\n" + t, false) == SkipToName(t, false);
    hide SkipToName, StrSame, Attributes, AfterBrace, Word;
  }

  lemma LedLine() returns (l: Line)
    ensures PrintLine(l) == "led: {pin: 4}\n" && PrintableLine(l) && TableOf(l.kind).Ignored?
  {
    l := Line("led", [("pin", "4")]);
    hide TableOf;
    assert PrintAttrs(l.attrs) == "pin: 4" by {
      assert l.attrs[1..] == [];
    }
    hide PrintAttrs;
    LedIgnored();
  }

  lemma LedIgnored()
    ensures TableOf("led").Ignored?
  {
  }

  lemma I2cIsName()
    ensures Token("i2c")
  {
  }

  lemma LeavesTextExamples()
    ensures ParseCfg("i2c", 0, NONE) == OutOfBounds([])
    ensures ParseCfg("led: {pin: 4}\nx: {", 0, NONE).OutOfBounds?
  {
    hide *;
    I2cIsName();
    LoneName("i2c");
    var l := LedLine();
    ExampleNames();
    assert "x" + ": {" + "" == "x: {" && "led: {pin: 4}\n" + "x: {" == "led: {pin: 4}\nx: {";
    ShortRest(l, "x", "");
  }

  /** Two such texts: the first is parsed for ever, the second is refused. */
  lemma UnclosedExamples()
    ensures ParseCfg("x: {y", 0, NONE).LoopsForever?
    ensures ParseCfg("lcd: {y", 0, NONE).Refused?
  {
    hide *;
    ExampleNames();
    UnclosedTextLoops("x", "y");
    UnclosedTextLoops("lcd", "y");
    assert "x" + ": {" + "y" == "x: {y" && "lcd" + ": {" + "y" == "lcd: {y";
  }

  // ---------------------------------------------------------------------------------------
  // The pointer-walking code
  // ---------------------------------------------------------------------------------------

  lemma WordGrows(text: string, p: nat)
    requires p < |text| && IsWord(text[p])
    ensures |Word(text[p..])| == 1 + |Word(text[p + 1..])|
  {
    assert text[p..][1..] == text[p + 1..];
  }

  /** str_len of the text at offset `p`; reading past the end meets the terminating NUL. */
  method StrLen(text: string, p: nat) returns (len: nat)
    requires p <= |text|
    ensures p + len <= |text| && text[p..p + len] == Word(text[p..])
  {
    hide IsWord, AllWord;
    len := 0;
    while p + len < |text| && IsWord(text[p + len])
      invariant p + len <= |text| && |Word(text[p..])| == len + |Word(text[p + len..])|
    {
      WordGrows(text, p + len);
      len := len + 1;
    }
    assert text[p..p + len] == text[p..][..len];
  }

  method CompareAt(text: string, p: nat, b: string) returns (same: bool)
    requires p <= |text|
    ensures same == StrSame(text[p..], b)
  {
    var i := 0;
    while i < |b| && p + i < |text| && text[p + i] == b[i]
      invariant i <= |b| && p + i <= |text| && StrSame(text[p..], b) == StrSame(text[p + i..], b[i..])
    {
      assert text[p + i..][1..] == text[p + i + 1..] && b[i..][1..] == b[i + 1..];
      i := i + 1;
    }
    if i == |b| {
      if p + i == |text| || !IsWord(text[p + i]) {
        return true;
      }
    }
    return false;
  }

  /** The comment-skipping loop of parse_section. */
  method FindName(text: string, p: nat) returns (name: nat)
    requires p <= |text|
    ensures name <= |text| && text[name..] == SkipToName(text[p..], false)
  {
    name := p;
    var comment := false;
    while name < |text|
      invariant p <= name <= |text| && SkipToName(text[p..], false) == SkipToName(text[name..], comment)
    {
      assert text[name..][1..] == text[name + 1..];
      if text[name] == '#' {
        comment := true;
      }
      if comment {
        if text[name] == '\n' {
          comment := false;
        }
      } else {
        if IsWord(text[name]) {
          break;
        }
      }
      name := name + 1;
    }
  }

  /** The walk to the opening brace; it has no bound of its own. */
  method FindBody(text: string, name: nat) returns (body: Option<nat>)
    requires name <= |text|
    ensures body.Some? ==> body.value <= |text| && AfterBrace(text[name..]) == Some(text[body.value..])
    ensures body.None? ==> AfterBrace(text[name..]) == None
  {
    var s := name;
    while s < |text|
      invariant name <= s <= |text| && AfterBrace(text[name..]) == AfterBrace(text[s..])
    {
      assert text[s..][1..] == text[s + 1..];
      if text[s] == '{' {
        return Some(s + 1);
      }
      s := s + 1;
    }
    return None;
  }

  /** The attribute loop of parse_section, appending to the line's list as it goes. */
  method ReadAttributes(text: string, body: nat) returns (attrs: seq<(string, string)>, end: Option<nat>)
    requires body <= |text|
    ensures var (found, rest) := Attributes(text[body..], false, None, []);
            && attrs == found && (end.Some? <==> rest.Some?)
            && (end.Some? ==> body < end.value <= |text| && rest.value == text[end.value..])
  {
    var s, wordLen := body, 0;
    var attr: Option<nat> := None;
    attrs := [];
    while s < |text|
      invariant body <= s <= |text| && 0 <= wordLen
      invariant attr.Some? ==> attr.value <= |text|
      invariant Attributes(text[body..], false, None, []) ==
                Attributes(text[s..], wordLen != 0,
                           if attr.None? then None else Some(Word(text[attr.value..])), attrs)
    {
      assert text[s..][1..] == text[s + 1..];
      if text[s] == '}' {
        return attrs, Some(s + 1);
      }
      if IsWord(text[s]) {
        if wordLen == 0 {
          if attr.None? {
            attr := Some(s);
          } else {
            attrs := attrs + [(Word(text[attr.value..]), Word(text[s..]))];
            attr := None;
          }
        }
        wordLen := wordLen + 1;
      } else {
        wordLen := 0;
      }
      s := s + 1;
    }
    return attrs, None;
  }

  /** parse_section at offset `p`; `end` is the offset behind the closing brace. */
  method ReadSection(text: string, p: nat) returns (s: Section, end: nat)
    requires p <= |text|
    ensures s == ParseSection(text[p..])
    ensures s.Closed? ==> p < end <= |text| && s.rest == text[end..]
  {
    hide AfterBrace, Attributes, SkipToName, StrSame;
    end := p;
    var name := FindName(text, p);
    if name == |text| {
      return NoSection, end;
    }
    var board := CompareAt(text, name, BOARD_SECTION);
    if board {
      return NoSection, end;
    }
    var body := FindBody(text, name);
    if body.None? {
      return Overrun, end;
    }
    var len := StrLen(text, name);
    var attrs, close := ReadAttributes(text, body.value);
    var line := Line(text[name..name + len], attrs);
    if close.None? {
      return Unclosed(line), end;
    }
    end := close.value;
    s := Closed(line, text[end..]);
    assert |text[end..]| < |text[p..]|;
  }

  /** On a pointer into the text, str_same compares the word found there. */
  lemma {:induction false} SameIsWord(t: string, b: string)
    requires AllWord(b)
    ensures StrSame(t, b) <==> Word(t) == b
  {
    if b != "" && t != "" && t[0] == b[0] {
      SameIsWord(t[1..], b[1..]);
      assert Word(t) == [t[0]] + Word(t[1..]) && b == [b[0]] + b[1..];
    }
  }

  /** Decimal digits of a number, as they are written in a board's text. */
  function Written(n: nat): (w: string)
  {
    if n < 10 then [('0' as int + n) as char] else Written(n / 10) + [('0' as int + n % 10) as char]
  }

  lemma {:induction false} DigitsSnoc(w: string, d: char, acc: nat)
    requires (forall i :: 0 <= i < |w| ==> IsDigit(w[i])) && IsDigit(d)
    ensures Digits(w + [d], acc) == 10 * Digits(w, acc) + (d - '0') as nat
    decreases |w|
  {
    if w == "" {
      assert w + [d] == [d] && [d][1..] == "";
    } else {
      assert (w + [d])[1..] == w[1..] + [d];
      DigitsSnoc(w[1..], d, 10 * acc + (w[0] - '0') as nat);
    }
  }

  lemma {:induction false} DigitsOfWritten(n: nat)
    ensures Digits(Written(n), 0) == n && Written(n) != "" && forall i :: 0 <= i < |Written(n)| ==> IsDigit(Written(n)[i])
  {
    if n < 10 {
      var d := ('0' as int + n) as char;
      assert [d][1..] == "";
      assert Digits("", (d - '0') as nat) == n;
    } else {
      DigitsOfWritten(n / 10);
      DigitsSnoc(Written(n / 10), ('0' as int + n % 10) as char, 0);
    }
  }

  /** atoi reads written numbers, with and without a minus sign. */
  lemma AtoiReads(n: nat)
    requires n <= INT_MAX
    ensures Atoi(Written(n)) == n && Atoi("-" + Written(n)) == -(n as int)
  {
    DigitsOfWritten(n);
    assert ("-" + Written(n))[1..] == Written(n);
  }

  /** The names with a table, and the codecs. */
  lemma TableNames()
    ensures TableOf("i2c").I2c? && TableOf("i2s").I2s? && TableOf("sdcard").Sdcard? && TableOf("lcd").Lcd?
  {
  }

  lemma MoreTableNames()
    ensures TableOf("in_out").Codec? && TableOf("out").Codec? && TableOf("in").Codec? && TableOf("camera").Camera?
  {
  }

  lemma CodecNames(w: string)
    ensures w in ["ES8311", "ES8388", "ES7243", "ES7210", "ES8389", "DUMMY"] <==> KnownCodec(w)
  {
  }

  /** Letters, digits, '_', '-' and '.' make words; what the printer puts between them does not. */
  lemma WordCharacters(c: char)
    ensures 'a' <= c <= 'z' || 'A' <= c <= 'Z' || '0' <= c <= '9' || c in "_-." <==> IsWord(c)
    ensures !IsWord(':') && !IsWord(' ') && !IsWord(',') && !IsWord('{') && !IsWord('}') && !IsWord('\n')
  {
  }

  /** The room in each table. */
  lemma TableSizes()
    ensures Limit(I2c) == Limit(I2s) == Limit(Codec) == 2
    ensures Limit(Lcd) == Limit(Camera) == Limit(Sdcard) == 1
  {
  }

  /** The limits at work: a third i2c line, a second lcd line, a codec whose port nobody has. */
  lemma LimitExamples()
    ensures var i2c := Line("i2c", []);
            FirstRefused([i2c, i2c, i2c], NONE) == 2
    ensures var lcd := Line("lcd", []);
            FirstRefused([lcd, lcd], NONE) == 1
    ensures var codec := Line("out", [("i2c_port", "0")]);
            FirstRefused([codec], NONE) == 0 && FirstRefused([Line("i2c", []), codec], NONE) == 2
  {
    LimitExample("i2c");
    LimitExample("lcd");
    PortExample();
  }

  lemma LimitExample(kind: string)
    requires kind == "i2c" || kind == "lcd"
    ensures var l := Line(kind, []);
            && (kind == "i2c" ==> FirstRefused([l, l, l], NONE) == 2)
            && (kind == "lcd" ==> FirstRefused([l, l], NONE) == 1)
  {
    var l := Line(kind, []);
    assert TableOf(kind) == if kind == "i2c" then I2c else Lcd;
    hide TableOf;
    assert [l, l, l][1..] == [l, l] && [l, l][1..] == [l] && [l][1..] == [];
    var one := Fill(l, NONE);
    var two := Fill(l, one);
    assert kind == "i2c" ==> !Refuses(l, NONE) && !Refuses(l, one) && Refuses(l, two);
    assert kind == "i2c" ==> FirstRefused([l], two) == 0;
    assert kind == "i2c" ==> FirstRefused([l, l], one) == 1;
    assert kind == "lcd" ==> !Refuses(l, NONE) && FirstRefused([l], one) == 0;
  }

  lemma PortZero(n: nat, m: nat)
    ensures CodecOk([("i2c_port", "0")], n, m) <==> n > 0
  {
    AtoiReads(0);
    assert Written(0) == "0";
    hide Atoi;
    var attrs := [("i2c_port", "0")];
    assert CodecAttrOk(attrs[0], n, m) <==> n > 0;
    hide CodecAttrOk;
    if CodecOk(attrs, n, m) {
      assert CodecAttrOk(attrs[0], n, m);
    }
  }

  lemma PortTables()
    ensures TableOf("out") == Codec && TableOf("i2c") == I2c
  {
  }

  lemma PortExample()
    ensures var codec := Line("out", [("i2c_port", "0")]);
            FirstRefused([codec], NONE) == 0 && FirstRefused([Line("i2c", []), codec], NONE) == 2
  {
    hide TableOf, CodecOk;
    var codec, i2c := Line("out", [("i2c_port", "0")]), Line("i2c", []);
    PortTables();
    PortZero(0, 0);
    PortZero(1, 0);
    var one := Fill(i2c, NONE);
    assert one == Counts(1, 0, 0, 0, 0, 0);
    assert Refuses(codec, NONE) && !Refuses(i2c, NONE) && !Refuses(codec, one);
    hide Refuses, Fill;
    assert [codec][1..] == [] && [i2c, codec][1..] == [codec];
    assert FirstRefused([], Fill(codec, one)) == 0;
    assert FirstRefused([codec], one) == 1;
  }

  /** The attribute loop of fill_codec_cfg. */
  method CheckCodec(attrs: seq<(string, string)>, i2cNum: nat, i2sNum: nat) returns (ok: bool)
    ensures ok == CodecOk(attrs, i2cNum, i2sNum)
  {
    var k := 0;
    while k < |attrs|
      invariant 0 <= k <= |attrs| && CodecOk(attrs[..k], i2cNum, i2sNum)
    {
      if !CodecAttrOk(attrs[k], i2cNum, i2sNum) {
        return false;
      }
      assert attrs[..k + 1] == attrs[..k] + [attrs[k]];
      k := k + 1;
    }
    assert attrs[..k] == attrs;
    return true;
  }

  /** fill_cfg, as far as its counters and its result go. */
  method FillCfg(l: Line, c: Counts) returns (ok: bool, next: Counts)
    ensures ok == !Refuses(l, c)
    ensures next == if ok then Fill(l, c) else c
  {
    var t := TableOf(l.kind);
    if t.Ignored? {
      return true, c;
    }
    if Held(c, t) >= Limit(t) {
      return false, c;
    }
    if t.Codec? {
      var fine := CheckCodec(l.attrs, c.i2c, c.i2s);
      if !fine {
        return false, c;
      }
    }
    return true, Bump(c, t);
  }

  function PrependAll(lines: seq<Line>, c: Config): Config
  {
    match c
    case Parsed(more) => Parsed(lines + more)
    case Refused(more) => Refused(lines + more)
    case LoopsForever(more) => LoopsForever(lines + more)
    case OutOfBounds(more) => OutOfBounds(lines + more)
  }

  lemma PrependSnoc(lines: seq<Line>, l: Line, c: Config)
    ensures PrependAll(lines, Prepend(l, c)) == PrependAll(lines + [l], c)
    ensures PrependAll([], c) == c
  {
    assert forall more: seq<Line> :: lines + ([l] + more) == (lines + [l]) + more;
    assert [] + c.lines == c.lines;
  }

  /** One round of the loop of parse_cfg, which advances by `k`. */
  lemma Round(t: string, consume: nat, c: Counts, k: nat)
    requires var s := ParseSection(t);
             if s.Closed? then 0 < k <= |t| && s.rest == t[k..] else s.Unclosed? && k == consume
    ensures var l := ParseSection(t).line;
            ParseCfg(t, consume, c) ==
            if Refuses(l, c) then Refused([l])
            else if k > |t| then OutOfBounds([l])
            else if k == 0 && TableOf(l.kind).Ignored? then LoopsForever([l])
            else Prepend(l, ParseCfg(t[k..], k, Fill(l, c)))
  {
    hide ParseSection, Refuses, TableOf, Room, Fill;
  }

  lemma NoRound(t: string, consume: nat, c: Counts)
    ensures ParseSection(t).NoSection? ==> ParseCfg(t, consume, c) == Parsed([])
    ensures ParseSection(t).Overrun? ==> ParseCfg(t, consume, c) == OutOfBounds([])
  {
    hide ParseSection;
  }

  lemma PrependOne(lines: seq<Line>, l: Line)
    ensures PrependAll(lines, Refused([l])) == Refused(lines + [l])
    ensures PrependAll(lines, OutOfBounds([l])) == OutOfBounds(lines + [l])
    ensures PrependAll(lines, LoopsForever([l])) == LoopsForever(lines + [l])
    ensures PrependAll(lines, Parsed([])) == Parsed(lines)
    ensures PrependAll(lines, OutOfBounds([])) == OutOfBounds(lines)
  {
  }

  /** parse_cfg, up to the point where it ends, leaves the text, or repeats itself. */
  method ReadConfig(text: string) returns (r: Config)
    ensures r == ParseCfg(text, 0, NONE)
  {
    hide *;
    var section: nat, consume: nat, lines, c := 0, 0, [], NONE;
    PrependSnoc([], Line("", []), ParseCfg(text, 0, NONE));
    assert text[0..] == text;
    while true
      invariant section <= |text|
      invariant ParseCfg(text, 0, NONE) == PrependAll(lines, ParseCfg(text[section..], consume, c))
      decreases |text| - section, Room(c)
    {
      var s, end := ReadSection(text, section);
      NoRound(text[section..], consume, c);
      PrependOne(lines, Line("", []));
      if s.NoSection? {
        return Parsed(lines);
      }
      if s.Overrun? {
        return OutOfBounds(lines);
      }
      ghost var before := consume;
      if s.Closed? {
        consume := end - section;
        assert text[section..][consume..] == text[end..];
      }
      Round(text[section..], before, c, consume);
      PrependOne(lines, s.line);
      var ok, next := FillCfg(s.line, c);
      if !ok {
        return Refused(lines + [s.line]);
      }
      if section + consume > |text| {
        return OutOfBounds(lines + [s.line]);
      }
      if consume == 0 && TableOf(s.line.kind).Ignored? {
        return LoopsForever(lines + [s.line]);
      }
      if consume == 0 {
        FillTakesRoom(s.line, c);
      }
      assert text[section..][consume..] == text[section + consume..];
      PrependSnoc(lines, s.line, ParseCfg(text[section + consume..], consume, next));
      lines, section, c := lines + [s.line], section + consume, next;
    }
  }
}
