/**
 * Printing a guid in its five formats and reading it back, whatever follows it.
 */
module Guids {
  import opened Utf8
  import opened ParseInt

  type Guid = g: seq<Byte> | |g| == 16 witness seq(16, _ => 0)

  // ----- text

  function Code(c: char): (b: Byte)
    requires c < 128 as char
    ensures b == c as int
  {
    c as int
  }

  /** One of the sixteen digits, in either case. */
  function HexDigit(d: nat, upper: bool): (b: Byte)
    requires d < 16
    ensures ByteToDigit(b) == d && b != Code('-') && (b == Code('0') <==> d == 0) && ToLower(b) != Code('x')
  {
    if d < 10 then Code('0') + d else if upper then Code('A') + d - 10 else Code('a') + d - 10
  }

  /** What a hexadecimal format of width two prints. */
  function HexText(b: Byte, upper: bool): (s: seq<Byte>)
    ensures |s| == 2 && ByteToDigit(s[0]) == b / 16 && ByteToDigit(s[1]) == b % 16 && s[0] != Code('-')
  {
    [HexDigit(b / 16, upper), HexDigit(b % 16, upper)]
  }

  function ToLower(b: Byte): Byte {
    if Code('A') <= b <= Code('Z') || (0xC0 <= b <= 0xDE && b != 0xD7) then b + 32 else b
  }

  function Lowered(s: seq<Byte>): (r: seq<Byte>)
    ensures |r| == |s| && forall i :: 0 <= i < |s| ==> r[i] == ToLower(s[i])
  {
    if s == [] then [] else [ToLower(s[0])] + Lowered(s[1..])
  }

  datatype Style = Bare | Hyphened | Nested

  /** What stands before the i-th byte. */
  function Separator(style: Style, i: nat, upper: bool): seq<Byte> {
    match style
    case Bare => []
    case Hyphened => if i == 4 || i == 6 || i == 8 || i == 10 then [Code('-')] else []
    case Nested =>
      if i == 0 then Prefix(upper)
      else if i == 8 then [Code(','), Code('{')] + Prefix(upper)
      else if i == 4 || i == 6 || i > 8 then [Code(',')] + Prefix(upper)
      else []
  }

  /** The prefix the alternative form of a hexadecimal number starts with: a zero and the type letter. */
  function Prefix(upper: bool): seq<Byte> {
    [Code('0'), if upper then Code('X') else Code('x')]
  }

  /** The bytes of a guid from one on. */
  function TextFrom(g: Guid, from: nat, style: Style, upper: bool): seq<Byte>
    requires from <= 16
    decreases 16 - from
  {
    if from == 16 then []
    else Separator(style, from, upper) + HexText(g[from], upper) + TextFrom(g, from + 1, style, upper)
  }

  predicate IsFormat(kind: char) {
    kind == 'n' || kind == 'd' || kind == 'b' || kind == 'p' || kind == 'x'
  }

  function StyleOf(kind: char): Style {
    if kind == 'n' then Bare else if kind == 'x' then Nested else Hyphened
  }

  function Opening(kind: char): seq<Byte> {
    if kind == 'b' || kind == 'x' then [Code('{')] else if kind == 'p' then [Code('(')] else []
  }

  function Closing(kind: char): seq<Byte> {
    if kind == 'b' then [Code('}')] else if kind == 'p' then [Code(')')]
    else if kind == 'x' then [Code('}'), Code('}')] else []
  }

  function Printed(g: Guid, kind: char, upper: bool): seq<Byte> {
    Opening(kind) + TextFrom(g, 0, StyleOf(kind), upper) + Closing(kind)
  }

  function LowerCase(c: char): char {
    if 'A' <= c <= 'Z' then c + 32 as char else c
  }

  lemma PrintNext(g: Guid, i: nat, style: Style, upper: bool, text: seq<Byte>)
    requires i < 16
    ensures text + TextFrom(g, i, style, upper)
         == text + Separator(style, i, upper) + HexText(g[i], upper) + TextFrom(g, i + 1, style, upper)
  {
    hide Separator, HexText;
    Regroup(Separator(style, i, upper), HexText(g[i], upper), TextFrom(g, i + 1, style, upper), text);
  }

  lemma NothingLeft(g: Guid, style: Style, upper: bool)
    ensures TextFrom(g, 16, style, upper) == []
  {
  }

  /** The loop over the bytes. */
  method PrintBytes(src: Guid, style: Style, upper: bool, before: seq<Byte>) returns (text: seq<Byte>)
    ensures text == before + TextFrom(src, 0, style, upper)
  {
    hide TextFrom, Separator, HexText;
    text := before;
    for it := 0 to 16
      invariant text + TextFrom(src, it, style, upper) == before + TextFrom(src, 0, style, upper)
    {
      PrintNext(src, it, style, upper, text);
      text := text + Separator(style, it, upper) + HexText(src[it], upper);
    }
    NothingLeft(src, style, upper);
    assert text + [] == text;
  }

  // ----- the characters of the text

  const SMALL := "0123456789abcdef"
  const CAPITAL := "0123456789ABCDEF"

  /** The digit of the j-th half byte: the upper half of a byte comes first. */
  function Half(g: Guid, j: nat, upper: bool): Byte
    requires j < 32
  {
    HexChar(if j % 2 == 0 then g[j / 2] / 16 else g[j / 2] % 16, upper)
  }

  function HexChar(d: nat, upper: bool): Byte
    requires d < 16
  {
    if upper then CAPITAL[d] as int else SMALL[d] as int
  }

  lemma HexCharIsDigit(d: nat, upper: bool)
    requires d < 16
    ensures HexChar(d, upper) == HexDigit(d, upper)
  {
  }

  /** Thirty-two digits, the first one at index at. */
  ghost predicate PlainDigits(text: seq<Byte>, at: nat, g: Guid, upper: bool) {
    at + 32 <= |text| && forall j :: 0 <= j < 32 ==> text[at + j] == Half(g, j, upper)
  }

  /** Digits in groups of 8, 4, 4, 4 and 12 with hyphens between them. */
  ghost predicate HyphenedDigits(text: seq<Byte>, at: nat, g: Guid, upper: bool) {
    && at + 36 <= |text|
    && text[at + 8] == text[at + 13] == text[at + 18] == text[at + 23] == '-' as int
    && (forall j :: 0 <= j < 8 ==> text[at + j] == Half(g, j, upper))
    && (forall j :: 8 <= j < 12 ==> text[at + j + 1] == Half(g, j, upper))
    && (forall j :: 12 <= j < 16 ==> text[at + j + 2] == Half(g, j, upper))
    && (forall j :: 16 <= j < 20 ==> text[at + j + 3] == Half(g, j, upper))
    && (forall j :: 20 <= j < 32 ==> text[at + j + 4] == Half(g, j, upper))
  }

  /** A number with its prefix: digits of it from the j-th half byte on. */
  ghost predicate PrefixedDigits(text: seq<Byte>, at: nat, g: Guid, j: nat, count: nat, upper: bool)
    requires j + count <= 32
  {
    && at + 2 + count <= |text|
    && text[at] == '0' as int && text[at + 1] == (if upper then 'X' as int else 'x' as int)
    && forall p :: at + 2 <= p < at + 2 + count ==> text[p] == Half(g, j + (p - at - 2), upper)
  }

  /** {0x00000000,0x0000,0x0000,{0x00,0x00,0x00,0x00,0x00,0x00,0x00,0x00}} */
  ghost predicate NestedDigits(text: seq<Byte>, g: Guid, upper: bool) {
    && |text| == 68
    && text[0] == text[26] == '{' as int && text[66] == text[67] == '}' as int
    && text[11] == text[18] == text[25] == ',' as int
    && PrefixedDigits(text, 1, g, 0, 8, upper)
    && PrefixedDigits(text, 12, g, 8, 4, upper)
    && PrefixedDigits(text, 19, g, 12, 4, upper)
    && LastBytes(text, g, upper)
  }

  /** Each of the last eight bytes is a number, with commas between them. */
  ghost predicate LastBytes(text: seq<Byte>, g: Guid, upper: bool)
    requires |text| == 68
  {
    && (forall k :: 0 <= k < 8 ==> PrefixedDigits(text, 27 + 5 * k, g, 16 + 2 * k, 2, upper))
    && (forall k :: 0 <= k < 7 ==> text[31 + 5 * k] == ',' as int)
  }

  lemma HexTextIsHalves(g: Guid, i: nat, upper: bool)
    requires i < 16
    ensures HexText(g[i], upper) == [Half(g, 2 * i, upper), Half(g, 2 * i + 1, upper)]
  {
    assert 2 * i / 2 == i && (2 * i + 1) / 2 == i;
    HexCharIsDigit(g[i] / 16, upper);
    HexCharIsDigit(g[i] % 16, upper);
    hide HexChar, HexDigit;
  }

  /** Where the separator before the i-th byte stands. */
  function PlaceOf(style: Style, i: nat): nat {
    match style
    case Bare => 2 * i
    case Hyphened => 2 * i + if i <= 4 then 0 else if i <= 6 then 1 else if i <= 8 then 2 else if i <= 10 then 3 else 4
    case Nested => if i == 0 then 0 else if i <= 4 then 2 * i + 2 else if i <= 6 then 2 * i + 5 else if i <= 8 then 2 * i + 8 else 5 * i - 15
  }

  /** The text of the bytes without brackets. */
  function BytesText(g: Guid, style: Style, upper: bool): seq<Byte> {
    TextFrom(g, 0, style, upper)
  }

  lemma DropTwo<T>(s: seq<T>, at: nat, a: seq<T>, b: seq<T>, c: seq<T>)
    requires at <= |s| && s[at..] == a + b + c
    ensures at + |a| + |b| <= |s| && s[at + |a| + |b|..] == c
    ensures s[at..at + |a|] == a && s[at + |a|..at + |a| + |b|] == b
  {
    assert s[at..][..|a|] == a && s[at..][|a|..|a| + |b|] == b && s[at..][|a| + |b|..] == c;
  }

  /** The text from the i-th byte on. */
  lemma {:induction false} BytePlace(g: Guid, i: nat, style: Style, upper: bool)
    requires i <= 16
    ensures var text, at := BytesText(g, style, upper), PlaceOf(style, i);
      at <= |text| && text[at..] == TextFrom(g, i, style, upper)
  {
    hide TextFrom, Separator, HexText;
    if i == 0 {
      assert BytesText(g, style, upper)[0..] == BytesText(g, style, upper);
    } else {
      BytePlace(g, i - 1, style, upper);
      NextText(g, i - 1, style, upper);
      SeparatorLength(style, i - 1, upper);
      hide BytesText, PlaceOf;
      DropTwo(BytesText(g, style, upper), PlaceOf(style, i - 1),
              Separator(style, i - 1, upper), HexText(g[i - 1], upper), TextFrom(g, i, style, upper));
    }
  }

  lemma NextText(g: Guid, i: nat, style: Style, upper: bool)
    requires i < 16
    ensures TextFrom(g, i, style, upper) == Separator(style, i, upper) + HexText(g[i], upper) + TextFrom(g, i + 1, style, upper)
  {
    hide Separator, HexText;
  }

  lemma SeparatorLength(style: Style, i: nat, upper: bool)
    requires i < 16
    ensures PlaceOf(style, i + 1) == PlaceOf(style, i) + |Separator(style, i, upper)| + 2
  {
  }

  /** The two digits of the i-th byte, and what stands before them. */
  lemma ByteAt(g: Guid, i: nat, style: Style, upper: bool)
    requires i < 16
    ensures var text, at, a := BytesText(g, style, upper), PlaceOf(style, i), Separator(style, i, upper);
      && at + |a| + 2 <= |text|
      && text[at..at + |a|] == a
      && text[at + |a|] == Half(g, 2 * i, upper) && text[at + |a| + 1] == Half(g, 2 * i + 1, upper)
  {
    hide TextFrom, Separator, HexText, PlaceOf, Half, BytesText;
    BytePlace(g, i, style, upper);
    NextText(g, i, style, upper);
    HexTextIsHalves(g, i, upper);
    PiecesAt(BytesText(g, style, upper), PlaceOf(style, i), Separator(style, i, upper),
             Half(g, 2 * i, upper), Half(g, 2 * i + 1, upper), TextFrom(g, i + 1, style, upper));
  }

  lemma PiecesAt<T>(s: seq<T>, at: nat, a: seq<T>, x: T, y: T, c: seq<T>)
    requires at <= |s| && s[at..] == a + [x, y] + c
    ensures at + |a| + 2 <= |s| && s[at..at + |a|] == a && s[at + |a|] == x && s[at + |a| + 1] == y
  {
    DropTwo(s, at, a, [x, y], c);
    var b := s[at + |a|..at + |a| + 2];
    assert b[0] == x && b[1] == y;
  }

  lemma TextLength(g: Guid, style: Style, upper: bool)
    ensures |BytesText(g, style, upper)| == match style case Bare => 32 case Hyphened => 36 case Nested => 65
  {
    BytePlace(g, 16, style, upper);
    NothingLeft(g, style, upper);
    hide BytesText, TextFrom;
  }

  lemma BareText(g: Guid, upper: bool)
    ensures PlainDigits(BytesText(g, Bare, upper), 0, g, upper)
  {
    hide BytesText, Half;
    TextLength(g, Bare, upper);
    forall j | 0 <= j < 32
      ensures BytesText(g, Bare, upper)[0 + j] == Half(g, j, upper)
    {
      ByteAt(g, j / 2, Bare, upper);
      assert j == 2 * (j / 2) || j == 2 * (j / 2) + 1;
    }
  }

  lemma HyphenAt(g: Guid, i: nat, upper: bool)
    requires i == 4 || i == 6 || i == 8 || i == 10
    ensures var text := BytesText(g, Hyphened, upper); PlaceOf(Hyphened, i) < |text| && text[PlaceOf(Hyphened, i)] == Code('-')
  {
    hide BytesText, Half;
    ByteAt(g, i, Hyphened, upper);
    var text, at := BytesText(g, Hyphened, upper), PlaceOf(Hyphened, i);
    assert text[at..at + 1][0] == text[at];
  }

  function HyphensBefore(j: nat): nat {
    if j < 8 then 0 else if j < 12 then 1 else if j < 16 then 2 else if j < 20 then 3 else 4
  }

  lemma HyphenedDigitAt(g: Guid, j: nat, upper: bool)
    requires j < 32
    ensures var text := BytesText(g, Hyphened, upper);
      j + HyphensBefore(j) < |text| && text[j + HyphensBefore(j)] == Half(g, j, upper)
  {
    hide BytesText, Half;
    ByteAt(g, j / 2, Hyphened, upper);
    assert j == 2 * (j / 2) || j == 2 * (j / 2) + 1;
  }

  lemma HyphenedText(g: Guid, upper: bool)
    ensures HyphenedDigits(BytesText(g, Hyphened, upper), 0, g, upper)
  {
    hide BytesText, Half;
    TextLength(g, Hyphened, upper);
    HyphenAt(g, 4, upper);
    HyphenAt(g, 6, upper);
    HyphenAt(g, 8, upper);
    HyphenAt(g, 10, upper);
    var text := BytesText(g, Hyphened, upper);
    forall j | 0 <= j < 32
      ensures text[j + HyphensBefore(j)] == Half(g, j, upper)
    {
      HyphenedDigitAt(g, j, upper);
    }
  }

  /** Text moved to a place further on, behind an opening bracket. */
  lemma ShiftedHyphened(text: seq<Byte>, opening: seq<Byte>, closing: seq<Byte>, g: Guid, upper: bool)
    requires HyphenedDigits(text, 0, g, upper)
    ensures HyphenedDigits(opening + text + closing, |opening|, g, upper)
  {
    hide Half;
  }

  /** The text in braces. */
  ghost function Braced(g: Guid, upper: bool): seq<Byte> {
    [Code('{')] + BytesText(g, Nested, upper) + [Code('}'), Code('}')]
  }

  /** The digits of the i-th byte behind an opening brace. */
  lemma NestedByteAt(g: Guid, i: nat, upper: bool)
    requires i < 16
    ensures var all, at := Braced(g, upper), PlaceOf(Nested, i) + |Separator(Nested, i, upper)| + 1;
      && at + 2 <= |all| && all[at] == Half(g, 2 * i, upper) && all[at + 1] == Half(g, 2 * i + 1, upper)
  {
    hide BytesText, Half, Separator, PlaceOf;
    ByteAt(g, i, Nested, upper);
  }

  /** A character of the separator before it. */
  lemma NestedSeparatorAt(g: Guid, i: nat, k: nat, upper: bool)
    requires i < 16 && k < |Separator(Nested, i, upper)|
    ensures var all, at := Braced(g, upper), PlaceOf(Nested, i) + k + 1;
      at < |all| && all[at] == Separator(Nested, i, upper)[k]
  {
    hide BytesText, Half, Separator, PlaceOf;
    ByteAt(g, i, Nested, upper);
    var text, at, a := BytesText(g, Nested, upper), PlaceOf(Nested, i), Separator(Nested, i, upper);
    assert text[at..at + |a|][k] == text[at + k];
  }

  /** The fourth and the sixth byte start a number of two bytes behind a comma. */
  lemma NestedWord(g: Guid, i: nat, upper: bool)
    requires i == 4 || i == 6
    ensures var all, at := Braced(g, upper), PlaceOf(Nested, i) + 1;
      at + 7 <= |all| && all[at] == Code(',') && PrefixedDigits(all, at + 1, g, 2 * i, 4, upper)
  {
    hide Braced, Half;
    NestedSeparatorAt(g, i, 0, upper);
    NestedSeparatorAt(g, i, 1, upper);
    NestedSeparatorAt(g, i, 2, upper);
    NestedByteAt(g, i, upper);
    NestedByteAt(g, i + 1, upper);
  }

  lemma NestedFirst(g: Guid, upper: bool)
    ensures PrefixedDigits(Braced(g, upper), 1, g, 0, 8, upper)
  {
    hide Braced, Half;
    NestedSeparatorAt(g, 0, 0, upper);
    NestedSeparatorAt(g, 0, 1, upper);
    NestedByteAt(g, 0, upper);
    NestedByteAt(g, 1, upper);
    NestedByteAt(g, 2, upper);
    NestedByteAt(g, 3, upper);
  }

  /** Of the last eight bytes each is a number, behind a comma, and the first one behind a brace too. */
  lemma NestedLast(g: Guid, k: nat, upper: bool)
    requires k < 8
    ensures var all := Braced(g, upper);
      && |all| >= 31 + 5 * k && PrefixedDigits(all, 27 + 5 * k, g, 16 + 2 * k, 2, upper)
      && if k == 0 then all[25] == Code(',') && all[26] == Code('{') else all[26 + 5 * k] == Code(',')
  {
    hide Braced, Half;
    NestedSeparatorAt(g, 8 + k, 0, upper);
    NestedSeparatorAt(g, 8 + k, 1, upper);
    NestedSeparatorAt(g, 8 + k, 2, upper);
    if k == 0 {
      NestedSeparatorAt(g, 8, 3, upper);
    }
    NestedByteAt(g, 8 + k, upper);
  }

  lemma BracedEnds(g: Guid, upper: bool)
    ensures var all := Braced(g, upper); |all| == 68 && all[0] == Code('{') && all[66] == all[67] == Code('}')
  {
    hide BytesText;
    TextLength(g, Nested, upper);
  }

  lemma NestedLasts(g: Guid, upper: bool)
    requires |Braced(g, upper)| == 68
    ensures LastBytes(Braced(g, upper), g, upper)
  {
    hide Braced, Half, PrefixedDigits;
    var all := Braced(g, upper);
    forall k | 0 <= k < 8
      ensures PrefixedDigits(all, 27 + 5 * k, g, 16 + 2 * k, 2, upper)
    {
      NestedLast(g, k, upper);
    }
    forall k | 0 <= k < 7
      ensures all[31 + 5 * k] == Code(',')
    {
      NestedLast(g, k + 1, upper);
    }
  }

  lemma NestedText(g: Guid, upper: bool)
    ensures NestedDigits(Braced(g, upper), g, upper)
  {
    hide Braced, Half, PrefixedDigits, LastBytes;
    BracedEnds(g, upper);
    NestedFirst(g, upper);
    NestedWord(g, 4, upper);
    NestedWord(g, 6, upper);
    NestedLast(g, 0, upper);
    NestedLasts(g, upper);
  }

  /**
   * Prints a guid the way the type letter asks for, in capital letters when it is one; no other
   * letters are allowed than n, d, b, p and x.
   */
  method Print(src: Guid, typeLetter: char) returns (ok: bool, text: seq<Byte>)
    ensures ok <==> typeLetter in "ndbpxNDBPX"
    ensures ok ==> text == Printed(src, LowerCase(typeLetter), 'A' <= typeLetter <= 'Z')
    ensures typeLetter == 'n' || typeLetter == 'N' ==> |text| == 32 && PlainDigits(text, 0, src, typeLetter == 'N')
    ensures typeLetter == 'd' || typeLetter == 'D' ==> |text| == 36 && HyphenedDigits(text, 0, src, typeLetter == 'D')
    ensures typeLetter == 'b' || typeLetter == 'B' ==>
      && |text| == 38 && text[0] == '{' as int && text[37] == '}' as int
      && HyphenedDigits(text, 1, src, typeLetter == 'B')
    ensures typeLetter == 'p' || typeLetter == 'P' ==>
      && |text| == 38 && text[0] == '(' as int && text[37] == ')' as int
      && HyphenedDigits(text, 1, src, typeLetter == 'P')
    ensures typeLetter == 'x' || typeLetter == 'X' ==> NestedDigits(text, src, typeLetter == 'X')
  {
    hide TextFrom, HyphenedDigits, PlainDigits, NestedDigits;
    var upper := 'A' <= typeLetter <= 'Z';
    var kind := LowerCase(typeLetter);
    if kind != 'n' && kind != 'd' && kind != 'b' && kind != 'p' && kind != 'x' {
      return false, [];
    }
    text := PrintBytes(src, StyleOf(kind), upper, Opening(kind));
    text := text + Closing(kind);
    ok := true;
    PrintedDigits(src, kind, upper);
  }

  /** What the printed text looks like for each format. */
  lemma PrintedDigits(g: Guid, kind: char, upper: bool)
    ensures var text := Printed(g, kind, upper);
      && (kind == 'n' ==> |text| == 32 && PlainDigits(text, 0, g, upper))
      && (kind == 'd' ==> |text| == 36 && HyphenedDigits(text, 0, g, upper))
      && (kind == 'b' ==> |text| == 38 && text[0] == '{' as int && text[37] == '}' as int && HyphenedDigits(text, 1, g, upper))
      && (kind == 'p' ==> |text| == 38 && text[0] == '(' as int && text[37] == ')' as int && HyphenedDigits(text, 1, g, upper))
      && (kind == 'x' ==> NestedDigits(text, g, upper))
  {
    hide HyphenedDigits, PlainDigits, NestedDigits, TextFrom;
    var text := BytesText(g, StyleOf(kind), upper);
    TextLength(g, StyleOf(kind), upper);
    if kind == 'n' {
      BareText(g, upper);
      assert [] + text + [] == text;
    } else if kind == 'x' {
      NestedText(g, upper);
    } else if kind == 'd' || kind == 'b' || kind == 'p' {
      HyphenedText(g, upper);
      ShiftedHyphened(text, Opening(kind), Closing(kind), g, upper);
    }
  }

  // ----- what parsing does

  /** How reading ended. A position one past the end stands for a rest of minus one bytes. */
  datatype Outcome =
    | Parsed(value: seq<Byte>, at: nat)
    | Failed(status: ParseStatus, at: nat)
    | OutOfRange

  /** Where reading goes on, or how it ended. */
  datatype Step = Go(at: nat) | Ate(value: Byte, at: nat) | Halt(outcome: Outcome)

  /** One byte that is expected. At the end of the buffer the caller gets the whole buffer back. */
  function ExpectByte(buffer: seq<Byte>, at: nat, ignoreCase: bool, b: Byte): Step {
    if at == |buffer| then Halt(Failed(Exhausted, 0))
    else if at > |buffer| then Halt(OutOfRange)
    else if (if ignoreCase then ToLower(buffer[at]) else buffer[at]) == b then Go(at + 1)
    else Halt(Failed(Invalid, at))
  }

  function ExpectSequence(buffer: seq<Byte>, at: nat, s: seq<Byte>): Step
    decreases |s|
  {
    if s == [] then Go(at)
    else
      var step := ExpectByte(buffer, at, true, s[0]);
      if step.Go? then ExpectSequence(buffer, step.at, s[1..]) else step
  }

  predicate IsHexDigit(b: Byte) {
    IsDigit(b, 16)
  }

  /** Two bytes are eaten as soon as the first one is a digit, whatever the second one is. */
  function EatHexByte(buffer: seq<Byte>, at: nat): Step {
    if at == |buffer| then Halt(Failed(Exhausted, 0))
    else if at > |buffer| then Halt(OutOfRange)
    else if !IsHexDigit(buffer[at]) then Halt(Failed(Invalid, at))
    else if at + 1 < |buffer| && IsHexDigit(buffer[at + 1]) then
      Ate(ByteToDigit(buffer[at]) * 16 + ByteToDigit(buffer[at + 1]), at + 2)
    else Ate(ByteToDigit(buffer[at]), at + 2)
  }

  const HEX_BYTE := Options(false, true, false, true, false, 2)

  /** Two digits at most, in base 16, with no sign and no prefix. */
  method EatHexByteByParseInt(buffer: seq<Byte>, at: nat) returns (step: Step)
    ensures step == EatHexByte(buffer, at)
  {
    if at > |buffer| {
      return Halt(OutOfRange);
    }
    var r := ParseInt.Parse(buffer[at..], 16, Unsigned(8), HEX_BYTE);
    if at < |buffer| {
      AlwaysRightUnlessNegative(Digits(false, 16, buffer[at..]), Unsigned(8), HEX_BYTE);
      TwoDigits(buffer[at..], r);
    }
    var status := if r.status == TooManyDigits then Success else r.status;
    if status == Success {
      return Ate(r.value, at + 2);
    } else if status == Exhausted {
      return Halt(Failed(Exhausted, 0));
    } else {
      return Halt(Failed(status, at));
    }
  }

  lemma TwoDigits(s: seq<Byte>, r: ParseResult)
    requires s != [] && IsResult(r, Digits(false, 16, s), Unsigned(8), HEX_BYTE)
    ensures if !IsHexDigit(s[0]) then r.status == Invalid
            else r.status == Success && r.value == (if |s| > 1 && IsHexDigit(s[1])
              then ByteToDigit(s[0]) * 16 + ByteToDigit(s[1]) else ByteToDigit(s[0]))
  {
    hide NumberOf, Stored, MaxOf;
    var f := Digits(false, 16, s);
    UpTo255();
    if IsHexDigit(s[0]) {
      assert s[..0] == [];
      NumberNext(f, 0);
      if |s| > 1 && IsHexDigit(s[1]) {
        NumberNext(f, 1);
        StoredIsSame(Number(f, 2), Unsigned(8));
        assert Count(f, HEX_BYTE) == 2;
      } else {
        StoredIsSame(Number(f, 1), Unsigned(8));
        assert Count(f, HEX_BYTE) == 1;
      }
    }
  }

  lemma UpTo255()
    ensures MaxOf(Unsigned(8), false) == 255 && NumberOf([], 16) == 0
  {
    EightBits();
  }

  /** The helper that should eat exactly two digits does so unless only the first byte is one. */
  lemma EatsTwoDigitsExactly(buffer: seq<Byte>, at: nat)
    requires at <= |buffer|
    ensures (EatHexByte(buffer, at).Ate? <==> at + 1 < |buffer| && IsHexDigit(buffer[at]) && IsHexDigit(buffer[at + 1])) <==>
      !(at < |buffer| && IsHexDigit(buffer[at]) && (at + 1 == |buffer| || !IsHexDigit(buffer[at + 1])))
  {
  }

  /** Sixteen bytes with the separators of the nested form, and the braces at the end. */
  function ReadNested(buffer: seq<Byte>, at: nat, i: nat, value: seq<Byte>): Outcome
    requires i <= 16
    decreases 16 - i
  {
    if i == 16 then
      var step := ExpectSequence(buffer, at, [Code('}'), Code('}')]);
      if step.Go? then Parsed(value, step.at) else AsOutcome(step)
    else
      var step := ExpectSequence(buffer, at, Separator(Nested, i, false));
      if !step.Go? then AsOutcome(step)
      else
        var eaten := EatHexByte(buffer, step.at);
        if eaten.Ate? then ReadNested(buffer, eaten.at, i + 1, value + [eaten.value]) else AsOutcome(eaten)
  }

  function AsOutcome(step: Step): Outcome {
    if step.Halt? then step.outcome else OutOfRange
  }

  /** Whether a hyphen is eaten before the i-th byte, and whether hyphens are in use from then on. */
  datatype HyphenStep = Hyphen(at: nat, hyphens: bool) | NoHyphen(outcome: Outcome)

  function EatHyphen(buffer: seq<Byte>, at: nat, i: nat, hyphens: bool, relax: bool): HyphenStep {
    if !relax && !(i == 4 && !hyphens) && !(hyphens && (i == 6 || i == 8 || i == 10)) then Hyphen(at, hyphens)
    else if at >= |buffer| then NoHyphen(OutOfRange)
    else if buffer[at] != Code('-') then
      if relax || i == 4 then Hyphen(at, hyphens) else NoHyphen(Failed(Invalid, at))
    else if at + 1 == |buffer| then NoHyphen(Failed(Exhausted, 0))
    else Hyphen(at + 1, hyphens || !relax)
  }

  /** Sixteen bytes with a hyphen at each of four places, or at none of them. */
  function ReadPlain(buffer: seq<Byte>, at: nat, i: nat, hyphens: bool, relax: bool, value: seq<Byte>): Outcome
    requires i <= 16
    decreases 16 - i
  {
    if i == 16 then Parsed(value, at)
    else
      var h := EatHyphen(buffer, at, i, hyphens, relax);
      if h.NoHyphen? then h.outcome
      else
        var eaten := EatHexByte(buffer, h.at);
        if eaten.Ate? then ReadPlain(buffer, eaten.at, i + 1, h.hyphens, relax, value + [eaten.value])
        else AsOutcome(eaten)
  }

  /** Reads a guid in whatever format it is. */
  function Read(buffer: seq<Byte>, parentheses: bool, relax: bool): Outcome {
    if buffer == [] then Failed(Exhausted, 0)
    else
      var open := parentheses && (buffer[0] == Code('(') || buffer[0] == Code('{'));
      var curly := buffer[0] == Code('{');
      var at := if open then 1 else 0;
      if at == |buffer| then Failed(Exhausted, 0)
      else if at + 1 != |buffer| && buffer[at] == Code('0') && (buffer[at + 1] == Code('x') || buffer[at + 1] == Code('X')) then
        if open && curly then ReadNested(buffer, at, 0, []) else Failed(Invalid, 0)
      else
        var r := ReadPlain(buffer, at, 0, false, relax, []);
        if r.Parsed? && open then
          var step := ExpectByte(buffer, r.at, false, if curly then Code('}') else Code(')'));
          if step.Go? then Parsed(r.value, step.at) else AsOutcome(step)
        else r
  }

  // ----- what was printed is read back

  /** From a position on, the buffer holds some text. */
  predicate Holds(buffer: seq<Byte>, at: nat, text: seq<Byte>) {
    at + |text| <= |buffer| && buffer[at..at + |text|] == text
  }

  lemma HoldsParts(buffer: seq<Byte>, at: nat, a: seq<Byte>, b: seq<Byte>)
    ensures Holds(buffer, at, a + b) <==> Holds(buffer, at, a) && Holds(buffer, at + |a|, b)
  {
    if at + |a| + |b| <= |buffer| {
      var s := buffer[at..at + |a| + |b|];
      assert s[..|a|] == buffer[at..at + |a|] && s[|a|..] == buffer[at + |a|..at + |a| + |b|];
      assert s == s[..|a|] + s[|a|..];
    }
  }

  lemma {:induction false} ExpectsWhatItHolds(buffer: seq<Byte>, at: nat, s: seq<Byte>, text: seq<Byte>)
    requires Holds(buffer, at, text) && Lowered(text) == s
    ensures ExpectSequence(buffer, at, s) == Go(at + |s|)
    decreases |s|
  {
    if s != [] {
      HoldsParts(buffer, at, [text[0]], text[1..]);
      assert text == [text[0]] + text[1..];
      assert buffer[at] == buffer[at..at + 1][0];
      assert Lowered(text[1..]) == s[1..];
      ExpectsWhatItHolds(buffer, at + 1, s[1..], text[1..]);
    }
  }

  lemma EatsWhatWasPrinted(buffer: seq<Byte>, at: nat, b: Byte, upper: bool)
    requires Holds(buffer, at, HexText(b, upper))
    ensures EatHexByte(buffer, at) == Ate(b, at + 2)
  {
    var text := HexText(b, upper);
    assert buffer[at] == buffer[at..at + 2][0] == text[0] && buffer[at + 1] == buffer[at..at + 2][1] == text[1];
  }

  lemma SeparatorLowered(i: nat, upper: bool)
    ensures Lowered(Separator(Nested, i, upper)) == Separator(Nested, i, false)
  {
    var s, r := Separator(Nested, i, upper), Separator(Nested, i, false);
    assert forall k :: 0 <= k < |s| ==> ToLower(s[k]) == r[k];
  }

  lemma TextFromNext(g: Guid, i: nat, style: Style, upper: bool, tail: seq<Byte>)
    requires i < 16
    ensures TextFrom(g, i, style, upper) + tail
         == Separator(style, i, upper) + (HexText(g[i], upper) + (TextFrom(g, i + 1, style, upper) + tail))
    ensures |TextFrom(g, i, style, upper)| == |Separator(style, i, upper)| + 2 + |TextFrom(g, i + 1, style, upper)|
  {
    hide Separator, HexText;
    Regroup(Separator(style, i, upper), HexText(g[i], upper), TextFrom(g, i + 1, style, upper), tail);
  }

  lemma Regroup<T>(a: seq<T>, b: seq<T>, c: seq<T>, d: seq<T>)
    ensures a + b + c + d == a + (b + (c + d)) && d + (a + b + c) == d + a + b + c
  {
  }

  /** The parts of a text from the i-th byte on. */
  lemma HoldsByteAndRest(g: Guid, buffer: seq<Byte>, at: nat, i: nat, style: Style, upper: bool, tail: seq<Byte>)
    requires i < 16 && Holds(buffer, at, TextFrom(g, i, style, upper) + tail)
    ensures var a := Separator(style, i, upper);
      && Holds(buffer, at, a) && Holds(buffer, at + |a|, HexText(g[i], upper))
      && EatHexByte(buffer, at + |a|) == Ate(g[i], at + |a| + 2)
      && Holds(buffer, at + |a| + 2, TextFrom(g, i + 1, style, upper) + tail)
  {
    hide TextFrom, Separator, Holds, EatHexByte;
    var a, b, c := Separator(style, i, upper), HexText(g[i], upper), TextFrom(g, i + 1, style, upper);
    TextFromNext(g, i, style, upper, tail);
    HoldsParts(buffer, at, a, b + (c + tail));
    HoldsParts(buffer, at + |a|, b, c + tail);
    EatsWhatWasPrinted(buffer, at + |a|, g[i], upper);
  }

  lemma {:induction false} ReadsNested(g: Guid, buffer: seq<Byte>, at: nat, i: nat, upper: bool)
    requires i <= 16 && Holds(buffer, at, TextFrom(g, i, Nested, upper) + Closing('x'))
    ensures ReadNested(buffer, at, i, g[..i]) == Parsed(g, at + |TextFrom(g, i, Nested, upper)| + 2)
    decreases 16 - i
  {
    hide TextFrom, Separator, HexText, EatHexByte, ExpectSequence, Holds;
    var closing := Closing('x');
    if i == 16 {
      NothingLeft(g, Nested, upper);
      assert [] + closing == closing;
      assert Lowered(closing) == closing;
      ExpectsWhatItHolds(buffer, at, closing, closing);
      assert g[..16] == g;
    } else {
      var a := Separator(Nested, i, upper);
      HoldsByteAndRest(g, buffer, at, i, Nested, upper, closing);
      TextFromNext(g, i, Nested, upper, closing);
      SeparatorLowered(i, upper);
      ExpectsWhatItHolds(buffer, at, Separator(Nested, i, false), a);
      ReadsNested(g, buffer, at + |a| + 2, i + 1, upper);
      assert g[..i] + [g[i]] == g[..i + 1];
    }
  }

  /** Whether the parser has seen that hyphens are in use when it comes to the i-th byte. */
  predicate SawHyphens(i: nat, style: Style, relax: bool) {
    !relax && i > 4 && style == Hyphened
  }

  lemma EatsHyphen(g: Guid, buffer: seq<Byte>, at: nat, i: nat, style: Style, relax: bool, upper: bool)
    requires i < 16 && style != Nested
    requires Holds(buffer, at, Separator(style, i, upper))
    requires Holds(buffer, at + |Separator(style, i, upper)|, HexText(g[i], upper))
    ensures EatHyphen(buffer, at, i, SawHyphens(i, style, relax), relax)
         == Hyphen(at + |Separator(style, i, upper)|, SawHyphens(i + 1, style, relax))
  {
    var a, b := Separator(style, i, upper), HexText(g[i], upper);
    assert buffer[at + |a|] == buffer[at + |a|..at + |a| + 2][0] == b[0];
    if a != [] {
      assert buffer[at] == buffer[at..at + |a|][0] == a[0];
    }
  }

  lemma {:induction false} ReadsPlain(g: Guid, buffer: seq<Byte>, at: nat, i: nat, style: Style, relax: bool, upper: bool)
    requires i <= 16 && style != Nested && Holds(buffer, at, TextFrom(g, i, style, upper))
    ensures ReadPlain(buffer, at, i, SawHyphens(i, style, relax), relax, g[..i])
         == Parsed(g, at + |TextFrom(g, i, style, upper)|)
    decreases 16 - i
  {
    hide TextFrom, Separator, HexText, EatHexByte, EatHyphen, Holds, SawHyphens;
    if i == 16 {
      NothingLeft(g, style, upper);
      assert g[..16] == g;
    } else {
      var a, c := Separator(style, i, upper), TextFrom(g, i + 1, style, upper);
      assert TextFrom(g, i, style, upper) + [] == TextFrom(g, i, style, upper) && c + [] == c;
      HoldsByteAndRest(g, buffer, at, i, style, upper, []);
      TextFromNext(g, i, style, upper, []);
      EatsHyphen(g, buffer, at, i, style, relax, upper);
      ReadsPlain(g, buffer, at + |a| + 2, i + 1, style, relax, upper);
      assert g[..i] + [g[i]] == g[..i + 1];
    }
  }

  lemma SeveralBytes(g: Guid, style: Style, upper: bool)
    ensures |TextFrom(g, 0, style, upper)| >= |Separator(style, 0, upper)| + 4
  {
    TextFromNext(g, 0, style, upper, []);
    TextFromNext(g, 1, style, upper, []);
  }

  /** A printed guid starts with a hexadecimal prefix in the nested form only. */
  lemma FirstTwo(g: Guid, buffer: seq<Byte>, at: nat, style: Style, upper: bool)
    requires Holds(buffer, at, TextFrom(g, 0, style, upper))
    ensures at + 1 < |buffer|
    ensures (buffer[at] == Code('0') && (buffer[at + 1] == Code('x') || buffer[at + 1] == Code('X'))) <==> style == Nested
    ensures buffer[at] != Code('(') && buffer[at] != Code('{')
  {
    SeveralBytes(g, style, upper);
    hide TextFrom, HexText;
    var first := Separator(style, 0, upper) + HexText(g[0], upper);
    var rest := TextFrom(g, 1, style, upper);
    TextFromNext(g, 0, style, upper, []);
    assert TextFrom(g, 0, style, upper) == first + rest by {
      assert TextFrom(g, 0, style, upper) + [] == TextFrom(g, 0, style, upper) && rest + [] == rest;
    }
    HoldsParts(buffer, at, first, rest);
    var front := buffer[at..at + |first|];
    assert buffer[at] == front[0] == first[0] && buffer[at + 1] == front[1] == first[1];
    DigitsAreNoLetters(g[0], upper);
  }

  lemma DigitsAreNoLetters(b: Byte, upper: bool)
    ensures var s := HexText(b, upper);
      s[1] != Code('x') && s[1] != Code('X') && s[0] != Code('(') && s[0] != Code('{')
  {
  }

  /**
   * Every guid that was printed in one of the five formats, in either case and with anything
   * behind it, is read back, and what was behind it is left.
   */
  lemma RoundTrip(g: Guid, kind: char, upper: bool, trailing: seq<Byte>, parentheses: bool, relax: bool)
    requires IsFormat(kind) && (parentheses || kind == 'n' || kind == 'd')
    ensures Read(Printed(g, kind, upper) + trailing, parentheses, relax) == Parsed(g, |Printed(g, kind, upper)|)
  {
    hide TextFrom, Separator, EatHexByte, ReadNested, ReadPlain, Holds;
    var style := StyleOf(kind);
    var text := TextFrom(g, 0, style, upper);
    var opening, closing := Opening(kind), Closing(kind);
    var buffer := Printed(g, kind, upper) + trailing;
    PrintedHolds(opening, text, closing, trailing);
    assert buffer == opening + text + closing + trailing;
    SeveralBytes(g, style, upper);
    FirstTwo(g, buffer, |opening|, style, upper);
    assert g[..0] == [];
    if style == Nested {
      ReadsNested(g, buffer, |opening|, 0, upper);
    } else {
      ReadsPlain(g, buffer, |opening|, 0, style, relax, upper);
    }
  }

  lemma PrintedHolds(opening: seq<Byte>, text: seq<Byte>, closing: seq<Byte>, trailing: seq<Byte>)
    ensures var buffer := opening + text + closing + trailing;
      && Holds(buffer, |opening|, text) && Holds(buffer, |opening|, text + closing)
      && (opening != [] ==> buffer[0] == opening[0])
      && (closing != [] ==> buffer[|opening| + |text|] == closing[0])
  {
    var buffer := opening + text + closing + trailing;
    assert buffer[|opening|..|opening| + |text + closing|] == text + closing;
    HoldsParts(buffer, |opening|, text, closing);
  }

  // ----- the parser

  /** Reads a guid byte by byte, as the two loops of the source do. */
  method ReadByLoops(buffer: seq<Byte>, parentheses: bool, relax: bool) returns (r: Outcome)
    ensures r == Read(buffer, parentheses, relax)
  {
    hide EatHexByte, ExpectSequence, Separator;
    if |buffer| == 0 {
      return Failed(Exhausted, 0);
    }
    var at: nat, open, curly := 0, false, false;
    if parentheses && (buffer[0] == Code('(') || buffer[0] == Code('{')) {
      open, curly, at := true, buffer[0] == Code('{'), 1;
      if at == |buffer| {
        return Failed(Exhausted, 0);
      }
    }
    if at + 1 != |buffer| && buffer[at] == Code('0') {
      if buffer[at + 1] == Code('x') || buffer[at + 1] == Code('X') {
        if !open || !curly {
          return Failed(Invalid, 0);
        }
        r := NestedLoop(buffer, at);
        return;
      }
    }
    r := PlainLoop(buffer, at, relax);
    if open && r.Parsed? {
      var step := ExpectByte(buffer, r.at, false, if curly then Code('}') else Code(')'));
      r := if step.Go? then Parsed(r.value, step.at) else AsOutcome(step);
    }
  }

  method NestedLoop(buffer: seq<Byte>, start: nat) returns (r: Outcome)
    ensures r == ReadNested(buffer, start, 0, [])
  {
    hide EatHexByte, ExpectSequence, Separator;
    var at: nat, value: seq<Byte> := start, [];
    for i := 0 to 16
      invariant ReadNested(buffer, start, 0, []) == ReadNested(buffer, at, i, value)
    {
      var step := ExpectSequence(buffer, at, Separator(Nested, i, false));
      if !step.Go? {
        return AsOutcome(step);
      }
      var eaten := EatHexByteByParseInt(buffer, step.at);
      if !eaten.Ate? {
        return AsOutcome(eaten);
      }
      at, value := eaten.at, value + [eaten.value];
    }
    var step := ExpectSequence(buffer, at, [Code('}'), Code('}')]);
    r := if step.Go? then Parsed(value, step.at) else AsOutcome(step);
  }

  method PlainLoop(buffer: seq<Byte>, start: nat, relax: bool) returns (r: Outcome)
    ensures r == ReadPlain(buffer, start, 0, false, relax, [])
  {
    hide EatHexByte;
    var at: nat, hyphens, counter, value: seq<Byte> := start, false, 0, [];
    while counter != 16
      invariant 0 <= counter <= 16
      invariant ReadPlain(buffer, start, 0, false, relax, []) == ReadPlain(buffer, at, counter, hyphens, relax, value)
      decreases 16 - counter
    {
      if !relax {
        if counter == 4 && !hyphens {
          if at >= |buffer| {
            return OutOfRange;
          }
          if buffer[at] == Code('-') {
            hyphens, at := true, at + 1;
            if at == |buffer| {
              return Failed(Exhausted, 0);
            }
          }
        }
        if hyphens && (counter == 6 || counter == 8 || counter == 10) {
          if at >= |buffer| {
            return OutOfRange;
          }
          if buffer[at] != Code('-') {
            return Failed(Invalid, at);
          }
          at := at + 1;
          if at == |buffer| {
            return Failed(Exhausted, 0);
          }
        }
      } else {
        if at >= |buffer| {
          return OutOfRange;
        }
        if buffer[at] == Code('-') {
          at := at + 1;
          if at == |buffer| {
            return Failed(Exhausted, 0);
          }
        }
      }
      var eaten := EatHexByteByParseInt(buffer, at);
      if !eaten.Ate? {
        return AsOutcome(eaten);
      }
      at, value, counter := eaten.at, value + [eaten.value], counter + 1;
    }
    r := Parsed(value, at);
  }

  /** Printing, adding some bytes and parsing gives the guid and the bytes that were added. */
  method PrintAndRead(g: Guid, typeLetter: char, trailing: seq<Byte>) returns (r: Outcome, text: seq<Byte>)
    requires typeLetter in "ndbpxNDBPX"
    ensures r.Parsed? && r.value == g && r.at <= |text| && text[r.at..] == trailing
  {
    hide HyphenedDigits, PlainDigits, NestedDigits, Printed, Read;
    var ok;
    ok, text := Print(g, typeLetter);
    var kind, upper := LowerCase(typeLetter), 'A' <= typeLetter <= 'Z';
    RoundTrip(g, kind, upper, trailing, true, false);
    text := text + trailing;
    r := ReadByLoops(text, true, false);
  }
}
