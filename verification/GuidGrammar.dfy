/** Which bytes the guid parser accepts, and which guid it takes them for. */
module GuidGrammar {
  import opened Utf8
  import opened ParseInt
  import opened Guids

  /** One byte of a guid in a text: what stands before it, and the two bytes that are eaten for it. */
  datatype Piece = Piece(separator: seq<Byte>, unit: seq<Byte>)

  /** How the bytes are separated: without hyphens or with hyphens at their places, with hyphens anywhere, or nested. */
  datatype Layout = Strict(hyphens: bool) | Relaxed | InBraces

  /** The first of the two bytes is a digit; the second one can be anything. */
  predicate IsUnit(unit: seq<Byte>) {
    |unit| == 2 && IsHexDigit(unit[0])
  }

  function UnitValue(unit: seq<Byte>): Byte
    requires IsUnit(unit)
  {
    if IsHexDigit(unit[1]) then ByteToDigit(unit[0]) * 16 + ByteToDigit(unit[1]) else ByteToDigit(unit[0])
  }

  predicate Allowed(separator: seq<Byte>, i: nat, layout: Layout) {
    match layout
    case Strict(hyphens) => separator == Separator(if hyphens then Hyphened else Bare, i, false)
    case Relaxed => separator == [] || separator == [Code('-')]
    case InBraces => Lowered(separator) == Separator(Nested, i, false)
  }

  /** The pieces from the i-th byte on. */
  predicate Fits(pieces: seq<Piece>, i: nat, layout: Layout) {
    forall k :: 0 <= k < |pieces| ==> Allowed(pieces[k].separator, i + k, layout) && IsUnit(pieces[k].unit)
  }

  function Text(pieces: seq<Piece>): seq<Byte> {
    if pieces == [] then [] else pieces[0].separator + (pieces[0].unit + Text(pieces[1..]))
  }

  function Values(pieces: seq<Piece>): (v: seq<Byte>)
    requires forall k :: 0 <= k < |pieces| ==> IsUnit(pieces[k].unit)
    ensures |v| == |pieces| && forall k :: 0 <= k < |pieces| ==> v[k] == UnitValue(pieces[k].unit)
  {
    seq(|pieces|, k requires 0 <= k < |pieces| => UnitValue(pieces[k].unit))
  }

  /** A zero and an x where the first byte is expected announce the nested form. */
  predicate LooksNested(pieces: seq<Piece>) {
    pieces != [] && pieces[0].separator == [] && |pieces[0].unit| == 2
    && pieces[0].unit[0] == Code('0') && (pieces[0].unit[1] == Code('x') || pieces[0].unit[1] == Code('X'))
  }

  predicate Brackets(opening: seq<Byte>, closing: seq<Byte>, layout: Layout, parentheses: bool) {
    if layout.InBraces? then parentheses && opening == [Code('{')] && closing == [Code('}'), Code('}')]
    else
      || (opening == [] && closing == [])
      || (parentheses && opening == [Code('{')] && closing == [Code('}')])
      || (parentheses && opening == [Code('(')] && closing == [Code(')')])
  }

  /** The text is sixteen units in one of the layouts, in brackets or not. */
  ghost predicate IsTextOf(text: seq<Byte>, value: seq<Byte>, parentheses: bool, relax: bool) {
    exists opening: seq<Byte>, pieces: seq<Piece>, closing: seq<Byte>, layout: Layout ::
      IsParse(text, value, parentheses, relax, opening, pieces, closing, layout)
  }

  ghost predicate IsParse(text: seq<Byte>, value: seq<Byte>, parentheses: bool, relax: bool,
                          opening: seq<Byte>, pieces: seq<Piece>, closing: seq<Byte>, layout: Layout)
  {
    && |pieces| == 16 && Fits(pieces, 0, layout) && value == Values(pieces)
    && text == opening + Text(pieces) + closing && Brackets(opening, closing, layout, parentheses)
    && (layout.InBraces? || (layout.Relaxed? == relax && !LooksNested(pieces)))
  }

  // ----- eating one unit

  lemma EatsUnit(buffer: seq<Byte>, at: nat)
    requires at + 2 <= |buffer|
    ensures EatHexByte(buffer, at).Ate? <==> IsUnit(buffer[at..at + 2])
    ensures IsUnit(buffer[at..at + 2]) ==> EatHexByte(buffer, at) == Ate(UnitValue(buffer[at..at + 2]), at + 2)
  {
  }

  lemma EatsTwoBytes(buffer: seq<Byte>, at: nat)
    ensures EatHexByte(buffer, at).Ate? ==> EatHexByte(buffer, at).at == at + 2
  {
  }

  lemma TextNext(piece: Piece, pieces: seq<Piece>)
    ensures Text([piece] + pieces) == piece.separator + (piece.unit + Text(pieces))
  {
    assert ([piece] + pieces)[1..] == pieces;
  }

  lemma FitsNext(piece: Piece, pieces: seq<Piece>, i: nat, layout: Layout)
    requires Fits(pieces, i + 1, layout) && Allowed(piece.separator, i, layout) && IsUnit(piece.unit)
    ensures Fits([piece] + pieces, i, layout)
    ensures Values([piece] + pieces) == [UnitValue(piece.unit)] + Values(pieces)
  {
    hide Allowed;
    var all := [piece] + pieces;
    forall k | 0 <= k < |all|
      ensures Allowed(all[k].separator, i + k, layout) && IsUnit(all[k].unit)
    {
      if k > 0 {
        assert all[k] == pieces[k - 1];
        assert Allowed(pieces[k - 1].separator, i + 1 + (k - 1), layout);
      }
    }
  }

  /** A piece and the rest of the text, put together from the buffer. */
  lemma JoinPieces(buffer: seq<Byte>, at: nat, middle: nat, end: nat, rest: seq<Byte>)
    requires at <= middle && middle + 2 + |rest| == end <= |buffer|
    requires buffer[middle + 2..end] == rest
    ensures buffer[at..middle] + (buffer[middle..middle + 2] + rest) == buffer[at..end]
  {
  }

  /** And taken apart. */
  lemma SplitPieces(buffer: seq<Byte>, at: nat, piece: Piece, rest: seq<Byte>)
    requires Holds(buffer, at, piece.separator + (piece.unit + rest)) && |piece.unit| == 2
    ensures var middle := at + |piece.separator|;
      && Holds(buffer, at, piece.separator) && middle + 2 <= |buffer| && buffer[middle..middle + 2] == piece.unit
      && Holds(buffer, middle + 2, rest)
  {
    hide Holds;
    HoldsParts(buffer, at, piece.separator, piece.unit + rest);
    HoldsParts(buffer, at + |piece.separator|, piece.unit, rest);
    HoldsGives(buffer, at + |piece.separator|, piece.unit);
  }

  lemma HoldsGives(buffer: seq<Byte>, at: nat, text: seq<Byte>)
    requires Holds(buffer, at, text)
    ensures at + |text| <= |buffer| && buffer[at..at + |text|] == text
  {
  }

  // ----- sixteen bytes without braces inside

  /** The layouts that are still possible before the i-th byte. */
  predicate StillOpen(layout: Layout, i: nat, hyphens: bool, relax: bool) {
    if relax then layout.Relaxed? && !hyphens
    else layout.Strict? && (if i <= 4 then !hyphens else layout.hyphens == hyphens)
  }

  /** The hyphen before the i-th byte, read from the buffer. */
  lemma HyphenIsSeparator(buffer: seq<Byte>, at: nat, i: nat, hyphens: bool, relax: bool, layout: Layout)
    requires i < 16 && EatHyphen(buffer, at, i, hyphens, relax).Hyphen?
    requires if relax then !hyphens else i <= 4 ==> !hyphens
    requires var h := EatHyphen(buffer, at, i, hyphens, relax); StillOpen(layout, i + 1, h.hyphens, relax) && h.at <= |buffer|
    ensures var h := EatHyphen(buffer, at, i, hyphens, relax);
      at <= h.at && Allowed(buffer[at..h.at], i, layout) && StillOpen(layout, i, hyphens, relax)
  {
    var h := EatHyphen(buffer, at, i, hyphens, relax);
    if h.at == at {
      assert buffer[at..at] == [];
    } else {
      assert buffer[at..at + 1] == [buffer[at]];
    }
  }

  /** What ends the reading early is no result. */
  lemma OnlyTheEndParses(buffer: seq<Byte>, at: nat, i: nat, hyphens: bool, relax: bool)
    ensures var h := EatHyphen(buffer, at, i, hyphens, relax); h.NoHyphen? ==> !h.outcome.Parsed?
    ensures !AsOutcome(EatHexByte(buffer, at)).Parsed?
  {
  }

  lemma PlainUnfolds(buffer: seq<Byte>, at: nat, i: nat, hyphens: bool, relax: bool, value: seq<Byte>)
    requires i < 16
    ensures var h := EatHyphen(buffer, at, i, hyphens, relax);
      if h.Hyphen? && EatHexByte(buffer, h.at).Ate? then
        ReadPlain(buffer, at, i, hyphens, relax, value)
        == ReadPlain(buffer, h.at + 2, i + 1, h.hyphens, relax, value + [EatHexByte(buffer, h.at).value])
      else !ReadPlain(buffer, at, i, hyphens, relax, value).Parsed?
  {
    hide EatHyphen, EatHexByte, AsOutcome;
    OnlyTheEndParses(buffer, at, i, hyphens, relax);
    var h := EatHyphen(buffer, at, i, hyphens, relax);
    if h.Hyphen? {
      OnlyTheEndParses(buffer, h.at, i, hyphens, relax);
      EatsTwoBytes(buffer, h.at);
    }
  }

  lemma {:induction false} PlainIsText(buffer: seq<Byte>, at: nat, i: nat, hyphens: bool, relax: bool, value: seq<Byte>,
                                       v: seq<Byte>, end: nat) returns (pieces: seq<Piece>, layout: Layout)
    requires i <= 16 && (if relax then !hyphens else i <= 4 ==> !hyphens)
    requires ReadPlain(buffer, at, i, hyphens, relax, value) == Parsed(v, end) && end <= |buffer|
    ensures |pieces| == 16 - i && Fits(pieces, i, layout) && StillOpen(layout, i, hyphens, relax)
    ensures at + |Text(pieces)| == end && buffer[at..end] == Text(pieces) && v == value + Values(pieces)
    decreases 16 - i
  {
    hide EatHexByte, EatHyphen, Allowed, IsUnit, Text;
    if i == 16 {
      pieces, layout := [], if relax then Relaxed else Strict(hyphens);
      NoText();
      assert v == value + Values(pieces);
    } else {
      PlainUnfolds(buffer, at, i, hyphens, relax, value);
      var h := EatHyphen(buffer, at, i, hyphens, relax);
      var eaten := EatHexByte(buffer, h.at);
      HyphenState(buffer, at, i, hyphens, relax);
      var rest;
      rest, layout := PlainIsText(buffer, h.at + 2, i + 1, h.hyphens, relax, value + [eaten.value], v, end);
      EatsUnit(buffer, h.at);
      HyphenIsSeparator(buffer, at, i, hyphens, relax, layout);
      var piece := Piece(buffer[at..h.at], buffer[h.at..h.at + 2]);
      pieces := [piece] + rest;
      FitsNext(piece, rest, i, layout);
      TextNext(piece, rest);
      JoinPieces(buffer, at, h.at, end, Text(rest));
      AppendOne(value, eaten.value, Values(rest));
    }
  }

  lemma AppendOne<T>(a: seq<T>, x: T, b: seq<T>)
    ensures a + [x] + b == a + ([x] + b)
  {
  }

  lemma NoText()
    ensures Text([]) == []
  {
  }

  lemma HyphenState(buffer: seq<Byte>, at: nat, i: nat, hyphens: bool, relax: bool)
    requires EatHyphen(buffer, at, i, hyphens, relax).Hyphen?
    requires if relax then !hyphens else i <= 4 ==> !hyphens
    ensures var h := EatHyphen(buffer, at, i, hyphens, relax);
      at <= h.at && if relax then !h.hyphens else i + 1 <= 4 ==> !h.hyphens
  {
  }

  /** The parser eats the separator that the layout has before the i-th byte. */
  lemma SeparatorIsHyphen(buffer: seq<Byte>, at: nat, i: nat, hyphens: bool, relax: bool, layout: Layout, separator: seq<Byte>)
    requires i < 16 && StillOpen(layout, i, hyphens, relax) && Allowed(separator, i, layout)
    requires Holds(buffer, at, separator) && at + |separator| < |buffer| && buffer[at + |separator|] != Code('-')
    ensures var h := EatHyphen(buffer, at, i, hyphens, relax);
      h.Hyphen? && h.at == at + |separator| && StillOpen(layout, i + 1, h.hyphens, relax)
  {
    if separator != [] {
      assert buffer[at] == buffer[at..at + 1][0];
    }
  }

  lemma {:induction false} TextIsPlain(buffer: seq<Byte>, at: nat, i: nat, hyphens: bool, relax: bool, value: seq<Byte>,
                                       pieces: seq<Piece>, layout: Layout)
    requires i <= 16 && |pieces| == 16 - i && Fits(pieces, i, layout) && StillOpen(layout, i, hyphens, relax)
    requires Holds(buffer, at, Text(pieces))
    ensures ReadPlain(buffer, at, i, hyphens, relax, value) == Parsed(value + Values(pieces), at + |Text(pieces)|)
    decreases 16 - i
  {
    hide EatHexByte, EatHyphen, Allowed, Holds, Text, StillOpen, Fits, IsUnit, Values, UnitValue;
    FitsUnits(pieces, i, layout);
    if i == 16 {
      NoText();
      assert value + Values(pieces) == value;
    } else {
      hide ReadPlain;
      var piece, rest := FirstPiece(pieces, i, layout);
      SplitAndEat(buffer, at, piece, Text(rest));
      SeparatorIsHyphen(buffer, at, i, hyphens, relax, layout, piece.separator);
      PlainUnfolds(buffer, at, i, hyphens, relax, value);
      var h := EatHyphen(buffer, at, i, hyphens, relax);
      TextIsPlain(buffer, h.at + 2, i + 1, h.hyphens, relax, value + [UnitValue(piece.unit)], rest, layout);
      AppendOne(value, UnitValue(piece.unit), Values(rest));
    }
  }

  /** A text starts with its first piece. */
  lemma FirstPiece(pieces: seq<Piece>, i: nat, layout: Layout) returns (piece: Piece, rest: seq<Piece>)
    requires pieces != [] && Fits(pieces, i, layout)
    ensures |rest| == |pieces| - 1 && Fits(rest, i + 1, layout)
    ensures Allowed(piece.separator, i, layout) && IsUnit(piece.unit)
    ensures Text(pieces) == piece.separator + (piece.unit + Text(rest))
    ensures forall k :: 0 <= k < |pieces| ==> IsUnit(pieces[k].unit)
    ensures forall k :: 0 <= k < |rest| ==> IsUnit(rest[k].unit)
    ensures Values(pieces) == [UnitValue(piece.unit)] + Values(rest)
  {
    hide Text, Allowed, IsUnit, UnitValue;
    piece, rest := pieces[0], pieces[1..];
    assert pieces == [piece] + rest;
    FitsRest(pieces, i, layout);
    FitsNext(piece, rest, i, layout);
    TextNext(piece, rest);
  }

  lemma LoweredBraces()
    ensures Lowered([Code('}'), Code('}')]) == [Code('}'), Code('}')]
  {
  }

  lemma FitsUnits(pieces: seq<Piece>, i: nat, layout: Layout)
    requires Fits(pieces, i, layout)
    ensures forall k :: 0 <= k < |pieces| ==> IsUnit(pieces[k].unit)
  {
  }

  /** A piece in the buffer: the separator, a unit that is eaten, and the rest behind it. */
  lemma SplitAndEat(buffer: seq<Byte>, at: nat, piece: Piece, rest: seq<Byte>)
    requires Holds(buffer, at, piece.separator + (piece.unit + rest)) && IsUnit(piece.unit)
    ensures var middle := at + |piece.separator|;
      && Holds(buffer, at, piece.separator) && Holds(buffer, middle + 2, rest)
      && middle < |buffer| && buffer[middle] != Code('-') && |piece.unit| == 2
      && EatHexByte(buffer, middle) == Ate(UnitValue(piece.unit), middle + 2)
  {
    SplitPieces(buffer, at, piece, rest);
    var middle := at + |piece.separator|;
    assert buffer[middle] == buffer[middle..middle + 2][0];
    EatsUnit(buffer, middle);
  }

  lemma FitsRest(pieces: seq<Piece>, i: nat, layout: Layout)
    requires pieces != [] && Fits(pieces, i, layout)
    ensures Allowed(pieces[0].separator, i, layout) && IsUnit(pieces[0].unit)
    ensures Fits(pieces[1..], i + 1, layout)
  {
    hide Allowed;
    forall k | 0 <= k < |pieces| - 1
      ensures Allowed(pieces[1..][k].separator, i + 1 + k, layout) && IsUnit(pieces[1..][k].unit)
    {
      assert Allowed(pieces[k + 1].separator, i + (k + 1), layout);
    }
  }

  // ----- the nested form

  /** A sequence is found exactly when the next bytes, in lower case, are it. */
  lemma {:induction false} ExpectsExactly(buffer: seq<Byte>, at: nat, s: seq<Byte>)
    requires at <= |buffer|
    ensures ExpectSequence(buffer, at, s).Go? <==> at + |s| <= |buffer| && Lowered(buffer[at..at + |s|]) == s
    ensures ExpectSequence(buffer, at, s).Go? ==> ExpectSequence(buffer, at, s) == Go(at + |s|)
    decreases |s|
  {
    if s != [] && at < |buffer| {
      ExpectsExactly(buffer, at + 1, s[1..]);
      if at + |s| <= |buffer| {
        var window := buffer[at..at + |s|];
        assert window[1..] == buffer[at + 1..at + |s|];
        LoweredNext(window);
        assert s == [s[0]] + s[1..];
      }
    }
  }

  lemma LoweredNext(s: seq<Byte>)
    requires s != []
    ensures Lowered(s) == [ToLower(s[0])] + Lowered(s[1..])
  {
  }

  lemma NothingExpected(buffer: seq<Byte>, at: nat, s: seq<Byte>)
    requires at > |buffer| && s != []
    ensures !ExpectSequence(buffer, at, s).Go?
  {
  }

  lemma {:induction false} ExpectingParsesNothing(buffer: seq<Byte>, at: nat, s: seq<Byte>)
    ensures !AsOutcome(ExpectSequence(buffer, at, s)).Parsed?
    ensures !ExpectSequence(buffer, at, s).Ate?
    decreases |s|
  {
    if s != [] && ExpectByte(buffer, at, true, s[0]).Go? {
      ExpectingParsesNothing(buffer, at + 1, s[1..]);
    }
  }

  lemma NestedUnfolds(buffer: seq<Byte>, at: nat, i: nat, value: seq<Byte>)
    requires i < 16
    ensures var step := ExpectSequence(buffer, at, Separator(Nested, i, false));
      if step.Go? && EatHexByte(buffer, step.at).Ate? then
        ReadNested(buffer, at, i, value)
        == ReadNested(buffer, step.at + 2, i + 1, value + [EatHexByte(buffer, step.at).value])
      else !ReadNested(buffer, at, i, value).Parsed?
  {
    hide ExpectSequence, EatHexByte, AsOutcome, Separator;
    var step := ExpectSequence(buffer, at, Separator(Nested, i, false));
    ExpectingParsesNothing(buffer, at, Separator(Nested, i, false));
    if step.Go? {
      OnlyTheEndParses(buffer, step.at, i, false, false);
      EatsTwoBytes(buffer, step.at);
    }
  }

  lemma NestedEnds(buffer: seq<Byte>, at: nat, value: seq<Byte>)
    ensures var step := ExpectSequence(buffer, at, [Code('}'), Code('}')]);
      if step.Go? then ReadNested(buffer, at, 16, value) == Parsed(value, step.at)
      else !ReadNested(buffer, at, 16, value).Parsed?
  {
    hide ExpectSequence, AsOutcome;
    ExpectingParsesNothing(buffer, at, [Code('}'), Code('}')]);
  }

  lemma {:induction false} NestedIsText(buffer: seq<Byte>, at: nat, i: nat, value: seq<Byte>, v: seq<Byte>, end: nat)
    returns (pieces: seq<Piece>)
    requires i <= 16 && ReadNested(buffer, at, i, value) == Parsed(v, end)
    requires at <= |buffer| || i == 16
    ensures |pieces| == 16 - i && Fits(pieces, i, InBraces) && v == value + Values(pieces)
    ensures at + |Text(pieces)| + 2 == end <= |buffer|
    ensures buffer[at..end] == Text(pieces) + [Code('}'), Code('}')]
    decreases 16 - i
  {
    hide EatHexByte, ExpectSequence, Separator, IsUnit, Text, ReadNested, UnitValue, Fits;
    if i == 16 {
      pieces := [];
      NestedEnds(buffer, at, value);
      ClosingExpected(buffer, at);
      NoText();
      NothingFits(InBraces);
      assert v == value + Values(pieces);
    } else {
      var s := Separator(Nested, i, false);
      var step := ExpectSequence(buffer, at, s);
      NestedUnfolds(buffer, at, i, value);
      ExpectsExactly(buffer, at, s);
      var b := EatHexByte(buffer, step.at).value;
      if step.at + 2 > |buffer| && i + 1 < 16 {
        ReadsNothingBehind(buffer, step.at + 2, i + 1, value + [b]);
      }
      var rest := NestedIsText(buffer, step.at + 2, i + 1, value + [b], v, end);
      EatsUnit(buffer, step.at);
      var piece := Piece(buffer[at..step.at], buffer[step.at..step.at + 2]);
      pieces := [piece] + rest;
      SeparatorAllowed(piece.separator, i);
      FitsNext(piece, rest, i, InBraces);
      FitsUnits(rest, i + 1, InBraces);
      TextNext(piece, rest);
      JoinPieces(buffer, at, step.at, end, Text(rest) + [Code('}'), Code('}')]);
      AppendBehind(piece.separator, piece.unit, Text(rest), [Code('}'), Code('}')]);
      AppendOne(value, b, Values(rest));
    }
  }

  lemma NothingFits(layout: Layout)
    ensures Fits([], 16, layout)
  {
  }

  lemma SeparatorAllowed(separator: seq<Byte>, i: nat)
    ensures Allowed(separator, i, InBraces) <==> Lowered(separator) == Separator(Nested, i, false)
  {
  }

  lemma ClosingExpected(buffer: seq<Byte>, at: nat)
    requires ExpectSequence(buffer, at, [Code('}'), Code('}')]).Go?
    ensures at + 2 <= |buffer| && buffer[at..at + 2] == [Code('}'), Code('}')]
    ensures ExpectSequence(buffer, at, [Code('}'), Code('}')]) == Go(at + 2)
  {
    var s: seq<Byte> := [Code('}'), Code('}')];
    if at > |buffer| {
      NothingExpected(buffer, at, s);
    } else {
      ExpectsExactly(buffer, at, s);
      var window := buffer[at..at + 2];
      assert ToLower(window[0]) == Code('}') && ToLower(window[1]) == Code('}');
    }
  }

  /** Behind the end of the buffer nothing more is read. */
  lemma ReadsNothingBehind(buffer: seq<Byte>, at: nat, i: nat, value: seq<Byte>)
    requires at > |buffer| && i < 16
    ensures !ReadNested(buffer, at, i, value).Parsed?
  {
    var s := Separator(Nested, i, false);
    if s != [] {
      NothingExpected(buffer, at, s);
    }
  }

  lemma {:induction false} TextIsNested(buffer: seq<Byte>, at: nat, i: nat, value: seq<Byte>, pieces: seq<Piece>)
    requires i <= 16 && |pieces| == 16 - i && Fits(pieces, i, InBraces)
    requires Holds(buffer, at, Text(pieces) + [Code('}'), Code('}')])
    ensures ReadNested(buffer, at, i, value) == Parsed(value + Values(pieces), at + |Text(pieces)| + 2)
    decreases 16 - i
  {
    hide EatHexByte, ExpectSequence, Separator, Holds, Text, ReadNested, Fits, IsUnit, Values, UnitValue, Lowered, Allowed;
    FitsUnits(pieces, i, InBraces);
    var closing: seq<Byte> := [Code('}'), Code('}')];
    if i == 16 {
      NoText();
      assert [] + closing == closing;
      LoweredBraces();
      ExpectsWhatItHolds(buffer, at, closing, closing);
      NestedEnds(buffer, at, value);
      assert value + Values(pieces) == value;
    } else {
      var piece, rest := FirstPiece(pieces, i, InBraces);
      AppendBehind(piece.separator, piece.unit, Text(rest), closing);
      SplitAndEat(buffer, at, piece, Text(rest) + closing);
      SeparatorAllowed(piece.separator, i);
      ExpectsWhatItHolds(buffer, at, Separator(Nested, i, false), piece.separator);
      NestedUnfolds(buffer, at, i, value);
      LoweredLength(piece.separator);
      TextIsNested(buffer, at + |piece.separator| + 2, i + 1, value + [UnitValue(piece.unit)], rest);
      AppendOne(value, UnitValue(piece.unit), Values(rest));
    }
  }

  lemma AppendBehind<T>(a: seq<T>, b: seq<T>, c: seq<T>, d: seq<T>)
    ensures a + (b + c) + d == a + (b + (c + d))
  {
  }

  lemma LoweredLength(s: seq<Byte>)
    ensures |Lowered(s)| == |s|
  {
  }

  // ----- whole texts

  /**
   * The parser gives a guid exactly for the texts of the grammar, and for buffers that are one
   * byte short of one; then it ends one byte behind the buffer.
   */
  lemma AcceptsExactly(buffer: seq<Byte>, parentheses: bool, relax: bool, value: seq<Byte>, end: nat)
    ensures Read(buffer, parentheses, relax) == Parsed(value, end) <==>
      || (end <= |buffer| && IsTextOf(buffer[..end], value, parentheses, relax))
      || (end == |buffer| + 1 && IsCutTextOf(buffer, value, parentheses, relax))
  {
    if end <= |buffer| {
      AcceptsInside(buffer, parentheses, relax, value, end);
    } else {
      CutTextExactly(buffer, parentheses, relax, value);
      EndsByBuffer(buffer, parentheses, relax);
    }
  }

  lemma AcceptsInside(buffer: seq<Byte>, parentheses: bool, relax: bool, value: seq<Byte>, end: nat)
    requires end <= |buffer|
    ensures Read(buffer, parentheses, relax) == Parsed(value, end) <==> IsTextOf(buffer[..end], value, parentheses, relax)
  {
    if Read(buffer, parentheses, relax) == Parsed(value, end) {
      ReadIsText(buffer, parentheses, relax, value, end);
    }
    if IsTextOf(buffer[..end], value, parentheses, relax) {
      var opening, pieces, closing, layout :| IsParse(buffer[..end], value, parentheses, relax, opening, pieces, closing, layout);
      TextIsRead(buffer, parentheses, relax, value, end, opening, pieces, closing, layout);
    }
  }

  /** The bracket that is eaten before the first byte. */
  function Opened(buffer: seq<Byte>, parentheses: bool): seq<Byte> {
    if buffer != [] && parentheses && (buffer[0] == Code('(') || buffer[0] == Code('{')) then [buffer[0]] else []
  }

  lemma ReadIsText(buffer: seq<Byte>, parentheses: bool, relax: bool, value: seq<Byte>, end: nat)
    requires end <= |buffer| && Read(buffer, parentheses, relax) == Parsed(value, end)
    ensures IsTextOf(buffer[..end], value, parentheses, relax)
  {
    hide ReadPlain, ReadNested, Fits, Text, Allowed, IsUnit, Values;
    var opening := Opened(buffer, parentheses);
    var at := |opening|;
    assert buffer[..at] == opening;
    if at + 1 != |buffer| && buffer[at] == Code('0') && (buffer[at + 1] == Code('x') || buffer[at + 1] == Code('X')) {
      var pieces := NestedIsText(buffer, at, 0, [], value, end);
      var closing: seq<Byte> := [Code('}'), Code('}')];
      WholeText(buffer, opening, Text(pieces), closing, end);
      FitsUnits(pieces, 0, InBraces);
      assert [] + Values(pieces) == Values(pieces);
      assert IsParse(buffer[..end], value, parentheses, relax, opening, pieces, closing, InBraces);
    } else {
      PlainReadIsText(buffer, parentheses, relax, value, end, opening);
    }
  }

  /** What comes behind the sixteen bytes. */
  lemma PlainReadCloses(buffer: seq<Byte>, parentheses: bool, relax: bool, value: seq<Byte>, end: nat, opening: seq<Byte>)
    returns (closing: seq<Byte>, at: nat)
    requires opening == Opened(buffer, parentheses) && |opening| < |buffer|
    requires var at := |opening|;
      !(at + 1 != |buffer| && buffer[at] == Code('0') && (buffer[at + 1] == Code('x') || buffer[at + 1] == Code('X')))
    requires end <= |buffer| && Read(buffer, parentheses, relax) == Parsed(value, end)
    ensures ReadPlain(buffer, |opening|, 0, false, relax, []) == Parsed(value, at)
    ensures at + |closing| == end && buffer[at..end] == closing
    ensures forall layout: Layout :: !layout.InBraces? ==> Brackets(opening, closing, layout, parentheses)
  {
    hide ReadPlain, ReadNested;
    var r := ReadPlain(buffer, |opening|, 0, false, relax, []);
    closing := if opening == [] then [] else [if buffer[0] == Code('{') then Code('}') else Code(')')];
    at := r.at;
  }

  lemma PlainReadIsText(buffer: seq<Byte>, parentheses: bool, relax: bool, value: seq<Byte>, end: nat, opening: seq<Byte>)
    requires opening == Opened(buffer, parentheses) && |opening| < |buffer|
    requires var at := |opening|;
      !(at + 1 != |buffer| && buffer[at] == Code('0') && (buffer[at + 1] == Code('x') || buffer[at + 1] == Code('X')))
    requires end <= |buffer| && Read(buffer, parentheses, relax) == Parsed(value, end)
    ensures IsTextOf(buffer[..end], value, parentheses, relax)
  {
    hide Read, ReadPlain, Fits, Text, Allowed, IsUnit, Values, LooksNested, Brackets;
    var at := |opening|;
    var closing, last := PlainReadCloses(buffer, parentheses, relax, value, end, opening);
    var pieces, layout := PlainIsText(buffer, at, 0, false, relax, [], value, last);
    assert buffer[at..end] == buffer[at..last] + buffer[last..end];
    WholeText(buffer, opening, Text(pieces), closing, end);
    FitsUnits(pieces, 0, layout);
    assert [] + Values(pieces) == Values(pieces);
    NotNested(buffer, at, pieces, layout);
    assert IsParse(buffer[..end], value, parentheses, relax, opening, pieces, closing, layout);
  }

  lemma WholeText(buffer: seq<Byte>, opening: seq<Byte>, text: seq<Byte>, closing: seq<Byte>, end: nat)
    requires |opening| <= end <= |buffer| && buffer[..|opening|] == opening && buffer[|opening|..end] == text + closing
    ensures buffer[..end] == opening + text + closing
  {
    assert buffer[..end] == buffer[..|opening|] + buffer[|opening|..end];
  }

  /** The first piece of a text in the buffer, when it looks like the nested form. */
  lemma NotNested(buffer: seq<Byte>, at: nat, pieces: seq<Piece>, layout: Layout)
    requires |pieces| == 16 && Fits(pieces, 0, layout) && Holds(buffer, at, Text(pieces))
    ensures at + 1 < |buffer|
    ensures LooksNested(pieces) ==> buffer[at] == Code('0') && (buffer[at + 1] == Code('x') || buffer[at + 1] == Code('X'))
    ensures buffer[at] == Code('0') && (buffer[at + 1] == Code('x') || buffer[at + 1] == Code('X')) && !layout.InBraces? ==>
      LooksNested(pieces)
    ensures !layout.InBraces? ==> buffer[at] != Code('(') && buffer[at] != Code('{')
  {
    hide Text;
    var piece, rest := pieces[0], pieces[1..];
    assert pieces == [piece] + rest;
    FitsRest(pieces, 0, layout);
    TextNext(piece, rest);
    SplitPieces(buffer, at, piece, Text(rest));
    var middle := at + |piece.separator|;
    var unit := buffer[middle..middle + 2];
    assert buffer[middle] == unit[0] && buffer[middle + 1] == unit[1];
    if piece.separator != [] {
      HoldsGives(buffer, at, piece.separator);
      assert buffer[at] == buffer[at..at + |piece.separator|][0];
    }
  }

  /** The nested form starts with a zero and an x. */
  lemma NestedStart(buffer: seq<Byte>, at: nat, pieces: seq<Piece>)
    requires |pieces| == 16 && Fits(pieces, 0, InBraces) && Holds(buffer, at, Text(pieces))
    ensures at + 1 < |buffer| && buffer[at] == Code('0') && (buffer[at + 1] == Code('x') || buffer[at + 1] == Code('X'))
  {
    hide Text;
    var piece, rest := pieces[0], pieces[1..];
    assert pieces == [piece] + rest;
    FitsRest(pieces, 0, InBraces);
    TextNext(piece, rest);
    SplitPieces(buffer, at, piece, Text(rest));
    LoweredLength(piece.separator);
    HoldsGives(buffer, at, piece.separator);
    var window := buffer[at..at + 2];
    assert ToLower(window[0]) == Code('0') && ToLower(window[1]) == Code('x');
    assert buffer[at] == window[0] && buffer[at + 1] == window[1];
  }

  lemma TextIsRead(buffer: seq<Byte>, parentheses: bool, relax: bool, value: seq<Byte>, end: nat,
                   opening: seq<Byte>, pieces: seq<Piece>, closing: seq<Byte>, layout: Layout)
    requires end <= |buffer| && IsParse(buffer[..end], value, parentheses, relax, opening, pieces, closing, layout)
    ensures Read(buffer, parentheses, relax) == Parsed(value, end)
  {
    hide ReadPlain, ReadNested, Fits, Text, Allowed, IsUnit, Holds, LooksNested;
    var at := |opening|;
    var text := Text(pieces);
    assert buffer == opening + text + closing + buffer[end..];
    PrintedHolds(opening, text, closing, buffer[end..]);
    FitsUnits(pieces, 0, layout);
    assert [] + Values(pieces) == Values(pieces);
    if layout.InBraces? {
      NestedStart(buffer, at, pieces);
      TextIsNested(buffer, at, 0, [], pieces);
    } else {
      NotNested(buffer, at, pieces, layout);
      TextIsPlain(buffer, at, 0, false, relax, [], pieces, layout);
    }
  }

  // ----- texts that are cut off after the first digit of the last byte

  /** With one more byte, that is no digit, the buffer is a text without brackets. */
  ghost predicate IsCutTextOf(buffer: seq<Byte>, value: seq<Byte>, parentheses: bool, relax: bool) {
    exists pieces: seq<Piece>, layout: Layout ::
      IsParse(buffer + [0], value, parentheses, relax, [], pieces, [], layout)
  }

  /** The parser does not miss the second byte of the last unit. */
  lemma {:induction false} CutPlain(buffer: seq<Byte>, at: nat, i: nat, hyphens: bool, relax: bool, value: seq<Byte>, v: seq<Byte>)
    requires at <= |buffer| + 1 && i <= 16
    ensures ReadPlain(buffer, at, i, hyphens, relax, value) == Parsed(v, |buffer| + 1) <==>
      ReadPlain(buffer + [0], at, i, hyphens, relax, value) == Parsed(v, |buffer| + 1)
    ensures var r := ReadPlain(buffer, at, i, hyphens, relax, value); r.Parsed? ==> r.at <= |buffer| + 1
    decreases 16 - i
  {
    hide EatHexByte, EatHyphen;
    if i < 16 {
      var longer := buffer + [0];
      PlainUnfolds(buffer, at, i, hyphens, relax, value);
      PlainUnfolds(longer, at, i, hyphens, relax, value);
      CutHyphen(buffer, at, i, hyphens, relax);
      var h := EatHyphen(buffer, at, i, hyphens, relax);
      if h.Hyphen? && EatHexByte(buffer, h.at).Ate? {
        CutHexByte(buffer, h.at);
        var b := EatHexByte(buffer, h.at).value;
        CutPlain(buffer, h.at + 2, i + 1, h.hyphens, relax, value + [b], v);
      }
    }
  }

  lemma CutHyphen(buffer: seq<Byte>, at: nat, i: nat, hyphens: bool, relax: bool)
    requires at <= |buffer| + 1
    ensures var h, h' := EatHyphen(buffer, at, i, hyphens, relax), EatHyphen(buffer + [0], at, i, hyphens, relax);
      && (h.Hyphen? ==> h' == h || (!EatHexByte(buffer, h.at).Ate? && (h'.Hyphen? ==> !EatHexByte(buffer + [0], h'.at).Ate?)))
      && (h.Hyphen? ==> h.at <= |buffer| + 1)
      && (h.NoHyphen? && h'.Hyphen? ==> !EatHexByte(buffer + [0], h'.at).Ate?)
      && (h.Hyphen? && h' == h && !EatHexByte(buffer, h.at).Ate? ==> !EatHexByte(buffer + [0], h.at).Ate?)
  {
  }

  lemma CutHexByte(buffer: seq<Byte>, at: nat)
    requires EatHexByte(buffer, at).Ate?
    ensures at + 2 <= |buffer| + 1 && EatHexByte(buffer + [0], at) == EatHexByte(buffer, at)
    ensures EatHexByte(buffer, at).at == at + 2
  {
  }

  /** A result that ends behind the buffer comes from a text without brackets. */
  lemma EndsByBuffer(buffer: seq<Byte>, parentheses: bool, relax: bool)
    ensures var r := Read(buffer, parentheses, relax); r.Parsed? ==> r.at <= |buffer| + 1
    ensures var r := Read(buffer, parentheses, relax);
      r.Parsed? && r.at > |buffer| ==>
        Opened(buffer, parentheses) == [] && r == ReadPlain(buffer, 0, 0, false, relax, [])
  {
    hide ReadPlain, ReadNested;
    var at := |Opened(buffer, parentheses)|;
    var r := ReadNested(buffer, at, 0, []);
    if at <= |buffer| && r.Parsed? {
      var pieces := NestedIsText(buffer, at, 0, [], r.value, r.at);
    }
    if at <= |buffer| {
      CutPlain(buffer, at, 0, false, relax, [], []);
    }
  }

  lemma CutTextExactly(buffer: seq<Byte>, parentheses: bool, relax: bool, value: seq<Byte>)
    ensures Read(buffer, parentheses, relax) == Parsed(value, |buffer| + 1) <==> IsCutTextOf(buffer, value, parentheses, relax)
  {
    hide Read, IsParse;
    if Read(buffer, parentheses, relax) == Parsed(value, |buffer| + 1) {
      ReadIsCutText(buffer, parentheses, relax, value);
    }
    if IsCutTextOf(buffer, value, parentheses, relax) {
      var pieces: seq<Piece>, layout: Layout :| IsParse(buffer + [0], value, parentheses, relax, [], pieces, [], layout);
      CutTextIsRead(buffer, parentheses, relax, value, pieces, layout);
    }
  }

  lemma ReadIsCutText(buffer: seq<Byte>, parentheses: bool, relax: bool, value: seq<Byte>)
    requires Read(buffer, parentheses, relax) == Parsed(value, |buffer| + 1)
    ensures IsCutTextOf(buffer, value, parentheses, relax)
  {
    hide ReadPlain, ReadNested, Fits, Text, Allowed, IsUnit, Values, LooksNested;
    var longer := buffer + [0];
    CutPlain(buffer, 0, 0, false, relax, [], value);
    EndsByBuffer(buffer, parentheses, relax);
    assert buffer != [];
    var pieces, layout := PlainIsText(longer, 0, 0, false, relax, [], value, |longer|);
    FitsUnits(pieces, 0, layout);
    assert [] + Values(pieces) == Values(pieces);
    assert longer[0..|longer|] == longer && [] + Text(pieces) + [] == Text(pieces);
    NotNested(longer, 0, pieces, layout);
    assert IsParse(longer, value, parentheses, relax, [], pieces, [], layout);
  }

  lemma CutTextIsRead(buffer: seq<Byte>, parentheses: bool, relax: bool, value: seq<Byte>, pieces: seq<Piece>, layout: Layout)
    requires IsParse(buffer + [0], value, parentheses, relax, [], pieces, [], layout)
    ensures Read(buffer, parentheses, relax) == Parsed(value, |buffer| + 1)
  {
    hide ReadPlain, ReadNested, Fits, Text, Allowed, IsUnit, Values, LooksNested;
    var longer := buffer + [0];
    CutPlain(buffer, 0, 0, false, relax, [], value);
    FitsUnits(pieces, 0, layout);
    assert [] + Values(pieces) == Values(pieces);
    assert [] + Text(pieces) + [] == Text(pieces) && longer[0..|longer|] == longer;
    TextIsPlain(longer, 0, 0, false, relax, [], pieces, layout);
    NotNested(longer, 0, pieces, layout);
    assert |buffer| > 0 && buffer[0] == longer[0] && (|buffer| > 1 ==> buffer[1] == longer[1]);
  }
}
