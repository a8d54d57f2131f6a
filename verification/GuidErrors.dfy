/**
 * What the guid parser reports when there is no guid: the first byte no guid can have at its
 * place, or that more bytes are needed.
 */
module GuidErrors {
  import opened Utf8
  import opened ParseInt
  import opened Guids

  // ----- steps in a buffer and in a longer one

  lemma {:induction false} SequenceInLonger(buffer: seq<Byte>, tail: seq<Byte>, at: nat, s: seq<Byte>)
    ensures var step, longer := ExpectSequence(buffer, at, s), ExpectSequence(buffer + tail, at, s);
      && (step.Go? ==> longer == step && step.at == at + |s| && (s != [] ==> step.at <= |buffer|))
      && (IsInvalid(step) ==> longer == step && at <= step.outcome.at < |buffer|)
      && (IsInvalid(longer) && longer.outcome.at < |buffer| ==> step == longer)
      && (longer.Go? ==> longer.at == at + |s| && (step.Go? || longer.at > |buffer|))
    decreases |s|
  {
    if s != [] {
      var step := ExpectByte(buffer, at, true, s[0]);
      if at < |buffer| {
        assert (buffer + tail)[at] == buffer[at];
        SequenceInLonger(buffer, tail, at + 1, s[1..]);
      } else {
        InvalidBehind(buffer + tail, at, s);
        GoesOn(buffer + tail, at, s);
      }
    }
  }

  lemma {:induction false} GoesOn(buffer: seq<Byte>, at: nat, s: seq<Byte>)
    ensures var step := ExpectSequence(buffer, at, s);
      && !step.Ate? && (step.Go? ==> step.at == at + |s|) && (step.Halt? ==> !step.outcome.Parsed?)
    decreases |s|
  {
    if s != [] && at < |buffer| {
      GoesOn(buffer, at + 1, s[1..]);
    }
  }

  predicate IsInvalid(step: Step) {
    step.Halt? && IsInvalidOutcome(step.outcome)
  }

  predicate IsInvalidOutcome(r: Outcome) {
    r.Failed? && r.status == Invalid
  }

  lemma {:induction false} InvalidBehind(buffer: seq<Byte>, at: nat, s: seq<Byte>)
    ensures var step := ExpectSequence(buffer, at, s); IsInvalid(step) ==> at <= step.outcome.at < |buffer|
    decreases |s|
  {
    if s != [] && at < |buffer| {
      InvalidBehind(buffer, at + 1, s[1..]);
    }
  }

  lemma HexByteInLonger(buffer: seq<Byte>, tail: seq<Byte>, at: nat)
    ensures var step, longer := EatHexByte(buffer, at), EatHexByte(buffer + tail, at);
      && (step.Ate? ==> step.at == at + 2 && at < |buffer| && longer.Ate? && longer.at == at + 2)
      && (step.Ate? && step.at <= |buffer| ==> longer == step)
      && (IsInvalid(step) ==> longer == step && step.outcome.at == at < |buffer|)
      && (IsInvalid(longer) ==> longer.outcome.at == at < |buffer + tail|)
      && (IsInvalid(longer) && at < |buffer| ==> step == longer)
      && (longer.Ate? ==> longer.at == at + 2 && (step.Ate? || at >= |buffer|))
      && (step.Halt? ==> !step.outcome.Parsed?) && (longer.Halt? ==> !longer.outcome.Parsed?)
  {
  }

  /** Behind the end no failure is reported. */
  lemma {:induction false} PlainBehind(buffer: seq<Byte>, at: nat, i: nat, hyphens: bool, relax: bool, value: seq<Byte>)
    requires i <= 16 && at > |buffer|
    ensures !ReadPlain(buffer, at, i, hyphens, relax, value).Failed?
  {
  }

  // ----- an invalid byte

  /** That a byte is invalid depends on no byte behind it. */
  lemma {:induction false} NestedInvalid(buffer: seq<Byte>, tail: seq<Byte>, at: nat, i: nat, value: seq<Byte>, p: nat)
    requires i <= 16 && p < |buffer|
    ensures ReadNested(buffer, at, i, value) == Failed(Invalid, p) <==> ReadNested(buffer + tail, at, i, value) == Failed(Invalid, p)
    decreases 16 - i
  {
    hide EatHexByte, ExpectSequence, Separator;
    var s := if i == 16 then [Code('}'), Code('}')] else Separator(Nested, i, false);
    SequenceInLonger(buffer, tail, at, s);
    var next := at + |s|;
    HexByteInLonger(buffer, tail, next);
    var short, longer := EatHexByte(buffer, next), EatHexByte(buffer + tail, next);
    if i < 16 && ExpectSequence(buffer, at, s).Go? && short.Ate? && next + 2 <= |buffer| {
      NestedInvalid(buffer, tail, next + 2, i + 1, value + [short.value], p);
    } else if i < 16 {
      if short.Ate? {
        NestedReportsBehind(buffer, next + 2, i + 1, value + [short.value]);
      }
      if longer.Ate? {
        NestedReportsBehind(buffer + tail, next + 2, i + 1, value + [longer.value]);
      }
    }
  }

  /** A byte that is reported is at or behind the place where reading goes on. */
  lemma {:induction false} NestedReportsBehind(buffer: seq<Byte>, at: nat, i: nat, value: seq<Byte>)
    requires i <= 16
    ensures var r := ReadNested(buffer, at, i, value); IsInvalidOutcome(r) ==> at <= r.at < |buffer|
    decreases 16 - i
  {
    hide EatHexByte, ExpectSequence, Separator;
    var s := if i == 16 then [Code('}'), Code('}')] else Separator(Nested, i, false);
    InvalidBehind(buffer, at, s);
    SequenceInLonger(buffer, [], at, s);
    if i < 16 && ExpectSequence(buffer, at, s).Go? {
      var next := at + |s|;
      HexByteInLonger(buffer, [], next);
      assert buffer + [] == buffer;
      if EatHexByte(buffer, next).Ate? {
        NestedReportsBehind(buffer, next + 2, i + 1, value + [EatHexByte(buffer, next).value]);
      }
    }
  }

  lemma HyphenInLonger(buffer: seq<Byte>, tail: seq<Byte>, at: nat, i: nat, hyphens: bool, relax: bool)
    ensures var h, longer := EatHyphen(buffer, at, i, hyphens, relax), EatHyphen(buffer + tail, at, i, hyphens, relax);
      && (h.Hyphen? ==> longer == h && at <= h.at <= at + 1)
      && (h.NoHyphen? && IsInvalidOutcome(h.outcome) ==> longer == h && h.outcome.at == at < |buffer|)
      && (longer.NoHyphen? && IsInvalidOutcome(longer.outcome) ==> longer.outcome.at == at < |buffer + tail|)
      && (longer.NoHyphen? && IsInvalidOutcome(longer.outcome) && at < |buffer| ==> h == longer)
      && (h.NoHyphen? && longer.Hyphen? ==> longer.at >= |buffer|)
      && (h.NoHyphen? ==> !h.outcome.Parsed?) && (longer.NoHyphen? ==> !longer.outcome.Parsed?)
      && (longer.Hyphen? ==> longer.at >= at)
  {
  }

  lemma {:induction false} PlainReportsBehind(buffer: seq<Byte>, at: nat, i: nat, hyphens: bool, relax: bool, value: seq<Byte>)
    requires i <= 16
    ensures var r := ReadPlain(buffer, at, i, hyphens, relax, value); IsInvalidOutcome(r) ==> at <= r.at < |buffer|
    decreases 16 - i
  {
    hide EatHexByte, EatHyphen;
    if i < 16 {
      assert buffer + [] == buffer;
      HyphenInLonger(buffer, [], at, i, hyphens, relax);
      var h := EatHyphen(buffer, at, i, hyphens, relax);
      if h.Hyphen? {
        HexByteInLonger(buffer, [], h.at);
        if EatHexByte(buffer, h.at).Ate? {
          PlainReportsBehind(buffer, h.at + 2, i + 1, h.hyphens, relax, value + [EatHexByte(buffer, h.at).value]);
        }
      }
    }
  }

  lemma {:induction false} PlainInvalid(buffer: seq<Byte>, tail: seq<Byte>, at: nat, i: nat, hyphens: bool, relax: bool, value: seq<Byte>, p: nat)
    requires i <= 16 && p < |buffer|
    ensures ReadPlain(buffer, at, i, hyphens, relax, value) == Failed(Invalid, p) <==>
      ReadPlain(buffer + tail, at, i, hyphens, relax, value) == Failed(Invalid, p)
    decreases 16 - i
  {
    hide EatHexByte, EatHyphen;
    if i < 16 {
      HyphenInLonger(buffer, tail, at, i, hyphens, relax);
      var h, h' := EatHyphen(buffer, at, i, hyphens, relax), EatHyphen(buffer + tail, at, i, hyphens, relax);
      if h.Hyphen? {
        HexByteInLonger(buffer, tail, h.at);
        var short, longer := EatHexByte(buffer, h.at), EatHexByte(buffer + tail, h.at);
        if short.Ate? && h.at + 2 <= |buffer| {
          PlainInvalid(buffer, tail, h.at + 2, i + 1, h.hyphens, relax, value + [short.value], p);
        } else {
          if short.Ate? {
            PlainReportsBehind(buffer, h.at + 2, i + 1, h.hyphens, relax, value + [short.value]);
          }
          if longer.Ate? {
            PlainReportsBehind(buffer + tail, h.at + 2, i + 1, h.hyphens, relax, value + [longer.value]);
          }
        }
      } else if h'.Hyphen? {
        HexByteInLonger(buffer + tail, [], h'.at);
        assert buffer + tail + [] == buffer + tail;
        var longer := EatHexByte(buffer + tail, h'.at);
        if longer.Ate? {
          PlainReportsBehind(buffer + tail, h'.at + 2, i + 1, h'.hyphens, relax, value + [longer.value]);
        }
      }
    }
  }

  /** Where a guid ends depends on no byte behind it. */
  lemma {:induction false} PlainParsed(buffer: seq<Byte>, tail: seq<Byte>, at: nat, i: nat, hyphens: bool, relax: bool, value: seq<Byte>)
    requires i <= 16
    ensures var short, longer := ReadPlain(buffer, at, i, hyphens, relax, value), ReadPlain(buffer + tail, at, i, hyphens, relax, value);
      && (short.Parsed? ==> longer.Parsed? && longer.at == short.at >= at + 2 * (16 - i))
      && (longer.Parsed? ==> longer.at >= at + 2 * (16 - i))
      && (longer.Parsed? && longer.at <= |buffer| ==> short == longer)
    decreases 16 - i
  {
    hide EatHexByte, EatHyphen;
    if i < 16 {
      HyphenInLonger(buffer, tail, at, i, hyphens, relax);
      var h, h' := EatHyphen(buffer, at, i, hyphens, relax), EatHyphen(buffer + tail, at, i, hyphens, relax);
      if h.Hyphen? {
        HexByteInLonger(buffer, tail, h.at);
        var short, longer := EatHexByte(buffer, h.at), EatHexByte(buffer + tail, h.at);
        if short.Ate? && h.at + 2 <= |buffer| {
          PlainParsed(buffer, tail, h.at + 2, i + 1, h.hyphens, relax, value + [short.value]);
        } else if longer.Ate? {
          PlainEnds(buffer + tail, h.at + 2, i + 1, h.hyphens, relax, value + [longer.value]);
          if short.Ate? {
            PlainAnyValue(buffer, tail, h.at + 2, i + 1, h.hyphens, relax, value + [short.value], value + [longer.value]);
          }
        }
      } else if h'.Hyphen? {
        HexByteInLonger(buffer + tail, [], h'.at);
        assert buffer + tail + [] == buffer + tail;
        var longer := EatHexByte(buffer + tail, h'.at);
        if longer.Ate? {
          PlainEnds(buffer + tail, h'.at + 2, i + 1, h'.hyphens, relax, value + [longer.value]);
        }
      }
    }
  }

  lemma {:induction false} PlainEnds(buffer: seq<Byte>, at: nat, i: nat, hyphens: bool, relax: bool, value: seq<Byte>)
    requires i <= 16
    ensures var r := ReadPlain(buffer, at, i, hyphens, relax, value); r.Parsed? ==> r.at >= at + 2 * (16 - i)
    decreases 16 - i
  {
    hide EatHexByte, EatHyphen;
    if i < 16 {
      assert buffer + [] == buffer;
      HyphenInLonger(buffer, [], at, i, hyphens, relax);
      var h := EatHyphen(buffer, at, i, hyphens, relax);
      if h.Hyphen? {
        HexByteInLonger(buffer, [], h.at);
        if EatHexByte(buffer, h.at).Ate? {
          PlainEnds(buffer, h.at + 2, i + 1, h.hyphens, relax, value + [EatHexByte(buffer, h.at).value]);
        }
      }
    }
  }

  /** Behind the end of a buffer reading ends with a guid only when nothing is left to read. */
  lemma PlainAnyValue(buffer: seq<Byte>, tail: seq<Byte>, at: nat, i: nat, hyphens: bool, relax: bool, value: seq<Byte>, other: seq<Byte>)
    requires i <= 16 && at > |buffer|
    ensures ReadPlain(buffer, at, i, hyphens, relax, value).Parsed? ==>
      ReadPlain(buffer + tail, at, i, hyphens, relax, other) == Parsed(other, at)
  {
  }

  lemma NestedStart(buffer: seq<Byte>, at: nat)
    requires at + 1 < |buffer| && buffer[at] == Code('0') && (buffer[at + 1] == Code('x') || buffer[at + 1] == Code('X'))
    ensures var r := ReadNested(buffer, at, 0, []); IsInvalidOutcome(r) ==> at + 2 <= r.at < |buffer|
  {
    hide EatHexByte, ReadNested;
    assert ExpectSequence(buffer, at, Separator(Nested, 0, false)) == Go(at + 2) by {
      assert Separator(Nested, 0, false) == [Code('0')] + [Code('x')];
      assert ([Code('0')] + [Code('x')])[1..] == [Code('x')];
      assert [Code('x')][1..] == [];
    }
    NestedFirstByte(buffer, at);
  }

  lemma NestedFirstByte(buffer: seq<Byte>, at: nat)
    requires ExpectSequence(buffer, at, Separator(Nested, 0, false)) == Go(at + 2)
    ensures var r := ReadNested(buffer, at, 0, []); IsInvalidOutcome(r) ==> at + 2 <= r.at < |buffer|
  {
    hide EatHexByte, ExpectSequence, Separator;
    HexByteInLonger(buffer, [], at + 2);
    assert buffer + [] == buffer;
    var eaten := EatHexByte(buffer, at + 2);
    if eaten.Ate? {
      NestedReportsBehind(buffer, at + 4, 1, [] + [eaten.value]);
    }
  }

  /** The prefix of the nested form stands there, but no opening brace before it. */
  predicate LacksBrace(buffer: seq<Byte>, parentheses: bool) {
    var at := if buffer != [] && parentheses && (buffer[0] == Code('(') || buffer[0] == Code('{')) then 1 else 0;
    && at + 1 < |buffer| && buffer[at] == Code('0') && (buffer[at + 1] == Code('x') || buffer[at + 1] == Code('X'))
    && (at == 0 || buffer[0] != Code('{'))
  }

  /** How the forms without prefixes are read, with a bracket behind them where one stood in front. */
  function ReadBracketed(buffer: seq<Byte>, at: nat, open: bool, curly: bool, relax: bool): Outcome {
    var r := ReadPlain(buffer, at, 0, false, relax, []);
    if r.Parsed? && open then
      var step := ExpectByte(buffer, r.at, false, if curly then Code('}') else Code(')'));
      if step.Go? then Parsed(r.value, step.at) else AsOutcome(step)
    else r
  }

  lemma BracketedInvalid(buffer: seq<Byte>, tail: seq<Byte>, at: nat, open: bool, curly: bool, relax: bool, p: nat)
    requires p < |buffer|
    ensures ReadBracketed(buffer, at, open, curly, relax) == Failed(Invalid, p) <==>
      ReadBracketed(buffer + tail, at, open, curly, relax) == Failed(Invalid, p)
  {
    hide ReadPlain;
    PlainInvalid(buffer, tail, at, 0, false, relax, [], p);
    PlainParsed(buffer, tail, at, 0, false, relax, []);
  }

  lemma BracketedReportsBehind(buffer: seq<Byte>, at: nat, open: bool, curly: bool, relax: bool)
    ensures var r := ReadBracketed(buffer, at, open, curly, relax); IsInvalidOutcome(r) ==> at <= r.at < |buffer|
  {
    hide ReadPlain;
    PlainReportsBehind(buffer, at, 0, false, relax, []);
    PlainEnds(buffer, at, 0, false, relax, []);
  }

  /** A single digit at the end. */
  lemma LastDigit(buffer: seq<Byte>, at: nat, open: bool, curly: bool, relax: bool)
    requires at + 1 == |buffer| && buffer[at] == Code('0')
    ensures !ReadBracketed(buffer, at, open, curly, relax).Failed? 
  {
    var v := EatHexByte(buffer, at).value;
    assert ReadPlain(buffer, at, 0, false, relax, []) == ReadPlain(buffer, at + 2, 1, false, relax, [] + [v]);
    assert !ReadPlain(buffer, at + 2, 1, false, relax, [] + [v]).Failed? by {
      PlainBehind(buffer, at + 2, 1, false, relax, [] + [v]);
    }
    hide ReadPlain;
    PlainEnds(buffer, at, 0, false, relax, []);
  }

  /** Whether the byte at p is the one that is reported depends on no byte behind it, with one exception. */
  lemma InvalidInLonger(buffer: seq<Byte>, tail: seq<Byte>, parentheses: bool, relax: bool, p: nat)
    requires p < |buffer| && !LacksBrace(buffer + tail, parentheses)
    ensures Read(buffer, parentheses, relax) == Failed(Invalid, p) <==> Read(buffer + tail, parentheses, relax) == Failed(Invalid, p)
  {
    hide ReadNested, ReadPlain;
    var longer := buffer + tail;
    assert buffer[0] == longer[0];
    var open := parentheses && (buffer[0] == Code('(') || buffer[0] == Code('{'));
    var curly := buffer[0] == Code('{');
    var at := if open then 1 else 0;
    BracketedReportsBehind(longer, at, open, curly, relax);
    NestedReportsBehind(longer, at, 0, []);
    BracketedInvalid(buffer, tail, at, open, curly, relax, p);
    NestedInvalid(buffer, tail, at, 0, [], p);
    if at + 1 < |buffer| {
      assert buffer[at] == longer[at] && buffer[at + 1] == longer[at + 1];
    } else if at < |buffer| {
      assert buffer[at] == longer[at];
      if buffer[at] == Code('0') {
        LastDigit(buffer, at, open, curly, relax);
        if at + 1 < |longer| && (longer[at + 1] == Code('x') || longer[at + 1] == Code('X')) {
          NestedStart(longer, at);
        }
      }
    }
  }

  // ----- what can still become a guid

  ghost function Filled(value: seq<Byte>): Guid
    requires |value| <= 16
  {
    value + seq(16 - |value|, _ => 0)
  }

  predicate IsX(b: Byte) {
    ToLower(b) == Code('x')
  }

  lemma HoldsTail(buffer: seq<Byte>, tail: seq<Byte>)
    ensures Holds(buffer + tail, |buffer|, tail)
  {
  }

  lemma StartsWithoutX(g: Guid, i: nat, style: Style)
    requires i < 16 && style != Nested
    ensures TextFrom(g, i, style, false) != [] && !IsX(TextFrom(g, i, style, false)[0])
  {
    HexCharIsDigit(g[i] / 16, false);
  }

  lemma FinishPlain(buffer: seq<Byte>, i: nat, hyphens: bool, relax: bool, value: seq<Byte>) returns (tail: seq<Byte>)
    requires |value| == i <= 16 && (hyphens ==> i > 4 && !relax)
    ensures var r := ReadPlain(buffer + tail, |buffer|, i, hyphens, relax, value); r.Parsed? && r.at == |buffer + tail|
    ensures tail != [] ==> !IsX(tail[0])
  {
    var g, style := Filled(value), if hyphens then Hyphened else Bare;
    tail := TextFrom(g, i, style, false);
    HoldsTail(buffer, tail);
    assert g[..i] == value;
    ReadsPlain(g, buffer + tail, |buffer|, i, style, relax, false);
    assert SawHyphens(i, style, relax) == hyphens;
    if i < 16 {
      StartsWithoutX(g, i, style);
    }
  }

  /** Digits of one byte, and then the rest. */
  lemma FinishDigits(buffer: seq<Byte>, i: nat, hyphens: bool, relax: bool, value: seq<Byte>) returns (tail: seq<Byte>)
    requires |value| == i < 16 && (hyphens ==> i >= 4 && !relax)
    ensures var eaten := EatHexByte(buffer + tail, |buffer|);
      && eaten.Ate? && var r := ReadPlain(buffer + tail, eaten.at, i + 1, hyphens, relax, value + [eaten.value]); r.Parsed? && r.at == |buffer + tail|
    ensures tail != [] && !IsX(tail[0])
  {
    hide ReadPlain, EatHexByte;
    var digits := HexText(0, false);
    HoldsTail(buffer, digits);
    EatsWhatWasPrinted(buffer + digits, |buffer|, 0, false);
    var rest := FinishPlain(buffer + digits, i + 1, hyphens, relax, value + [0]);
    tail := digits + rest;
    assert buffer + tail == buffer + digits + rest;
    HexByteInLonger(buffer + digits, rest, |buffer|);
  }

  lemma {:induction false} ContinuePlain(buffer: seq<Byte>, at: nat, i: nat, hyphens: bool, relax: bool, value: seq<Byte>) returns (tail: seq<Byte>)
    requires |value| == i <= 16 && at <= |buffer| && (hyphens ==> i > 4 && !relax)
    requires var r := ReadPlain(buffer, at, i, hyphens, relax, value);
      !IsInvalidOutcome(r) && (r.Parsed? ==> r.at > |buffer|)
    ensures var r := ReadPlain(buffer + tail, at, i, hyphens, relax, value); r.Parsed? && r.at == |buffer + tail|
    ensures tail != [] ==> !IsX(tail[0])
    decreases 16 - i
  {
    hide EatHexByte, EatHyphen, IsX;
    if at == |buffer| {
      tail := FinishPlain(buffer, i, hyphens, relax, value);
    } else {
      HyphenStays(buffer, at, i, hyphens, relax);
      var h := EatHyphen(buffer, at, i, hyphens, relax);
      if h.NoHyphen? {
        var on := hyphens || !relax;
        tail := FinishDigits(buffer, i, on, relax, value);
        HyphenAtEnd(buffer, tail, at, i, hyphens, relax);
      } else {
        HyphenInLonger(buffer, [], at, i, hyphens, relax);
        tail := ContinueDigits(buffer, h.at, i, h.hyphens, relax, value);
        HyphenInLonger(buffer, tail, at, i, hyphens, relax);
      }
    }
  }

  lemma {:induction false} ContinueDigits(buffer: seq<Byte>, at: nat, i: nat, hyphens: bool, relax: bool, value: seq<Byte>) returns (tail: seq<Byte>)
    requires |value| == i < 16 && at <= |buffer| && (hyphens ==> i >= 4 && !relax)
    requires var eaten := EatHexByte(buffer, at);
      && !IsInvalid(eaten)
      && (eaten.Ate? ==>
        var r := ReadPlain(buffer, eaten.at, i + 1, hyphens, relax, value + [eaten.value]);
        !IsInvalidOutcome(r) && (r.Parsed? ==> r.at > |buffer|))
    ensures var eaten := EatHexByte(buffer + tail, at);
      && eaten.Ate? && var r := ReadPlain(buffer + tail, eaten.at, i + 1, hyphens, relax, value + [eaten.value]); r.Parsed? && r.at == |buffer + tail|
    ensures tail != [] ==> !IsX(tail[0])
    decreases 16 - i, 0
  {
    hide ReadPlain;
    if at == |buffer| {
      tail := FinishDigits(buffer, i, hyphens, relax, value);
    } else {
      var digit := [Code('0')];
      var b := if at + 1 == |buffer| then buffer + digit else buffer;
      var eaten := EatHexByte(b, at);
      if at + 1 == |buffer| {
        var rest := FinishPlain(b, i + 1, hyphens, relax, value + [eaten.value]);
        tail := digit + rest;
        assert buffer + tail == b + rest;
        HexByteInLonger(b, rest, at);
      } else {
        tail := ContinuePlain(buffer, at + 2, i + 1, hyphens, relax, value + [eaten.value]);
        HexByteInLonger(buffer, tail, at);
      }
    }
  }

  lemma HyphenStays(buffer: seq<Byte>, at: nat, i: nat, hyphens: bool, relax: bool)
    requires at < |buffer| && (hyphens ==> i > 4 && !relax)
    ensures var h := EatHyphen(buffer, at, i, hyphens, relax);
      && (h.Hyphen? ==> (h.hyphens ==> i >= 4 && !relax))
      && (h.NoHyphen? && !IsInvalidOutcome(h.outcome) ==> i < 16 ==> at + 1 == |buffer| && (relax || i >= 4) && h.outcome == Failed(Exhausted, 0))
  {
  }

  lemma HyphenAtEnd(buffer: seq<Byte>, tail: seq<Byte>, at: nat, i: nat, hyphens: bool, relax: bool)
    requires at + 1 == |buffer| && tail != [] && EatHyphen(buffer, at, i, hyphens, relax) == NoHyphen(Failed(Exhausted, 0))
    ensures EatHyphen(buffer + tail, at, i, hyphens, relax) == Hyphen(|buffer|, hyphens || !relax)
  {
  }

  // the nested form

  lemma FinishNested(buffer: seq<Byte>, i: nat, value: seq<Byte>) returns (tail: seq<Byte>)
    requires |value| == i <= 16
    ensures ReadNested(buffer + tail, |buffer|, i, value).Parsed?
  {
    hide ReadNested;
    var g := Filled(value);
    tail := TextFrom(g, i, Nested, false) + Closing('x');
    HoldsTail(buffer, tail);
    assert g[..i] == value;
    ReadsNested(g, buffer + tail, |buffer|, i, false);
  }

  lemma {:induction false} SequenceContinues(buffer: seq<Byte>, at: nat, s: seq<Byte>) returns (rest: seq<Byte>)
    requires at <= |buffer| && !IsInvalid(ExpectSequence(buffer, at, s)) && Lowered(s) == s
    ensures ExpectSequence(buffer + rest, at, s) == Go(at + |s|) && at + |s| <= |buffer + rest|
    ensures rest == [] || at + |s| == |buffer + rest|
    decreases |s|
  {
    if s == [] {
      rest := [];
    } else if at == |buffer| {
      rest := s;
      HoldsTail(buffer, s);
      ExpectsWhatItHolds(buffer + s, at, s, s);
    } else {
      assert Lowered(s)[1..] == Lowered(s[1..]);
      rest := SequenceContinues(buffer, at + 1, s[1..]);
      assert (buffer + rest)[at] == buffer[at];
    }
  }

  lemma {:induction false} ContinueNested(buffer: seq<Byte>, at: nat, i: nat, value: seq<Byte>) returns (tail: seq<Byte>)
    requires |value| == i <= 16 && at <= |buffer| && !IsInvalidOutcome(ReadNested(buffer, at, i, value))
    ensures ReadNested(buffer + tail, at, i, value).Parsed?
    decreases 16 - i
  {
    hide ExpectSequence, Separator, EatHexByte;
    var s := if i == 16 then [Code('}'), Code('}')] else Separator(Nested, i, false);
    SeparatorIsLower(i);
    tail := SequenceContinues(buffer, at, s);
    if i < 16 {
      var b, next := buffer + tail, at + |s|;
      if tail == [] {
        assert b == buffer;
      }
      HexByteInLonger(b, [], next);
      assert b + [] == b;
      var rest := ContinueNestedDigits(b, next, i, value);
      SequenceInLonger(b, rest, at, s);
      tail := tail + rest;
      assert buffer + tail == b + rest;
    }
  }

  lemma {:induction false} ContinueNestedDigits(buffer: seq<Byte>, at: nat, i: nat, value: seq<Byte>) returns (tail: seq<Byte>)
    requires |value| == i < 16 && at <= |buffer|
    requires var eaten := EatHexByte(buffer, at);
      && !IsInvalid(eaten) && (eaten.Ate? ==> !IsInvalidOutcome(ReadNested(buffer, eaten.at, i + 1, value + [eaten.value])))
    ensures var eaten := EatHexByte(buffer + tail, at);
      && eaten.Ate? && ReadNested(buffer + tail, eaten.at, i + 1, value + [eaten.value]).Parsed?
    decreases 16 - i, 0
  {
    hide ReadNested;
    if at + 1 < |buffer| {
      var eaten := EatHexByte(buffer, at);
      tail := ContinueNested(buffer, at + 2, i + 1, value + [eaten.value]);
      HexByteInLonger(buffer, tail, at);
    } else {
      var digits := if at == |buffer| then [Code('0'), Code('0')] else [Code('0')];
      var b := buffer + digits;
      var eaten := EatHexByte(b, at);
      var rest := FinishNested(b, i + 1, value + [eaten.value]);
      tail := digits + rest;
      assert buffer + tail == b + rest;
      HexByteInLonger(b, rest, at);
    }
  }

  lemma SeparatorIsLower(i: nat)
    ensures Lowered(Separator(Nested, i, false)) == Separator(Nested, i, false)
    ensures Lowered([Code('}'), Code('}')]) == [Code('}'), Code('}')]
  {
    SeparatorLowered(i, false);
  }

  // ----- main results

  lemma ContinueBracketed(buffer: seq<Byte>, at: nat, open: bool, curly: bool, relax: bool) returns (tail: seq<Byte>)
    requires at <= |buffer| && !IsInvalidOutcome(ReadBracketed(buffer, at, open, curly, relax))
    ensures ReadBracketed(buffer + tail, at, open, curly, relax).Parsed?
    ensures tail != [] ==> !IsX(tail[0])
  {
    hide ReadPlain;
    var r := ReadPlain(buffer, at, 0, false, relax, []);
    var bracket := if curly then Code('}') else Code(')');
    assert buffer + [] == buffer;
    if r.Parsed? && r.at < |buffer| {
      tail := [];
    } else {
      var rest := [];
      if !r.Parsed? || r.at > |buffer| {
        rest := ContinuePlain(buffer, at, 0, false, relax, []);
      }
      tail := if open then rest + [bracket] else rest;
      assert buffer + rest + [bracket] == buffer + (rest + [bracket]);
      PlainParsed(buffer + rest, [bracket], at, 0, false, relax, []);
    }
  }

  lemma BracketAlone(kind: char, relax: bool) returns (tail: seq<Byte>)
    requires kind == 'b' || kind == 'p'
    ensures Read(Opening(kind) + tail, true, relax).Parsed?
  {
    hide Read, TextFrom;
    var g := Filled([]);
    tail := TextFrom(g, 0, Hyphened, false) + Closing(kind);
    assert Printed(g, kind, false) + [] == Opening(kind) + tail;
    RoundTrip(g, kind, false, [], true, relax);
  }

  /** As long as no byte is invalid, the text can still become a guid. */
  lemma Continue(buffer: seq<Byte>, parentheses: bool, relax: bool) returns (tail: seq<Byte>)
    requires !IsInvalidOutcome(Read(buffer, parentheses, relax))
    ensures Read(buffer + tail, parentheses, relax).Parsed?
  {
    hide ReadNested, ReadPlain;
    if buffer == [] {
      var g := Filled([]);
      tail := Printed(g, 'n', false);
      RoundTrip(g, 'n', false, [], parentheses, relax);
      assert tail + [] == tail == buffer + tail;
    } else {
      var open := parentheses && (buffer[0] == Code('(') || buffer[0] == Code('{'));
      var curly := buffer[0] == Code('{');
      var at := if open then 1 else 0;
      if at == |buffer| {
        tail := BracketAlone(if curly then 'b' else 'p', relax);
        assert buffer == Opening(if curly then 'b' else 'p');
      } else if at + 1 < |buffer| && buffer[at] == Code('0') && IsX(buffer[at + 1]) {
        tail := ContinueNested(buffer, at, 0, []);
      } else {
        tail := ContinueBracketed(buffer, at, open, curly, relax);
      }
    }
  }

  ghost predicate CanBecomeGuid(buffer: seq<Byte>, parentheses: bool, relax: bool) {
    exists tail: seq<Byte> :: Read(buffer + tail, parentheses, relax).Parsed?
  }

  /** A byte is reported exactly when nothing that could still follow makes the text a guid. */
  lemma InvalidExactly(buffer: seq<Byte>, parentheses: bool, relax: bool)
    ensures IsInvalidOutcome(Read(buffer, parentheses, relax)) <==> !CanBecomeGuid(buffer, parentheses, relax)
  {
    var r := Read(buffer, parentheses, relax);
    if IsInvalidOutcome(r) {
      ReportsInside(buffer, parentheses, relax);
      forall tail: seq<Byte> ensures !Read(buffer + tail, parentheses, relax).Parsed? {
        if LacksBrace(buffer + tail, parentheses) {
          LacksBraceIsInvalid(buffer + tail, parentheses, relax);
        } else {
          InvalidInLonger(buffer, tail, parentheses, relax, r.at);
        }
      }
    } else {
      var tail := Continue(buffer, parentheses, relax);
    }
  }

  lemma LacksBraceIsInvalid(buffer: seq<Byte>, parentheses: bool, relax: bool)
    requires LacksBrace(buffer, parentheses)
    ensures Read(buffer, parentheses, relax) == Failed(Invalid, 0)
  {
  }

  lemma ReportsInside(buffer: seq<Byte>, parentheses: bool, relax: bool)
    ensures var r := Read(buffer, parentheses, relax); IsInvalidOutcome(r) ==> r.at < |buffer|
  {
    hide ReadNested, ReadPlain;
    if buffer != [] {
      var open := parentheses && (buffer[0] == Code('(') || buffer[0] == Code('{'));
      var at := if open then 1 else 0;
      BracketedReportsBehind(buffer, at, open, buffer[0] == Code('{'), relax);
      NestedReportsBehind(buffer, at, 0, []);
    }
  }

  /**
   * The byte that is reported is the first one that no guid can have at its place. Where only the
   * opening brace of the nested form is missing it is the first byte of all.
   */
  lemma ReportsFirstWrongByte(buffer: seq<Byte>, parentheses: bool, relax: bool, p: nat)
    requires p < |buffer|
    ensures LacksBrace(buffer, parentheses) ==>
      (Read(buffer, parentheses, relax) == Failed(Invalid, p) <==> p == 0)
    ensures !LacksBrace(buffer, parentheses) ==>
      (Read(buffer, parentheses, relax) == Failed(Invalid, p) <==>
        CanBecomeGuid(buffer[..p], parentheses, relax) && !CanBecomeGuid(buffer[..p + 1], parentheses, relax))
  {
    hide Read;
    if LacksBrace(buffer, parentheses) {
      LacksBraceIsInvalid(buffer, parentheses, relax);
    } else {
      var before, with := buffer[..p], buffer[..p + 1];
      assert buffer == before + buffer[p..] && buffer == with + buffer[p + 1..];
      InvalidExactly(before, parentheses, relax);
      InvalidExactly(with, parentheses, relax);
      ReportsInside(before, parentheses, relax);
      ReportsInside(with, parentheses, relax);
      forall q: nat | q < |before|
        ensures Read(before, parentheses, relax) == Failed(Invalid, q) <==> Read(buffer, parentheses, relax) == Failed(Invalid, q)
      {
        InvalidInLonger(before, buffer[p..], parentheses, relax, q);
      }
      forall q: nat | q < |with|
        ensures Read(with, parentheses, relax) == Failed(Invalid, q) <==> Read(buffer, parentheses, relax) == Failed(Invalid, q)
      {
        InvalidInLonger(with, buffer[p + 1..], parentheses, relax, q);
      }
    }
  }

  // ----- when bytes are missing

  /** Nothing is consumed when the bytes come to an end. */
  predicate WellReported(r: Outcome) {
    r.Failed? ==> r.status == Invalid || r == Failed(Exhausted, 0)
  }

  lemma {:induction false} SequenceReports(buffer: seq<Byte>, at: nat, s: seq<Byte>)
    ensures var step := ExpectSequence(buffer, at, s); !step.Ate? && (step.Halt? ==> WellReported(step.outcome))
    decreases |s|
  {
    if s != [] {
      SequenceReports(buffer, at + 1, s[1..]);
    }
  }

  lemma HexByteReports(buffer: seq<Byte>, at: nat)
    ensures var step := EatHexByte(buffer, at); step.Halt? ==> WellReported(step.outcome)
  {
  }

  lemma HyphenReports(buffer: seq<Byte>, at: nat, i: nat, hyphens: bool, relax: bool)
    ensures var h := EatHyphen(buffer, at, i, hyphens, relax); h.NoHyphen? ==> WellReported(h.outcome)
  {
  }

  lemma {:induction false} NestedReports(buffer: seq<Byte>, at: nat, i: nat, value: seq<Byte>)
    requires i <= 16
    ensures WellReported(ReadNested(buffer, at, i, value))
    decreases 16 - i
  {
    hide ExpectSequence, Separator;
    var s := if i == 16 then [Code('}'), Code('}')] else Separator(Nested, i, false);
    SequenceReports(buffer, at, s);
    var step := ExpectSequence(buffer, at, s);
    if i < 16 && step.Go? && EatHexByte(buffer, step.at).Ate? {
      NestedReports(buffer, step.at + 2, i + 1, value + [EatHexByte(buffer, step.at).value]);
    }
  }

  lemma {:induction false} PlainReports(buffer: seq<Byte>, at: nat, i: nat, hyphens: bool, relax: bool, value: seq<Byte>)
    requires i <= 16
    ensures WellReported(ReadPlain(buffer, at, i, hyphens, relax, value))
    decreases 16 - i
  {
    hide EatHexByte, EatHyphen;
    if i < 16 {
      var h := EatHyphen(buffer, at, i, hyphens, relax);
      HyphenReports(buffer, at, i, hyphens, relax);
      if h.Hyphen? {
        HexByteReports(buffer, h.at);
        var eaten := EatHexByte(buffer, h.at);
        if eaten.Ate? {
          PlainReports(buffer, eaten.at, i + 1, h.hyphens, relax, value + [eaten.value]);
        }
      }
    }
  }

  /** A failure is an invalid byte, or that bytes are missing; then the text can still become a guid. */
  lemma OtherwiseBytesAreMissing(buffer: seq<Byte>, parentheses: bool, relax: bool)
    ensures var r := Read(buffer, parentheses, relax);
      r.Failed? && r.status != Invalid ==> r == Failed(Exhausted, 0) && CanBecomeGuid(buffer, parentheses, relax)
  {
    hide ReadNested, ReadPlain, CanBecomeGuid;
    InvalidExactly(buffer, parentheses, relax);
    if buffer != [] {
      var open := parentheses && (buffer[0] == Code('(') || buffer[0] == Code('{'));
      var at := if open then 1 else 0;
      NestedReports(buffer, at, 0, []);
      PlainReports(buffer, at, 0, false, relax, []);
    }
  }
}
