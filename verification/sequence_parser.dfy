/**
 * The older set compiler, `escaped_sequences_to_chars` in main.rs, which is
 * the one the command line uses. Unlike the newer one it works in a single
 * pass with three modes, so a range is formed while reading: the lower
 * endpoint of `p-q` is the raw input character just before the '-', an
 * unfinished octal escape or a trailing backslash at the end of the input
 * is dropped, an octal escape whose first digit is 4..7 is an error, and a
 * '-' left open at the end is kept.
 *
 * The grammar functions Expand, RangeFrom and OctalFrom say what the rest of
 * the input produces in each mode; the method EscapedSequencesToChars is the
 * source's loop, tied to that grammar by its loop invariant.
 */
module SequenceParser {
  import opened Chars
  import EscapeParser

  /**
   * The modes of the state machine (main.rs:15-19): Literal is the source's
   * Normal and OctalDigits its EscapedOctalDigits.
   */
  datatype SequenceMode = Literal | OctalDigits | CharacterRange

  // ---------------------------------------------------------------------
  // The parser, as a grammar
  // ---------------------------------------------------------------------

  /**
   * What the input `s` produces in normal mode when the input character read
   * just before it was `previous` (None at the start).
   */
  function Expand(previous: Option<char>, s: string): Result<seq<char>>
    decreases |s|
  {
    if s == [] then Ok([])
    else
      var c, t := s[0], s[1..];
      if c == '\\' then Expand(Some('\\'), t)
      else if previous == Some('\\') then
        match EscapeTarget(c)
        case Some(x) => Prepend([x], Expand(Some(c), t))
        case None => if IsOctalDigit(c) then OctalFrom([c], t) else Err(UnknownEscape(c))
      else if previous.Some? && c == '-' then RangeFrom(previous.value, t)
      else Prepend([c], Expand(Some(c), t))
  }

  /**
   * What `s` produces right after a range operator whose lower endpoint is
   * `lower`: the next character is the upper endpoint; if there is none, the
   * '-' is kept.
   */
  function RangeFrom(lower: char, s: string): Result<seq<char>>
    decreases |s|
  {
    if s == [] then Ok(['-'])
    else Concat(RangeChars(lower, s[0]), Expand(Some(s[0]), s[1..]))
  }

  /**
   * What the range mode adds for `lower-upper` (main.rs:56-70): the codes
   * after `lower` up to `upper`, since `lower` itself is already out.
   */
  function RangeChars(lower: char, upper: char): (r: Result<seq<char>>)
    ensures upper < lower <==> r == Err(RangeOrder(lower, upper))
    ensures r.Ok? <==> lower <= upper && forall n :: lower as int < n <= upper as int ==> IsScalar(n)
    ensures r.Ok? ==> |r.value| == upper as int - lower as int
                      && forall k :: 0 <= k < |r.value| ==> r.value[k] as int == lower as int + 1 + k
  {
    var lowerBound, upperBound := lower as int + 1, upper as int + 1;
    if lowerBound < upperBound then CharRange(lowerBound, upperBound)
    else if lowerBound == upperBound then Ok([])
    else Err(RangeOrder(lower, upper))
  }

  /**
   * What `s` produces inside an octal escape that has read `digits` so far.
   * The escape ends at its third digit or at a non-digit; a non-digit is then
   * output after the code, unless it is a backslash, which starts a new
   * escape. At the end of the input the unfinished escape is dropped.
   */
  function OctalFrom(digits: seq<char>, s: string): Result<seq<char>>
    requires 1 <= |digits| <= 2 && AllOctal(digits)
    decreases |s|
  {
    if s == [] then Ok([])
    else
      var c, t := s[0], s[1..];
      if IsOctalDigit(c) then
        if |digits| == 2 then Concat(FlushOctal(digits + [c]), Expand(Some(c), t))
        else OctalFrom(digits + [c], t)
      else Concat(FlushOctal(digits), Prepend(if c == '\\' then [] else [c], Expand(Some(c), t)))
  }

  /** A finished octal escape: codes whose first digit is 4..7 are refused (main.rs:83-86). */
  function FlushOctal(digits: seq<char>): (r: Result<seq<char>>)
    requires 1 <= |digits| <= 3 && AllOctal(digits)
    ensures r.Err? <==> '4' <= digits[0]
    ensures r.Err? ==> r.error == OctalOutOfRange(digits)
    ensures r.Ok? ==> |r.value| == 1 && r.value[0] as int == OctalValue(digits) <= 255
  {
    if '4' <= digits[0] then Err(OctalOutOfRange(digits))
    else
      EscapeParser.OctalByteBound(digits);
      Ok([OctalChar(digits)])
  }

  /** What escaped_sequences_to_chars computes. */
  function Expanded(s: string): Result<seq<char>> {
    Expand(None, s)
  }

  // ---------------------------------------------------------------------
  // The source's loop
  // ---------------------------------------------------------------------

  /** What the grammar still has to produce from `rest` in the given machine state. */
  function Remaining(mode: SequenceMode, previous: Option<char>, lower: Option<char>, digits: seq<char>, rest: string): Result<seq<char>>
    requires mode.OctalDigits? ==> 1 <= |digits| <= 2 && AllOctal(digits)
    requires mode.CharacterRange? ==> lower.Some?
  {
    match mode
    case Literal => Expand(previous, rest)
    case CharacterRange => RangeFrom(lower.value, rest)
    case OctalDigits => OctalFrom(digits, rest)
  }

  /**
   * escaped_sequences_to_chars (main.rs:21-116). The octal code is computed by
   * the same loop as octal_digits_to_char, which main.rs inlines (main.rs:88-93).
   */
  method EscapedSequencesToChars(input: string) returns (r: Result<seq<char>>)
    ensures r == Expanded(input)
  {
    var mode := Literal;
    var previous: Option<char> := None;
    var lower: Option<char> := None;
    var digits: seq<char> := [];
    var output: seq<char> := [];
    assert input[0..] == input;
    PrependNothing(Expanded(input));
    for i := 0 to |input|
      invariant previous == (if i == 0 then None else Some(input[i - 1]))
      invariant WellFormed(mode, lower, digits)
      invariant Expanded(input) == Prepend(output, Remaining(mode, previous, lower, digits, input[i..]))
    {
      var c := input[i];
      var t := input[i + 1..];
      assert input[i..] == [c] + t;
      match mode {
        case Literal =>
          var step := LiteralArm(previous, lower, c, output, t);
          if step.Err? {
            return Err(step.error);
          }
          mode, lower, digits, output := step.value.0, step.value.1, step.value.2, step.value.3;
        case CharacterRange =>
          var step := RangeArm(lower.value, c, output, t);
          if step.Err? {
            return Err(step.error);
          }
          output := step.value;
          lower := None;
          mode := Literal;
        case OctalDigits =>
          var step := OctalDigitsArm(digits, c, output, t);
          if step.Err? {
            return Err(step.error);
          }
          mode, digits, output := step.value.0, step.value.1, step.value.2;
      }
      previous := Some(c);
    }
    if mode.CharacterRange? {
      output := output + ['-'];
    } else {
      assert output + [] == output;
    }
    return Ok(output);
  }

  /**
   * Between characters the octal buffer holds one or two digits exactly in
   * octal mode, and range mode knows its lower endpoint.
   */
  predicate WellFormed(mode: SequenceMode, lower: Option<char>, digits: seq<char>) {
    (!mode.OctalDigits? ==> digits == [])
    && (mode.OctalDigits? ==> 1 <= |digits| <= 2 && AllOctal(digits))
    && (mode.CharacterRange? ==> lower.Some?)
  }

  /**
   * The Normal arm of the loop (main.rs:29-54) on one character `c` followed
   * by `t`: the new mode, range endpoint, octal buffer and output, or the
   * unknown-escape error, agree with the grammar.
   */
  method LiteralArm(previous: Option<char>, lower: Option<char>, c: char, output: seq<char>, t: string)
    returns (r: Result<(SequenceMode, Option<char>, seq<char>, seq<char>)>)
    ensures match r
      case Err(e) => Prepend(output, Expand(previous, [c] + t)) == Err(e)
      case Ok((mode, nextLower, digits, out)) =>
        WellFormed(mode, nextLower, digits)
        && Prepend(output, Expand(previous, [c] + t)) == Prepend(out, Remaining(mode, Some(c), nextLower, digits, t))
  {
    ExpandStep(previous, c, t);
    if c == '\\' {
      // the next character is escaped
      r := Ok((Literal, lower, [], output));
    } else if previous.Some? && previous.value == '\\' {
      match EscapeTarget(c) {
        case Some(x) =>
          PrependAssoc(output, [x], Expand(Some(c), t));
          r := Ok((Literal, lower, [], output + [x]));
        case None =>
          if IsOctalDigit(c) {
            r := Ok((OctalDigits, lower, [c], output));
          } else {
            r := Err(UnknownEscape(c));
          }
      }
    } else if previous.Some? && c == '-' {
      r := Ok((CharacterRange, previous, [], output));
    } else {
      PrependAssoc(output, [c], Expand(Some(c), t));
      r := Ok((Literal, lower, [], output + [c]));
    }
  }

  /**
   * The CharacterRange arm of the loop (main.rs:55-73): `c` is the upper
   * endpoint; the codes after `lower` up to `c` are output, nothing for `a-a`,
   * and an upper endpoint below the lower one is an error.
   */
  method RangeArm(lower: char, c: char, output: seq<char>, t: string) returns (r: Result<seq<char>>)
    ensures match r
      case Err(e) => Prepend(output, RangeFrom(lower, [c] + t)) == Err(e)
      case Ok(out) => Prepend(output, RangeFrom(lower, [c] + t)) == Prepend(out, Expand(Some(c), t))
  {
    assert RangeFrom(lower, [c] + t) == Concat(RangeChars(lower, c), Expand(Some(c), t));
    var lowerBound := lower as int + 1;
    var upperBound := c as int + 1;
    if lowerBound < upperBound {
      var extended := AppendRange(output, lowerBound, upperBound);
      if extended.Err? {
        return Err(extended.error);
      }
      var m := CharRange(lowerBound, upperBound).value;
      assert extended.value == output + m;
      PrependAssoc(output, m, Expand(Some(c), t));
      r := Ok(extended.value);
    } else if lowerBound == upperBound {
      // `a-a`: the lower endpoint is already out
      PrependNothing(Expand(Some(c), t));
      r := Ok(output);
    } else {
      r := Err(RangeOrder(lower, c));
    }
  }

  /**
   * The EscapedOctalDigits arm of the loop (main.rs:74-104) on one character
   * `c` followed by `t`: a digit extends the escape; a third digit or a
   * non-digit ends it, and its code is output (an error when its first digit
   * is 4..7), followed by a non-digit that is not a backslash.
   */
  method OctalDigitsArm(digits: seq<char>, c: char, output: seq<char>, t: string)
    returns (r: Result<(SequenceMode, seq<char>, seq<char>)>)
    requires 1 <= |digits| <= 2 && AllOctal(digits)
    ensures r.Err? ==> Prepend(output, OctalFrom(digits, [c] + t)) == Err(r.error)
    ensures r.Ok? ==> WellFormed(r.value.0, None, r.value.1)
    ensures r.Ok? ==>
              Prepend(output, OctalFrom(digits, [c] + t)) == Prepend(r.value.2, Remaining(r.value.0, Some(c), None, r.value.1, t))
  {
    OctalFromStep(digits, c, t);
    var buffer := digits;
    var out := output;
    var mode := OctalDigits;
    var isOctalDigit := IsOctalDigit(c);
    if isOctalDigit {
      buffer := buffer + [c];
    }
    if !isOctalDigit || |buffer| == 3 {
      if '4' <= buffer[0] {
        return Err(OctalOutOfRange(buffer));
      }
      var code := OctalDigitsToChar(buffer);
      assert code as int == OctalChar(buffer) as int;
      OctalFlushStep(output, digits, c, t);
      out := out + [code];
      buffer := [];
      mode := Literal;
    }
    if !isOctalDigit && c != '\\' {
      out := out + [c];
    }
    r := Ok((mode, buffer, out));
  }

  /** Octal mode ends at `c`: the code of the digits, then `c` unless it is a digit or a backslash. */
  lemma OctalFlushStep(output: seq<char>, digits: seq<char>, c: char, t: string)
    requires 1 <= |digits| <= 2 && AllOctal(digits) && digits[0] < '4'
    requires IsOctalDigit(c) ==> |digits| == 2
    ensures IsOctalDigit(c) ==>
              Prepend(output, OctalFrom(digits, [c] + t)) == Prepend(output + [OctalChar(digits + [c])], Expand(Some(c), t))
    ensures c == '\\' ==>
              Prepend(output, OctalFrom(digits, [c] + t)) == Prepend(output + [OctalChar(digits)], Expand(Some(c), t))
    ensures !IsOctalDigit(c) && c != '\\' ==>
              Prepend(output, OctalFrom(digits, [c] + t)) == Prepend(output + [OctalChar(digits)] + [c], Expand(Some(c), t))
  {
    var d := if IsOctalDigit(c) then digits + [c] else digits;
    var after := if IsOctalDigit(c) || c == '\\' then [] else [c];
    OctalFromStep(digits, c, t);
    PrependNothing(Expand(Some(c), t));
    assert OctalFrom(digits, [c] + t) == Prepend([OctalChar(d)], Prepend(after, Expand(Some(c), t)));
    PrependAssoc([OctalChar(d)], after, Expand(Some(c), t));
    PrependAssoc(output, [OctalChar(d)] + after, Expand(Some(c), t));
    assert output + ([OctalChar(d)] + after) == output + [OctalChar(d)] + after;
    assert [OctalChar(d)] + [] == [OctalChar(d)];
  }

  /** One more character `c` in normal mode, in terms of the grammar. */
  lemma ExpandStep(previous: Option<char>, c: char, t: string)
    ensures c == '\\' ==> Expand(previous, [c] + t) == Expand(Some('\\'), t)
    ensures c != '\\' && previous == Some('\\') && EscapeTarget(c).Some? ==>
              Expand(previous, [c] + t) == Prepend([EscapeTarget(c).value], Expand(Some(c), t))
    ensures c != '\\' && previous == Some('\\') && EscapeTarget(c).None? ==>
              Expand(previous, [c] + t) == if IsOctalDigit(c) then OctalFrom([c], t) else Err(UnknownEscape(c))
    ensures c != '\\' && previous != Some('\\') && previous.Some? && c == '-' ==>
              Expand(previous, [c] + t) == RangeFrom(previous.value, t)
    ensures c != '\\' && previous != Some('\\') && !(previous.Some? && c == '-') ==>
              Expand(previous, [c] + t) == Prepend([c], Expand(Some(c), t))
  {
    assert ([c] + t)[0] == c && ([c] + t)[1..] == t;
  }

  /** One more character `c` in octal mode, in terms of the grammar. */
  lemma OctalFromStep(digits: seq<char>, c: char, t: string)
    requires 1 <= |digits| <= 2 && AllOctal(digits)
    ensures IsOctalDigit(c) && |digits| == 1 ==> OctalFrom(digits, [c] + t) == OctalFrom(digits + [c], t)
    ensures IsOctalDigit(c) && |digits| == 2 ==>
              OctalFrom(digits, [c] + t) == Concat(FlushOctal(digits + [c]), Prepend([], Expand(Some(c), t)))
    ensures !IsOctalDigit(c) ==>
              OctalFrom(digits, [c] + t) == Concat(FlushOctal(digits), Prepend(if c == '\\' then [] else [c], Expand(Some(c), t)))
  {
    assert ([c] + t)[0] == c && ([c] + t)[1..] == t;
    PrependNothing(Expand(Some(c), t));
  }

  // ---------------------------------------------------------------------
  // Properties
  // ---------------------------------------------------------------------

  /** The input character read last: the last of `p`, or `previous` when `p` is empty. */
  function LastRead(previous: Option<char>, p: string): Option<char> {
    if p == [] then previous else Some(p[|p| - 1])
  }

  /** Text without backslashes or '-' is copied, whatever follows it. */
  lemma {:induction false} ExpandPlainPrefix(previous: Option<char>, p: string, t: string)
    requires NoBackslash(p) && '-' !in p && previous != Some('\\')
    ensures Expand(previous, p + t) == Prepend(p, Expand(LastRead(previous, p), t))
    decreases |p|
  {
    if p == [] {
      assert p + t == t;
      PrependNothing(Expand(previous, t));
    } else {
      ExpandStep(previous, p[0], p[1..] + t);
      assert p + t == [p[0]] + (p[1..] + t);
      ExpandPlainPrefix(Some(p[0]), p[1..], t);
      assert LastRead(Some(p[0]), p[1..]) == LastRead(previous, p);
      PrependAssoc([p[0]], p[1..], Expand(LastRead(previous, p), t));
      assert [p[0]] + p[1..] == p;
    }
  }

  /** An operand without backslashes whose only '-' may be its first character compiles to itself. */
  lemma PlainTextExpanded(s: string)
    requires NoBackslash(s) && (|s| > 0 ==> '-' !in s[1..])
    ensures Expanded(s) == Ok(s)
  {
    if s != [] {
      ExpandStep(None, s[0], s[1..]);
      assert s == [s[0]] + s[1..];
      ExpandPlainPrefix(Some(s[0]), s[1..], []);
      assert s[1..] + [] == s[1..];
      PrependAssoc([s[0]], s[1..], Ok([]));
      assert s + [] == s;
    }
  }

  /**
   * The lower endpoint is output when it is read, and the range mode adds the
   * rest: together they are the closed range, also for adjacent endpoints.
   */
  lemma RangeCharsInclusive(lower: char, upper: char)
    ensures Prepend([lower], RangeChars(lower, upper)) == InclusiveRange(lower, upper)
  {
    var lo, hi := lower as int, upper as int;
    if lo < hi {
      CharRangeCons(lo, hi + 1);
    } else if lo == hi {
      InclusiveSingleton(lower);
      assert [lower] + [] == [lower];
    }
  }

  /**
   * `x-y`, read in normal mode after a character that does not escape x and
   * with x not itself a range operator, produces the closed range x..y, and
   * reading goes on after y.
   */
  lemma RangeTriple(previous: Option<char>, x: char, y: char, t: string)
    requires previous != Some('\\') && x != '\\' && (x == '-' ==> previous == None)
    ensures Expand(previous, [x, '-', y] + t) == Concat(InclusiveRange(x, y), Expand(Some(y), t))
  {
    assert [x, '-', y] + t == [x] + (['-'] + ([y] + t));
    ExpandStep(previous, x, ['-'] + ([y] + t));
    ExpandStep(Some(x), '-', [y] + t);
    assert ([y] + t)[0] == y && ([y] + t)[1..] == t;
    RangeCharsInclusive(x, y);
    match RangeChars(x, y)
    case Err(e) =>
    case Ok(m) => PrependAssoc([x], m, Expand(Some(y), t));
  }

  /** A '-' that ends the operand after a character is kept as a literal '-'. */
  lemma OpenRangeKept(previous: Option<char>, x: char)
    requires previous != Some('\\') && x != '\\' && (x == '-' ==> previous == None)
    ensures Expand(previous, [x, '-']) == Ok([x, '-'])
  {
    assert [x, '-'] == [x] + (['-'] + []);
    ExpandStep(previous, x, ['-'] + []);
    ExpandStep(Some(x), '-', []);
  }

  /** A named escape stands for its control character; reading goes on with the escaped letter as the last character read. */
  lemma NamedEscapeExpanded(previous: Option<char>, c: char, t: string)
    requires c != '\\' && EscapeTarget(c).Some?
    ensures Expand(previous, ['\\', c] + t) == Prepend([EscapeTarget(c).value], Expand(Some(c), t))
  {
    assert ['\\', c] + t == ['\\'] + ([c] + t);
    ExpandStep(previous, '\\', [c] + t);
    ExpandStep(Some('\\'), c, t);
  }

  /** Any other non-digit after a backslash makes the operand fail. */
  lemma UnknownEscapeRejected(previous: Option<char>, c: char, t: string)
    requires c != '\\' && !IsOctalDigit(c) && EscapeTarget(c).None?
    ensures Expand(previous, ['\\', c] + t) == Err(UnknownEscape(c))
  {
    assert ['\\', c] + t == ['\\'] + ([c] + t);
    ExpandStep(previous, '\\', [c] + t);
    ExpandStep(Some('\\'), c, t);
  }

  /** A backslash at the end of the operand is dropped. */
  lemma TrailingBackslashDropped(p: string)
    requires NoBackslash(p) && '-' !in p
    ensures Expanded(p + ['\\']) == Ok(p)
  {
    ExpandPlainPrefix(None, p, ['\\']);
    ExpandStep(LastRead(None, p), '\\', []);
    assert ['\\'] + [] == ['\\'];
    assert p + [] == p;
  }

  /** How an octal escape of one to three digits is read, up to the character that ends it. */
  lemma OctalEscapeRun(previous: Option<char>, digits: seq<char>, t: string)
    requires 1 <= |digits| <= 3 && AllOctal(digits)
    requires |digits| == 3 || t == [] || !IsOctalDigit(t[0])
    ensures Expand(previous, ['\\'] + digits + t)
         == if |digits| == 3 then Concat(FlushOctal(digits), Expand(Some(digits[2]), t))
            else if t == [] then Ok([])
            else Concat(FlushOctal(digits), Prepend(if t[0] == '\\' then [] else [t[0]], Expand(Some(t[0]), t[1..])))
  {
    EnterOctal(previous, digits, t);
    if |digits| == 1 {
      assert digits[1..] + t == t;
      assert [digits[0]] == digits;
      ShortOctalEnd(digits, t);
    } else {
      SecondOctalDigit(digits, t);
      if |digits| == 2 {
        assert digits[2..] + t == t;
        assert digits[..2] == digits;
        ShortOctalEnd(digits, t);
      } else {
        ThirdOctalDigit(digits, t);
      }
    }
  }

  lemma SecondOctalDigit(digits: seq<char>, t: string)
    requires 2 <= |digits| <= 3 && AllOctal(digits)
    ensures OctalFrom([digits[0]], digits[1..] + t) == OctalFrom(digits[..2], digits[2..] + t)
  {
    var d1 := digits[1];
    assert digits[1..] + t == [d1] + (digits[2..] + t);
    OctalFromStep([digits[0]], d1, digits[2..] + t);
    assert [digits[0]] + [d1] == digits[..2];
  }

  lemma ThirdOctalDigit(digits: seq<char>, t: string)
    requires |digits| == 3 && AllOctal(digits)
    ensures OctalFrom(digits[..2], digits[2..] + t) == Concat(FlushOctal(digits), Expand(Some(digits[2]), t))
  {
    assert digits[2..] + t == [digits[2]] + t;
    OctalFromStep(digits[..2], digits[2], t);
    assert digits[..2] + [digits[2]] == digits;
    PrependNothing(Expand(Some(digits[2]), t));
  }

  /** A backslash and an octal digit switch to octal mode. */
  lemma EnterOctal(previous: Option<char>, digits: seq<char>, t: string)
    requires 1 <= |digits| && AllOctal(digits)
    ensures Expand(previous, ['\\'] + digits + t) == OctalFrom([digits[0]], digits[1..] + t)
  {
    var d0 := digits[0];
    assert ['\\'] + digits + t == ['\\'] + (digits + t);
    ExpandStep(previous, '\\', digits + t);
    assert digits + t == [d0] + (digits[1..] + t);
    ExpandStep(Some('\\'), d0, digits[1..] + t);
  }

  /** An escape with fewer than three digits ends at the end of the input or at a non-digit. */
  lemma ShortOctalEnd(digits: seq<char>, t: string)
    requires 1 <= |digits| <= 2 && AllOctal(digits)
    requires t == [] || !IsOctalDigit(t[0])
    ensures OctalFrom(digits, t)
         == if t == [] then Ok([])
            else Concat(FlushOctal(digits), Prepend(if t[0] == '\\' then [] else [t[0]], Expand(Some(t[0]), t[1..])))
  {
    if t != [] {
      assert t == [t[0]] + t[1..];
      OctalFromStep(digits, t[0], t[1..]);
    }
  }

  /**
   * An octal escape whose first digit is 0..3 stands for one character whose
   * code is its digits in base 8; the character that ends a short escape is
   * output after it, unless it is a backslash.
   */
  lemma LowOctalEscape(previous: Option<char>, digits: seq<char>, t: string)
    requires 1 <= |digits| <= 3 && AllOctal(digits) && digits[0] <= '3'
    requires |digits| == 3 || (t != [] && !IsOctalDigit(t[0]))
    ensures Expand(previous, ['\\'] + digits + t)
         == Prepend([OctalChar(digits)],
                    if |digits| == 3 then Expand(Some(digits[2]), t)
                    else Prepend(if t[0] == '\\' then [] else [t[0]], Expand(Some(t[0]), t[1..])))
    ensures OctalValue(digits) <= 255
  {
    OctalEscapeRun(previous, digits, t);
    OctalValueLeading(digits);
    assert Pow8(|digits| - 1) <= 64 by {
      assert Pow8(0) == 1 && Pow8(1) == 8 && Pow8(2) == 64;
    }
    assert OctalValue(digits[1..]) < Pow8(|digits| - 1);
  }

  /** An octal escape whose first digit is 4..7 makes the operand fail once the escape ends. */
  lemma HighOctalRejected(previous: Option<char>, digits: seq<char>, t: string)
    requires 1 <= |digits| <= 3 && AllOctal(digits) && '4' <= digits[0]
    requires |digits| == 3 || (t != [] && !IsOctalDigit(t[0]))
    ensures Expand(previous, ['\\'] + digits + t) == Err(OctalOutOfRange(digits))
  {
    OctalEscapeRun(previous, digits, t);
  }

  /** An octal escape of one or two digits that ends the operand is dropped, whatever its digits. */
  lemma UnfinishedOctalDropped(previous: Option<char>, digits: seq<char>)
    requires 1 <= |digits| <= 2 && AllOctal(digits)
    ensures Expand(previous, ['\\'] + digits) == Ok([])
  {
    OctalEscapeRun(previous, digits, []);
    assert ['\\'] + digits + [] == ['\\'] + digits;
  }

  /**
   * The lower endpoint of a range is the raw character read before the '-':
   * after a named escape it is the escape letter, not the character the
   * escape stands for.
   */
  lemma RangeAfterNamedEscape(previous: Option<char>, c: char, y: char, t: string)
    requires c != '\\' && c != '-' && EscapeTarget(c).Some?
    ensures Expand(previous, ['\\', c, '-', y] + t)
         == Prepend([EscapeTarget(c).value], Concat(RangeChars(c, y), Expand(Some(y), t)))
  {
    assert ['\\', c, '-', y] + t == ['\\', c] + (['-'] + ([y] + t));
    NamedEscapeExpanded(previous, c, ['-'] + ([y] + t));
    ExpandStep(Some(c), '-', [y] + t);
    assert ([y] + t)[0] == y && ([y] + t)[1..] == t;
  }

  // ---------------------------------------------------------------------
  // The two compilers side by side
  // ---------------------------------------------------------------------

  /** On operands without backslashes or '-' both compilers give the operand itself. */
  lemma PlainTextAgreement(s: string)
    requires NoBackslash(s) && '-' !in s
    ensures Expanded(s) == EscapeParser.Compiled(s) == Ok(s)
  {
    if s != [] { assert forall c :: c in s[1..] ==> c in s; }
    PlainTextExpanded(s);
    assert EscapeParser.NoInteriorDash(s) by {
      if |s| > 2 { assert forall c :: c in s[1..|s| - 1] ==> c in s; }
    }
    EscapeParser.ParsePlainText(s);
  }

  /**
   * On a single range `x-y` this compiler computes what the newer one
   * computes once its adjacent-endpoint comparison is corrected.
   */
  lemma RangeAgreesWithCorrected(x: char, y: char)
    requires x != '\\' && x != '-' && y != '\\'
    ensures Expanded([x, '-', y]) == EscapeParser.CompiledWith([x, '-', y], true) == InclusiveRange(x, y)
  {
    EscapeParser.CorrectedRangeTriple(x, y);
    RangeTriple(None, x, y, []);
    assert [x, '-', y] + [] == [x, '-', y];
    match InclusiveRange(x, y)
    case Err(e) =>
    case Ok(w) => assert w + [] == w;
  }

  // ---------------------------------------------------------------------
  // The regression cases listed in main.rs, as lemmas
  // ---------------------------------------------------------------------

  lemma RangeRegressionTest()
    ensures Expanded("ab-d") == Ok("abcd")
  {
    ExpandStep(None, 'a', "b-d");
    assert "ab-d" == ['a'] + "b-d";
    RangeTriple(Some('a'), 'b', 'd', []);
    assert ['b', '-', 'd'] + [] == "b-d";
    InclusiveRangeIs('b', 'd', "bcd");
    assert ['a'] + ("bcd" + []) == "abcd";
  }

  lemma RangeThenTextRegressionTest()
    ensures Expanded("a-def") == Ok("abcdef")
  {
    RangeTriple(None, 'a', 'd', "ef");
    assert ['a', '-', 'd'] + "ef" == "a-def";
    InclusiveRangeIs('a', 'd', "abcd");
    ExpandPlainPrefix(Some('d'), "ef", []);
    assert "ef" + [] == "ef";
    assert "abcd" + "ef" == "abcdef";
  }

  lemma SingletonRangeRegressionTest()
    ensures Expanded("a-a") == Ok("a")
  {
    RangeTriple(None, 'a', 'a', []);
    assert ['a', '-', 'a'] + [] == "a-a";
    InclusiveSingleton('a');
    assert ['a'] + [] == "a";
  }

  lemma OpenRangeRegressionTest()
    ensures Expanded("a-") == Ok("a-")
  {
    OpenRangeKept(None, 'a');
    assert ['a', '-'] == "a-";
  }

  lemma ReversedRangeRegressionTest()
    ensures Expanded("d-a") == Err(RangeOrder('d', 'a'))
  {
    RangeTriple(None, 'd', 'a', []);
    assert ['d', '-', 'a'] + [] == "d-a";
  }

  lemma NamedEscapeRegressionTest()
    ensures Expanded("a\\nb") == Ok("a\nb")
  {
    ExpandStep(None, 'a', "\\nb");
    assert "a\\nb" == ['a'] + (['\\', 'n'] + "b");
    NamedEscapeExpanded(Some('a'), 'n', "b");
    ExpandPlainPrefix(Some('n'), "b", []);
    assert "b" + [] == "b";
    assert ['a'] + (['\n'] + "b") == "a\nb";
  }

  lemma OctalEscapeRegressionTest()
    ensures Expanded("a\\12b") == Ok("a\nb")
  {
    OctalValueOfDigits("12");
    ExpandStep(None, 'a', "\\12b");
    assert "a\\12b" == ['a'] + (['\\'] + "12" + "b");
    LowOctalEscape(Some('a'), "12", "b");
    assert "b"[1..] == [];
    assert ['a'] + (['\n'] + (['b'] + [])) == "a\nb";
  }

  lemma ThreeDigitOctalRegressionTest()
    ensures Expanded("\\123") == Ok("S")
  {
    OctalValueOfDigits("123");
    LowOctalEscape(None, "123", []);
    assert ['\\'] + "123" + [] == "\\123";
    assert ['S'] + [] == "S";
  }

  /** main.rs marks this case as unfinished: the escape is dropped. */
  lemma UnfinishedOctalRegressionTest()
    ensures Expanded("a\\12") == Ok("a")
  {
    ExpandStep(None, 'a', "\\12");
    assert "a\\12" == ['a'] + (['\\'] + "12");
    UnfinishedOctalDropped(Some('a'), "12");
    assert ['a'] + [] == "a";
  }

  /** main.rs marks this case as panicking. */
  lemma HighOctalRegressionTest()
    ensures Expanded("\\755") == Err(OctalOutOfRange("755"))
  {
    HighOctalRejected(None, "755", []);
    assert ['\\'] + "755" + [] == "\\755";
  }

  /** main.rs marks this case as unfinished: the '-' after an octal escape is not a range operator. */
  lemma OctalThenDashRegressionTest()
    ensures Expanded("\\12-\\123") == Ok("\n-S")
  {
    OctalValueOfDigits("12");
    LowOctalEscape(None, "12", "-\\123");
    assert ['\\'] + "12" + "-\\123" == "\\12-\\123";
    assert "-\\123"[0] == '-' && "-\\123"[1..] == "\\123";
    OctalAfterDash();
    assert ['\n'] + (['-'] + "S") == "\n-S";
  }

  lemma OctalAfterDash()
    ensures Expand(Some('-'), "\\123") == Ok("S")
  {
    OctalValueOfDigits("123");
    LowOctalEscape(Some('-'), "123", []);
    assert ['\\'] + "123" + [] == "\\123";
    assert ['S'] + [] == "S";
  }
}
