/**
 * The newer set compiler, `parse` in escape_parser.rs. It turns a SET
 * operand into the list of characters it denotes, in two passes: the first
 * resolves backslash escapes and octal codes, the second expands `p-q`
 * ranges over the already unescaped characters, so that escaped codes can be
 * range endpoints (`\120-\123` is `PQRS`).
 *
 * The unescape pass is specified by a small grammar (Unescaped and
 * AfterBackslash); the character-by-character state machine of the source
 * is the method Unescape, whose loop invariant ties its state to that
 * grammar, and the range loop is the method ExpandRanges.
 */
module EscapeParser {
  import opened Chars

  /** The modes of the unescape state machine (escape_parser.rs:5-9). */
  datatype Mode = Normal | EscapedOctalDigits

  // ---------------------------------------------------------------------
  // The unescape pass, as a grammar
  // ---------------------------------------------------------------------

  /**
   * How many digits an octal escape may take: a first digit 4..7 already
   * makes a two-digit code of at least 0o40, so a third digit would leave the
   * byte range and is read as an ordinary character instead.
   */
  function OctalCap(first: char): nat {
    if '4' <= first then 2 else 3
  }

  /** The number of digits of the octal escape that starts at s[0]: as many as possible, up to OctalCap. */
  function OctalSpan(s: seq<char>): (n: nat)
    requires |s| > 0 && IsOctalDigit(s[0])
    ensures 1 <= n <= |s| && n <= OctalCap(s[0]) && AllOctal(s[..n])
    ensures n < |s| && n < OctalCap(s[0]) ==> !IsOctalDigit(s[n])
  {
    if |s| >= 2 && IsOctalDigit(s[1]) && OctalCap(s[0]) >= 2 then
      if |s| >= 3 && IsOctalDigit(s[2]) && OctalCap(s[0]) >= 3 then 3 else 2
    else 1
  }

  /** The characters that the unescape pass produces from `s`. */
  function Unescaped(s: string): Result<seq<char>>
    decreases |s|
  {
    if s == [] then Ok([])
    else if s[0] == '\\' then AfterBackslash(s[1..])
    else Prepend([s[0]], Unescaped(s[1..]))
  }

  /**
   * The characters produced from `s` when the character before it was a live
   * backslash. Further backslashes are swallowed; a backslash that ends the
   * input is literal.
   */
  function AfterBackslash(s: string): Result<seq<char>>
    decreases |s|
  {
    if s == [] then Ok(['\\'])
    else if s[0] == '\\' then AfterBackslash(s[1..])
    else if IsOctalDigit(s[0]) then
      var n := OctalSpan(s);
      Prepend([OctalChar(s[..n])], Unescaped(s[n..]))
    else match EscapeTarget(s[0])
      case Some(t) => Prepend([t], Unescaped(s[1..]))
      case None => Err(UnknownEscape(s[0]))
  }

  // ---------------------------------------------------------------------
  // The range pass
  // ---------------------------------------------------------------------

  /**
   * One iteration of the range loop (escape_parser.rs:79-98) over the
   * unescaped characters `u`, at index i, with `acc` produced so far.
   * With `adjacentFix` false this is the code as written; with it true, the
   * comparison `lower_bound < upper_bound` becomes `<=`, so that adjacent
   * endpoints such as `a-b` form a range (see CorrectedRangeTriple).
   */
  function RangeStep(u: seq<char>, i: nat, acc: seq<char>, adjacentFix: bool): Result<seq<char>>
    requires i < |u|
  {
    if u[i] == '-' && 0 < i < |u| - 1 then
      var lowerBound := u[i - 1] as int + 1;
      var upperBound := u[i + 1] as int;
      if lowerBound < upperBound || (adjacentFix && lowerBound == upperBound) then
        Prepend(acc, CharRange(lowerBound, upperBound))
      else if u[i - 1] == u[i + 1] then
        Ok(if acc == [] then [] else acc[..|acc| - 1])
      else
        Err(RangeOrder(u[i - 1], u[i + 1]))
    else
      Ok(acc + [u[i]])
  }

  /** The range pass run over the first k unescaped characters. */
  function ExpandRangesUpTo(u: seq<char>, k: nat, adjacentFix: bool): Result<seq<char>>
    requires k <= |u|
  {
    if k == 0 then Ok([])
    else match ExpandRangesUpTo(u, k - 1, adjacentFix)
      case Err(e) => Err(e)
      case Ok(acc) => RangeStep(u, k - 1, acc, adjacentFix)
  }

  /** Both passes. */
  function CompiledWith(s: string, adjacentFix: bool): Result<seq<char>> {
    match Unescaped(s)
    case Err(e) => Err(e)
    case Ok(u) => ExpandRangesUpTo(u, |u|, adjacentFix)
  }

  /** What `parse` computes, as written. */
  function Compiled(s: string): Result<seq<char>> {
    CompiledWith(s, false)
  }

  // ---------------------------------------------------------------------
  // The source's loops
  // ---------------------------------------------------------------------

  /** Between iterations the octal buffer holds 1 or 2 octal digits, fewer than OctalCap. */
  predicate PendingOctal(digits: seq<char>) {
    1 <= |digits| && AllOctal(digits) && |digits| < OctalCap(digits[0])
  }

  /** What the grammar still has to produce from `rest` in the given machine state. */
  function Pending(mode: Mode, previous: Option<char>, digits: seq<char>, rest: string): Result<seq<char>> {
    match mode
    case Normal => if previous == Some('\\') then AfterBackslash(rest) else Unescaped(rest)
    case EscapedOctalDigits => AfterBackslash(digits + rest)
  }

  /** One more character `c` in octal mode, in terms of the grammar. */
  lemma OctalStep(digits: seq<char>, c: char, t: string)
    requires PendingOctal(digits)
    ensures IsOctalDigit(c) && |digits| + 1 < OctalCap(digits[0]) ==>
              AfterBackslash(digits + ([c] + t)) == AfterBackslash((digits + [c]) + t)
    ensures IsOctalDigit(c) && |digits| + 1 == OctalCap(digits[0]) ==>
              AfterBackslash(digits + ([c] + t)) == Prepend([OctalChar(digits + [c])], Unescaped(t))
    ensures !IsOctalDigit(c) ==>
              AfterBackslash(digits + ([c] + t)) == Prepend([OctalChar(digits)], Unescaped([c] + t))
  {
    if IsOctalDigit(c) && |digits| + 1 < OctalCap(digits[0]) {
      assert digits + ([c] + t) == (digits + [c]) + t;
    } else if IsOctalDigit(c) {
      OctalStepFull(digits, c, t);
    } else {
      OctalStepEnd(digits, c, t);
    }
  }

  lemma OctalStepFull(digits: seq<char>, c: char, t: string)
    requires PendingOctal(digits) && IsOctalDigit(c) && |digits| + 1 == OctalCap(digits[0])
    ensures AfterBackslash(digits + ([c] + t)) == Prepend([OctalChar(digits + [c])], Unescaped(t))
  {
    var s := digits + ([c] + t);
    var n := |digits| + 1;
    assert s == (digits + [c]) + t;
    assert s[0] == digits[0];
    assert s[..n] == digits + [c];
    assert s[n..] == t;
    assert OctalSpan(s) == n;
  }

  lemma OctalStepEnd(digits: seq<char>, c: char, t: string)
    requires PendingOctal(digits) && !IsOctalDigit(c)
    ensures AfterBackslash(digits + ([c] + t)) == Prepend([OctalChar(digits)], Unescaped([c] + t))
  {
    var s := digits + ([c] + t);
    var n := |digits|;
    assert s[0] == digits[0];
    assert s[n] == c;
    assert s[..n] == digits;
    assert s[n..] == [c] + t;
    assert OctalSpan(s) == n;
  }

  /** An octal escape cut short by the end of the input is flushed. */
  lemma OctalAtEnd(digits: seq<char>)
    requires PendingOctal(digits)
    ensures AfterBackslash(digits) == Ok([OctalChar(digits)])
  {
    var n := OctalSpan(digits);
    assert n == |digits|;
    assert digits[..n] == digits;
    assert digits[n..] == [];
    assert [OctalChar(digits)] + [] == [OctalChar(digits)];
  }

  /** Once the range pass fails, it fails the same way to the end. */
  lemma {:induction false} ExpandErrorPersists(u: seq<char>, k: nat, adjacentFix: bool)
    requires k <= |u| && ExpandRangesUpTo(u, k, adjacentFix).Err?
    ensures ExpandRangesUpTo(u, |u|, adjacentFix) == ExpandRangesUpTo(u, k, adjacentFix)
    decreases |u| - k
  {
    if k < |u| {
      ExpandErrorPersists(u, k + 1, adjacentFix);
    }
  }

  /**
   * parse (escape_parser.rs:12-101): the unescape loop, then the range loop
   * over its output.
   */
  method Parse(input: string) returns (r: Result<seq<char>>)
    ensures r == Compiled(input)
  {
    var u := Unescape(input);
    if u.Err? {
      return Err(u.error);
    }
    r := ExpandRanges(u.value);
  }

  /**
   * The first loop of parse (escape_parser.rs:13-72) together with its
   * end-of-input clean-up (escape_parser.rs:74-77).
   */
  method Unescape(input: string) returns (r: Result<seq<char>>)
    ensures r == Unescaped(input)
  {
    var mode := Normal;
    var previous: Option<char> := None;
    var digits: seq<char> := [];
    var unescaped: seq<char> := [];
    assert input[0..] == input;
    PrependNothing(Unescaped(input));
    for i := 0 to |input|
      invariant previous == (if i == 0 then None else Some(input[i - 1]))
      invariant MachineState(mode, digits)
      invariant Unescaped(input) == Prepend(unescaped, Pending(mode, previous, digits, input[i..]))
    {
      var c := input[i];
      var t := input[i + 1..];
      assert input[i..] == [c] + t;
      match mode {
        case Normal =>
          var step := NormalArm(previous, c, unescaped, t);
          if step.Err? {
            return Err(step.error);
          }
          mode, digits, unescaped := step.value.0, step.value.1, step.value.2;
        case EscapedOctalDigits =>
          mode, digits, unescaped := OctalArm(digits, c, unescaped, t);
      }
      previous := Some(c);
    }
    match mode {
      case Normal =>
        if previous == Some('\\') {
          unescaped := unescaped + ['\\'];
        } else {
          assert unescaped + [] == unescaped;
        }
      case EscapedOctalDigits =>
        assert digits + [] == digits;
        OctalAtEnd(digits);
        var code := OctalDigitsToChar(digits);
        unescaped := unescaped + [code];
    }
    return Ok(unescaped);
  }

  /** The octal buffer is empty in normal mode and holds an unfinished escape in octal mode. */
  predicate MachineState(mode: Mode, digits: seq<char>) {
    (mode.Normal? ==> digits == []) && (mode.EscapedOctalDigits? ==> PendingOctal(digits))
  }

  /**
   * The Normal arm of the unescape loop (escape_parser.rs:20-40) on one
   * character `c` followed by `t`: the new mode, octal buffer and output, or
   * the unknown-escape error, agree with the grammar.
   */
  method NormalArm(previous: Option<char>, c: char, unescaped: seq<char>, t: string)
    returns (r: Result<(Mode, seq<char>, seq<char>)>)
    ensures match r
      case Err(e) => Prepend(unescaped, Pending(Normal, previous, [], [c] + t)) == Err(e)
      case Ok((mode, digits, out)) =>
        MachineState(mode, digits)
        && Prepend(unescaped, Pending(Normal, previous, [], [c] + t)) == Prepend(out, Pending(mode, Some(c), digits, t))
  {
    assert ([c] + t)[0] == c && ([c] + t)[1..] == t;
    if c == '\\' {
      // the next character is escaped
      r := Ok((Normal, [], unescaped));
    } else if previous == Some('\\') {
      match EscapeTarget(c) {
        case Some(x) =>
          PrependAssoc(unescaped, [x], Unescaped(t));
          r := Ok((Normal, [], unescaped + [x]));
        case None =>
          if IsOctalDigit(c) {
            r := Ok((EscapedOctalDigits, [c], unescaped));
          } else {
            r := Err(UnknownEscape(c));
          }
      }
    } else {
      PrependAssoc(unescaped, [c], Unescaped(t));
      r := Ok((Normal, [], unescaped + [c]));
    }
  }

  /**
   * The EscapedOctalDigits arm of the unescape loop (escape_parser.rs:41-69)
   * on one character `c` followed by `t`: a digit extends the escape; the
   * escape ends at a non-digit or when it has OctalCap digits, and its code is
   * output, followed by the ending character unless that is a digit or a
   * backslash.
   */
  method OctalArm(digits: seq<char>, c: char, unescaped: seq<char>, t: string)
    returns (mode: Mode, buffer: seq<char>, out: seq<char>)
    requires PendingOctal(digits)
    ensures MachineState(mode, buffer)
    ensures Prepend(unescaped, AfterBackslash(digits + ([c] + t))) == Prepend(out, Pending(mode, Some(c), buffer, t))
  {
    OctalStep(digits, c, t);
    mode, buffer, out := EscapedOctalDigits, digits, unescaped;
    var isOctalDigit := IsOctalDigit(c);
    var firstDigitTooBigForLongOctal := '4' <= digits[0];
    if isOctalDigit {
      buffer := buffer + [c];
    }
    if !isOctalDigit || (firstDigitTooBigForLongOctal && |buffer| == 2) || |buffer| == 3 {
      var code := OctalDigitsToChar(buffer);
      PrependAssoc(out, [code], Unescaped(if isOctalDigit then t else [c] + t));
      out := out + [code];
      buffer := [];
      mode := Normal;
    }
    if !isOctalDigit && c != '\\' {
      assert ([c] + t)[0] == c && ([c] + t)[1..] == t;
      PrependAssoc(out, [c], Unescaped(t));
      out := out + [c];
    }
  }

  /** The range loop of parse (escape_parser.rs:79-100) over the unescaped characters `unescaped`. */
  method ExpandRanges(unescaped: seq<char>) returns (r: Result<seq<char>>)
    ensures r == ExpandRangesUpTo(unescaped, |unescaped|, false)
  {
    var finalCharacterSet: seq<char> := [];
    for i := 0 to |unescaped|
      invariant ExpandRangesUpTo(unescaped, i, false) == Ok(finalCharacterSet)
    {
      var ch := unescaped[i];
      if ch == '-' && 0 < i < |unescaped| - 1 {
        var lowerBound := unescaped[i - 1] as int + 1;
        var upperBound := unescaped[i + 1] as int;
        if lowerBound < upperBound {
          var extended := AppendRange(finalCharacterSet, lowerBound, upperBound);
          if extended.Err? {
            ExpandErrorPersists(unescaped, i + 1, false);
            return extended;
          }
          finalCharacterSet := extended.value;
        } else if unescaped[i - 1] == unescaped[i + 1] {
          // `a-a`: the left endpoint is already out and the right one comes next
          if finalCharacterSet != [] {
            finalCharacterSet := finalCharacterSet[..|finalCharacterSet| - 1];
          }
        } else {
          ExpandErrorPersists(unescaped, i + 1, false);
          return Err(RangeOrder(unescaped[i - 1], unescaped[i + 1]));
        }
      } else {
        finalCharacterSet := finalCharacterSet + [ch];
      }
    }
    return Ok(finalCharacterSet);
  }

  // ---------------------------------------------------------------------
  // Properties of the unescape pass
  // ---------------------------------------------------------------------

  /** Text without a backslash passes the unescape pass unchanged, whatever follows it. */
  lemma {:induction false} UnescapedPlainPrefix(p: string, t: string)
    requires NoBackslash(p)
    ensures Unescaped(p + t) == Prepend(p, Unescaped(t))
  {
    if p == [] {
      assert p + t == t;
      PrependNothing(Unescaped(t));
    } else {
      assert (p + t)[0] == p[0];
      assert (p + t)[1..] == p[1..] + t;
      UnescapedPlainPrefix(p[1..], t);
      PrependAssoc([p[0]], p[1..], Unescaped(t));
      assert [p[0]] + p[1..] == p;
    }
  }

  /** A named escape stands for its control character; what follows is unescaped as usual. */
  lemma NamedEscape(p: string, c: char, t: string)
    requires NoBackslash(p) && c != '\\' && EscapeTarget(c).Some?
    ensures Unescaped(p + ['\\', c] + t) == Prepend(p + [EscapeTarget(c).value], Unescaped(t))
  {
    assert p + ['\\', c] + t == p + (['\\', c] + t);
    UnescapedPlainPrefix(p, ['\\', c] + t);
    assert (['\\', c] + t)[1..] == [c] + t;
    assert ([c] + t)[1..] == t;
    PrependAssoc(p, [EscapeTarget(c).value], Unescaped(t));
  }

  /** Any other non-digit after a backslash makes the whole operand fail. */
  lemma UnknownEscapeFails(p: string, c: char, t: string)
    requires NoBackslash(p) && c != '\\' && !IsOctalDigit(c) && EscapeTarget(c).None?
    ensures Compiled(p + ['\\', c] + t) == Err(UnknownEscape(c))
  {
    assert p + ['\\', c] + t == p + (['\\', c] + t);
    UnescapedPlainPrefix(p, ['\\', c] + t);
    assert (['\\', c] + t)[1..] == [c] + t;
  }

  /**
   * An octal escape ends at a non-octal character, at the end of the input,
   * or when it has OctalCap digits; it stands for one character whose code is
   * the digits in base 8, at most 0o377, and is followed by whatever the
   * rest of the text produces (so the character that ended it comes after it,
   * and a backslash that ended it starts a new escape).
   */
  lemma OctalEscape(p: string, digits: seq<char>, t: string)
    requires NoBackslash(p)
    requires 1 <= |digits| <= OctalCap(digits[0]) && AllOctal(digits)
    requires |digits| == OctalCap(digits[0]) || t == [] || !IsOctalDigit(t[0])
    ensures Unescaped(p + ['\\'] + digits + t) == Prepend(p + [OctalChar(digits)], Unescaped(t))
    ensures OctalValue(digits) <= 255
  {
    var s := digits + t;
    EscapeAfterText(p, digits, t);
    UnescapedPlainPrefix(p, ['\\'] + s);
    EscapeStart(s);
    OctalAfterBackslash(digits, t);
    PrependAssoc(p, [OctalChar(digits)], Unescaped(t));
    OctalByteBound(digits);
  }

  /** Regrouping kept apart from OctalEscape, whose context is large. */
  lemma EscapeAfterText(p: string, digits: seq<char>, t: string)
    ensures p + ['\\'] + digits + t == p + (['\\'] + (digits + t))
  {
  }

  /** A backslash that is not followed by another one hands over to AfterBackslash. */
  lemma EscapeStart(s: string)
    ensures Unescaped(['\\'] + s) == AfterBackslash(s)
  {
    assert (['\\'] + s)[1..] == s;
  }

  /** After a live backslash, a complete octal escape is one character, and the rest is unescaped as usual. */
  lemma OctalAfterBackslash(digits: seq<char>, t: string)
    requires 1 <= |digits| <= OctalCap(digits[0]) && AllOctal(digits)
    requires |digits| == OctalCap(digits[0]) || t == [] || !IsOctalDigit(t[0])
    ensures AfterBackslash(digits + t) == Prepend([OctalChar(digits)], Unescaped(t))
  {
    var s := digits + t;
    OctalSpanOfEscape(digits, t);
    assert s[..|digits|] == digits;
    assert s[|digits|..] == t;
  }

  lemma OctalSpanOfEscape(digits: seq<char>, t: string)
    requires 1 <= |digits| <= OctalCap(digits[0]) && AllOctal(digits)
    requires |digits| == OctalCap(digits[0]) || t == [] || !IsOctalDigit(t[0])
    ensures (digits + t)[0] == digits[0] && OctalSpan(digits + t) == |digits|
  {
    var s := digits + t;
    assert s[0] == digits[0];
    if |digits| < OctalCap(digits[0]) && t != [] {
      assert s[|digits|] == t[0];
    }
    if |digits| >= 2 { assert s[1] == digits[1]; }
    if |digits| >= 3 { assert s[2] == digits[2]; }
  }

  /** The digits an escape may take give a code of at most 0o377. */
  lemma OctalByteBound(digits: seq<char>)
    requires 1 <= |digits| <= OctalCap(digits[0]) && AllOctal(digits)
    ensures OctalValue(digits) <= 255
  {
    OctalValueLeading(digits);
    var rest := OctalValue(digits[1..]);
    assert rest < Pow8(|digits| - 1);
    if |digits| == 3 {
      assert DigitValue(digits[0]) <= 3;
      assert Pow8(2) == 64;
    } else {
      assert Pow8(|digits|) <= 64;
    }
  }

  function Backslashes(k: nat): string {
    seq(k, _ => '\\')
  }

  lemma {:induction false} BackslashRun(k: nat)
    ensures AfterBackslash(Backslashes(k)) == Ok(['\\'])
  {
    if k > 0 {
      assert Backslashes(k)[1..] == Backslashes(k - 1);
      BackslashRun(k - 1);
    }
  }

  /** A run of backslashes at the end of the input yields exactly one literal backslash. */
  lemma TrailingBackslashes(p: string, k: nat)
    requires k >= 1 && NoBackslash(p)
    ensures Unescaped(p + Backslashes(k)) == Ok(p + ['\\'])
  {
    UnescapedPlainPrefix(p, Backslashes(k));
    assert Backslashes(k)[1..] == Backslashes(k - 1);
    BackslashRun(k - 1);
  }

  // ---------------------------------------------------------------------
  // Properties of the range pass
  // ---------------------------------------------------------------------

  /** No '-' strictly inside `s`: a '-' may only stand first or last. */
  predicate NoInteriorDash(s: seq<char>) {
    |s| <= 2 || '-' !in s[1..|s| - 1]
  }

  /** Index i of u holds a '-' strictly inside u, which the range pass reads as a range operator. */
  predicate IsRangeDash(u: seq<char>, i: int) {
    0 < i < |u| - 1 && u[i] == '-'
  }

  /** Characters that are not range operators are copied to the output one by one. */
  lemma {:induction false} ExpandPlainSegment(u: seq<char>, j: nat, k: nat, adjacentFix: bool)
    requires j <= k <= |u|
    requires forall i :: j <= i < k ==> !IsRangeDash(u, i)
    ensures ExpandRangesUpTo(u, k, adjacentFix) == Concat(ExpandRangesUpTo(u, j, adjacentFix), Ok(u[j..k]))
    decreases k - j
  {
    if k == j {
      assert u[j..k] == [];
      match ExpandRangesUpTo(u, j, adjacentFix)
      case Err(e) =>
      case Ok(a) => assert a + [] == a;
    } else {
      ExpandPlainSegment(u, j, k - 1, adjacentFix);
      assert !IsRangeDash(u, k - 1);
      assert u[j..k] == u[j..k - 1] + [u[k - 1]];
      match ExpandRangesUpTo(u, j, adjacentFix)
      case Err(e) =>
      case Ok(a) => assert (a + u[j..k - 1]) + [u[k - 1]] == a + u[j..k];
    }
  }

  /** Unescaped characters with no interior '-' pass the range pass unchanged. */
  lemma ExpandWithoutRanges(u: seq<char>, adjacentFix: bool)
    requires NoInteriorDash(u)
    ensures ExpandRangesUpTo(u, |u|, adjacentFix) == Ok(u)
  {
    forall i | 0 <= i < |u|
      ensures !IsRangeDash(u, i)
    {
      if 0 < i < |u| - 1 { assert u[i] == u[1..|u| - 1][i - 1]; }
    }
    ExpandPlainSegment(u, 0, |u|, adjacentFix);
    assert u[0..|u|] == u;
    assert [] + u == u;
  }

  /** Input with no backslash and no interior '-' compiles to itself. */
  lemma ParsePlainText(s: string)
    requires NoBackslash(s) && NoInteriorDash(s)
    ensures Compiled(s) == Ok(s)
  {
    UnescapedPlainPrefix(s, []);
    assert s + [] == s;
    ExpandWithoutRanges(s, false);
  }

  /**
   * What a range `p-q` produces in the range pass: with the code as written,
   * adjacent endpoints (q = p + 1) are rejected; otherwise the range holds
   * p..q inclusive, `p-p` holds p once, and a descending range is an error.
   */
  function WindowOutcome(p: char, q: char, adjacentFix: bool): Result<seq<char>> {
    if !adjacentFix && q as int == p as int + 1 then Err(RangeOrder(p, q))
    else InclusiveRange(p, q)
  }

  /**
   * A range operator whose neighbours are not range operators themselves
   * replaces `p-q` by WindowOutcome(p, q) in the output.
   */
  lemma RangeWindow(u: seq<char>, i: nat, adjacentFix: bool)
    requires IsRangeDash(u, i) && !IsRangeDash(u, i - 1) && !IsRangeDash(u, i + 1)
    ensures ExpandRangesUpTo(u, i + 2, adjacentFix)
         == Concat(ExpandRangesUpTo(u, i - 1, adjacentFix), WindowOutcome(u[i - 1], u[i + 1], adjacentFix))
  {
    var p, q := u[i - 1], u[i + 1];
    var before := ExpandRangesUpTo(u, i - 1, adjacentFix);
    PlainStep(u, i - 1, adjacentFix);
    PlainStep(u, i + 1, adjacentFix);
    if before.Ok? {
      var acc := before.value;
      assert ExpandRangesUpTo(u, i, adjacentFix) == Ok(acc + [p]);
      var lowerBound, upperBound := p as int + 1, q as int;
      if lowerBound < upperBound || (adjacentFix && lowerBound == upperBound) {
        assert ExpandRangesUpTo(u, i + 1, adjacentFix) == Prepend(acc + [p], CharRange(lowerBound, upperBound));
        RangeWithEndpoints(acc, p, q);
      } else if p == q {
        assert (acc + [p])[..|acc + [p]| - 1] == acc;
        InclusiveSingleton(p);
      }
    }
  }

  /** A character that is not a range operator is appended to what the range pass produced before it. */
  lemma PlainStep(u: seq<char>, k: nat, adjacentFix: bool)
    requires k < |u| && !IsRangeDash(u, k)
    ensures ExpandRangesUpTo(u, k + 1, adjacentFix) == Concat(ExpandRangesUpTo(u, k, adjacentFix), Ok([u[k]]))
  {
  }

  /** The lower endpoint, the codes strictly between the endpoints, then the upper endpoint: the closed range. */
  lemma RangeWithEndpoints(acc: seq<char>, p: char, q: char)
    requires p < q
    ensures Concat(Prepend(acc + [p], CharRange(p as int + 1, q as int)), Ok([q])) == Concat(Ok(acc), InclusiveRange(p, q))
  {
    CharRangeCons(p as int, q as int + 1);
    match CharRange(p as int + 1, q as int)
    case Err(e) =>
    case Ok(m) =>
      assert CharRange(p as int + 1, q as int + 1) == Ok(m + [q]);
      assert (acc + [p] + m) + [q] == acc + ([p] + (m + [q]));
  }

  /** The range pass as written: Compiled on `p-q`. */
  lemma RangeTripleAsWritten(p: char, q: char)
    requires p != '\\' && q != '\\'
    ensures Compiled([p, '-', q]) == WindowOutcome(p, q, false)
  {
    var u := [p, '-', q];
    UnescapedPlainPrefix(u, []);
    assert u + [] == u;
    RangeWindow(u, 1, false);
    PrependNothing(WindowOutcome(p, q, false));
  }

  /** As written, two adjacent endpoints are rejected, although `p-q` denotes p, q. */
  lemma AdjacentEndpointsRejected(p: char, q: char)
    requires p != '\\' && q != '\\' && q as int == p as int + 1
    ensures Compiled([p, '-', q]) == Err(RangeOrder(p, q))
    ensures InclusiveRange(p, q) == Ok([p, q])
  {
    RangeTripleAsWritten(p, q);
    var r := InclusiveRange(p, q);
    assert |r.value| == 2;
    assert r.value == [p, q];
  }

  /** With `<=` in place of `<`, every range `p-q` compiles to the closed range p..q. */
  lemma CorrectedRangeTriple(p: char, q: char)
    requires p != '\\' && q != '\\'
    ensures CompiledWith([p, '-', q], true) == InclusiveRange(p, q)
  {
    var u := [p, '-', q];
    UnescapedPlainPrefix(u, []);
    assert u + [] == u;
    RangeWindow(u, 1, true);
    PrependNothing(InclusiveRange(p, q));
  }

  /**
   * A single range `a-b` among unescaped characters that hold no other
   * range operator: the characters around it are copied and the range is
   * replaced by its WindowOutcome.
   */
  lemma RangeInText(p: seq<char>, a: char, b: char, q: seq<char>, adjacentFix: bool)
    requires '-' !in p && '-' !in q && (a == '-' ==> p == []) && (b == '-' ==> q == [])
    ensures var u := p + [a, '-', b] + q;
            ExpandRangesUpTo(u, |u|, adjacentFix) == Concat(Ok(p), Concat(WindowOutcome(a, b, adjacentFix), Ok(q)))
  {
    var u := p + [a, '-', b] + q;
    var m := |p| + 1;
    RangeLayout(p, a, b, q);
    PlainHead(u, p, adjacentFix);
    assert !IsRangeDash(u, m - 1) && IsRangeDash(u, m) && !IsRangeDash(u, m + 1);
    RangeWindow(u, m, adjacentFix);
    PlainTail(u, m + 2, q, adjacentFix);
    match WindowOutcome(a, b, adjacentFix)
    case Err(e) =>
    case Ok(w) =>
      assert (p + w) + q == p + (w + q);
  }

  /** Where the parts of `p a-b q` sit, kept apart from RangeInText, whose context is large. */
  lemma RangeLayout(p: seq<char>, a: char, b: char, q: seq<char>)
    ensures var u := p + [a, '-', b] + q;
            |u| == |p| + 3 + |q| && u[..|p|] == p && u[|p|] == a && u[|p| + 1] == '-'
            && u[|p| + 2] == b && u[|p| + 3..] == q
  {
  }

  /** A prefix without '-' is copied unchanged. */
  lemma PlainHead(u: seq<char>, p: seq<char>, adjacentFix: bool)
    requires |p| <= |u| && u[..|p|] == p && '-' !in p
    ensures ExpandRangesUpTo(u, |p|, adjacentFix) == Ok(p)
  {
    forall i | 0 <= i < |p|
      ensures !IsRangeDash(u, i)
    {
      assert u[i] == p[i];
    }
    ExpandPlainSegment(u, 0, |p|, adjacentFix);
    assert u[0..|p|] == p;
    assert [] + p == p;
  }

  /** A suffix without '-' is appended unchanged. */
  lemma PlainTail(u: seq<char>, j: nat, q: seq<char>, adjacentFix: bool)
    requires j <= |u| && u[j..] == q && '-' !in q
    ensures ExpandRangesUpTo(u, |u|, adjacentFix) == Concat(ExpandRangesUpTo(u, j, adjacentFix), Ok(q))
  {
    forall i | j <= i < |u|
      ensures !IsRangeDash(u, i)
    {
      assert u[i] == q[i - j];
    }
    ExpandPlainSegment(u, j, |u|, adjacentFix);
    assert u[j..|u|] == q;
  }

  /** The same for an operand without backslashes, so that unescaping changes nothing. */
  lemma RangeInPlainText(p: string, a: char, b: char, q: string, adjacentFix: bool)
    requires NoBackslash(p) && NoBackslash(q) && a != '\\' && b != '\\'
    requires '-' !in p && '-' !in q && (a == '-' ==> p == []) && (b == '-' ==> q == [])
    ensures CompiledWith(p + [a, '-', b] + q, adjacentFix)
         == Concat(Ok(p), Concat(WindowOutcome(a, b, adjacentFix), Ok(q)))
  {
    var u := p + [a, '-', b] + q;
    assert NoBackslash(u);
    UnescapedPlainPrefix(u, []);
    assert u + [] == u;
    RangeInText(p, a, b, q, adjacentFix);
  }

  // ---------------------------------------------------------------------
  // The unit tests of escape_parser.rs, as lemmas
  // ---------------------------------------------------------------------

  lemma CompiledFromUnescaped(s: string, u: seq<char>)
    requires Unescaped(s) == Ok(u) && NoInteriorDash(u)
    ensures Compiled(s) == Ok(u)
  {
    ExpandWithoutRanges(u, false);
  }

  lemma LiteralInputTest()
    ensures Compiled("abcd") == Ok("abcd")
    ensures Compiled("\U{430}\U{431}\U{432}\U{433}") == Ok("\U{430}\U{431}\U{432}\U{433}")
  {
    ParsePlainText("abcd");
    ParsePlainText("\U{430}\U{431}\U{432}\U{433}");
  }

  lemma CharacterRangesTest()
    ensures Compiled("ab-d") == Ok("abcd")
    ensures Compiled("a-def") == Ok("abcdef")
    ensures Compiled("a-a") == Ok("a")
    ensures Compiled("a-") == Ok("a-")
    ensures Compiled("-a") == Ok("-a")
    ensures Compiled("d-a") == Err(RangeOrder('d', 'a'))
  {
    RangeInPlainText("a", 'b', 'd', "", false);
    assert "a" + ['b', '-', 'd'] + "" == "ab-d";
    InclusiveRangeIs('b', 'd', "bcd");
    assert "a" + ("bcd" + "") == "abcd";

    RangeInPlainText("", 'a', 'd', "ef", false);
    assert "" + ['a', '-', 'd'] + "ef" == "a-def";
    InclusiveRangeIs('a', 'd', "abcd");
    assert "" + ("abcd" + "ef") == "abcdef";

    RangeTripleAsWritten('a', 'a');
    InclusiveSingleton('a');
    ParsePlainText("a-");
    ParsePlainText("-a");
    RangeTripleAsWritten('d', 'a');
  }

  lemma OctalEscapeBeforeTextTest()
    ensures Compiled("a\\12b") == Ok("a\nb")
  {
    OctalValueOfDigits("12");
    OctalEscapeTest("a", "12", "b", '\n');
    assert "a" + ['\\'] + "12" + "b" == "a\\12b";
    assert "a" + ['\n'] + "b" == "a\nb";
  }

  lemma OctalEscapeAtEndTest()
    ensures Compiled("a\\123") == Ok("aS")
  {
    OctalValueOfDigits("123");
    OctalEscapeTest("a", "123", "", 'S');
    assert "a" + ['\\'] + "123" + "" == "a\\123";
    assert "a" + ['S'] + "" == "aS";
  }

  lemma OctalEscapeAloneTest()
    ensures Compiled("\\123") == Ok("S")
  {
    OctalValueOfDigits("123");
    OctalEscapeTest("", "123", "", 'S');
    assert "" + ['\\'] + "123" + "" == "\\123";
    assert "" + ['S'] + "" == "S";
  }

  lemma ShortOctalEscapeAtEndTest()
    ensures Compiled("a\\12") == Ok("a\n")
  {
    OctalValueOfDigits("12");
    OctalEscapeTest("a", "12", "", '\n');
    assert "a" + ['\\'] + "12" + "" == "a\\12";
    assert "a" + ['\n'] + "" == "a\n";
  }

  lemma TwoDigitOctalEscapeTest()
    ensures Compiled("\\53") == Ok("+")
  {
    OctalValueOfDigits("53");
    OctalEscapeTest("", "53", "", '+');
    assert "" + ['\\'] + "53" + "" == "\\53";
    assert "" + ['+'] + "" == "+";
  }

  lemma NamedEscapeTest()
    ensures Compiled("a\\nb") == Ok("a\nb")
  {
    NamedEscape("a", 'n', "b");
    assert "a" + ['\\', 'n'] + "b" == "a\\nb";
    UnescapedPlainPrefix("b", []);
    assert "b" + [] == "b";
    assert ("a" + ['\n']) + "b" == "a\nb";
    CompiledFromUnescaped("a\\nb", "a\nb");
  }

  /** An octal escape between plain texts p and t that hold no '-' or backslash. */
  lemma OctalEscapeTest(p: string, digits: seq<char>, t: string, c: char)
    requires NoBackslash(p) && NoBackslash(t) && '-' !in p && '-' !in t && c != '-'
    requires 2 <= |digits| <= OctalCap(digits[0]) && AllOctal(digits)
    requires t == [] || !IsOctalDigit(t[0])
    requires c as int == OctalValue(digits)
    ensures Compiled(p + ['\\'] + digits + t) == Ok(p + [c] + t)
  {
    OctalEscape(p, digits, t);
    UnescapedPlainPrefix(t, []);
    assert t + [] == t;
    var u := p + [c] + t;
    assert '-' !in u;
    CompiledFromUnescaped(p + ['\\'] + digits + t, u);
  }

  /** GNU tr's cut-off: an escape whose first digit is 4..7 takes only two digits. */
  lemma OverflownOctalsTest()
    ensures Compiled("\\525") == Ok("*5")
  {
    OctalEscape("", "52", "5");
    assert "" + ['\\'] + "52" + "5" == "\\525";
    OctalValueOfDigits("52");
    UnescapedPlainPrefix("5", []);
    assert "5" + [] == "5";
    assert ("" + ['*']) + "5" == "*5";
    CompiledFromUnescaped("\\525", "*5");
  }

  /**
   * The test marked as known to fail: an escaped backslash does not stand
   * for a backslash, because a second backslash only restarts the escape.
   */
  lemma EscapedEscapeSequencesAsWritten()
    ensures Compiled("a\\\\nb") == Ok("a\nb")
    ensures Compiled("\\\\123") == Ok("S")
  {
    EscapedNewlineAsWritten();
    EscapedOctalAsWritten();
  }

  lemma EscapedNewlineAsWritten()
    ensures Compiled("a\\\\nb") == Ok("a\nb")
  {
    var s := "a\\\\nb";
    DoubledBackslashNewline();
    UnescapedPlainPrefix("a", s[1..]);
    assert "a" + s[1..] == s;
    assert "a" + "\nb" == "a\nb";
    CompiledFromUnescaped(s, "a\nb");
  }

  lemma DoubledBackslashNewline()
    ensures Unescaped("\\\\nb") == Ok("\nb")
  {
    var s := "\\\\nb";
    assert s[1..] == "\\nb" && s[1..][1..] == "nb" && "nb"[1..] == "b";
    UnescapedPlainPrefix("b", []);
    assert "b" + [] == "b";
    assert AfterBackslash("nb") == Prepend(['\n'], Ok("b"));
    assert ['\n'] + "b" == "\nb";
  }

  lemma EscapedOctalAsWritten()
    ensures Compiled("\\\\123") == Ok("S")
  {
    DoubledBackslashOctal();
    CompiledFromUnescaped("\\\\123", "S");
  }

  lemma DoubledBackslashOctal()
    ensures Unescaped("\\\\123") == Ok("S")
  {
    var t := "\\\\123";
    assert t[1..][0] == '\\' && t[1..][1..] == "123";
    OctalAfterBackslash("123", []);
    assert "123" + [] == "123";
    OctalValueOfDigits("123");
    assert [OctalChar("123")] + [] == "S";
  }

  lemma TrailingSlashesTest()
    ensures Compiled("\\\\") == Ok("\\")
    ensures Compiled("\\") == Ok("\\")
    ensures Compiled("a\\") == Ok("a\\")
  {
    TrailingBackslashes("", 2);
    assert "" + Backslashes(2) == "\\\\";
    assert "" + ['\\'] == "\\";
    CompiledFromUnescaped("\\\\", "\\");
    TrailingBackslashes("", 1);
    assert "" + Backslashes(1) == "\\";
    CompiledFromUnescaped("\\", "\\");
    TrailingBackslashes("a", 1);
    assert "a" + Backslashes(1) == "a\\";
    CompiledFromUnescaped("a\\", "a\\");
  }

  /** An unescaped `a-b` compiles like the range a..b. */
  lemma CompiledRangeFromUnescaped(s: string, a: char, b: char)
    requires Unescaped(s) == Ok([a, '-', b])
    ensures Compiled(s) == WindowOutcome(a, b, false)
  {
    RangeInText([], a, b, [], false);
    assert [] + [a, '-', b] + [] == [a, '-', b];
    match WindowOutcome(a, b, false)
    case Err(e) =>
    case Ok(w) => assert [] + (w + []) == w;
  }

  /** Two complete octal escapes around a '-' unescape to a three-character range. */
  lemma EscapedRangeUnescaped(x: seq<char>, y: seq<char>)
    requires 1 <= |x| && |x| == OctalCap(x[0]) && AllOctal(x)
    requires 1 <= |y| && |y| == OctalCap(y[0]) && AllOctal(y)
    ensures Unescaped(['\\'] + x + ['-', '\\'] + y) == Ok([OctalChar(x), '-', OctalChar(y)])
  {
    var e := ['\\'] + y;
    var tail := "-" + e;
    assert ['\\'] + x + ['-', '\\'] + y == ['\\'] + (x + tail);
    var cx, cy := OctalChar(x), OctalChar(y);
    assert Unescaped(e) == Ok([cy]) by {
      EscapeStart(y);
      OctalAfterBackslash(y, []);
      assert y + [] == y;
      assert [cy] + [] == [cy];
    }
    assert Unescaped(tail) == Ok(['-', cy]) by {
      UnescapedPlainPrefix("-", e);
      assert "-" + [cy] == ['-', cy];
    }
    assert Unescaped(['\\'] + (x + tail)) == Prepend([cx], Unescaped(tail)) by {
      EscapeStart(x + tail);
      OctalAfterBackslash(x, tail);
    }
    assert [cx] + ['-', cy] == [cx, '-', cy];
  }

  lemma OctalEndpointsRangeTest()
    ensures Compiled("\\120-\\123") == Ok("PQRS")
  {
    OctalEndpointsUnescaped();
    CompiledRangeFromUnescaped("\\120-\\123", 'P', 'S');
    LetterRange();
  }

  lemma LetterRange()
    ensures InclusiveRange('P', 'S') == Ok("PQRS")
  {
    var w := "PQRS";
    assert w[0] == 'P' && w[1] == 'Q' && w[2] == 'R' && w[3] == 'S';
    InclusiveRangeIs('P', 'S', w);
  }

  lemma OctalEndpointsUnescaped()
    ensures Unescaped("\\120-\\123") == Ok(['P', '-', 'S'])
  {
    EscapedRangeUnescaped("120", "123");
    assert ['\\'] + "120" + ['-', '\\'] + "123" == "\\120-\\123";
    OctalValueOfDigits("120");
    OctalValueOfDigits("123");
  }

  lemma OctalEndpointsSingletonTest()
    ensures Compiled("\\53-\\53") == Ok("+")
  {
    EscapedRangeUnescaped("53", "53");
    OctalValueOfDigits("53");
    assert ['\\'] + "53" + ['-', '\\'] + "53" == "\\53-\\53";
    CompiledRangeFromUnescaped("\\53-\\53", '+', '+');
    InclusiveSingleton('+');
  }

  lemma TwoDigitOctalEndpointsRangeTest()
    ensures Compiled("\\50-\\57") == Ok("()*+,-./")
  {
    TwoDigitEndpointsUnescaped();
    CompiledRangeFromUnescaped("\\50-\\57", '(', '/');
    PunctuationRange();
  }

  lemma TwoDigitEndpointsUnescaped()
    ensures Unescaped("\\50-\\57") == Ok(['(', '-', '/'])
  {
    EscapedRangeUnescaped("50", "57");
    assert ['\\'] + "50" + ['-', '\\'] + "57" == "\\50-\\57";
    OctalValueOfDigits("50");
    OctalValueOfDigits("57");
  }

  lemma PunctuationRange()
    ensures InclusiveRange('(', '/') == Ok("()*+,-./")
  {
    var w := "()*+,-./";
    assert w[0] as int == 40 && w[1] as int == 41 && w[2] as int == 42 && w[3] as int == 43;
    assert w[4] as int == 44 && w[5] as int == 45 && w[6] as int == 46 && w[7] as int == 47;
    InclusiveRangeIs('(', '/', w);
  }
}
