/**
 * Vocabulary shared by the two set compilers and the transducer of `tr`.
 *
 * Characters are Dafny `char`s, i.e. Unicode scalar values, exactly like
 * Rust's `char`; where the source does arithmetic on `c as u32`, the model
 * does it on `c as int`. The source reports every failure by panicking; the
 * model returns those failures as `Err` values of `TrError`.
 */
module Chars {

  datatype Option<T> = None | Some(value: T)

  /** The conditions under which the source panics. */
  datatype TrError =
    | UnknownEscape(escaped: char)           // "Unknown escape sequence \x"
    | RangeOrder(lower: char, upper: char)   // range endpoints in reverse order
    | InvalidCodePoint(code: int)            // char::from_u32(code).unwrap() on a non-scalar
    | OctalOutOfRange(digits: seq<char>)     // main.rs: an octal escape starting with 4..7
    | MissingOperand(set1: string)           // -d together with -s and a single operand
    | UnknownArgument(argument: string)      // an unrecognised leading-dash option
    | EmptyArgument                          // chars().nth(0).unwrap() on an empty argument
    | NoOperand                              // nth(first).unwrap() when no SET1 follows
    | EmptyReplacementSet                    // chars_to_insert[0] with an empty SET2

  datatype Result<+T> = Ok(value: T) | Err(error: TrError)

  /** `prefix` followed by the characters `r` produces, or `r`'s error. */
  function Prepend(prefix: seq<char>, r: Result<seq<char>>): Result<seq<char>> {
    match r
    case Ok(s) => Ok(prefix + s)
    case Err(e) => Err(e)
  }

  /** The output of `a` followed by that of `b`; the first error wins. */
  function Concat(a: Result<seq<char>>, b: Result<seq<char>>): Result<seq<char>> {
    match a
    case Ok(s) => Prepend(s, b)
    case Err(e) => Err(e)
  }

  lemma PrependAssoc(a: seq<char>, b: seq<char>, r: Result<seq<char>>)
    ensures Prepend(a, Prepend(b, r)) == Prepend(a + b, r)
  {
    if r.Ok? {
      assert a + (b + r.value) == (a + b) + r.value;
    }
  }

  lemma PrependNothing(r: Result<seq<char>>)
    ensures Prepend([], r) == r
  {
    if r.Ok? {
      assert [] + r.value == r.value;
    }
  }

  /** `s` holds no backslash. */
  predicate NoBackslash(s: seq<char>) {
    '\\' !in s
  }

  // ---------------------------------------------------------------------
  // Escapes and octal codes
  // ---------------------------------------------------------------------

  /**
   * The fixed escape table of both compilers (escape_parser.rs:24-32,
   * main.rs:33-41). The entry for '\' is unreachable in both, because a
   * backslash is swallowed before the table is consulted.
   */
  function EscapeTarget(c: char): (r: Option<char>)
    ensures r.Some? <==> c in "\\nrtabfv"
    ensures r.Some? && c != '\\' ==> r.value as int < 0x20
    ensures IsOctalDigit(c) ==> r.None?
  {
    match c
    case '\\' => Some('\\')
    case 'n' => Some('\n')
    case 'r' => Some('\r')
    case 't' => Some('\t')
    case 'a' => Some(7 as char)
    case 'b' => Some(8 as char)
    case 'f' => Some(12 as char)
    case 'v' => Some(11 as char)
    case _ => None
  }

  predicate IsOctalDigit(c: char) {
    '0' <= c <= '7'
  }

  predicate AllOctal(ds: seq<char>) {
    forall i :: 0 <= i < |ds| ==> IsOctalDigit(ds[i])
  }

  function DigitValue(c: char): (d: nat)
    requires IsOctalDigit(c)
    ensures d < 8
  {
    c as int - '0' as int
  }

  function Pow8(n: nat): (p: nat)
    ensures p >= 1
  {
    if n == 0 then 1 else 8 * Pow8(n - 1)
  }

  /** The digits read in base 8, most significant first. */
  function OctalValue(ds: seq<char>): (v: nat)
    requires AllOctal(ds)
    ensures v < Pow8(|ds|)
  {
    if ds == [] then 0
    else 8 * OctalValue(ds[..|ds| - 1]) + DigitValue(ds[|ds| - 1])
  }

  /** Splitting off the most significant digit: it weighs 8^(|ds|-1). */
  lemma {:induction false} OctalValueLeading(ds: seq<char>)
    requires |ds| > 0 && AllOctal(ds)
    ensures OctalValue(ds) == DigitValue(ds[0]) * Pow8(|ds| - 1) + OctalValue(ds[1..])
  {
    if |ds| > 1 {
      var init, tail := ds[..|ds| - 1], ds[1..];
      var d0, last := DigitValue(ds[0]), DigitValue(ds[|ds| - 1]);
      var w := Pow8(|ds| - 2);
      OctalValueLeading(init);
      assert init[1..] == tail[..|tail| - 1];
      assert tail[|tail| - 1] == ds[|ds| - 1];
      assert OctalValue(tail) == 8 * OctalValue(init[1..]) + last;
      assert OctalValue(init) == d0 * w + OctalValue(init[1..]);
      assert Pow8(|ds| - 1) == 8 * w;
      var x := OctalValue(init[1..]);
      assert 8 * (d0 * w + x) + last == d0 * (8 * w) + (8 * x + last) by { ScaleSum(d0, w, x); }
    } else {
      assert ds[1..] == [];
      assert ds[..0] == [];
    }
  }

  /** Multiplying out by 8, kept apart so that the nonlinear step is proved on its own. */
  lemma ScaleSum(a: int, b: int, c: int)
    ensures 8 * (a * b + c) == a * (8 * b) + 8 * c
  {}

  /** The value of a two- or three-digit octal code, written out. */
  lemma OctalValueOfDigits(ds: seq<char>)
    requires 2 <= |ds| <= 3 && AllOctal(ds)
    ensures |ds| == 2 ==> OctalValue(ds) == 8 * DigitValue(ds[0]) + DigitValue(ds[1])
    ensures |ds| == 3 ==> OctalValue(ds) == 64 * DigitValue(ds[0]) + 8 * DigitValue(ds[1]) + DigitValue(ds[2])
  {
    assert ds[..1][..0] == [];
    if |ds| == 3 {
      assert ds[..2][..1] == ds[..1];
    }
  }

  /** Codes of at most three octal digits are at most 0o777, a valid scalar. */
  function OctalChar(ds: seq<char>): (c: char)
    requires AllOctal(ds) && |ds| <= 3
    ensures c as int == OctalValue(ds) < 512
  {
    assert Pow8(|ds|) <= 512 by { Pow8Small(|ds|); }
    OctalValue(ds) as char
  }

  lemma Pow8Small(n: nat)
    requires n <= 3
    ensures Pow8(n) <= 512
  {
    if n > 0 { Pow8Small(n - 1); }
  }

  /**
   * octal_digits_to_char (escape_parser.rs:103-110; inlined in main.rs:88-94):
   * sums digit * 8^order over the digits taken least significant first.
   */
  method OctalDigitsToChar(ds: seq<char>) returns (c: char)
    requires AllOctal(ds) && |ds| <= 3
    ensures c as int == OctalValue(ds)
  {
    var code := 0;
    for order := 0 to |ds|
      invariant code == OctalValue(ds[|ds| - order..])
    {
      var k := |ds| - 1 - order;
      code := code + DigitValue(ds[k]) * Pow8(order);
      OctalValueLeading(ds[k..]);
      assert ds[k..][1..] == ds[|ds| - order..];
    }
    assert ds[|ds| - |ds|..] == ds;
    c := OctalChar(ds);
  }

  // ---------------------------------------------------------------------
  // Code point ranges
  // ---------------------------------------------------------------------

  /** What char::from_u32 accepts. */
  predicate IsScalar(n: int) {
    0 <= n < 0xD800 || 0xE000 <= n < 0x11_0000
  }

  /**
   * The characters with codes lo, lo+1, .., hi-1 in increasing order, as the
   * loops `for char_code in lo .. hi { push(from_u32(char_code).unwrap()) }`
   * produce them; the first code that is not a scalar value is an error.
   */
  function CharRange(lo: int, hi: int): (r: Result<seq<char>>)
    decreases hi - lo
    ensures r.Ok? <==> forall n :: lo <= n < hi ==> IsScalar(n)
    ensures r.Ok? ==> |r.value| == (if lo < hi then hi - lo else 0)
    ensures r.Ok? ==> forall k :: 0 <= k < |r.value| ==> r.value[k] as int == lo + k
    ensures r.Err? ==> r.error.InvalidCodePoint? && lo <= r.error.code < hi && !IsScalar(r.error.code)
  {
    if hi <= lo then Ok([])
    else match CharRange(lo, hi - 1)
      case Err(e) => Err(e)
      case Ok(s) => if IsScalar(hi - 1) then Ok(s + [(hi - 1) as char]) else Err(InvalidCodePoint(hi - 1))
  }

  /** A range starting at a scalar: its first character, then the rest. */
  lemma {:induction false} CharRangeCons(lo: int, hi: int)
    requires lo < hi && IsScalar(lo)
    ensures CharRange(lo, hi) == Prepend([lo as char], CharRange(lo + 1, hi))
    decreases hi - lo
  {
    if lo + 1 < hi {
      CharRangeCons(lo, hi - 1);
      match CharRange(lo + 1, hi - 1)
      case Err(e) =>
      case Ok(s) =>
        if IsScalar(hi - 1) {
          var top := (hi - 1) as char;
          assert [lo as char] + (s + [top]) == ([lo as char] + s) + [top];
        }
    } else {
      assert CharRange(lo, lo) == Ok([]) && CharRange(lo + 1, hi) == Ok([]);
      assert [lo as char] + [] == [] + [lo as char];
    }
  }

  /**
   * A closed range `lower-upper`: every character from `lower` to `upper`
   * inclusive; an error when `upper` comes before `lower`, or when the range
   * spans a code that is not a scalar value (a surrogate).
   */
  function InclusiveRange(lower: char, upper: char): (r: Result<seq<char>>)
    ensures upper < lower <==> r == Err(RangeOrder(lower, upper))
    ensures r.Ok? <==> lower <= upper && forall n :: lower as int <= n <= upper as int ==> IsScalar(n)
    ensures r.Err? && lower <= upper ==>
              r.error.InvalidCodePoint? && lower as int <= r.error.code <= upper as int && !IsScalar(r.error.code)
    ensures r.Ok? ==> |r.value| == upper as int - lower as int + 1
                      && r.value[0] == lower && r.value[|r.value| - 1] == upper
                      && forall k :: 0 <= k < |r.value| ==> r.value[k] as int == lower as int + k
  {
    if upper < lower then Err(RangeOrder(lower, upper))
    else CharRange(lower as int, upper as int + 1)
  }

  /** The closed range p..q is the sequence w when w lists the codes p, p+1, .., q. */
  lemma InclusiveRangeIs(p: char, q: char, w: seq<char>)
    requires p <= q && (q as int) < 0xD800 && |w| == q as int - p as int + 1
    requires forall k :: 0 <= k < |w| ==> w[k] as int == p as int + k
    ensures InclusiveRange(p, q) == Ok(w)
  {
    assert forall n :: p as int <= n < q as int + 1 ==> IsScalar(n);
    var r := InclusiveRange(p, q).value;
    forall k | 0 <= k < |w|
      ensures r[k] == w[k]
    {
      assert r[k] as int == w[k] as int;
    }
    assert r == w;
  }

  /** A single character is the range from itself to itself. */
  lemma InclusiveSingleton(c: char)
    ensures InclusiveRange(c, c) == Ok([c])
  {
    assert CharRange(c as int, c as int) == Ok([]);
    assert [] + [c] == [c];
  }

  /** Appends the codes lo .. hi-1 to `acc`, as the range loops of both compilers do. */
  method AppendRange(acc: seq<char>, lo: int, hi: int) returns (r: Result<seq<char>>)
    ensures r == Prepend(acc, CharRange(lo, hi))
  {
    var out := acc;
    if hi <= lo {
      assert acc + [] == acc;
      return Ok(out);
    }
    for code := lo to hi
      invariant CharRange(lo, code).Ok? && out == acc + CharRange(lo, code).value
    {
      if !IsScalar(code) {
        assert CharRange(lo, code + 1) == Err(InvalidCodePoint(code));
        ErrorPersists(lo, code + 1, hi);
        return Err(InvalidCodePoint(code));
      }
      out := out + [code as char];
    }
    return Ok(out);
  }

  /** Once a prefix of a range fails, the whole range fails the same way. */
  lemma {:induction false} ErrorPersists(lo: int, mid: int, hi: int)
    requires mid <= hi && CharRange(lo, mid).Err?
    ensures CharRange(lo, hi) == CharRange(lo, mid)
    decreases hi - mid
  {
    if mid < hi {
      ErrorPersists(lo, mid, hi - 1);
    }
  }
}
