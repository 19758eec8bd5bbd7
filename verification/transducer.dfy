/**
 * The per-line work of `main` in main.rs: the translate/delete pass
 * (main.rs:196-208) and the squeeze pass (main.rs:211-222), each over the
 * characters of one line, and the two together as configured by the
 * command line (ProcessLine).
 *
 * A character is selected when its membership in a set differs from the
 * complement flag. Whatever the mode, a selected character is replaced by
 * the FIRST character of SET2 or deleted; unselected characters are copied.
 * The squeeze pass drops a character that equals the character read just
 * before it, when that character is selected by the squeeze set.
 */
module Transducer {
  import opened Chars

  /** What happens to a selected character (main.rs:7-11). */
  datatype TrMode = ReplaceWith(insert: seq<char>) | Delete

  /** The run configuration that the command line determines (main.rs:124-128, 161-192). */
  datatype Config = Config(
    toReplace: seq<char>,    // SET1, compiled and possibly truncated
    mode: TrMode,
    complement: bool,
    squeeze: bool,
    onlySqueeze: bool,       // squeeze without translating
    toSqueeze: seq<char>)    // the squeeze set

  /** main.rs:198 and 216: membership in `chars`, inverted by the complement flag. */
  predicate Selected(c: char, chars: seq<char>, complement: bool) {
    (c in chars) != complement
  }

  // ---------------------------------------------------------------------
  // Translate and delete
  // ---------------------------------------------------------------------

  /** The characters of s that are not selected, in their order. */
  function Unselected(s: seq<char>, chars: seq<char>, complement: bool): seq<char> {
    if s == [] then []
    else (if Selected(s[0], chars, complement) then [] else [s[0]]) + Unselected(s[1..], chars, complement)
  }

  /** The character a selected character is replaced by when SET2 is `insert`. */
  function Replaced(c: char, chars: seq<char>, insert: seq<char>, complement: bool): char {
    if Selected(c, chars, complement) && insert != [] then insert[0] else c
  }

  /**
   * The translate pass on one line: in Delete mode the unselected
   * characters; in Replace mode every selected character becomes SET2's first
   * character, which is an error when SET2 is empty and some character is
   * selected.
   */
  function Translated(line: seq<char>, chars: seq<char>, mode: TrMode, complement: bool): Result<seq<char>> {
    match mode
    case Delete => Ok(Unselected(line, chars, complement))
    case ReplaceWith(insert) =>
      if insert == [] && exists k :: 0 <= k < |line| && Selected(line[k], chars, complement) then Err(EmptyReplacementSet)
      else Ok(seq(|line|, k requires 0 <= k < |line| => Replaced(line[k], chars, insert, complement)))
  }

  /** Filtering a prefix and then one more character. */
  lemma {:induction false} UnselectedSnoc(s: seq<char>, c: char, chars: seq<char>, complement: bool)
    ensures Unselected(s + [c], chars, complement)
         == Unselected(s, chars, complement) + (if Selected(c, chars, complement) then [] else [c])
    decreases |s|
  {
    if s == [] {
      assert [] + [c] == [c];
      assert [c][1..] == [];
    } else {
      assert (s + [c])[0] == s[0];
      assert (s + [c])[1..] == s[1..] + [c];
      UnselectedSnoc(s[1..], c, chars, complement);
    }
  }

  /** The translate pass (main.rs:196-208), one character at a time. */
  method Translate(line: seq<char>, chars: seq<char>, mode: TrMode, complement: bool) returns (r: Result<seq<char>>)
    ensures r == Translated(line, chars, mode, complement)
  {
    var result: seq<char> := [];
    for i := 0 to |line|
      invariant mode.Delete? ==> result == Unselected(line[..i], chars, complement)
      invariant mode.ReplaceWith? ==> |result| == i
      invariant mode.ReplaceWith? ==> forall k :: 0 <= k < i ==> result[k] == Replaced(line[k], chars, mode.insert, complement)
      invariant mode.ReplaceWith? && mode.insert == [] ==> forall k :: 0 <= k < i ==> !Selected(line[k], chars, complement)
    {
      var c := line[i];
      if (c in chars) != complement {
        match mode {
          case ReplaceWith(insert) =>
            if insert == [] {
              return Err(EmptyReplacementSet);
            }
            result := result + [insert[0]];
          case Delete =>
        }
      } else {
        result := result + [c];
      }
      if mode.Delete? {
        assert line[..i + 1] == line[..i] + [c];
        UnselectedSnoc(line[..i], c, chars, complement);
      }
    }
    assert line[..|line|] == line;
    if mode.ReplaceWith? {
      assert result == seq(|line|, k requires 0 <= k < |line| => Replaced(line[k], chars, mode.insert, complement));
    }
    return Ok(result);
  }

  /** Delete mode keeps exactly the unselected characters: each as often as in the input, and no selected one. */
  lemma {:induction false} UnselectedCounts(s: seq<char>, chars: seq<char>, complement: bool, c: char)
    ensures multiset(Unselected(s, chars, complement))[c] == if Selected(c, chars, complement) then 0 else multiset(s)[c]
    decreases |s|
  {
    if s != [] {
      UnselectedCounts(s[1..], chars, complement, c);
      var head := if Selected(s[0], chars, complement) then [] else [s[0]];
      var rest := Unselected(s[1..], chars, complement);
      assert multiset(head + rest) == multiset(head) + multiset(rest);
      assert s == [s[0]] + s[1..];
      assert multiset(s) == multiset([s[0]]) + multiset(s[1..]);
    }
  }

  /** `a` can be obtained from `b` by deleting characters. */
  predicate IsSubsequence(a: seq<char>, b: seq<char>)
    decreases |b|
  {
    a == [] || (b != [] && (IsSubsequence(a, b[1..]) || (a[0] == b[0] && IsSubsequence(a[1..], b[1..]))))
  }

  /** Delete mode only deletes: its output is a subsequence of its input. */
  lemma {:induction false} UnselectedIsSubsequence(s: seq<char>, chars: seq<char>, complement: bool)
    ensures IsSubsequence(Unselected(s, chars, complement), s)
    decreases |s|
  {
    if s != [] {
      UnselectedIsSubsequence(s[1..], chars, complement);
      var rest := Unselected(s[1..], chars, complement);
      if !Selected(s[0], chars, complement) {
        assert Unselected(s, chars, complement) == [s[0]] + rest;
        assert ([s[0]] + rest)[1..] == rest;
      } else {
        assert [] + rest == rest;
      }
    }
  }

  /** With an empty SET2, the translate pass fails exactly when some character is selected, and copies the line otherwise. */
  lemma ReplaceWithNothing(line: seq<char>, chars: seq<char>, complement: bool)
    ensures var r := Translated(line, chars, ReplaceWith([]), complement);
            (r == Err(EmptyReplacementSet) <==> exists k :: 0 <= k < |line| && Selected(line[k], chars, complement))
            && (r.Ok? ==> r.value == line)
  {
    var r := Translated(line, chars, ReplaceWith([]), complement);
    if r.Ok? {
      assert |r.value| == |line|;
      assert forall k :: 0 <= k < |line| ==> r.value[k] == line[k];
    }
  }

  /** Translating a second time changes nothing, in either mode. */
  lemma TranslateIdempotent(line: seq<char>, chars: seq<char>, mode: TrMode, complement: bool)
    requires Translated(line, chars, mode, complement).Ok?
    ensures var once := Translated(line, chars, mode, complement).value;
            Translated(once, chars, mode, complement) == Ok(once)
  {
    var once := Translated(line, chars, mode, complement).value;
    match mode
    case Delete =>
      UnselectedNone(line, chars, complement);
    case ReplaceWith(insert) =>
      var twice := Translated(once, chars, mode, complement);
      if insert == [] {
        ReplaceWithNothing(line, chars, complement);
        ReplaceWithNothing(once, chars, complement);
      } else {
        assert twice.Ok?;
        forall k | 0 <= k < |once|
          ensures twice.value[k] == once[k]
        {
          if Selected(line[k], chars, complement) {
            assert once[k] == insert[0];
          }
        }
        assert twice.value == once;
      }
  }

  /** Filtering text with no selected character leaves it as it is; in particular, filtering is idempotent. */
  lemma {:induction false} UnselectedNone(s: seq<char>, chars: seq<char>, complement: bool)
    ensures Unselected(Unselected(s, chars, complement), chars, complement) == Unselected(s, chars, complement)
    decreases |s|
  {
    if s != [] {
      UnselectedNone(s[1..], chars, complement);
      var rest := Unselected(s[1..], chars, complement);
      if !Selected(s[0], chars, complement) {
        assert ([s[0]] + rest)[0] == s[0];
        assert ([s[0]] + rest)[1..] == rest;
      } else {
        assert [] + rest == rest;
      }
    }
  }

  // ---------------------------------------------------------------------
  // Squeeze
  // ---------------------------------------------------------------------

  /** Index i of s is dropped by the squeeze pass: it repeats the character before it, which is selected. */
  predicate Dropped(s: seq<char>, i: int, chars: seq<char>, complement: bool)
    requires 0 <= i < |s|
  {
    0 < i && s[i - 1] == s[i] && Selected(s[i], chars, complement)
  }

  /** The characters among the first n of s that the squeeze pass keeps. */
  function SqueezedUpTo(s: seq<char>, n: nat, chars: seq<char>, complement: bool): seq<char>
    requires n <= |s|
  {
    if n == 0 then []
    else SqueezedUpTo(s, n - 1, chars, complement) + (if Dropped(s, n - 1, chars, complement) then [] else [s[n - 1]])
  }

  function Squeezed(s: seq<char>, chars: seq<char>, complement: bool): seq<char> {
    SqueezedUpTo(s, |s|, chars, complement)
  }

  /** The squeeze pass (main.rs:211-222). */
  method Squeeze(s: seq<char>, chars: seq<char>, complement: bool) returns (r: seq<char>)
    ensures r == Squeezed(s, chars, complement)
  {
    var previous: Option<char> := None;
    r := [];
    for i := 0 to |s|
      invariant previous == (if i == 0 then None else Some(s[i - 1]))
      invariant r == SqueezedUpTo(s, i, chars, complement)
    {
      var c := s[i];
      if previous.Some? && previous.value == c && ((c in chars) != complement) {
        // a repeat: not copied
      } else {
        r := r + [c];
      }
      previous := Some(c);
    }
  }

  /** What the squeeze pass keeps ends with the last character read. */
  lemma SqueezedLast(s: seq<char>, n: nat, chars: seq<char>, complement: bool)
    requires 0 < n <= |s|
    ensures var r := SqueezedUpTo(s, n, chars, complement);
            |r| > 0 && r[|r| - 1] == s[n - 1]
    decreases n
  {
    if Dropped(s, n - 1, chars, complement) {
      SqueezedLast(s, n - 1, chars, complement);
    }
  }

  /** No two adjacent equal characters of r are selected. */
  predicate NoSelectedRepeats(r: seq<char>, chars: seq<char>, complement: bool) {
    forall k :: 0 < k < |r| && r[k - 1] == r[k] ==> !Selected(r[k], chars, complement)
  }

  /** The output holds no two adjacent equal selected characters. */
  lemma {:induction false} SqueezedNoRepeats(s: seq<char>, n: nat, chars: seq<char>, complement: bool)
    requires n <= |s|
    ensures NoSelectedRepeats(SqueezedUpTo(s, n, chars, complement), chars, complement)
    decreases n
  {
    if n > 0 {
      SqueezedNoRepeats(s, n - 1, chars, complement);
      var r0 := SqueezedUpTo(s, n - 1, chars, complement);
      if !Dropped(s, n - 1, chars, complement) && n > 1 {
        SqueezedLast(s, n - 1, chars, complement);
        assert r0[|r0| - 1] == s[n - 2];
      }
    }
  }

  /** Splitting off the last element of a prefix, kept apart from the multiset proofs that use it. */
  lemma PrefixSnoc(s: seq<char>, n: nat)
    requires 0 < n <= |s|
    ensures s[..n] == s[..n - 1] + [s[n - 1]]
  {
  }

  /** Unselected characters are never dropped: each is kept as often as it occurs. */
  lemma {:induction false} SqueezedCounts(s: seq<char>, n: nat, chars: seq<char>, complement: bool, c: char)
    requires n <= |s| && !Selected(c, chars, complement)
    ensures multiset(SqueezedUpTo(s, n, chars, complement))[c] == multiset(s[..n])[c]
    decreases n
  {
    if n > 0 {
      SqueezedCounts(s, n - 1, chars, complement, c);
      var prev := SqueezedUpTo(s, n - 1, chars, complement);
      var kept := if Dropped(s, n - 1, chars, complement) then [] else [s[n - 1]];
      assert SqueezedUpTo(s, n, chars, complement) == prev + kept;
      assert multiset(prev + kept) == multiset(prev) + multiset(kept);
      PrefixSnoc(s, n);
      assert multiset(s[..n]) == multiset(s[..n - 1]) + multiset([s[n - 1]]);
      assert multiset(kept)[c] == multiset([s[n - 1]])[c];
    }
  }

  /** A character occurs in the squeezed output exactly when it occurs in the input: a run keeps its first character. */
  lemma {:induction false} SqueezedMembers(s: seq<char>, n: nat, chars: seq<char>, complement: bool, c: char)
    requires n <= |s|
    ensures c in SqueezedUpTo(s, n, chars, complement) <==> c in s[..n]
    decreases n
  {
    if n > 0 {
      SqueezedMembers(s, n - 1, chars, complement, c);
      var kept := if Dropped(s, n - 1, chars, complement) then [] else [s[n - 1]];
      assert SqueezedUpTo(s, n, chars, complement) == SqueezedUpTo(s, n - 1, chars, complement) + kept;
      PrefixSnoc(s, n);
      if Dropped(s, n - 1, chars, complement) {
        assert s[n - 2] in s[..n - 1];
      }
    }
  }

  /** Output without repeated selected characters is its own squeeze. */
  lemma {:induction false} SqueezedNothingToDrop(s: seq<char>, n: nat, chars: seq<char>, complement: bool)
    requires n <= |s|
    requires NoSelectedRepeats(s, chars, complement)
    ensures SqueezedUpTo(s, n, chars, complement) == s[..n]
    decreases n
  {
    if n > 0 {
      SqueezedNothingToDrop(s, n - 1, chars, complement);
      PrefixSnoc(s, n);
    }
  }

  /** Squeezing twice is squeezing once. */
  lemma SqueezeIdempotent(s: seq<char>, chars: seq<char>, complement: bool)
    ensures Squeezed(Squeezed(s, chars, complement), chars, complement) == Squeezed(s, chars, complement)
  {
    var r := Squeezed(s, chars, complement);
    SqueezedNoRepeats(s, |s|, chars, complement);
    SqueezedNothingToDrop(r, |r|, chars, complement);
    assert r[..|r|] == r;
  }

  // ---------------------------------------------------------------------
  // One line
  // ---------------------------------------------------------------------

  /**
   * What is printed for one line (main.rs:196-226): translated unless only
   * squeezing, then squeezed when squeezing is on. Operand resolution sets
   * `onlySqueeze` only together with `squeeze`, so the line is never returned
   * untouched in squeeze-only mode.
   */
  function LineOutput(config: Config, line: seq<char>): Result<seq<char>> {
    if config.onlySqueeze then
      Ok(if config.squeeze then Squeezed(line, config.toSqueeze, config.complement) else line)
    else match Translated(line, config.toReplace, config.mode, config.complement)
      case Err(e) => Err(e)
      case Ok(result) =>
        Ok(if config.squeeze then Squeezed(result, config.toSqueeze, config.complement) else result)
  }

  /** The body of main's read loop for one line (main.rs:196-226). */
  method ProcessLine(config: Config, line: seq<char>) returns (r: Result<seq<char>>)
    ensures r == LineOutput(config, line)
  {
    var result := line;
    if !config.onlySqueeze {
      var translated := Translate(line, config.toReplace, config.mode, config.complement);
      if translated.Err? {
        return Err(translated.error);
      }
      result := translated.value;
    }
    if config.squeeze {
      var squeezed := Squeeze(result, config.toSqueeze, config.complement);
      return Ok(squeezed);
    }
    return Ok(result);
  }
}
