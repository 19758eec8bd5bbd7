/**
 * The command-line half of `main` in main.rs: the scan of the leading
 * options (main.rs:147-160) and the resolution of the SET operands into a
 * run configuration (main.rs:161-192). The arguments are given without the
 * program name, so the source's `env::args().count() > 2` is `|args| >= 2`
 * here, and argument number n is args[n].
 */
module Invocation {
  import opened Chars
  import opened Transducer
  import SequenceParser

  /** The flags the scan sets and the index of the SET1 operand. */
  datatype Scan = Scan(complement: bool, delete: bool, squeeze: bool, truncate: bool, first: nat)

  /** What the command line leads to: the usage line, or a run with a configuration. */
  datatype Setup = Usage | Ready(config: Config)

  predicate IsComplementFlag(a: string) { a == "-c" || a == "-C" || a == "--complement" }
  predicate IsDeleteFlag(a: string) { a == "-d" || a == "--delete" }
  predicate IsSqueezeFlag(a: string) { a == "-s" || a == "--squeeze-repeats" }
  predicate IsTruncateFlag(a: string) { a == "-t" || a == "--truncate-set1" }

  predicate IsFlag(a: string) {
    IsComplementFlag(a) || IsDeleteFlag(a) || IsSqueezeFlag(a) || IsTruncateFlag(a)
  }

  /** The number of leading arguments that are flags. */
  function OptionsEnd(args: seq<string>): (n: nat)
    ensures n <= |args|
    ensures forall i :: 0 <= i < n ==> IsFlag(args[i])
    ensures n < |args| ==> !IsFlag(args[n])
  {
    if args == [] || !IsFlag(args[0]) then 0 else 1 + OptionsEnd(args[1..])
  }

  /** OptionsEnd is the one index that ends a run of flags. */
  lemma OptionsEndIs(args: seq<string>, n: nat)
    requires n <= |args| && (forall i :: 0 <= i < n ==> IsFlag(args[i]))
    requires n < |args| ==> !IsFlag(args[n])
    ensures OptionsEnd(args) == n
  {
  }

  /** Some of the first n arguments is the flag `flag` recognises. */
  predicate Seen(args: seq<string>, n: nat, flag: string -> bool)
    requires n <= |args|
  {
    n > 0 && (flag(args[n - 1]) || Seen(args, n - 1, flag))
  }

  /** Seen means what it says: some argument before index n is such a flag. */
  lemma {:induction false} SeenIsSome(args: seq<string>, n: nat, flag: string -> bool)
    requires n <= |args|
    ensures Seen(args, n, flag) <==> exists k :: 0 <= k < n && flag(args[k])
  {
    if n > 0 {
      SeenIsSome(args, n - 1, flag);
    }
  }

  /**
   * The result of the option scan: flags are read up to the first argument
   * that is not one. That argument is SET1, unless it is `--`, in which case
   * SET1 is the one after it; an empty argument or another one starting with
   * '-' is an error. When every argument is a flag, SET1 is argument 0.
   */
  function Scanned(args: seq<string>): Result<Scan> {
    var n := OptionsEnd(args);
    var complement := Seen(args, n, IsComplementFlag);
    var delete := Seen(args, n, IsDeleteFlag);
    var squeeze := Seen(args, n, IsSqueezeFlag);
    var truncate := Seen(args, n, IsTruncateFlag);
    if n == |args| then Ok(Scan(complement, delete, squeeze, truncate, 0))
    else if args[n] == "--" then Ok(Scan(complement, delete, squeeze, truncate, n + 1))
    else if args[n] == [] then Err(EmptyArgument)
    else if args[n][0] == '-' then Err(UnknownArgument(args[n]))
    else Ok(Scan(complement, delete, squeeze, truncate, n))
  }

  /** The option scan (main.rs:148-160). */
  method ScanArguments(args: seq<string>) returns (r: Result<Scan>)
    ensures r == Scanned(args)
  {
    var complement, delete, squeeze, truncate := false, false, false, false;
    for i := 0 to |args|
      invariant i <= OptionsEnd(args)
      invariant complement == Seen(args, i, IsComplementFlag)
      invariant delete == Seen(args, i, IsDeleteFlag)
      invariant squeeze == Seen(args, i, IsSqueezeFlag)
      invariant truncate == Seen(args, i, IsTruncateFlag)
    {
      var arg := args[i];
      FlagsDisjoint(arg);
      if IsComplementFlag(arg) {
        complement := true;
      } else if IsDeleteFlag(arg) {
        delete := true;
      } else if IsSqueezeFlag(arg) {
        squeeze := true;
      } else if IsTruncateFlag(arg) {
        truncate := true;
      } else {
        assert OptionsEnd(args) == i;
        if arg == "--" {
          return Ok(Scan(complement, delete, squeeze, truncate, i + 1));
        } else if arg == [] {
          return Err(EmptyArgument);
        } else if arg[0] == '-' {
          return Err(UnknownArgument(arg));
        } else {
          return Ok(Scan(complement, delete, squeeze, truncate, i));
        }
      }
    }
    return Ok(Scan(complement, delete, squeeze, truncate, 0));
  }

  /** An argument is at most one kind of flag. */
  lemma FlagsDisjoint(a: string)
    ensures IsComplementFlag(a) ==> !IsDeleteFlag(a) && !IsSqueezeFlag(a) && !IsTruncateFlag(a)
    ensures IsDeleteFlag(a) ==> !IsSqueezeFlag(a) && !IsTruncateFlag(a)
    ensures IsSqueezeFlag(a) ==> !IsTruncateFlag(a)
  {
    if IsComplementFlag(a) || IsDeleteFlag(a) || IsSqueezeFlag(a) {
      assert |a| >= 2 && a[0] == '-';
    }
  }

  /** Vec::truncate: keep the first n elements, or all of them when there are fewer. */
  function Truncated(s: seq<char>, n: nat): (r: seq<char>)
    ensures |r| == if |s| <= n then |s| else n
    ensures r == s[..|r|]
    ensures |s| <= n ==> r == s
  {
    if |s| <= n then s else s[..n]
  }

  /** The configuration the operands give (main.rs:161-192). */
  function Resolved(args: seq<string>, scan: Scan): Result<Config> {
    if |args| <= scan.first then Err(NoOperand)
    else match SequenceParser.Expanded(args[scan.first])
      case Err(e) => Err(e)
      case Ok(set1) =>
        var hasSet2 := scan.first + 1 < |args|;
        if !scan.delete then
          if hasSet2 then
            match SequenceParser.Expanded(args[scan.first + 1])
            case Err(e) => Err(e)
            case Ok(set2) =>
              var toReplace := if scan.truncate then Truncated(set1, |set2|) else set1;
              Ok(Config(toReplace, ReplaceWith(set2), scan.complement, scan.squeeze, false,
                        if scan.squeeze then set2 else []))
          else
            Ok(Config(set1, ReplaceWith([]), scan.complement, scan.squeeze, scan.squeeze,
                      if scan.squeeze then set1 else []))
        else if !scan.squeeze then
          Ok(Config(set1, Delete, scan.complement, false, false, []))
        else if !hasSet2 then
          Err(MissingOperand(args[scan.first]))
        else match SequenceParser.Expanded(args[scan.first + 1])
          case Err(e) => Err(e)
          case Ok(set2) => Ok(Config(set1, Delete, scan.complement, true, false, set2))
  }

  /**
   * Operand resolution (main.rs:161-192): SET1 is compiled first; in replace
   * mode SET2, when present, supplies the replacement and, with -t, the
   * length SET1 is cut to; -s with SET1 alone squeezes by SET1 without
   * translating, except that -d -s with SET1 alone is an error; when
   * squeezing otherwise, the squeeze set is SET2.
   */
  method ResolveOperands(args: seq<string>, scan: Scan) returns (r: Result<Config>)
    ensures r == Resolved(args, scan)
    ensures scan.first < |args| && r.Ok? ==>
              SequenceParser.Expanded(args[scan.first]).Ok? && r.value.complement == scan.complement
              && r.value.squeeze == scan.squeeze && (r.value.mode.Delete? <==> scan.delete)
    ensures |args| <= scan.first ==> r == Err(NoOperand)
    ensures r.Ok? && scan.truncate && !scan.delete && scan.first + 1 < |args| ==>
              r.value.toReplace == Truncated(SequenceParser.Expanded(args[scan.first]).value, |r.value.mode.insert|)
    ensures scan.delete && scan.squeeze && scan.first + 1 == |args| && SequenceParser.Expanded(args[scan.first]).Ok? ==>
              r == Err(MissingOperand(args[scan.first]))
    ensures r.Ok? ==> (r.value.onlySqueeze <==> !scan.delete && scan.squeeze && scan.first + 1 == |args|)
    ensures r.Ok? && r.value.onlySqueeze ==> r.value.squeeze
    ensures r.Ok? && r.value.onlySqueeze ==> r.value.toSqueeze == SequenceParser.Expanded(args[scan.first]).value
    ensures r.Ok? && scan.squeeze && scan.first + 1 < |args| ==>
              r.value.toSqueeze == SequenceParser.Expanded(args[scan.first + 1]).value
  {
    if |args| <= scan.first {
      return Err(NoOperand);
    }
    var set1 := SequenceParser.EscapedSequencesToChars(args[scan.first]);
    if set1.Err? {
      return Err(set1.error);
    }
    var charsToReplace := set1.value;
    var mode := ReplaceWith([]);
    var onlySqueeze := false;
    var hasSet2 := scan.first + 1 < |args|;
    if !scan.delete {
      if hasSet2 {
        var set2 := SequenceParser.EscapedSequencesToChars(args[scan.first + 1]);
        if set2.Err? {
          return Err(set2.error);
        }
        if scan.truncate {
          charsToReplace := Truncated(charsToReplace, |set2.value|);
        }
        mode := ReplaceWith(set2.value);
      } else if scan.squeeze {
        onlySqueeze := true;
      }
    } else {
      mode := Delete;
      if scan.squeeze && !hasSet2 {
        return Err(MissingOperand(args[scan.first]));
      }
    }
    var charsToSqueeze: seq<char> := [];
    if onlySqueeze {
      var s := SequenceParser.EscapedSequencesToChars(args[scan.first]);
      charsToSqueeze := s.value;
    } else if scan.squeeze {
      var s := SequenceParser.EscapedSequencesToChars(args[scan.first + 1]);
      if s.Err? {
        return Err(s.error);
      }
      charsToSqueeze := s.value;
    }
    return Ok(Config(charsToReplace, mode, scan.complement, scan.squeeze, onlySqueeze, charsToSqueeze));
  }

  /** The whole command line: the usage line with fewer than two arguments, otherwise scan and resolve. */
  function Configured(args: seq<string>): Result<Setup> {
    if |args| < 2 then Ok(Usage)
    else match Scanned(args)
      case Err(e) => Err(e)
      case Ok(scan) =>
        match Resolved(args, scan)
        case Err(e) => Err(e)
        case Ok(config) => Ok(Ready(config))
  }

  /** main.rs:147-192 up to the read loop. */
  method Configure(args: seq<string>) returns (r: Result<Setup>)
    ensures r == Configured(args)
  {
    if |args| < 2 {
      return Ok(Usage);
    }
    var scan := ScanArguments(args);
    if scan.Err? {
      return Err(scan.error);
    }
    var config := ResolveOperands(args, scan.value);
    if config.Err? {
      return Err(config.error);
    }
    return Ok(Ready(config.value));
  }

  // ---------------------------------------------------------------------
  // Whole invocations on one line of input
  // ---------------------------------------------------------------------

  /** When n flags are followed by an operand that does not start with '-', that operand is SET1. */
  lemma ScannedOperand(args: seq<string>, n: nat)
    requires n < |args| && forall i :: 0 <= i < n ==> IsFlag(args[i])
    requires args[n] != [] && args[n][0] != '-'
    ensures Scanned(args) == Ok(Scan(Seen(args, n, IsComplementFlag), Seen(args, n, IsDeleteFlag),
                                     Seen(args, n, IsSqueezeFlag), Seen(args, n, IsTruncateFlag), n))
  {
    assert !IsFlag(args[n]);
    OptionsEndIs(args, n);
  }

  /** Replace mode maps every selected character to SET2's first character, whatever its position in SET1. */
  lemma ReplaceExample()
    ensures Configured(["abc", "xyz"]) == Ok(Ready(Config("abc", ReplaceWith("xyz"), false, false, false, [])))
    ensures LineOutput(Config("abc", ReplaceWith("xyz"), false, false, false, []), "cab") == Ok("xxx")
  {
    ScannedOperand(["abc", "xyz"], 0);
    SequenceParser.PlainTextExpanded("abc");
    SequenceParser.PlainTextExpanded("xyz");
    ReplaceLine();
  }

  lemma ReplaceLine()
    ensures Translated("cab", "abc", ReplaceWith("xyz"), false) == Ok("xxx")
  {
    var r := Translated("cab", "abc", ReplaceWith("xyz"), false).value;
    assert r[0] == 'x' && r[1] == 'x' && r[2] == 'x';
    assert r == "xxx";
  }

  /** With -d -c, everything outside SET1 is deleted. */
  lemma DeleteComplementExample()
    ensures Configured(["-d", "-c", "abc"]) == Ok(Ready(Config("abc", Delete, true, false, false, [])))
    ensures LineOutput(Config("abc", Delete, true, false, false, []), "abcdef") == Ok("abc")
  {
    DeleteComplementConfigured();
    ComplementDeletesTail();
  }

  lemma DeleteComplementConfigured()
    ensures Configured(["-d", "-c", "abc"]) == Ok(Ready(Config("abc", Delete, true, false, false, [])))
  {
    DeleteComplementScanned();
    SequenceParser.PlainTextExpanded("abc");
  }

  lemma DeleteComplementScanned()
    ensures Scanned(["-d", "-c", "abc"]) == Ok(Scan(true, true, false, false, 2))
  {
    var args := ["-d", "-c", "abc"];
    assert IsDeleteFlag(args[0]) && IsComplementFlag(args[1]);
    ScannedOperand(args, 2);
    FlagsDisjoint(args[0]);
    FlagsDisjoint(args[1]);
  }

  lemma ComplementDeletesTail()
    ensures Unselected("abcdef", "abc", true) == "abc"
  {
    assert Unselected("f", "abc", true) == [];
    assert Unselected("ef", "abc", true) == [] by { assert "ef"[1..] == "f"; }
    assert Unselected("def", "abc", true) == [] by { assert "def"[1..] == "ef"; }
    assert Unselected("cdef", "abc", true) == "c" by { assert "cdef"[1..] == "def"; }
    assert Unselected("bcdef", "abc", true) == "bc" by { assert "bcdef"[1..] == "cdef"; }
    assert "abcdef"[1..] == "bcdef";
  }

  /** -s with SET1 alone squeezes by SET1 and translates nothing. */
  lemma SqueezeOnlyExample()
    ensures Configured(["-s", "a"]) == Ok(Ready(Config("a", ReplaceWith([]), false, true, true, "a")))
    ensures LineOutput(Config("a", ReplaceWith([]), false, true, true, "a"), "aaabbb") == Ok("abbb")
  {
    var args := ["-s", "a"];
    assert IsSqueezeFlag(args[0]);
    ScannedOperand(args, 1);
    FlagsDisjoint(args[0]);
    SequenceParser.PlainTextExpanded("a");
    SqueezeLine();
  }

  lemma SqueezeLine()
    ensures Squeezed("aaabbb", "a", false) == "abbb"
  {
    var s := "aaabbb";
    assert SqueezedUpTo(s, 3, "a", false) == "a" by {
      assert SqueezedUpTo(s, 1, "a", false) == [] + ['a'];
    }
    assert SqueezedUpTo(s, 6, "a", false) == "abbb" by {
      assert Dropped(s, 4, "a", false) == false;
      assert "a" + ['b'] == "ab";
      assert "ab" + ['b'] == "abb";
      assert "abb" + ['b'] == "abbb";
    }
  }

  /** With -t, SET1 is cut to SET2's length, so the characters cut off are copied. */
  lemma TruncateExample()
    ensures Configured(["-t", "abcd", "xy"]) == Ok(Ready(Config("ab", ReplaceWith("xy"), false, false, false, [])))
    ensures LineOutput(Config("ab", ReplaceWith("xy"), false, false, false, []), "abcd") == Ok("xxcd")
  {
    var args := ["-t", "abcd", "xy"];
    assert IsTruncateFlag(args[0]);
    ScannedOperand(args, 1);
    FlagsDisjoint(args[0]);
    SequenceParser.PlainTextExpanded("abcd");
    SequenceParser.PlainTextExpanded("xy");
    assert Truncated("abcd", 2) == "ab";
    TruncateLine();
  }

  lemma TruncateLine()
    ensures Translated("abcd", "ab", ReplaceWith("xy"), false) == Ok("xxcd")
  {
    var r := Translated("abcd", "ab", ReplaceWith("xy"), false).value;
    assert r[0] == 'x' && r[1] == 'x' && r[2] == 'c' && r[3] == 'd';
    assert r == "xxcd";
  }

  /** -d -s needs two operands. */
  lemma MissingOperandExample()
    ensures Configured(["-d", "-s", "abc"]) == Err(MissingOperand("abc"))
  {
    var args := ["-d", "-s", "abc"];
    assert IsDeleteFlag(args[0]) && IsSqueezeFlag(args[1]);
    ScannedOperand(args, 2);
    SequenceParser.PlainTextExpanded("abc");
  }
}
