/**
  The character-name rule `^[a-zA-Z]+[_-]?[a-zA-Z]+$`: ASCII letters, at most one `_` or
  `-`, then letters again. `ValidName` is the matcher, a six-state automaton run over the
  name; `MatchesNamePattern` is the language of the pattern read off its three parts, and
  `NameShape` says the same thing position by position. The lemmas prove the three agree.
*/
module Names {

  predicate IsLetter(c: char) {
    'a' <= c <= 'z' || 'A' <= c <= 'Z'
  }

  predicate IsSeparator(c: char) {
    c == '_' || c == '-'
  }

  predicate AllLetters(s: string) {
    forall k | 0 <= k < |s| :: IsLetter(s[k])
  }

  /** Every character is a letter or a separator. */
  predicate InAlphabet(s: string) {
    forall k | 0 <= k < |s| :: IsLetter(s[k]) || IsSeparator(s[k])
  }

  predicate SeparatorsAt(s: string, a: int, b: int)
    requires 0 <= a < |s| && 0 <= b < |s|
  {
    IsSeparator(s[a]) && IsSeparator(s[b])
  }

  /** No two positions both hold a separator. */
  predicate AtMostOneSeparator(s: string) {
    forall a, b | 0 <= a < b < |s| :: !SeparatorsAt(s, a, b)
  }

  /**
    The language of the pattern, part by part: `[a-zA-Z]+` then `[a-zA-Z]+` with nothing
    between them, or with one `[_-]` between them. The anchors make the parts cover the
    whole name.
  */
  ghost predicate MatchesNamePattern(s: string) {
    || (exists i | 1 <= i < |s| :: AllLetters(s[..i]) && AllLetters(s[i..]))
    || (exists i | 1 <= i < |s| - 1 :: AllLetters(s[..i]) && IsSeparator(s[i]) && AllLetters(s[i + 1..]))
  }

  /**
    The same language stated position by position: at least two characters, the first and
    the last a letter, nothing but letters and separators, and at most one separator.
  */
  ghost predicate NameShape(s: string) {
    && |s| >= 2
    && IsLetter(s[0])
    && IsLetter(s[|s| - 1])
    && InAlphabet(s)
    && AtMostOneSeparator(s)
  }

  /** The states of the matcher: what it has read so far. */
  datatype Scan =
    | Start           // nothing
    | OneLetter       // one letter
    | Letters         // two or more letters
    | AfterSeparator  // letters, then a separator
    | Tail            // letters, a separator, then letters
    | Reject          // anything else

  function Step(q: Scan, c: char): (next: Scan) {
    match q
    case Start => if IsLetter(c) then OneLetter else Reject
    case OneLetter => if IsLetter(c) then Letters else if IsSeparator(c) then AfterSeparator else Reject
    case Letters => if IsLetter(c) then Letters else if IsSeparator(c) then AfterSeparator else Reject
    case AfterSeparator => if IsLetter(c) then Tail else Reject
    case Tail => if IsLetter(c) then Tail else Reject
    case Reject => Reject
  }

  function Run(q: Scan, s: string): (last: Scan)
    decreases |s|
  {
    if s == [] then q else Run(Step(q, s[0]), s[1..])
  }

  predicate Accepting(q: Scan) {
    q == Letters || q == Tail
  }

  /** What the rest of a name must look like for the matcher, now in state `q`, to accept. */
  ghost predicate Residual(q: Scan, s: string) {
    match q
    case Start => NameShape(s)
    case OneLetter => |s| >= 1 && IsLetter(s[|s| - 1]) && InAlphabet(s) && AtMostOneSeparator(s)
    case Letters => (|s| == 0 || IsLetter(s[|s| - 1])) && InAlphabet(s) && AtMostOneSeparator(s)
    case AfterSeparator => |s| >= 1 && AllLetters(s)
    case Tail => AllLetters(s)
    case Reject => false
  }

  /** The name check of the character service. */
  predicate ValidName(name: string) {
    Accepting(Run(Start, name))
  }

  lemma {:induction false} RunAcceptsResidual(q: Scan, s: string)
    ensures Accepting(Run(q, s)) <==> Residual(q, s)
    decreases |s|
  {
    if s == [] {
    } else {
      var c, t := s[0], s[1..];
      RunAcceptsResidual(Step(q, c), t);
      assert forall k | 0 <= k < |t| :: t[k] == s[k + 1];
      if q == Start {
        if IsLetter(c) {
          assert Residual(OneLetter, t) ==> NameShape(s) by {
            if Residual(OneLetter, t) {
              assert s[|s| - 1] == t[|t| - 1];
              forall a, b | 0 <= a < b < |s|
                ensures !SeparatorsAt(s, a, b)
              {
                if a > 0 { assert s[a] == t[a - 1] && s[b] == t[b - 1] && !SeparatorsAt(t, a - 1, b - 1); }
              }
            }
          }
          assert NameShape(s) ==> Residual(OneLetter, t) by {
            if NameShape(s) {
              assert s[|s| - 1] == t[|t| - 1];
              forall a, b | 0 <= a < b < |t|
                ensures !SeparatorsAt(t, a, b)
              {
                assert t[a] == s[a + 1] && t[b] == s[b + 1] && !SeparatorsAt(s, a + 1, b + 1);
              }
            }
          }
        }
      } else if q == OneLetter || q == Letters {
        if IsLetter(c) {
          assert Residual(Letters, t) ==> Residual(q, s) by {
            if Residual(Letters, t) {
              assert |t| > 0 ==> s[|s| - 1] == t[|t| - 1];
              forall a, b | 0 <= a < b < |s|
                ensures !SeparatorsAt(s, a, b)
              {
                if a > 0 { assert s[a] == t[a - 1] && s[b] == t[b - 1] && !SeparatorsAt(t, a - 1, b - 1); }
              }
            }
          }
          assert Residual(q, s) ==> Residual(Letters, t) by {
            if Residual(q, s) {
              assert |t| > 0 ==> s[|s| - 1] == t[|t| - 1];
              forall a, b | 0 <= a < b < |t|
                ensures !SeparatorsAt(t, a, b)
              {
                assert t[a] == s[a + 1] && t[b] == s[b + 1] && !SeparatorsAt(s, a + 1, b + 1);
              }
            }
          }
        } else if IsSeparator(c) {
          assert Residual(AfterSeparator, t) ==> Residual(q, s) by {
            if Residual(AfterSeparator, t) {
              assert s[|s| - 1] == t[|t| - 1];
              forall a, b | 0 <= a < b < |s|
                ensures !SeparatorsAt(s, a, b)
              {
                assert s[b] == t[b - 1];
              }
            }
          }
          assert Residual(q, s) ==> Residual(AfterSeparator, t) by {
            if Residual(q, s) {
              forall k | 0 <= k < |t|
                ensures IsLetter(t[k])
              {
                assert !SeparatorsAt(s, 0, k + 1);
              }
            }
          }
        } else {
          assert !InAlphabet(s) by { assert !(IsLetter(s[0]) || IsSeparator(s[0])); }
        }
      } else if q == AfterSeparator || q == Tail {
        if IsLetter(c) {
          assert AllLetters(s) <==> AllLetters(t);
        } else {
          assert !AllLetters(s) by { assert !IsLetter(s[0]); }
        }
      }
    }
  }

  /** The matcher accepts exactly the names of the shape described by `NameShape`. */
  lemma ValidNameIffShape(name: string)
    ensures ValidName(name) <==> NameShape(name)
  {
    RunAcceptsResidual(Start, name);
  }

  /** In a name of the right shape, every position but the separator's holds a letter. */
  lemma OnlySeparator(s: string, k: int, j: int)
    requires NameShape(s) && 0 <= k < |s| && IsSeparator(s[k])
    requires 0 <= j < |s| && j != k
    ensures IsLetter(s[j])
  {
    if j < k {
      assert !SeparatorsAt(s, j, k);
    } else {
      assert !SeparatorsAt(s, k, j);
    }
  }

  lemma LettersBetween(s: string, lo: int, hi: int)
    requires 0 <= lo <= hi <= |s|
    requires forall j | lo <= j < hi :: IsLetter(s[j])
    ensures AllLetters(s[lo..hi])
  {
  }

  /** A name of the right shape is in the pattern's language. */
  lemma ShapeMatchesPattern(s: string)
    requires NameShape(s)
    ensures MatchesNamePattern(s)
  {
    if k :| 0 <= k < |s| && IsSeparator(s[k]) {
      assert k != 0 && k != |s| - 1;
      forall j | 0 <= j < |s| && j != k
        ensures IsLetter(s[j])
      {
        OnlySeparator(s, k, j);
      }
      LettersBetween(s, 0, k);
      LettersBetween(s, k + 1, |s|);
      assert s[k + 1..] == s[k + 1..|s|];
    } else {
      assert AllLetters(s);
      LettersBetween(s, 0, 1);
      LettersBetween(s, 1, |s|);
      assert s[1..] == s[1..|s|];
    }
  }

  /** A name made of two runs of letters has the shape. */
  lemma LettersHaveShape(s: string, i: int)
    requires 1 <= i < |s| && AllLetters(s[..i]) && AllLetters(s[i..])
    ensures NameShape(s)
  {
  }

  /** A name made of letters, one separator, and letters has the shape. */
  lemma SeparatedLettersHaveShape(s: string, i: int)
    requires 1 <= i < |s| - 1 && AllLetters(s[..i]) && IsSeparator(s[i]) && AllLetters(s[i + 1..])
    ensures NameShape(s)
  {
  }

  /** Every name in the pattern's language has the shape. */
  lemma PatternHasShape(s: string)
    requires MatchesNamePattern(s)
    ensures NameShape(s)
  {
    if i :| 1 <= i < |s| && AllLetters(s[..i]) && AllLetters(s[i..]) {
      LettersHaveShape(s, i);
    } else {
      var i :| 1 <= i < |s| - 1 && AllLetters(s[..i]) && IsSeparator(s[i]) && AllLetters(s[i + 1..]);
      SeparatedLettersHaveShape(s, i);
    }
  }

  /** The matcher accepts a name exactly when the name is in the language of the pattern. */
  lemma ValidNameIffPattern(name: string)
    ensures ValidName(name) <==> MatchesNamePattern(name)
  {
    ValidNameIffShape(name);
    if NameShape(name) { ShapeMatchesPattern(name); }
    if MatchesNamePattern(name) { PatternHasShape(name); }
  }

  /**
    What an accepted name can never be: shorter than two characters, holding a digit or
    any other character outside `[a-zA-Z_-]`, starting or ending with a separator, or
    holding two separators (in particular two in a row).
  */
  lemma AcceptedNameProperties(name: string)
    requires ValidName(name)
    ensures |name| >= 2
    ensures forall k | 0 <= k < |name| :: !('0' <= name[k] <= '9')
    ensures !IsSeparator(name[0]) && !IsSeparator(name[|name| - 1])
    ensures forall k | 1 <= k < |name| :: !(IsSeparator(name[k - 1]) && IsSeparator(name[k]))
  {
    ValidNameIffShape(name);
    forall k | 0 <= k < |name| ensures !('0' <= name[k] <= '9') {
      assert IsLetter(name[k]) || IsSeparator(name[k]);
    }
    forall k | 1 <= k < |name| ensures !(IsSeparator(name[k - 1]) && IsSeparator(name[k])) {
      assert !SeparatorsAt(name, k - 1, k);
    }
  }

  lemma TestUnderscoreNameAccepted()
    ensures ValidName("Test_name")
  {
  }

  lemma TestcharAccepted()
    ensures ValidName("Testchar")
  {
  }

  lemma TestDashNameAccepted()
    ensures ValidName("Test-Name")
  {
  }

  lemma ShortNamesRejected()
    ensures !ValidName("") && !ValidName("a")
  {
  }

  lemma MisplacedSeparatorsRejected()
    ensures !ValidName("_test") && !ValidName("test_") && !ValidName("te--st") && !ValidName("te_s-t")
  {
  }

  lemma DigitsRejected()
    ensures !ValidName("test123")
  {
  }
}
