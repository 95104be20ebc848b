/** The local strength score of password_checker.py (`calcular_forca_senha`):
    five criteria, one point for each one met and an advisory for each one
    missed, a bonus point for twelve characters or more, and a three-way
    classification of the score.  Character classes are the ASCII ones. */
module PasswordStrength {
  import PythonText

  /** The keys of the `criterios` dictionary, in its insertion order. */
  datatype Criterion = MinLength | HasUpper | HasLower | HasDigit | HasSpecial

  const Criteria: seq<Criterion> := [MinLength, HasUpper, HasLower, HasDigit, HasSpecial]

  /** One entry of the feedback list: the advisory for a criterion that is
      not met, or the note that the password is long. */
  datatype Feedback = Advice(unmet: Criterion) | LongPasswordNote

  /** FRACA, MÉDIA, FORTE. */
  datatype Level = Weak | Medium | Strong

  /** The dictionary `calcular_forca_senha` returns. */
  datatype Strength = Strength(
    level: Level,
    score: int,
    feedback: seq<Feedback>,
    criteriaMet: nat,
    totalCriteria: nat)

  predicate IsUpper(c: char) { 'A' <= c <= 'Z' }

  predicate IsLower(c: char) { 'a' <= c <= 'z' }

  /** The characters of the class `[!@#$%^&*(),.?":{}|<>]`. */
  predicate IsSpecial(c: char)
  {
    c in "!@#$%^&*(),.?\":{}|<>"
  }

  predicate ContainsUpper(s: string) { exists i | 0 <= i < |s| :: IsUpper(s[i]) }

  predicate ContainsLower(s: string) { exists i | 0 <= i < |s| :: IsLower(s[i]) }

  predicate ContainsDigit(s: string) { exists i | 0 <= i < |s| :: PythonText.IsDigit(s[i]) }

  predicate ContainsSpecial(s: string) { exists i | 0 <= i < |s| :: IsSpecial(s[i]) }

  /** The value the `criterios` dictionary holds for criterion `c`. */
  predicate Met(c: Criterion, password: string)
  {
    match c
    case MinLength => |password| >= 8
    case HasUpper => ContainsUpper(password)
    case HasLower => ContainsLower(password)
    case HasDigit => ContainsDigit(password)
    case HasSpecial => ContainsSpecial(password)
  }

  /** Position of `c` in the evaluation order. */
  function Rank(c: Criterion): (r: nat)
    ensures r < |Criteria| && Criteria[r] == c
  {
    match c
    case MinLength => 0
    case HasUpper => 1
    case HasLower => 2
    case HasDigit => 3
    case HasSpecial => 4
  }

  function Indicator(b: bool): nat
  {
    if b then 1 else 0
  }

  /** Number of criteria met among the first `n` of the evaluation order. */
  function MetCount(password: string, n: nat): (k: nat)
    requires n <= |Criteria|
    ensures k <= n
  {
    if n == 0 then 0
    else MetCount(password, n - 1) + Indicator(Met(Criteria[n - 1], password))
  }

  /** Advisories for the criteria missed among the first `n`, in order. */
  function Advisories(password: string, n: nat): (fb: seq<Feedback>)
    requires n <= |Criteria|
    ensures |fb| <= n
    ensures forall k | 0 <= k < |fb| :: fb[k].Advice? && !Met(fb[k].unmet, password)
  {
    if n == 0 then []
    else
      Advisories(password, n - 1) +
      (if Met(Criteria[n - 1], password) then [] else [Advice(Criteria[n - 1])])
  }

  /** The extra point for a password of twelve characters or more. */
  function LengthBonus(password: string): nat
  {
    if |password| >= 12 then 1 else 0
  }

  /** The if/elif chain on the final score. */
  function Classify(score: int): (level: Level)
    ensures level == Strong <==> score >= 5
    ensures level == Medium <==> 3 <= score < 5
    ensures level == Weak <==> score < 3
  {
    if score >= 5 then Strong
    else if score >= 3 then Medium
    else Weak
  }

  /** What `calcular_forca_senha(password)` returns. */
  function StrengthOf(password: string): (s: Strength)
    ensures 0 <= s.score <= 6
    ensures s.criteriaMet <= s.totalCriteria == 5
  {
    var met := MetCount(password, |Criteria|);
    var score := met + LengthBonus(password);
    var notes := if |password| >= 12 then [LongPasswordNote] else [];
    Strength(Classify(score), score, Advisories(password, |Criteria|) + notes, met, |Criteria|)
  }

  /** `calcular_forca_senha`: the score and the feedback list are built up
      criterion by criterion, as the source's loop over the dictionary does. */
  method AssessStrength(password: string) returns (r: Strength)
    ensures r == StrengthOf(password)
  {
    var score := 0;
    var feedback: seq<Feedback> := [];
    for i := 0 to |Criteria|
      invariant score == MetCount(password, i)
      invariant feedback == Advisories(password, i)
    {
      var criterion := Criteria[i];
      if Met(criterion, password) {
        score := score + 1;
      } else {
        feedback := feedback + [Advice(criterion)];
      }
    }
    if |password| >= 12 {
      score := score + 1;
      feedback := feedback + [LongPasswordNote];
    }
    var level := Classify(score);
    r := Strength(level, score, feedback, MetCount(password, |Criteria|), |Criteria|);
  }

  // ---------------------------------------------------------------------
  // Properties of the score
  // ---------------------------------------------------------------------

  /** The score is the number of criteria met plus the length bonus. */
  lemma ScoreIsCriteriaPlusBonus(password: string)
    ensures StrengthOf(password).score ==
              StrengthOf(password).criteriaMet + (if |password| >= 12 then 1 else 0)
    ensures StrengthOf(password).criteriaMet ==
              |set c: Criterion | Met(c, password)|
  {
    MetCountIsSetSize(password);
  }

  /** The criteria met, as a set. */
  ghost function MetSet(password: string, n: nat): set<Criterion>
    requires n <= |Criteria|
  {
    set c: Criterion | Rank(c) < n && Met(c, password)
  }

  /** The running count is the size of the set of criteria met so far. */
  lemma {:induction false} MetCountIsSetSizeUpTo(password: string, n: nat)
    requires n <= |Criteria|
    ensures MetCount(password, n) == |MetSet(password, n)|
  {
    if n == 0 {
      assert MetSet(password, 0) == {};
    } else {
      MetCountIsSetSizeUpTo(password, n - 1);
      var c := Criteria[n - 1];
      assert Rank(c) == n - 1;
      if Met(c, password) {
        assert MetSet(password, n) == MetSet(password, n - 1) + {c};
      } else {
        assert MetSet(password, n) == MetSet(password, n - 1);
      }
    }
  }

  lemma MetCountIsSetSize(password: string)
    ensures MetCount(password, |Criteria|) == |set c: Criterion | Met(c, password)|
  {
    MetCountIsSetSizeUpTo(password, |Criteria|);
    assert MetSet(password, |Criteria|) == set c: Criterion | Met(c, password);
  }

  /** The count over all five criteria, spelled out. */
  lemma MetCountUnfolded(password: string)
    ensures MetCount(password, |Criteria|) ==
              Indicator(Met(MinLength, password)) + Indicator(Met(HasUpper, password)) +
              Indicator(Met(HasLower, password)) + Indicator(Met(HasDigit, password)) +
              Indicator(Met(HasSpecial, password))
  {
    assert MetCount(password, 1) == Indicator(Met(MinLength, password));
    assert MetCount(password, 2) == MetCount(password, 1) + Indicator(Met(HasUpper, password));
    assert MetCount(password, 3) == MetCount(password, 2) + Indicator(Met(HasLower, password));
    assert MetCount(password, 4) == MetCount(password, 3) + Indicator(Met(HasDigit, password));
  }

  /** The classification only goes up as the score goes up. */
  function LevelOrder(level: Level): nat
  {
    match level
    case Weak => 0
    case Medium => 1
    case Strong => 2
  }

  lemma ClassifyMonotone(a: int, b: int)
    requires a <= b
    ensures LevelOrder(Classify(a)) <= LevelOrder(Classify(b))
  {
  }

  /** Inserting characters anywhere in a password never un-meets a criterion. */
  lemma MetPreservedByInsertion(c: Criterion, before: string, extra: string, after: string)
    requires Met(c, before + after)
    ensures Met(c, before + extra + after)
  {
    var p := before + after;
    var q := before + extra + after;
    if c != MinLength {
      var i :| 0 <= i < |p| && (match c
        case HasUpper => IsUpper(p[i])
        case HasLower => IsLower(p[i])
        case HasDigit => PythonText.IsDigit(p[i])
        case HasSpecial => IsSpecial(p[i])
        case MinLength => true);
      var j := if i < |before| then i else i + |extra|;
      assert q[j] == p[i];
    }
  }

  /** So inserting characters never lowers the score or the level. */
  lemma ScoreMonotoneUnderInsertion(before: string, extra: string, after: string)
    ensures StrengthOf(before + after).score <= StrengthOf(before + extra + after).score
    ensures LevelOrder(StrengthOf(before + after).level) <=
              LevelOrder(StrengthOf(before + extra + after).level)
  {
    var p := before + after;
    var q := before + extra + after;
    MetCountUnfolded(p);
    MetCountUnfolded(q);
    forall c: Criterion ensures Met(c, p) ==> Met(c, q) {
      if Met(c, p) {
        MetPreservedByInsertion(c, before, extra, after);
      }
    }
    ClassifyMonotone(StrengthOf(p).score, StrengthOf(q).score);
  }

  // ---------------------------------------------------------------------
  // Properties of the feedback list
  // ---------------------------------------------------------------------

  /** One advisory per criterion missed. */
  lemma {:induction false} AdvisoriesCount(password: string, n: nat)
    requires n <= |Criteria|
    ensures |Advisories(password, n)| == n - MetCount(password, n)
  {
    if n > 0 {
      AdvisoriesCount(password, n - 1);
    }
  }

  /** An advisory for `c` is present exactly when `c` was examined and missed. */
  lemma {:induction false} AdvisoriesMembership(password: string, n: nat, c: Criterion)
    requires n <= |Criteria|
    ensures Advice(c) in Advisories(password, n) <==> Rank(c) < n && !Met(c, password)
  {
    if n > 0 {
      AdvisoriesMembership(password, n - 1, c);
      var d := Criteria[n - 1];
      assert Rank(d) == n - 1;
      var tail := if Met(d, password) then [] else [Advice(d)];
      assert Advisories(password, n) == Advisories(password, n - 1) + tail;
      assert Advice(c) in tail <==> c == d && !Met(d, password);
    }
  }

  /** Advisories come in the evaluation order of their criteria. */
  lemma {:induction false} AdvisoriesOrdered(password: string, n: nat)
    requires n <= |Criteria|
    ensures forall k | 0 <= k < |Advisories(password, n)| ::
              Advisories(password, n)[k].Advice? && Rank(Advisories(password, n)[k].unmet) < n
    ensures forall i, j | 0 <= i < j < |Advisories(password, n)| ::
              Rank(Advisories(password, n)[i].unmet) < Rank(Advisories(password, n)[j].unmet)
  {
    if n > 0 {
      AdvisoriesOrdered(password, n - 1);
      assert Rank(Criteria[n - 1]) == n - 1;
    }
  }

  /** Position of a feedback entry: the advisories in criterion order, then the note. */
  function FeedbackRank(f: Feedback): nat
  {
    match f
    case Advice(c) => Rank(c)
    case LongPasswordNote => |Criteria|
  }

  /** The feedback list holds an advisory for exactly the criteria missed
      and the long-password note exactly when the bonus applies, strictly in
      the order min_length, has_upper, has_lower, has_digit, has_special,
      note; so its length is the number missed plus the bonus. */
  lemma FeedbackCharacterised(password: string)
    ensures var fb := StrengthOf(password).feedback;
      && (forall c: Criterion :: Advice(c) in fb <==> !Met(c, password))
      && (LongPasswordNote in fb <==> |password| >= 12)
      && (forall i, j | 0 <= i < j < |fb| :: FeedbackRank(fb[i]) < FeedbackRank(fb[j]))
      && |fb| == 5 - StrengthOf(password).criteriaMet + LengthBonus(password)
  {
    var advice := Advisories(password, |Criteria|);
    var fb := StrengthOf(password).feedback;
    AdvisoriesCount(password, |Criteria|);
    AdvisoriesOrdered(password, |Criteria|);
    forall c: Criterion
      ensures Advice(c) in fb <==> !Met(c, password)
    {
      AdvisoriesMembership(password, |Criteria|, c);
    }
    assert LongPasswordNote !in advice;
    forall i, j | 0 <= i < j < |fb|
      ensures FeedbackRank(fb[i]) < FeedbackRank(fb[j])
    {
      if j < |advice| {
        assert fb[i] == advice[i] && fb[j] == advice[j];
      } else {
        assert fb[i] == advice[i];
      }
    }
  }

  // ---------------------------------------------------------------------
  // Reference passwords
  // ---------------------------------------------------------------------

  /** Meeting all five criteria is always FORTE. */
  lemma AllCriteriaStrong(password: string)
    requires forall c: Criterion :: Met(c, password)
    ensures StrengthOf(password).level == Strong
  {
    MetCountUnfolded(password);
    assert Met(MinLength, password) && Met(HasUpper, password) && Met(HasLower, password);
    assert Met(HasDigit, password) && Met(HasSpecial, password);
  }

  /** Twelve characters or more with upper and lower case and a digit is
      FORTE even without a special character. */
  lemma LongWithoutSpecialStrong(password: string)
    requires |password| >= 12
    requires ContainsUpper(password) && ContainsLower(password) && ContainsDigit(password)
    ensures StrengthOf(password).score >= 5
    ensures StrengthOf(password).level == Strong
  {
    MetCountUnfolded(password);
  }

  /** A string of lower-case letters has no upper-case letter, digit or
      special character. */
  lemma LowercaseOnlyClasses(password: string)
    requires forall i | 0 <= i < |password| :: IsLower(password[i])
    ensures !ContainsUpper(password) && !ContainsDigit(password) && !ContainsSpecial(password)
  {
    forall i | 0 <= i < |password|
      ensures !IsUpper(password[i]) && !PythonText.IsDigit(password[i]) && !IsSpecial(password[i])
    {
      assert IsLower(password[i]);
    }
  }

  /** So it meets has_lower and no other character criterion. */
  lemma LowercaseOnlyCriteria(password: string)
    requires password != []
    requires forall i | 0 <= i < |password| :: IsLower(password[i])
    ensures MetCount(password, |Criteria|) == (if |password| >= 8 then 2 else 1)
  {
    MetCountUnfolded(password);
    LowercaseOnlyClasses(password);
    assert IsLower(password[0]);
  }

  /** Seven lower-case letters: only has_lower is met, score 1, FRACA. */
  lemma SevenLowercaseWeak(password: string)
    requires |password| == 7
    requires forall i | 0 <= i < |password| :: IsLower(password[i])
    ensures StrengthOf(password).score == 1
    ensures StrengthOf(password).level == Weak
  {
    LowercaseOnlyCriteria(password);
  }

  /** "abcdefghijkl": min_length, has_lower and the bonus, score 3, MÉDIA. */
  lemma TwelveLowercaseMedium()
    ensures StrengthOf("abcdefghijkl").score == 3
    ensures StrengthOf("abcdefghijkl").level == Medium
    ensures StrengthOf("abcdefghijkl").feedback ==
              [Advice(HasUpper), Advice(HasDigit), Advice(HasSpecial), LongPasswordNote]
  {
    var p := "abcdefghijkl";
    assert forall i | 0 <= i < |p| :: IsLower(p[i]);
    LowercaseOnlyCriteria(p);
    LowercaseOnlyClasses(p);
    assert Met(HasLower, p) by { assert IsLower(p[0]); }
  }

  /** "Password1!": all five criteria, no bonus, score 5, FORTE, no feedback. */
  lemma ReferencePasswordStrong()
    ensures StrengthOf("Password1!").score == 5
    ensures StrengthOf("Password1!").level == Strong
    ensures StrengthOf("Password1!").feedback == []
  {
    var p := "Password1!";
    assert IsUpper(p[0]) && IsLower(p[1]) && PythonText.IsDigit(p[8]) && IsSpecial(p[9]);
    assert Met(Criteria[0], p) && Met(Criteria[1], p) && Met(Criteria[2], p);
    assert Met(Criteria[3], p) && Met(Criteria[4], p);
  }

  /** The empty password: score 0, all five advisories, FRACA. */
  lemma EmptyPasswordWeak()
    ensures StrengthOf("").score == 0
    ensures StrengthOf("").level == Weak
    ensures StrengthOf("").feedback ==
              [Advice(MinLength), Advice(HasUpper), Advice(HasLower), Advice(HasDigit), Advice(HasSpecial)]
  {
  }
}
