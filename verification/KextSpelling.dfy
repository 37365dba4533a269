/**
 What version strings mean, part by part and without a scanner: a text is accepted exactly when it is
 put together from digits, periods and stage letters in one of these ways, and its value is that of
 the parts.
 */
module KextSpelling {
  import opened KextVersion

  /**
   The parts of a version string.  `fields` is how many periods separate numbers; the numbers behind
   a period may be empty, and a period may follow a revision of four digits.
   */
  datatype Spelling = Spelling(
    major: string,
    fields: nat,
    minor: string,
    revision: string,
    period: bool,
    letters: string,
    level: string)

  function Ending(s: Spelling): string { s.letters + s.level }

  function FromRevision(s: Spelling): string { s.revision + (if s.period then "." else "") + Ending(s) }

  function FromMinor(s: Spelling): string { s.minor + if s.fields >= 2 then "." + FromRevision(s) else Ending(s) }

  function Text(s: Spelling): string { s.major + if s.fields >= 1 then "." + FromMinor(s) else Ending(s) }

  predicate IsField(d: string) { |d| <= 4 && AllDigits(d) }

  predicate IsCandidate(letters: string) { letters == "f" || letters == "fc" }

  /** No stage and no level, or a stage and one to three digits of level: at most 255, and not 0 for a candidate. */
  predicate ProperEnding(letters: string, level: string) {
    if letters == "" then level == ""
    else
      && (letters == "d" || letters == "a" || letters == "b" || IsCandidate(letters))
      && 1 <= |level| <= 3 && AllDigits(level) && Number(level) <= LEVEL_MAX
      && (IsCandidate(letters) ==> Number(level) >= 1)
  }

  /** Everything behind the major number. */
  predicate ProperRest(s: Spelling) {
    && IsField(s.minor) && IsField(s.revision)
    && s.fields <= 2 && (s.fields < 1 ==> s.minor == "") && (s.fields < 2 ==> s.revision == "")
    && (s.period ==> s.fields == 2 && |s.revision| == 4)
    && ProperEnding(s.letters, s.level)
  }

  predicate Proper(s: Spelling) { IsField(s.major) && s.major != "" && ProperRest(s) }

  function StageMeant(letters: string): int {
    if letters == "d" then DEVELOPMENT else if letters == "a" then ALPHA else if letters == "b" then BETA
    else if IsCandidate(letters) then CANDIDATE else RELEASE
  }

  /** The numbers of the parts. */
  function Meaning(s: Spelling): Version
    requires Proper(s)
  {
    Version(Number(s.major), Number(s.minor), Number(s.revision), StageMeant(s.letters), Number(s.level))
  }

  // ---- From the parts to the value --------------------------------------------------------------------

  /** The digits d stand from i to j, and no more behind them. */
  predicate FieldAt(t: string, i: nat, j: nat, d: string) {
    i <= j <= |t| && t[i..j] == d && IsField(d) && (j < |t| ==> !IsDigit(t[j]))
  }

  /** An ending stands from i on. */
  predicate EndingAt(t: string, i: nat, letters: string, level: string) {
    && ProperEnding(letters, level)
    && i + |letters| <= |t| && t[i..i + |letters|] == letters && t[i + |letters|..] == level
  }

  lemma FieldEnds(t: string, i: nat, j: nat, d: string)
    requires FieldAt(t, i, j, d)
    ensures DigitsEnd(t, i) == j && j - i <= 4
  {
    assert forall k :: i <= k < j ==> t[k] == t[i..j][k - i];
    EndsAt(t, i, j);
  }

  lemma EndsAt(t: string, i: nat, j: nat)
    requires i <= j <= |t| && (forall k :: i <= k < j ==> IsDigit(t[k])) && (j < |t| ==> !IsDigit(t[j]))
    ensures DigitsEnd(t, i) == j
  {
  }

  lemma LevelRead(t: string, i: nat, level: string, v: Version)
    requires i <= |t| && t[i..] == level && 1 <= |level| <= 3 && AllDigits(level) && Number(level) <= LEVEL_MAX
    requires v.stage == CANDIDATE ==> Number(level) >= 1
    ensures LevelOf(t, i, v) == Valid(v.(level := Number(level)))
  {
    assert t[i..|t|] == level;
    FieldEnds(t, i, |t|, level);
  }

  lemma LettersRead(t: string, i: nat, letters: string, level: string)
    requires EndingAt(t, i, letters, level) && letters != ""
    ensures i < |t| && StageAt(t, i) == (StageMeant(letters), i + |letters|)
  {
    var k := i + |letters|;
    assert t[i] == t[i..k][0] && t[k] == t[k..][0];
    assert |letters| == 2 ==> t[i + 1] == t[i..k][1];
  }

  lemma EndingRead(t: string, i: nat, letters: string, level: string, v: Version)
    requires EndingAt(t, i, letters, level)
    ensures StageOf(t, i, v) == Valid(v.(stage := StageMeant(letters), level := Number(level)))
    ensures i == |t| || IsStageLetter(t[i])
  {
    if letters != "" {
      LettersRead(t, i, letters, level);
      LevelRead(t, i + |letters|, level, v.(stage := StageMeant(letters)));
      assert t[i] == t[i..i + |letters|][0];
    }
  }

  /** What the grammar does behind the digits of a number. */
  lemma RevisionRules(t: string, i: nat, j: nat, d: string, v: Version)
    requires FieldAt(t, i, j, d)
    ensures j == |t| || IsStageLetter(t[j]) ==> RevisionOf(t, i, v) == StageOf(t, j, v.(revision := Number(d)))
    ensures j < |t| && t[j] == '.' && j - i == 4 ==> RevisionOf(t, i, v) == StageOf(t, j + 1, v.(revision := Number(d)))
  {
    FieldEnds(t, i, j, d);
  }

  lemma MinorRules(t: string, i: nat, j: nat, d: string, v: Version)
    requires FieldAt(t, i, j, d)
    ensures j == |t| || IsStageLetter(t[j]) ==> MinorOf(t, i, v) == StageOf(t, j, v.(minor := Number(d)))
    ensures j < |t| && t[j] == '.' ==> MinorOf(t, i, v) == RevisionOf(t, j + 1, v.(minor := Number(d)))
  {
    FieldEnds(t, i, j, d);
  }

  lemma MajorRules(t: string, j: nat, d: string)
    requires FieldAt(t, 0, j, d) && j > 0
    ensures j == |t| || IsStageLetter(t[j]) ==> VersionOf(t) == StageOf(t, j, Version(Number(d), 0, 0, 0, 0))
    ensures j < |t| && t[j] == '.' ==> VersionOf(t) == MinorOf(t, j + 1, Version(Number(d), 0, 0, 0, 0))
  {
    FieldEnds(t, 0, j, d);
  }

  /** A period stands at j. */
  predicate PeriodAt(t: string, j: nat) { j < |t| && t[j] == '.' }

  /** A revision and an ending stand from k on, the ending from e on. */
  predicate RevisionAt(t: string, k: nat, s: Spelling, e: nat) {
    && FieldAt(t, k, k + |s.revision|, s.revision) && EndingAt(t, e, s.letters, s.level)
    && (s.period ==> PeriodAt(t, k + |s.revision|) && |s.revision| == 4)
    && e == k + |s.revision| + if s.period then 1 else 0
  }

  lemma RevisionEndRead(t: string, k: nat, j: nat, d: string, letters: string, level: string, v: Version)
    requires FieldAt(t, k, j, d) && EndingAt(t, j, letters, level)
    ensures RevisionOf(t, k, v) ==
            Valid(v.(revision := Number(d), stage := StageMeant(letters), level := Number(level)))
  {
    EndingRead(t, j, letters, level, v.(revision := Number(d)));
    RevisionRules(t, k, j, d, v);
  }

  lemma RevisionPeriodRead(t: string, k: nat, j: nat, d: string, letters: string, level: string, v: Version)
    requires FieldAt(t, k, j, d) && |d| == 4 && PeriodAt(t, j) && EndingAt(t, j + 1, letters, level)
    ensures RevisionOf(t, k, v) ==
            Valid(v.(revision := Number(d), stage := StageMeant(letters), level := Number(level)))
  {
    EndingRead(t, j + 1, letters, level, v.(revision := Number(d)));
    RevisionRules(t, k, j, d, v);
  }

  lemma RevisionRead(t: string, k: nat, s: Spelling, e: nat, v: Version)
    requires RevisionAt(t, k, s, e)
    ensures RevisionOf(t, k, v) ==
            Valid(v.(revision := Number(s.revision), stage := StageMeant(s.letters), level := Number(s.level)))
  {
    var j := k + |s.revision|;
    if s.period {
      RevisionPeriodRead(t, k, j, s.revision, s.letters, s.level, v);
    } else {
      RevisionEndRead(t, k, j, s.revision, s.letters, s.level, v);
    }
  }

  /** A minor number stands at i, and a revision or an ending behind it. */
  predicate MinorAt(t: string, i: nat, s: Spelling, e: nat) {
    var j := i + |s.minor|;
    && FieldAt(t, i, j, s.minor)
    && if s.fields == 1 then e == j && EndingAt(t, e, s.letters, s.level)
       else PeriodAt(t, j) && RevisionAt(t, j + 1, s, e)
  }

  lemma MinorEndRead(t: string, i: nat, j: nat, d: string, letters: string, level: string, v: Version)
    requires FieldAt(t, i, j, d) && EndingAt(t, j, letters, level)
    ensures MinorOf(t, i, v) == Valid(v.(minor := Number(d), stage := StageMeant(letters), level := Number(level)))
  {
    var w := v.(minor := Number(d));
    EndingRead(t, j, letters, level, w);
    MinorRules(t, i, j, d, v);
  }

  lemma MinorPeriodRead(t: string, i: nat, j: nat, d: string, s: Spelling, e: nat, v: Version)
    requires FieldAt(t, i, j, d) && PeriodAt(t, j) && RevisionAt(t, j + 1, s, e)
    ensures MinorOf(t, i, v) == Valid(v.(minor := Number(d), revision := Number(s.revision),
                                         stage := StageMeant(s.letters), level := Number(s.level)))
  {
    var w := v.(minor := Number(d));
    MinorRules(t, i, j, d, v);
    RevisionRead(t, j + 1, s, e, w);
  }

  lemma MinorRead(t: string, i: nat, s: Spelling, e: nat, v: Version)
    requires MinorAt(t, i, s, e) && (s.fields == 1 ==> s.revision == "") && AllDigits(s.revision) && v.revision == 0
    ensures MinorOf(t, i, v) == Valid(v.(minor := Number(s.minor), revision := Number(s.revision),
                                         stage := StageMeant(s.letters), level := Number(s.level)))
  {
    var j := i + |s.minor|;
    if s.fields == 1 {
      MinorEndRead(t, i, j, s.minor, s.letters, s.level, v);
    } else {
      MinorPeriodRead(t, i, j, s.minor, s, e, v);
    }
  }

  // ---- Where the parts stand ------------------------------------------------------------------------

  lemma Peel(t: string, i: nat, d: string, rest: string)
    requires i <= |t| && t[i..] == d + rest
    ensures i + |d| <= |t| && t[i..i + |d|] == d && t[i + |d|..] == rest
    ensures if rest == "" then i + |d| == |t| else i + |d| < |t| && t[i + |d|] == rest[0]
  {
    var j := i + |d|;
    assert |t| - i == |d| + |rest|;
    assert t[i..j] == t[i..][..|d|];
    assert t[j..] == t[i..][|d|..];
    assert rest != "" ==> t[j] == t[j..][0];
  }

  /** Digits, and then what does not begin with one. */
  lemma PeelField(t: string, i: nat, d: string, rest: string)
    requires i <= |t| && t[i..] == d + rest && IsField(d) && (rest == "" || !IsDigit(rest[0]))
    ensures FieldAt(t, i, i + |d|, d) && t[i + |d|..] == rest
  {
    Peel(t, i, d, rest);
  }

  lemma PeelPeriod(t: string, j: nat, rest: string)
    requires j <= |t| && t[j..] == "." + rest
    ensures PeriodAt(t, j) && t[j + 1..] == rest
  {
    Peel(t, j, ".", rest);
  }

  lemma EndingLaid(t: string, i: nat, letters: string, level: string)
    requires i <= |t| && t[i..] == letters + level && ProperEnding(letters, level)
    ensures EndingAt(t, i, letters, level)
  {
    Peel(t, i, letters, level);
  }

  lemma EndingFirst(letters: string, level: string)
    requires ProperEnding(letters, level)
    ensures letters + level == "" || !IsDigit((letters + level)[0])
  {
  }

  lemma RevisionGrouped(s: Spelling)
    ensures FromRevision(s) == s.revision + if s.period then "." + Ending(s) else Ending(s)
  {
  }

  lemma FieldThenEnding(t: string, i: nat, d: string, letters: string, level: string)
    requires IsField(d) && ProperEnding(letters, level) && i <= |t| && t[i..] == d + (letters + level)
    ensures FieldAt(t, i, i + |d|, d) && EndingAt(t, i + |d|, letters, level)
  {
    EndingFirst(letters, level);
    PeelField(t, i, d, letters + level);
    EndingLaid(t, i + |d|, letters, level);
  }

  lemma FieldThenPeriod(t: string, i: nat, d: string, rest: string)
    requires IsField(d) && i <= |t| && t[i..] == d + ("." + rest)
    ensures FieldAt(t, i, i + |d|, d) && PeriodAt(t, i + |d|) && t[i + |d| + 1..] == rest
  {
    PeelField(t, i, d, "." + rest);
    PeelPeriod(t, i + |d|, rest);
  }

  lemma PeriodThenEnding(t: string, k: nat, s: Spelling)
    requires ProperRest(s) && s.period && k <= |t| && t[k..] == s.revision + ("." + (s.letters + s.level))
    ensures RevisionAt(t, k, s, k + |s.revision| + 1)
  {
    FieldThenPeriod(t, k, s.revision, s.letters + s.level);
    EndingLaid(t, k + |s.revision| + 1, s.letters, s.level);
  }

  lemma RevisionLaid(t: string, k: nat, s: Spelling) returns (e: nat)
    requires ProperRest(s) && k <= |t| && t[k..] == FromRevision(s)
    ensures RevisionAt(t, k, s, e)
  {
    RevisionGrouped(s);
    if s.period {
      PeriodThenEnding(t, k, s);
      e := k + |s.revision| + 1;
    } else {
      FieldThenEnding(t, k, s.revision, s.letters, s.level);
      e := k + |s.revision|;
    }
  }

  lemma MinorThenRevision(t: string, i: nat, s: Spelling) returns (e: nat)
    requires ProperRest(s) && s.fields == 2 && i <= |t| && t[i..] == s.minor + ("." + FromRevision(s))
    ensures MinorAt(t, i, s, e)
  {
    FieldThenPeriod(t, i, s.minor, FromRevision(s));
    e := RevisionLaid(t, i + |s.minor| + 1, s);
  }

  lemma MinorThenEnding(t: string, i: nat, s: Spelling)
    requires ProperRest(s) && s.fields == 1 && i <= |t| && t[i..] == s.minor + (s.letters + s.level)
    ensures MinorAt(t, i, s, i + |s.minor|)
  {
    FieldThenEnding(t, i, s.minor, s.letters, s.level);
  }

  lemma MinorLaid(t: string, i: nat, s: Spelling) returns (e: nat)
    requires ProperRest(s) && s.fields >= 1 && i <= |t| && t[i..] == FromMinor(s)
    ensures MinorAt(t, i, s, e)
  {
    if s.fields == 1 {
      MinorThenEnding(t, i, s);
      e := i + |s.minor|;
    } else {
      e := MinorThenRevision(t, i, s);
    }
  }

  lemma MajorOnly(s: Spelling)
    requires Proper(s) && s.fields == 0
    ensures VersionOf(Text(s)) == Valid(Meaning(s))
  {
    var t, e := Text(s), |s.major|;
    assert t[0..] == t;
    FieldThenEnding(t, 0, s.major, s.letters, s.level);
    MajorRules(t, e, s.major);
    EndingRead(t, e, s.letters, s.level, Version(Number(s.major), 0, 0, 0, 0));
  }

  /** Every text that is put together properly is accepted, with the value of its parts. */
  lemma Read(s: Spelling)
    requires Proper(s)
    ensures VersionOf(Text(s)) == Valid(Meaning(s))
  {
    if s.fields == 0 {
      MajorOnly(s);
    } else {
      var t, i := Text(s), |s.major| + 1;
      assert t[0..] == t;
      FieldThenPeriod(t, 0, s.major, FromMinor(s));
      MajorRules(t, i - 1, s.major);
      var e := MinorLaid(t, i, s);
      MinorRead(t, i, s, e, Version(Number(s.major), 0, 0, 0, 0));
    }
  }

  // ---- From the value to the parts --------------------------------------------------------------------

  lemma EndingSpelled(t: string, i: nat, v: Version) returns (letters: string, level: string)
    requires i <= |t| && StageOf(t, i, v).Valid?
    ensures ProperEnding(letters, level) && t[i..] == letters + level
  {
    if i == |t| {
      letters, level := "", "";
    } else {
      var k := StageAt(t, i).1;
      letters, level := t[i..k], t[k..];
      assert t[i..] == t[i..k] + t[k..];
      assert t[k..] == t[k..|t|];
      assert k == i + 1 ==> letters == [t[i]];
      assert k == i + 2 ==> letters == [t[i]] + [t[i + 1]] == "fc";
    }
  }

  /** A text from i on, cut at j, and perhaps once more behind a period. */
  lemma CutText(t: string, i: nat, j: nat)
    requires i <= j <= |t|
    ensures t[i..] == t[i..j] + t[j..]
    ensures j < |t| && t[j] == '.' ==> t[j..] == "." + t[j + 1..]
  {
  }

  lemma RevisionSpelled(t: string, i: nat, v: Version) returns (s: Spelling)
    requires i <= |t| && RevisionOf(t, i, v).Valid?
    ensures ProperRest(s) && s.fields == 2 && s.minor == "" && t[i..] == FromRevision(s)
  {
    var j := DigitsEnd(t, i);
    var period := j < |t| && t[j] == '.';
    var k := if period then j + 1 else j;
    var letters, level := EndingSpelled(t, k, v.(revision := Number(t[i..j])));
    s := Spelling("", 2, "", t[i..j], period, letters, level);
    CutText(t, i, j);
    RevisionGrouped(s);
  }

  /** The two ways to go on behind the digits of a minor number, or of a major number. */
  lemma MinorCases(t: string, i: nat, v: Version)
    requires i <= |t| && MinorOf(t, i, v).Valid?
    ensures var j := DigitsEnd(t, i);
            var w := v.(minor := Number(t[i..j]));
            j - i <= 4 && if j < |t| && t[j] == '.' then RevisionOf(t, j + 1, w).Valid? else StageOf(t, j, w).Valid?
  {
  }

  lemma MajorCases(t: string)
    requires VersionOf(t).Valid?
    ensures var j := DigitsEnd(t, 0);
            var w := Version(Number(t[0..j]), 0, 0, 0, 0);
            0 < j <= 4 && if j < |t| && t[j] == '.' then MinorOf(t, j + 1, w).Valid? else StageOf(t, j, w).Valid?
  {
  }

  /** One more number in front. */
  lemma MinorInFront(d: string, r: Spelling)
    requires IsField(d) && ProperRest(r) && r.fields == 2
    ensures ProperRest(r.(minor := d)) && FromMinor(r.(minor := d)) == d + ("." + FromRevision(r))
  {
  }

  lemma MajorInFront(d: string, r: Spelling)
    requires IsField(d) && d != "" && ProperRest(r) && r.fields >= 1
    ensures Proper(r.(major := d)) && Text(r.(major := d)) == d + ("." + FromMinor(r))
  {
  }

  lemma MinorDotted(t: string, i: nat, j: nat, w: Version) returns (s: Spelling)
    requires i <= j < |t| && t[j] == '.' && IsField(t[i..j]) && RevisionOf(t, j + 1, w).Valid?
    ensures ProperRest(s) && s.fields == 2 && t[i..] == FromMinor(s)
  {
    var r := RevisionSpelled(t, j + 1, w);
    CutText(t, i, j);
    MinorInFront(t[i..j], r);
    s := r.(minor := t[i..j]);
  }

  lemma MinorSpelled(t: string, i: nat, v: Version) returns (s: Spelling)
    requires i <= |t| && MinorOf(t, i, v).Valid?
    ensures ProperRest(s) && s.fields >= 1 && t[i..] == FromMinor(s)
  {
    MinorCases(t, i, v);
    var j := DigitsEnd(t, i);
    var d := t[i..j];
    if j < |t| && t[j] == '.' {
      s := MinorDotted(t, i, j, v.(minor := Number(d)));
    } else {
      CutText(t, i, j);
      var letters, level := EndingSpelled(t, j, v.(minor := Number(d)));
      s := Spelling("", 1, d, "", false, letters, level);
    }
  }

  /** Every accepted text is put together properly. */
  lemma Spelled(t: string) returns (s: Spelling)
    requires VersionOf(t).Valid?
    ensures Proper(s) && Text(s) == t
  {
    MajorCases(t);
    var j := DigitsEnd(t, 0);
    var d := t[0..j];
    assert t[0..] == t;
    CutText(t, 0, j);
    if j < |t| && t[j] == '.' {
      var r := MinorSpelled(t, j + 1, Version(Number(d), 0, 0, 0, 0));
      MajorInFront(d, r);
      s := r.(major := d);
    } else {
      var letters, level := EndingSpelled(t, j, Version(Number(d), 0, 0, 0, 0));
      s := Spelling(d, 0, "", "", false, letters, level);
    }
  }

  /** The parts s make up the text t and mean v. */
  ghost predicate Spells(s: Spelling, t: string, v: Version) { Proper(s) && Text(s) == t && Meaning(s) == v }

  /** A text is accepted with a value exactly when it can be put together from parts with that value. */
  lemma MeaningIff(t: string, v: Version)
    ensures VersionOf(t) == Valid(v) <==> exists s :: Spells(s, t, v)
  {
    if VersionOf(t) == Valid(v) {
      var s := Spelled(t);
      Read(s);
      assert Spells(s, t, v);
    }
    if s :| Spells(s, t, v) {
      Read(s);
    }
  }

  /** The result for a text is the number of its parts, or -1 if it has none. */
  lemma ResultIff(t: string)
    ensures forall s :: Proper(s) && Text(s) == t ==> ResultOf(VersionOf(t)) == Encode(Meaning(s)) > 0
    ensures ResultOf(VersionOf(t)) == -1 <==> forall s :: Proper(s) ==> Text(s) != t
  {
    forall s | Proper(s) && Text(s) == t ensures VersionOf(t) == Valid(Meaning(s)) && Encode(Meaning(s)) > 0 {
      Read(s);
      ParsedIsLegal(t);
      EncodeRange(Meaning(s));
    }
    if VersionOf(t).Valid? {
      var s := Spelled(t);
    }
  }

  /** "fc" is a candidate, like "f". */
  lemma CandidateExample()
    ensures ResultOf(VersionOf("1.0fc1")) == 1_000_000_007_001
  {
    var s := Spelling("1", 1, "0", "", false, "fc", "1");
    assert "1"[..0] == "" && "0"[..0] == "";
    assert Number("1") == 1 && Number("0") == 0;
    assert Text(s) == "1.0fc1";
    Read(s);
  }
}
