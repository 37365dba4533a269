/** OSKextParseVersionString: the scanner, with its four loops. */
module KextParser {
  import opened KextVersion
  import opened KextSpelling

  /** A C string has no NUL inside. */
  ghost predicate IsCString(s: string) { forall i :: 0 <= i < |s| ==> s[i] != '\0' }

  function CharAt(s: string, i: nat): char { if i < |s| then s[i] else '\0' }

  predicate AtEnd(s: string, i: nat) { IsSpace(CharAt(s, i)) || CharAt(s, i) == '\0' }

  /** The scanner sees the text before the first whitespace, and then an end. */
  lemma SeesCut(s: string, i: nat)
    requires IsCString(s) && i <= |Cut(s)|
    ensures AtEnd(s, i) <==> i == |Cut(s)|
    ensures i < |Cut(s)| ==> CharAt(s, i) == Cut(s)[i]
    ensures IsDigit(CharAt(s, i)) <==> DigitAt(Cut(s), i)
  {
  }

  /** How a number loop is left: at the end, at a stage letter, after a period or four digits, or with an error. */
  datatype Exit = Finish | Release | Next | Reject

  /** What a number loop that began at i tells: j is where the digits end, cur where the scan goes on. */
  ghost predicate Scanned(t: string, i: nat, dots: bool, exit: Exit, cur: nat, value: int) {
    && i <= cur <= |t|
    && var j := DigitsEnd(t, i);
       match exit
       case Finish => j == |t| && j - i < 4 && cur == j && value == Number(t[i..j])
       case Release => j < |t| && IsStageLetter(t[j]) && j - i < 4 && cur == j && value == Number(t[i..j])
       case Next =>
         && j - i <= 4 && value == Number(t[i..j])
         && (j - i < 4 ==> dots && j < |t| && t[j] == '.')
         && cur == if j < |t| && t[j] == '.' then j + 1 else j
       case Reject =>
         j - i > 4 || (j - i < 4 && j < |t| && !IsStageLetter(t[j]) && !(dots && t[j] == '.'))
  }

  lemma DigitsEndAt(t: string, i: nat, k: nat)
    requires i <= k <= |t| && AllDigits(t[i..k])
    ensures DigitsEnd(t, i) == DigitsEnd(t, k)
  {
  }

  lemma OneMoreDigit(t: string, i: nat, k: nat)
    requires i <= k < |t| && AllDigits(t[i..k]) && IsDigit(t[k])
    ensures AllDigits(t[i..k + 1]) && Number(t[i..k + 1]) == Number(t[i..k]) * 10 + DigitOf(t[k])
  {
    assert t[i..k + 1] == t[i..k] + [t[k]];
    assert t[i..k + 1][..k - i] == t[i..k];
  }

  /** One turn of a number loop that has read fewer than four digits. */
  method ScanChar(s: string, ghost i: nat, start: nat, first: int, dots: bool)
    returns (done: bool, exit: Exit, cur: nat, value: int)
    requires IsCString(s) && i <= start <= |Cut(s)| && start < i + 4
    requires AllDigits(Cut(s)[i..start]) && first == Number(Cut(s)[i..start])
    ensures done ==> Scanned(Cut(s), i, dots, exit, cur, value)
    ensures !done ==> cur == start + 1 <= |Cut(s)| && AllDigits(Cut(s)[i..cur]) && value == Number(Cut(s)[i..cur])
  {
    ghost var t := Cut(s);
    SeesCut(s, start);
    DigitsEndAt(t, i, start);
    done, cur, value := true, start, first;
    if AtEnd(s, cur) {
      exit := Finish;
    } else if IsDigit(CharAt(s, cur)) {
      OneMoreDigit(t, i, cur);
      value := value * 10 + DigitOf(CharAt(s, cur));
      cur := cur + 1;
      done, exit := false, Next;
    } else if IsStageLetter(CharAt(s, cur)) {
      exit := Release;
    } else if dots && CharAt(s, cur) == '.' {
      cur := cur + 1;
      exit := Next;
    } else {
      exit := Reject;
    }
  }

  /** Lines 214-251, 253-290 and 292-326.  `n` digits with this value are read already. */
  method ScanNumber(s: string, ghost i: nat, start: nat, n: nat, first: int, dots: bool)
    returns (exit: Exit, cur: nat, value: int)
    requires IsCString(s) && start == i + n <= |Cut(s)| && n <= 1
    requires AllDigits(Cut(s)[i..start]) && first == Number(Cut(s)[i..start])
    ensures Scanned(Cut(s), i, dots, exit, cur, value)
  {
    cur, value := start, first;
    var scanned, done := n, false;
    while scanned < 4
      invariant scanned <= 4 && cur == i + scanned <= |Cut(s)|
      invariant AllDigits(Cut(s)[i..cur]) && value == Number(Cut(s)[i..cur])
    {
      done, exit, cur, value := ScanChar(s, i, cur, value, dots);
      if done {
        return;
      }
      scanned := scanned + 1;
    }
    exit, cur := AfterFour(s, i, cur, dots, value);
  }

  /** Lines 243-251, 282-290 and 318-326: a fifth digit is refused, a period is stepped over. */
  method AfterFour(s: string, ghost i: nat, start: nat, ghost dots: bool, ghost value: int)
    returns (exit: Exit, cur: nat)
    requires IsCString(s) && start == i + 4 <= |Cut(s)|
    requires AllDigits(Cut(s)[i..start]) && value == Number(Cut(s)[i..start])
    ensures Scanned(Cut(s), i, dots, exit, cur, value)
  {
    SeesCut(s, start);
    FourDigits(Cut(s), i, start);
    if CharAt(s, start) == '.' {
      return Next, start + 1;
    } else if IsDigit(CharAt(s, start)) {
      return Reject, start;
    }
    return Next, start;
  }

  /** After four digits, either they end there or there are too many. */
  lemma FourDigits(t: string, i: nat, k: nat)
    requires i + 4 == k <= |t| && AllDigits(t[i..k])
    ensures if DigitAt(t, k) then DigitsEnd(t, i) > k else DigitsEnd(t, i) == k
  {
  }

  /** __OSKextVersionStageForString: the stage and where its level starts, or stage 0. */
  function StageForString(s: string, i: nat): (int, nat) {
    if AtEnd(s, i) then (RELEASE, i)
    else
      match CharAt(s, i)
      case 'd' => if IsDigit(CharAt(s, i + 1)) then (DEVELOPMENT, i + 1) else (0, i)
      case 'a' => if IsDigit(CharAt(s, i + 1)) then (ALPHA, i + 1) else (0, i)
      case 'b' => if IsDigit(CharAt(s, i + 1)) then (BETA, i + 1) else (0, i)
      case 'f' =>
        if IsDigit(CharAt(s, i + 1)) then (CANDIDATE, i + 1)
        else if CharAt(s, i + 1) == 'c' && IsDigit(CharAt(s, i + 2)) then (CANDIDATE, i + 2)
        else (0, i)
      case _ => (0, i)
  }

  lemma StageSeen(s: string, i: nat)
    requires IsCString(s) && i < |Cut(s)|
    ensures StageForString(s, i) == StageAt(Cut(s), i)
  {
    SeesCut(s, i);
    SeesCut(s, i + 1);
    if i + 1 < |Cut(s)| {
      SeesCut(s, i + 2);
    }
  }

  /** What the grammar says of the digits of a level, up to j. */
  lemma LevelRules(t: string, i: nat, j: nat, v: Version)
    requires i <= j <= |t| && AllDigits(t[i..j]) && !DigitAt(t, j)
    ensures var level := Number(t[i..j]);
            LevelOf(t, i, v) ==
            if i < j <= i + 3 && j == |t| && level <= LEVEL_MAX && !(v.stage == CANDIDATE && level == 0)
            then Valid(v.(level := level)) else Invalid
  {
    DigitsEndAt(t, i, j);
  }

  /** A fourth digit is too many. */
  lemma LevelTooLong(t: string, i: nat, j: nat, v: Version)
    requires i + 3 <= j < |t| && AllDigits(t[i..j]) && IsDigit(t[j])
    ensures LevelOf(t, i, v) == Invalid
  {
    DigitsEndAt(t, i, j);
  }

  /** Lines 346-386: the level, and the rules at the end. */
  method ScanLevel(s: string, i: nat, ghost v: Version, stage: int) returns (ok: bool, level: int)
    requires IsCString(s) && i <= |Cut(s)| && v.stage == stage
    ensures LevelOf(Cut(s), i, v) == if ok then Valid(v.(level := level)) else Invalid
  {
    ghost var t := Cut(s);
    var cur, scanned := i, 0;
    level := 0;
    while scanned < 3
      invariant scanned <= 3 && cur == i + scanned <= |t|
      invariant AllDigits(t[i..cur]) && level == Number(t[i..cur])
    {
      SeesCut(s, cur);
      if !DigitAt(t, cur) {
        LevelRules(t, i, cur, v);
      }
      if AtEnd(s, cur) {
        if scanned == 0 {
          return false, level;
        }
        SmallLevel(t[i..cur]);
        return !(stage == CANDIDATE && level == 0), level;
      } else if IsDigit(CharAt(s, cur)) {
        OneMoreDigit(t, i, cur);
        level := level * 10 + DigitOf(CharAt(s, cur));
        cur := cur + 1;
        scanned := scanned + 1;
      } else {
        return false, level;
      }
    }
    SeesCut(s, cur);
    if DigitAt(t, cur) {
      LevelTooLong(t, i, cur, v);
    } else {
      LevelRules(t, i, cur, v);
    }
    if !AtEnd(s, cur) {
      return false, level;
    }
    if level > LEVEL_MAX {
      return false, level;
    }
    return !(stage == CANDIDATE && level == 0), level;
  }

  /** Two digits are never above the largest level. */
  lemma SmallLevel(s: string)
    requires AllDigits(s) && |s| <= 2
    ensures Number(s) <= 99
  {
  }

  lemma AfterMajor(t: string, exit: Exit, cur: nat, value: int)
    requires t != "" && IsDigit(t[0]) && Scanned(t, 0, true, exit, cur, value)
    ensures var w := Version(value, 0, 0, 0, 0);
            VersionOf(t) == match exit
                            case Finish => Valid(w.(stage := RELEASE))
                            case Release => StageOf(t, cur, w)
                            case Next => MinorOf(t, cur, w)
                            case Reject => Invalid
  {
  }

  lemma AfterMinor(t: string, i: nat, v: Version, exit: Exit, cur: nat, value: int)
    requires i <= |t| && v.revision == 0 && v.level == 0 && Scanned(t, i, true, exit, cur, value)
    ensures var w := v.(minor := value);
            MinorOf(t, i, v) == match exit
                                case Finish => Valid(w.(stage := RELEASE))
                                case Release => StageOf(t, cur, w)
                                case Next => RevisionOf(t, cur, w)
                                case Reject => Invalid
  {
  }

  lemma AfterRevision(t: string, i: nat, v: Version, exit: Exit, cur: nat, value: int)
    requires i <= |t| && v.level == 0 && Scanned(t, i, false, exit, cur, value)
    ensures var w := v.(revision := value);
            RevisionOf(t, i, v) == match exit
                                   case Finish => Valid(w.(stage := RELEASE))
                                   case Release => StageOf(t, cur, w)
                                   case Next => StageOf(t, cur, w)
                                   case Reject => Invalid
  {
  }

  /** Lines 328-394: the release state, the level and the result. */
  method FinishVersion(s: string, cur: nat, major: int, minor: int, revision: int) returns (r: int)
    requires IsCString(s) && cur <= |Cut(s)|
    ensures r == ResultOf(StageOf(Cut(s), cur, Version(major, minor, revision, 0, 0)))
  {
    ghost var v := Version(major, minor, revision, 0, 0);
    SeesCut(s, cur);
    if AtEnd(s, cur) {
      return Encode(Version(major, minor, revision, RELEASE, 0));
    }
    StageSeen(s, cur);
    var (stage, k) := StageForString(s, cur);
    if stage == 0 {
      return -1;
    }
    var ok, level := ScanLevel(s, k, v.(stage := stage), stage);
    if !ok {
      return -1;
    }
    return Encode(Version(major, minor, revision, stage, level));
  }

  /** OSKextParseVersionString.  Only the text before the first whitespace counts. */
  method ParseVersionString(s: string) returns (r: int)
    requires IsCString(s)
    ensures r == ResultOf(VersionOf(Cut(s)))
    ensures forall p :: Proper(p) && Text(p) == Cut(s) ==> r == Encode(Meaning(p))
    ensures r == -1 <==> forall p :: Proper(p) ==> Text(p) != Cut(s)
  {
    ghost var t := Cut(s);
    ResultIff(t);
    SeesCut(s, 0);
    if s == "" || !IsDigit(s[0]) {
      return -1;
    }
    assert t[0..0] == "" && Number("") == 0;
    OneMoreDigit(t, 0, 0);
    var exit, cur, major := ScanNumber(s, 0, 1, 1, DigitOf(s[0]), true);
    AfterMajor(t, exit, cur, major);
    match exit {
      case Reject => return -1;
      case Finish => return Encode(Version(major, 0, 0, RELEASE, 0));
      case Release => r := FinishVersion(s, cur, major, 0, 0);
      case Next => r := MinorVersion(s, cur, major);
    }
  }

  /** Lines 253-394: from the minor version on. */
  method MinorVersion(s: string, i: nat, major: int) returns (r: int)
    requires IsCString(s) && i <= |Cut(s)|
    ensures r == ResultOf(MinorOf(Cut(s), i, Version(major, 0, 0, 0, 0)))
  {
    assert Cut(s)[i..i] == "";
    var exit, cur, minor := ScanNumber(s, i, i, 0, 0, true);
    AfterMinor(Cut(s), i, Version(major, 0, 0, 0, 0), exit, cur, minor);
    match exit {
      case Reject => return -1;
      case Finish => return Encode(Version(major, minor, 0, RELEASE, 0));
      case Release => r := FinishVersion(s, cur, major, minor, 0);
      case Next => r := RevisionVersion(s, cur, major, minor);
    }
  }

  /** Lines 292-394: from the revision on, where a period is not legal. */
  method RevisionVersion(s: string, i: nat, major: int, minor: int) returns (r: int)
    requires IsCString(s) && i <= |Cut(s)|
    ensures r == ResultOf(RevisionOf(Cut(s), i, Version(major, minor, 0, 0, 0)))
  {
    assert Cut(s)[i..i] == "";
    var exit, cur, revision := ScanNumber(s, i, i, 0, 0, false);
    AfterRevision(Cut(s), i, Version(major, minor, 0, 0, 0), exit, cur, revision);
    match exit {
      case Reject => return -1;
      case Finish => return Encode(Version(major, minor, revision, RELEASE, 0));
      case Release => r := FinishVersion(s, cur, major, minor, revision);
      case Next => r := FinishVersion(s, cur, major, minor, revision);
    }
  }
}
