/** OSKextVersionGetString, and that the parser undoes it. */
module KextPrinter {
  import opened KextVersion
  import opened KextSpelling

  // ---- What is printed ------------------------------------------------------------------------------

  /** "%u". */
  function Decimal(n: nat): (s: string)
    ensures s != "" && AllDigits(s)
  {
    if n < 10 then [DigitChar(n)] else Decimal(n / 10) + [DigitChar(n % 10)]
  }

  /** The five parts of an encoded version. */
  function Fields(a: nat): Version {
    var major := a / MAJOR_MULT;
    var b := a - major * MAJOR_MULT;
    var minor := b / MINOR_MULT;
    var c := b - minor * MINOR_MULT;
    var revision := c / REVISION_MULT;
    var d := c - revision * REVISION_MULT;
    var stage := d / STAGE_MULT;
    Version(major, minor, revision, stage, d - stage * STAGE_MULT)
  }

  predicate IsStage(stage: int) { stage in {DEVELOPMENT, ALPHA, BETA, CANDIDATE, RELEASE} }

  function StageString(stage: int): (s: string)
    requires IsStage(stage)
  {
    if stage == DEVELOPMENT then "d" else if stage == ALPHA then "a" else if stage == BETA then "b"
    else if stage == CANDIDATE then "f" else ""
  }

  function StageText(stage: int, level: nat): string
    requires IsStage(stage)
  {
    StageString(stage) + if stage < RELEASE then Decimal(level) else ""
  }

  function RevisionText(revision: nat): string { if revision != 0 then "." + Decimal(revision) else "" }

  /** The text of five parts. */
  function VersionText(v: Version): string
    requires v.major >= 0 && v.minor >= 0 && v.revision >= 0 && v.level >= 0 && IsStage(v.stage)
  {
    Decimal(v.major) + "." + Decimal(v.minor) + RevisionText(v.revision) + StageText(v.stage, v.level)
  }

  function PrintText(a: int): string {
    if a < 0 then "(invalid)"
    else if a == 0 then "(missing)"
    else
      var v := Fields(a);
      if v.major > MAJOR_MAX || v.level > LEVEL_MAX || !IsStage(v.stage) then "(invalid)" else VersionText(v)
  }

  /** A legal version is the parts of its number. */
  lemma FieldsOfEncode(v: Version)
    requires Legal(v)
    ensures Fields(Encode(v)) == v
  {
    var a := Encode(v);
    var d := v.stage * STAGE_MULT + v.level;
    var c := v.revision * REVISION_MULT + d;
    var b := v.minor * MINOR_MULT + c;
    assert a / MAJOR_MULT == v.major;
    assert b / MINOR_MULT == v.minor;
    assert c / REVISION_MULT == v.revision;
    assert d / STAGE_MULT == v.stage;
  }

  /** The parts make up the number again. */
  lemma EncodeOfFields(a: nat)
    ensures Encode(Fields(a)) == a
    ensures 0 <= Fields(a).minor <= 9999 && 0 <= Fields(a).revision <= 9999
    ensures 0 <= Fields(a).stage <= 9 && 0 <= Fields(a).level <= 999
  {
  }

  // ---- Which text is printed --------------------------------------------------------------------------

  lemma {:induction false} NumberOfDecimal(n: nat)
    ensures Number(Decimal(n)) == n
  {
    if n >= 10 {
      NumberOfDecimal(n / 10);
      assert Decimal(n)[..|Decimal(n)| - 1] == Decimal(n / 10);
    } else {
      assert Decimal(n)[..0] == "";
    }
  }

  lemma DecimalLength(n: nat)
    ensures n <= 9999 ==> |Decimal(n)| <= 4
    ensures n <= 999 ==> |Decimal(n)| <= 3
  {
    var a := n / 10;
    var b := a / 10;
    var c := b / 10;
    assert |Decimal(c)| == 1 || c >= 10;
    assert |Decimal(b)| <= 1 + |Decimal(c)| && (b < 10 ==> |Decimal(b)| == 1);
    assert |Decimal(a)| <= 1 + |Decimal(b)| && |Decimal(n)| <= 1 + |Decimal(a)|;
  }

  /** Digits without leading zeros. */
  predicate Numeral(d: string) { AllDigits(d) && d != "" && (|d| > 1 ==> d[0] != '0') }

  lemma {:induction false} DecimalNumeral(n: nat)
    ensures Numeral(Decimal(n)) && (Decimal(n)[0] == '0' <==> n == 0)
  {
    if n >= 10 {
      DecimalNumeral(n / 10);
    }
  }

  lemma {:induction false} LeadingPositive(d: string)
    requires AllDigits(d) && d != "" && d[0] != '0'
    ensures Number(d) >= 1
    decreases |d|
  {
    if |d| > 1 {
      LeadingPositive(d[..|d| - 1]);
    } else {
      assert d[..0] == "";
    }
  }

  /** A number has one numeral. */
  lemma {:induction false} NumeralUnique(d: string, d': string)
    requires Numeral(d) && Numeral(d') && Number(d) == Number(d')
    ensures d == d'
    decreases |d|
  {
    var e, e' := d[..|d| - 1], d'[..|d'| - 1];
    assert d == e + [d[|d| - 1]] && d' == e' + [d'[|d'| - 1]];
    if |d| > 1 { LeadingPositive(e); }
    if |d'| > 1 { LeadingPositive(e'); }
    if |d| > 1 && |d'| > 1 {
      NumeralUnique(e, e');
    }
  }

  /**
   A spelling as the printer has it: numerals, the minor number always, the revision unless it is 0,
   one letter for a stage.
   */
  predicate Plain(s: Spelling) {
    && Numeral(s.major) && Numeral(s.minor) && !s.period
    && (if s.fields == 2 then Numeral(s.revision) && s.revision != "0" else s.fields == 1 && s.revision == "")
    && PlainEnding(s.letters, s.level)
  }

  predicate PlainEnding(letters: string, level: string) {
    if letters == "" then level == ""
    else (letters == "d" || letters == "a" || letters == "b" || letters == "f") && Numeral(level)
  }

  /** The numbers in the text are those of the version; a release shows no level. */
  ghost predicate Shows(s: Spelling, v: Version) {
    && AllDigits(s.major) && AllDigits(s.minor) && AllDigits(s.revision) && AllDigits(s.level)
    && Number(s.major) == v.major && Number(s.minor) == v.minor && Number(s.revision) == v.revision
    && StageMeant(s.letters) == v.stage && (v.stage != RELEASE ==> Number(s.level) == v.level)
  }

  /** There is only one plain text for a version. */
  lemma PlainUnique(s: Spelling, s': Spelling, v: Version)
    requires Plain(s) && Plain(s') && Shows(s, v) && Shows(s', v)
    ensures s == s'
  {
    NumeralUnique(s.major, s'.major);
    NumeralUnique(s.minor, s'.minor);
    RevisionShown(s, v);
    RevisionShown(s', v);
    if v.revision != 0 {
      NumeralUnique(s.revision, s'.revision);
    }
    if v.stage != RELEASE {
      NumeralUnique(s.level, s'.level);
    }
  }

  lemma RevisionShown(s: Spelling, v: Version)
    requires Plain(s) && Shows(s, v)
    ensures s.fields == 2 <==> v.revision != 0
  {
    if s.fields == 2 {
      assert s.revision[0] != '0' by { assert |s.revision| == 1 ==> s.revision == [s.revision[0]]; }
      LeadingPositive(s.revision);
    }
  }

  function Printed(v: Version): Spelling
    requires v.major >= 0 && v.minor >= 0 && v.revision >= 0 && v.level >= 0 && IsStage(v.stage)
  {
    Parts(v, Decimal(v.major), Decimal(v.minor), Decimal(v.revision), Decimal(v.level))
  }

  lemma PrintedText(v: Version)
    requires v.major >= 0 && v.minor >= 0 && v.revision >= 0 && v.level >= 0 && IsStage(v.stage)
    ensures Text(Printed(v)) == VersionText(v)
  {
    var s := Printed(v);
    Dotted(s.major, s.minor, RevisionText(v.revision), StageText(v.stage, v.level));
    assert Ending(s) == StageText(v.stage, v.level);
    if v.revision != 0 {
      assert FromRevision(s) == s.revision + Ending(s);
      assert "." + s.revision + Ending(s) == "." + (s.revision + Ending(s));
    }
  }

  lemma Dotted(a: string, b: string, c: string, d: string)
    ensures a + "." + b + c + d == a + ("." + (b + (c + d)))
    ensures c == "" ==> c + d == d
  {
  }

  lemma PrintedIsPlain(v: Version)
    requires v.major >= 0 && v.minor >= 0 && v.revision >= 0 && v.level >= 0 && IsStage(v.stage)
    ensures Plain(Printed(v)) && Shows(Printed(v), v)
  {
    ShownNumber(v.major);
    ShownNumber(v.minor);
    ShownNumber(v.revision);
    ShownNumber(v.level);
    PlainFrom(v, Decimal(v.major), Decimal(v.minor), Decimal(v.revision), Decimal(v.level));
    ShowsFrom(v, Decimal(v.major), Decimal(v.minor), Decimal(v.revision), Decimal(v.level));
  }

  /** The spelling of a version with these four numbers. */
  function Parts(v: Version, a: string, b: string, c: string, d: string): Spelling
    requires IsStage(v.stage)
  {
    Spelling(a, if v.revision != 0 then 2 else 1, b, if v.revision != 0 then c else "", false,
             StageString(v.stage), if v.stage < RELEASE then d else "")
  }

  lemma PlainFrom(v: Version, a: string, b: string, c: string, d: string)
    requires IsStage(v.stage) && Numeral(a) && Numeral(b) && Numeral(c) && Numeral(d) && (v.revision != 0 ==> c != "0")
    ensures Plain(Parts(v, a, b, c, d))
  {
    EndingFrom(v.stage, d);
  }

  lemma ShowsFrom(v: Version, a: string, b: string, c: string, d: string)
    requires IsStage(v.stage) && AllDigits(a) && AllDigits(b) && AllDigits(c) && AllDigits(d)
    requires Number(a) == v.major && Number(b) == v.minor && Number(c) == v.revision && Number(d) == v.level
    ensures Shows(Parts(v, a, b, c, d), v)
  {
    EndingFromMeans(v.stage);
  }

  lemma EndingFromMeans(stage: int)
    requires IsStage(stage)
    ensures StageMeant(StageString(stage)) == stage
  {
  }

  lemma EndingFrom(stage: int, d: string)
    requires IsStage(stage) && Numeral(d)
    ensures PlainEnding(StageString(stage), if stage < RELEASE then d else "")
  {
  }

  lemma ShownNumber(n: nat)
    ensures Numeral(Decimal(n)) && Number(Decimal(n)) == n && (n != 0 ==> Decimal(n) != "0")
  {
    DecimalNumeral(n);
    NumberOfDecimal(n);
  }

  /** The number does not stand for a version: its major number, stage or level is out of range. */
  predicate Refused(a: nat) {
    a / MAJOR_MULT > MAJOR_MAX || a % STAGE_MULT > LEVEL_MAX || !IsStage(a / STAGE_MULT % 10)
  }

  lemma RefusedFields(a: nat)
    ensures var v := Fields(a);
            && 0 <= v.major && 0 <= v.minor && 0 <= v.revision && 0 <= v.level
            && (Refused(a) <==> v.major > MAJOR_MAX || v.level > LEVEL_MAX || !IsStage(v.stage))
  {
    EncodeOfFields(a);
    var v := Fields(a);
    LowDigits(v.major * 100_000_000 + v.minor * 10_000 + v.revision, v.stage, v.level);
  }

  lemma LowDigits(high: nat, stage: nat, level: nat)
    requires stage <= 9 && level <= 999
    ensures var a := high * 10_000 + stage * 1_000 + level;
            a % 1_000 == level && a / 1_000 % 10 == stage
  {
    var a := high * 10_000 + stage * 1_000 + level;
    assert a / 1_000 == high * 10 + stage;
  }

  /** What is printed for every number: a fixed text, or the one plain text of its parts. */
  lemma PrintedIff(a: int)
    ensures a == 0 ==> PrintText(a) == "(missing)"
    ensures a < 0 || (a > 0 && Refused(a)) ==> PrintText(a) == "(invalid)"
    ensures a > 0 && !Refused(a) ==>
              && (exists s :: Plain(s) && Shows(s, Fields(a)))
              && (forall s :: Plain(s) && Shows(s, Fields(a)) ==> PrintText(a) == Text(s))
  {
    if a > 0 {
      RefusedFields(a);
      if !Refused(a) {
        var v := Fields(a);
        PrintedText(v);
        PrintedIsPlain(v);
        forall s | Plain(s) && Shows(s, v) ensures s == Printed(v) {
          PlainUnique(s, Printed(v), v);
        }
      }
    }
  }

  // ---- Reading back -----------------------------------------------------------------------------------

  /** A legal version is printed in proper parts, which mean it. */
  lemma PrintedProper(v: Version)
    requires Legal(v)
    ensures Proper(Printed(v)) && Meaning(Printed(v)) == v
  {
    PrintedIsPlain(v);
    DecimalLength(v.major);
    DecimalLength(v.minor);
    DecimalLength(v.revision);
    DecimalLength(v.level);
  }

  /** The text of a legal version stands for it. */
  lemma TextReadBack(v: Version)
    requires Legal(v)
    ensures VersionOf(VersionText(v)) == Valid(v)
  {
    PrintedText(v);
    PrintedProper(v);
    Read(Printed(v));
  }

  predicate NoSpace(s: string) { forall i :: 0 <= i < |s| ==> !IsSpace(s[i]) && s[i] != '\0' }

  lemma TextHasNoSpace(v: Version)
    requires v.major >= 0 && v.minor >= 0 && v.revision >= 0 && v.level >= 0 && IsStage(v.stage)
    ensures NoSpace(VersionText(v))
  {
    assert NoSpace(Decimal(v.major)) && NoSpace(Decimal(v.minor)) && NoSpace(RevisionText(v.revision));
    assert NoSpace(StageText(v.stage, v.level));
  }

  lemma CutWhole(s: string)
    requires NoSpace(s)
    ensures Cut(s) == s
  {
  }

  /**
   Printing and parsing a number gives it back exactly when its parts are a legal version, that
   is, exactly for the numbers that the parser can produce.
   */
  lemma PrintThenParse(a: nat)
    ensures ResultOf(VersionOf(Cut(PrintText(a)))) == a <==> Legal(Fields(a))
  {
    var t := Cut(PrintText(a));
    ParsedIsLegal(t);
    EncodeOfFields(a);
    if VersionOf(t).Valid? && Encode(VersionOf(t).version) == a {
      FieldsOfEncode(VersionOf(t).version);
    }
    if Legal(Fields(a)) {
      EncodeRange(Fields(a));
      TextHasNoSpace(Fields(a));
      CutWhole(VersionText(Fields(a)));
      TextReadBack(Fields(a));
    }
  }

  /** The result of every accepted string survives printing and parsing. */
  lemma ParsePrintParse(s: string)
    requires VersionOf(Cut(s)).Valid?
    ensures var a := ResultOf(VersionOf(Cut(s))); a >= 0 && ResultOf(VersionOf(Cut(PrintText(a)))) == a
  {
    ParsedIsLegal(Cut(s));
    var v := VersionOf(Cut(s)).version;
    EncodeRange(v);
    FieldsOfEncode(v);
    PrintThenParse(Encode(v));
  }

  /** The text and its NUL fit into 19 bytes. */
  lemma PrintFits(a: int)
    ensures |PrintText(a)| <= 18
  {
    if a > 0 {
      var v := Fields(a);
      EncodeOfFields(a);
      if v.major <= MAJOR_MAX {
        DecimalLength(v.major);
        DecimalLength(v.minor);
        DecimalLength(v.revision);
        DecimalLength(v.level);
      }
    }
  }
}
