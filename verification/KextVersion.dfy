/**
 Kext version strings, "####.####.####s###", and the integers that stand for them.
 `VersionOf` says what a text stands for, and `Encode` which integer that is.
 */
module KextVersion {

  const MAJOR_MAX := 9999
  const LEVEL_MAX := 255
  const MAJOR_MULT := 1_000_000_000_000
  const MINOR_MULT := 100_000_000
  const REVISION_MULT := 10_000
  const STAGE_MULT := 1_000

  /** kOSKextVersionMaxLength. */
  const MAX_LENGTH := 20

  const DEVELOPMENT := 1
  const ALPHA := 3
  const BETA := 5
  const CANDIDATE := 7
  const RELEASE := 9

  datatype Version = Version(major: int, minor: int, revision: int, stage: int, level: int)

  datatype Parsed = Invalid | Valid(version: Version)

  function Encode(v: Version): int {
    v.major * MAJOR_MULT + v.minor * MINOR_MULT + v.revision * REVISION_MULT + v.stage * STAGE_MULT + v.level
  }

  // ---- Numbers ------------------------------------------------------------------------------------

  predicate IsDigit(c: char) { '0' <= c <= '9' }
  predicate IsSpace(c: char) { c == ' ' || c == '\t' || c == '\r' || c == '\n' }
  predicate IsStageLetter(c: char) { c == 'd' || c == 'a' || c == 'b' || c == 'f' }

  function DigitOf(c: char): (d: int)
    requires IsDigit(c)
    ensures 0 <= d <= 9
  {
    c as int - '0' as int
  }

  function DigitChar(d: int): (c: char)
    requires 0 <= d <= 9
    ensures IsDigit(c) && DigitOf(c) == d
  {
    (d + '0' as int) as char
  }

  predicate AllDigits(s: string) { forall i :: 0 <= i < |s| ==> IsDigit(s[i]) }

  /** The number that a run of digits stands for; 0 for none. */
  function Number(s: string): (n: nat)
    requires AllDigits(s)
  {
    if s == "" then 0 else Number(s[..|s| - 1]) * 10 + DigitOf(s[|s| - 1])
  }

  /** Where the digits that start at i end. */
  function DigitsEnd(t: string, i: nat): (j: nat)
    requires i <= |t|
    ensures i <= j <= |t| && AllDigits(t[i..j]) && (j < |t| ==> !IsDigit(t[j]))
    decreases |t| - i
  {
    if i == |t| || !IsDigit(t[i]) then i
    else
      var j := DigitsEnd(t, i + 1);
      assert t[i..j] == [t[i]] + t[i + 1..j];
      j
  }

  // ---- What the parser accepts ------------------------------------------------------------------------

  /** The level, to the end of the text. */
  function LevelOf(t: string, i: nat, v: Version): Parsed
    requires i <= |t|
  {
    var j := DigitsEnd(t, i);
    if j != |t| || j == i || j - i > 3 then Invalid
    else
      var level := Number(t[i..j]);
      if level > LEVEL_MAX || (v.stage == CANDIDATE && level == 0) then Invalid else Valid(v.(level := level))
  }

  predicate DigitAt(t: string, i: nat) { i < |t| && IsDigit(t[i]) }

  /** The stage that begins at i and where its level begins, or stage 0. */
  function StageAt(t: string, i: nat): (r: (int, nat))
    requires i < |t|
    ensures r.0 != 0 ==> r.1 <= |t|
  {
    if t[i] == 'd' && DigitAt(t, i + 1) then (DEVELOPMENT, i + 1)
    else if t[i] == 'a' && DigitAt(t, i + 1) then (ALPHA, i + 1)
    else if t[i] == 'b' && DigitAt(t, i + 1) then (BETA, i + 1)
    else if t[i] == 'f' && DigitAt(t, i + 1) then (CANDIDATE, i + 1)
    else if t[i] == 'f' && i + 1 < |t| && t[i + 1] == 'c' && DigitAt(t, i + 2) then (CANDIDATE, i + 2)
    else (0, i)
  }

  /** The end of the text, or a stage and its level. */
  function StageOf(t: string, i: nat, v: Version): Parsed
    requires i <= |t|
  {
    if i == |t| then Valid(v.(stage := RELEASE, level := 0))
    else
      var (stage, k) := StageAt(t, i);
      if stage == 0 then Invalid else LevelOf(t, k, v.(stage := stage))
  }

  /** At most four digits of revision; a period is accepted after exactly four. */
  function RevisionOf(t: string, i: nat, v: Version): Parsed
    requires i <= |t|
  {
    var j := DigitsEnd(t, i);
    if j - i > 4 then Invalid
    else
      var w := v.(revision := Number(t[i..j]));
      if j == |t| || IsStageLetter(t[j]) then StageOf(t, j, w)
      else if t[j] == '.' && j - i == 4 then StageOf(t, j + 1, w)
      else Invalid
  }

  function MinorOf(t: string, i: nat, v: Version): Parsed
    requires i <= |t|
  {
    var j := DigitsEnd(t, i);
    if j - i > 4 then Invalid
    else
      var w := v.(minor := Number(t[i..j]));
      if j == |t| || IsStageLetter(t[j]) then StageOf(t, j, w)
      else if t[j] == '.' then RevisionOf(t, j + 1, w)
      else Invalid
  }

  /** The version that a text without whitespace stands for. */
  function VersionOf(t: string): Parsed {
    var j := DigitsEnd(t, 0);
    if j == 0 || j > 4 then Invalid
    else
      var w := Version(Number(t[0..j]), 0, 0, 0, 0);
      if j == |t| || IsStageLetter(t[j]) then StageOf(t, j, w)
      else if t[j] == '.' then MinorOf(t, j + 1, w)
      else Invalid
  }

  /** The text before the first whitespace. */
  function Cut(s: string): (t: string)
    ensures t <= s && (forall i :: 0 <= i < |t| ==> !IsSpace(t[i])) && (|t| < |s| ==> IsSpace(s[|t|]))
  {
    if s == "" || IsSpace(s[0]) then "" else [s[0]] + Cut(s[1..])
  }

  function ResultOf(p: Parsed): int { if p.Valid? then Encode(p.version) else -1 }

  // ---- The values ------------------------------------------------------------------------------------

  /** The versions that some text stands for. */
  predicate Legal(v: Version) {
    && 0 <= v.major <= 9999 && 0 <= v.minor <= 9999 && 0 <= v.revision <= 9999
    && v.stage in {DEVELOPMENT, ALPHA, BETA, CANDIDATE, RELEASE}
    && 0 <= v.level <= LEVEL_MAX
    && (v.stage == RELEASE ==> v.level == 0)
    && (v.stage == CANDIDATE ==> v.level >= 1)
  }

  lemma NumberBelow(s: string)
    requires AllDigits(s)
    ensures |s| <= 4 ==> Number(s) <= 9999
    ensures |s| <= 3 ==> Number(s) <= 999
  {
    if |s| >= 1 {
      var a := s[..|s| - 1];
      if |a| >= 1 {
        var b := a[..|a| - 1];
        if |b| >= 1 {
          var c := b[..|b| - 1];
          if |c| >= 1 {
            assert |s| <= 4 ==> c[..|c| - 1] == "";
          }
        }
      }
    }
  }

  lemma StageLegal(t: string, i: nat, v: Version)
    requires i <= |t| && 0 <= v.major <= 9999 && 0 <= v.minor <= 9999 && 0 <= v.revision <= 9999
    ensures StageOf(t, i, v).Valid? ==> Legal(StageOf(t, i, v).version)
  {
  }

  /** Every accepted text stands for a legal version. */
  lemma ParsedIsLegal(t: string)
    ensures VersionOf(t).Valid? ==> Legal(VersionOf(t).version)
  {
    var j := DigitsEnd(t, 0);
    NumberBelow(t[0..j]);
    if 0 < j <= 4 {
      var w := Version(Number(t[0..j]), 0, 0, 0, 0);
      if j == |t| || IsStageLetter(t[j]) {
        StageLegal(t, j, w);
      } else if t[j] == '.' {
        MinorLegal(t, j + 1, w);
      }
    }
  }

  lemma MinorLegal(t: string, i: nat, v: Version)
    requires i <= |t| && 0 <= v.major <= 9999 && v.revision == 0
    ensures MinorOf(t, i, v).Valid? ==> Legal(MinorOf(t, i, v).version)
  {
    var j := DigitsEnd(t, i);
    NumberBelow(t[i..j]);
    if j - i <= 4 {
      var w := v.(minor := Number(t[i..j]));
      if j == |t| || IsStageLetter(t[j]) {
        StageLegal(t, j, w);
      } else if t[j] == '.' {
        RevisionLegal(t, j + 1, w);
      }
    }
  }

  lemma RevisionLegal(t: string, i: nat, v: Version)
    requires i <= |t| && 0 <= v.major <= 9999 && 0 <= v.minor <= 9999
    ensures RevisionOf(t, i, v).Valid? ==> Legal(RevisionOf(t, i, v).version)
  {
    var j := DigitsEnd(t, i);
    NumberBelow(t[i..j]);
    if j - i <= 4 {
      var w := v.(revision := Number(t[i..j]));
      StageLegal(t, j, w);
      if j < |t| {
        StageLegal(t, j + 1, w);
      }
    }
  }

  predicate Before(v: Version, w: Version) {
    || v.major < w.major
    || (v.major == w.major && v.minor < w.minor)
    || (v.major == w.major && v.minor == w.minor && v.revision < w.revision)
    || (v.major == w.major && v.minor == w.minor && v.revision == w.revision && v.stage < w.stage)
    || (v.major == w.major && v.minor == w.minor && v.revision == w.revision && v.stage == w.stage && v.level < w.level)
  }

  /** The integers are ordered as the versions are, so different versions have different integers. */
  lemma EncodeOrder(v: Version, w: Version)
    requires Legal(v) && Legal(w)
    ensures Encode(v) < Encode(w) <==> Before(v, w)
    ensures Encode(v) == Encode(w) <==> v == w
  {
  }

  lemma EncodeRange(v: Version)
    requires Legal(v)
    ensures 0 < Encode(v) < 0x8000_0000_0000_0000
  {
  }

  /** For any two accepted strings, numeric order of the results is the order of the versions. */
  lemma ParsedOrder(s: string, s': string)
    requires VersionOf(Cut(s)).Valid? && VersionOf(Cut(s')).Valid?
    ensures ResultOf(VersionOf(Cut(s))) < ResultOf(VersionOf(Cut(s'))) <==>
            Before(VersionOf(Cut(s)).version, VersionOf(Cut(s')).version)
  {
    ParsedIsLegal(Cut(s));
    ParsedIsLegal(Cut(s'));
    EncodeOrder(VersionOf(Cut(s)).version, VersionOf(Cut(s')).version);
  }
}
