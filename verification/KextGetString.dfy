/** OSKextVersionGetString on its buffer. */
module KextGetString {
  import opened KextVersion
  import opened KextPrinter

  /** The C string at the start of a buffer. */
  function CString(b: seq<char>): string {
    if b == [] || b[0] == '\0' then "" else [b[0]] + CString(b[1..])
  }

  /** The buffer holds the text and only zeros after it. */
  ghost predicate Holds(b: seq<char>, text: string) {
    |text| < |b| && b[..|text|] == text && forall i :: |text| <= i < |b| ==> b[i] == '\0'
  }

  lemma {:induction false} CStringOf(b: seq<char>, text: string)
    requires |text| < |b| && b[..|text|] == text && b[|text|] == '\0' && NoSpace(text)
    ensures CString(b) == text
    decreases |text|
  {
    if text != "" {
      assert b[0] == b[..|text|][0] == text[0];
      var b', text' := b[1..], text[1..];
      assert b'[..|text'|] == b[..|text|][1..] == text';
      CStringOf(b', text');
    }
  }

  /** scnprintf, strlcat and strlcpy of a text that fits: it and a NUL are written at pos. */
  method Put(buffer: array<char>, pos: nat, text: string)
    requires pos + |text| < buffer.Length
    modifies buffer
    ensures buffer[..] == old(buffer[..pos]) + text + ['\0'] + old(buffer[pos + |text| + 1..])
  {
    for i := 0 to |text|
      invariant buffer[..pos] == old(buffer[..pos]) && buffer[pos..pos + i] == text[..i]
      invariant buffer[pos + i..] == old(buffer[pos + i..])
    {
      buffer[pos + i] := text[i];
      assert text[..i + 1] == text[..i] + [text[i]];
    }
    buffer[pos + |text|] := '\0';
    assert text[..|text|] == text;
  }

  /** Appending to a text in a zeroed buffer. */
  method Append(buffer: array<char>, ghost text: string, pos: nat, more: string) returns (pos': nat)
    requires Holds(buffer[..], text) && pos == |text| && |text| + |more| < buffer.Length
    modifies buffer
    ensures Holds(buffer[..], text + more) && pos' == |text + more|
  {
    ghost var was := buffer[..];
    Put(buffer, pos, more);
    pos' := pos + |more|;
    assert buffer[..][..pos'] == text + more;
    forall i | pos' <= i < buffer.Length ensures buffer[i] == '\0' {
      if i > pos' {
        assert buffer[i] == was[i];
      }
    }
  }

  /** strlcpy of one of the fixed texts over whatever is in the buffer. */
  method Replace(buffer: array<char>, text: string)
    requires |text| < buffer.Length && NoSpace(text)
    modifies buffer
    ensures CString(buffer[..]) == text
  {
    Put(buffer, 0, text);
    assert buffer[..][..|text|] == text;
    CStringOf(buffer[..], text);
  }

  method Zero(buffer: array<char>)
    modifies buffer
    ensures forall i :: 0 <= i < buffer.Length ==> buffer[i] == '\0'
  {
    for i := 0 to buffer.Length
      invariant forall j :: 0 <= j < i ==> buffer[j] == '\0'
    {
      buffer[i] := '\0';
    }
  }

  lemma NumbersFit(v: Version)
    requires 0 <= v.major <= 9999 && 0 <= v.minor <= 9999 && 0 <= v.revision <= 9999 && 0 <= v.level <= 999
    ensures |Decimal(v.major)| <= 4 && |Decimal(v.minor)| <= 4 && |Decimal(v.revision)| <= 4 && |Decimal(v.level)| <= 3
  {
    DecimalLength(v.major);
    DecimalLength(v.minor);
    DecimalLength(v.revision);
    DecimalLength(v.level);
  }

  /** Lines 458-473: the three numbers. */
  method PutNumbers(buffer: array<char>, major: nat, minor: nat, revision: nat) returns (cpos: nat)
    requires buffer.Length >= 19 && Holds(buffer[..], "")
    requires |Decimal(major)| <= 4 && |Decimal(minor)| <= 4 && |Decimal(revision)| <= 4
    modifies buffer
    ensures Holds(buffer[..], Decimal(major) + "." + Decimal(minor) + RevisionText(revision))
    ensures cpos == |Decimal(major) + "." + Decimal(minor) + RevisionText(revision)|
  {
    ghost var text := "";
    assert "" + Decimal(major) == Decimal(major);
    cpos := Append(buffer, "", 0, Decimal(major));
    text := Decimal(major);
    cpos := Append(buffer, text, cpos, ".");
    text := text + ".";
    cpos := Append(buffer, text, cpos, Decimal(minor));
    text := text + Decimal(minor);
    if revision != 0 {
      cpos := Append(buffer, text, cpos, ".");
      cpos := Append(buffer, text + ".", cpos, Decimal(revision));
      assert text + "." + Decimal(revision) == text + RevisionText(revision);
    } else {
      assert text + RevisionText(revision) == text;
    }
  }

  /** Lines 475-487: the stage and its level, or the fixed text for an unknown stage. */
  method PutStage(buffer: array<char>, cpos: nat, stage: int, level: nat, ghost text: string)
    requires buffer.Length >= 19 && Holds(buffer[..], text) && cpos == |text| <= 14 && NoSpace(text)
    requires |Decimal(level)| <= 3
    modifies buffer
    ensures CString(buffer[..]) == if IsStage(stage) then text + StageText(stage, level) else "(invalid)"
  {
    if !IsStage(stage) {
      Replace(buffer, "(invalid)");
      return;
    }
    var pos := cpos;
    ghost var t := text;
    if StageString(stage) != "" {
      pos := Append(buffer, t, pos, StageString(stage));
    }
    t := t + StageString(stage);
    assert StageString(stage) == "" ==> t == text;
    if stage < RELEASE {
      pos := Append(buffer, t, pos, Decimal(level));
      t := t + Decimal(level);
    }
    assert t == text + StageText(stage, level);
    CStringOf(buffer[..], t);
  }

  /** Lines 458-489: the fields as text. */
  method PutVersion(buffer: array<char>, v: Version)
    requires buffer.Length >= MAX_LENGTH && forall i :: 0 <= i < buffer.Length ==> buffer[i] == '\0'
    requires 0 <= v.major <= MAJOR_MAX && 0 <= v.minor <= 9999 && 0 <= v.revision <= 9999 && 0 <= v.level <= LEVEL_MAX
    modifies buffer
    ensures CString(buffer[..]) == if IsStage(v.stage) then VersionText(v) else "(invalid)"
  {
    NumbersFit(v);
    var cpos := PutNumbers(buffer, v.major, v.minor, v.revision);
    ghost var text := Decimal(v.major) + "." + Decimal(v.minor) + RevisionText(v.revision);
    PutStage(buffer, cpos, v.stage, v.level, text);
  }

  /** OSKextVersionGetString. */
  method GetString(version: int, buffer: array<char>) returns (ok: bool)
    modifies buffer
    ensures ok <==> buffer.Length >= MAX_LENGTH
    ensures ok ==> CString(buffer[..]) == PrintText(version)
    ensures !ok ==> buffer[..] == old(buffer[..])
  {
    if buffer.Length < MAX_LENGTH {
      return false;
    }
    Zero(buffer);
    ok := true;
    if version < 0 {
      Replace(buffer, "(invalid)");
      return;
    }
    if version == 0 {
      Replace(buffer, "(missing)");
      return;
    }
    EncodeOfFields(version);
    var major := version / MAJOR_MULT;
    if major > MAJOR_MAX {
      Replace(buffer, "(invalid)");
      return;
    }
    var minor := (version - major * MAJOR_MULT) / MINOR_MULT;
    var revision := (version - (major * MAJOR_MULT + minor * MINOR_MULT)) / REVISION_MULT;
    var stage := (version - (major * MAJOR_MULT + minor * MINOR_MULT + revision * REVISION_MULT)) / STAGE_MULT;
    var level := version - (major * MAJOR_MULT + minor * MINOR_MULT + revision * REVISION_MULT + stage * STAGE_MULT);
    var v := Version(major, minor, revision, stage, level);
    assert v == Fields(version);
    if level > LEVEL_MAX {
      Replace(buffer, "(invalid)");
      return;
    }
    PutVersion(buffer, v);
  }
}
