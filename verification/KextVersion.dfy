/** Kext version strings and their numbers (libkern/OSKextVersion.c).

    A string is read up to its end, as if a zero character followed it. */
module KextVersion {
  import opened Wrappers

  const FIELD_DIGITS := 4
  const LEVEL_DIGITS := 3
  const LEVEL_MAX := 255
  const MAJOR_MAX := 9999
  const MAJOR_MULT := 1_0000_0000_0000
  const MINOR_MULT := 1_0000_0000
  const REVISION_MULT := 1_0000
  const STAGE_MULT := 1000
  const MAX_LENGTH := 20

  const INVALID: nat := 0
  const DEVELOPMENT: nat := 1
  const ALPHA: nat := 3
  const BETA: nat := 5
  const CANDIDATE: nat := 7
  const RELEASE: nat := 9

  datatype Version = Version(major: nat, minor: nat, revision: nat, stage: nat, level: nat)

  // ----- Characters -----------------------------------------------------------------------------

  predicate IsDigit(c: char) { '0' <= c <= '9' }
  predicate IsSpace(c: char) { c == ' ' || c == '\t' || c == '\r' || c == '\n' }
  predicate IsReleaseState(c: char) { c == 'd' || c == 'a' || c == 'b' || c == 'f' }

  function DigitFor(c: char): int {
    if IsDigit(c) then c as int - '0' as int else -1
  }

  function CharFor(d: nat): (c: char)
    requires d < 10
    ensures IsDigit(c) && DigitFor(c) == d
  {
    (d + '0' as int) as char
  }

  /** The character at a position; past the end there is a zero. */
  function At(s: string, i: nat): char {
    if i < |s| then s[i] else '\0'
  }

  predicate Ends(c: char) { IsSpace(c) || c == '\0' }

  // ----- The grammar ----------------------------------------------------------------------------

  /** How many digits lead a string, up to a limit. */
  function Lead(s: string, max: nat): (n: nat)
    ensures n <= max && n <= |s|
    ensures forall i :: 0 <= i < n ==> IsDigit(s[i])
    ensures n < max ==> !IsDigit(At(s, n))
  {
    if max == 0 || s == [] || !IsDigit(s[0]) then 0 else 1 + Lead(s[1..], max - 1)
  }

  function Value(ds: string): nat
    requires forall i :: 0 <= i < |ds| ==> IsDigit(ds[i])
  {
    if ds == [] then 0 else Value(ds[..|ds| - 1]) * 10 + DigitFor(ds[|ds| - 1])
  }

  /** The stage at the start of a string, and how many letters it takes. */
  function StageFor(s: string): (nat, nat) {
    if Ends(At(s, 0)) then (RELEASE, 0)
    else if s[0] == 'd' && IsDigit(At(s, 1)) then (DEVELOPMENT, 1)
    else if s[0] == 'a' && IsDigit(At(s, 1)) then (ALPHA, 1)
    else if s[0] == 'b' && IsDigit(At(s, 1)) then (BETA, 1)
    else if s[0] == 'f' && IsDigit(At(s, 1)) then (CANDIDATE, 1)
    else if s[0] == 'f' && At(s, 1) == 'c' && IsDigit(At(s, 2)) then (CANDIDATE, 2)
    else (INVALID, 0)
  }

  /** What may follow the numbers: nothing, or a stage with its level. */
  function Stage(s: string): Option<(nat, nat)> {
    if Ends(At(s, 0)) then Some((RELEASE, 0)) else
      var (stage, k) := StageFor(s);
      if stage == INVALID then None else Level(stage, s[k..])
  }

  function Level(stage: nat, t: string): Option<(nat, nat)> {
    var n := Lead(t, LEVEL_DIGITS);
    var v := Value(t[..n]);
    if n == 0 || !Ends(At(t, n)) || v > LEVEL_MAX || (stage == CANDIDATE && v == 0) then None else Some((stage, v))
  }

  function WithRevision(revision: nat, st: Option<(nat, nat)>): Option<(nat, nat, nat)> {
    if st.Some? then Some((revision, st.value.0, st.value.1)) else None
  }

  function WithMinor(minor: nat, rest: Option<(nat, nat, nat)>): Option<(nat, nat, nat, nat)> {
    if rest.Some? then Some((minor, rest.value.0, rest.value.1, rest.value.2)) else None
  }

  function WithMajor(major: nat, rest: Option<(nat, nat, nat, nat)>): Option<Version> {
    if rest.Some? then Some(Version(major, rest.value.0, rest.value.1, rest.value.2, rest.value.3)) else None
  }

  function Revision(s: string): Option<(nat, nat, nat)> {
    var n := Lead(s, FIELD_DIGITS);
    WithRevision(Value(s[..n]), Stage(if n == FIELD_DIGITS && At(s, n) == '.' then s[n + 1..] else s[n..]))
  }

  function Minor(s: string): Option<(nat, nat, nat, nat)> {
    var n := Lead(s, FIELD_DIGITS);
    WithMinor(Value(s[..n]), if At(s, n) == '.' then Revision(s[n + 1..]) else WithRevision(0, Stage(s[n..])))
  }

  /** One to four digits, then up to two more numbers each after a period, then the stage. */
  function Parsed(s: string): Option<Version> {
    var n := Lead(s, FIELD_DIGITS);
    if n == 0 then None
    else WithMajor(Value(s[..n]), if At(s, n) == '.' then Minor(s[n + 1..])
      else WithMinor(0, WithRevision(0, Stage(s[n..]))))
  }

  // ----- Numbers --------------------------------------------------------------------------------

  function Encode(v: Version): nat {
    v.major * MAJOR_MULT + v.minor * MINOR_MULT + v.revision * REVISION_MULT + v.stage * STAGE_MULT + v.level
  }

  function Number(s: string): int {
    match Parsed(s)
    case Some(v) => Encode(v)
    case None => -1
  }

  /** The versions there are. */
  predicate Good(v: Version) {
    && v.major < 10000 && v.minor < 10000 && v.revision < 10000 && v.level <= LEVEL_MAX
    && v.stage in {DEVELOPMENT, ALPHA, BETA, CANDIDATE, RELEASE}
    && (v.stage == CANDIDATE ==> v.level != 0) && (v.stage == RELEASE ==> v.level == 0)
  }

  lemma {:induction false} ValueBound(ds: string)
    requires forall i :: 0 <= i < |ds| ==> IsDigit(ds[i])
    ensures |ds| <= 4 ==> Value(ds) < 10000
    ensures |ds| <= 3 ==> Value(ds) < 1000
    ensures |ds| <= 2 ==> Value(ds) < 100
    ensures |ds| <= 1 ==> Value(ds) < 10
    ensures |ds| == 0 ==> Value(ds) == 0
  {
    if ds != [] { ValueBound(ds[..|ds| - 1]); }
  }

  lemma {:induction false} StageGood(s: string)
    requires Stage(s).Some?
    ensures var (stage, level) := Stage(s).value; Good(Version(0, 0, 0, stage, level))
  {
  }

  lemma {:induction false} FieldBound(s: string)
    ensures Value(s[..Lead(s, FIELD_DIGITS)]) < 10000
  {
    ValueBound(s[..Lead(s, FIELD_DIGITS)]);
  }

  lemma {:induction false} RevisionGood(s: string)
    requires Revision(s).Some?
    ensures var (r, stage, level) := Revision(s).value; Good(Version(0, 0, r, stage, level))
  {
    var n := Lead(s, FIELD_DIGITS);
    FieldBound(s);
    StageGood(if n == FIELD_DIGITS && At(s, n) == '.' then s[n + 1..] else s[n..]);
  }

  lemma {:induction false} MinorGood(s: string)
    requires Minor(s).Some?
    ensures var (m, r, stage, level) := Minor(s).value; Good(Version(0, m, r, stage, level))
  {
    var n := Lead(s, FIELD_DIGITS);
    FieldBound(s);
    if At(s, n) == '.' {
      RevisionGood(s[n + 1..]);
    } else {
      StageGood(s[n..]);
    }
  }

  /** Whatever the parser accepts is within the bounds of its fields. */
  lemma {:induction false} ParsedGood(s: string)
    requires Parsed(s).Some?
    ensures Good(Parsed(s).value)
  {
    var n := Lead(s, FIELD_DIGITS);
    FieldBound(s);
    if At(s, n) == '.' {
      MinorGood(s[n + 1..]);
    } else {
      StageGood(s[n..]);
    }
  }

  // ----- Order ----------------------------------------------------------------------------------

  predicate Less(u: Version, v: Version) {
    || u.major < v.major
    || (u.major == v.major && u.minor < v.minor)
    || (u.major == v.major && u.minor == v.minor && u.revision < v.revision)
    || (u.major == v.major && u.minor == v.minor && u.revision == v.revision && u.stage < v.stage)
    || (u.major == v.major && u.minor == v.minor && u.revision == v.revision && u.stage == v.stage && u.level < v.level)
  }

  /** The order of the numbers is the lexicographic order of the versions, within 64 bits. */
  lemma {:induction false} NumberOrder(u: Version, v: Version)
    requires Good(u) && Good(v)
    ensures Encode(u) < Encode(v) <==> Less(u, v)
    ensures Encode(u) == Encode(v) <==> u == v
    ensures 0 < Encode(u) < 1_0000_0000_0000_0000 < 0x8000_0000_0000_0000
  {
  }

  // ----- Printing -------------------------------------------------------------------------------

  function Decimal(n: nat): (ds: string)
    ensures ds != [] && forall i :: 0 <= i < |ds| ==> IsDigit(ds[i])
  {
    if n < 10 then [CharFor(n)] else Decimal(n / 10) + [CharFor(n % 10)]
  }

  lemma {:induction false} DecimalValue(n: nat)
    ensures Value(Decimal(n)) == n
    ensures n < 10000 ==> |Decimal(n)| <= 4
    ensures n < 1000 ==> |Decimal(n)| <= 3
    ensures n < 100 ==> |Decimal(n)| <= 2
    ensures n < 10 ==> |Decimal(n)| <= 1
  {
    if n >= 10 {
      DecimalValue(n / 10);
      assert Decimal(n)[..|Decimal(n)| - 1] == Decimal(n / 10);
    } else {
      assert Decimal(n)[..0] == [];
    }
  }

  function StageString(stage: int): Option<string> {
    if stage == DEVELOPMENT then Some("d") else if stage == ALPHA then Some("a") else if stage == BETA then Some("b")
    else if stage == CANDIDATE then Some("f") else if stage == RELEASE then Some("") else None
  }

  /** The fields of a number, by division. */
  function Fields(n: nat): (v: Version)
    ensures Encode(v) == n && v.minor < 10000 && v.revision < 10000 && v.stage < 10 && v.level < 1000
  {
    var major := n / MAJOR_MULT;
    var minor := (n - major * MAJOR_MULT) / MINOR_MULT;
    var revision := (n - (major * MAJOR_MULT + minor * MINOR_MULT)) / REVISION_MULT;
    var stage := (n - (major * MAJOR_MULT + minor * MINOR_MULT + revision * REVISION_MULT)) / STAGE_MULT;
    Version(major, minor, revision, stage,
            n - (major * MAJOR_MULT + minor * MINOR_MULT + revision * REVISION_MULT + stage * STAGE_MULT))
  }

  lemma {:induction false} FieldsEncode(v: Version)
    requires Good(v)
    ensures Fields(Encode(v)) == v
  {
    SameFields(Fields(Encode(v)), v);
  }

  lemma {:induction false} SameFields(u: Version, v: Version)
    requires Encode(u) == Encode(v) && u.minor < 10000 && u.revision < 10000 && u.stage < 10 && u.level < 1000
    requires v.minor < 10000 && v.revision < 10000 && v.stage < 10 && v.level < 1000
    ensures u == v
  {
    assert u.minor * MINOR_MULT + u.revision * REVISION_MULT + u.stage * STAGE_MULT + u.level < MAJOR_MULT;
    assert v.minor * MINOR_MULT + v.revision * REVISION_MULT + v.stage * STAGE_MULT + v.level < MAJOR_MULT;
    assert u.major == v.major;
    assert u.minor == v.minor;
    assert u.revision == v.revision;
  }

  /** Major and minor, and the revision unless it is zero. */
  function NumberText(v: Version): string {
    Decimal(v.major) + "." + Decimal(v.minor) + if v.revision != 0 then "." + Decimal(v.revision) else ""
  }

  function StageText(v: Version): string
    requires StageString(v.stage).Some?
  {
    StageString(v.stage).value + if v.stage < RELEASE then Decimal(v.level) else ""
  }

  function Text(v: Version): string
    requires StageString(v.stage).Some?
  {
    NumberText(v) + StageText(v)
  }

  predicate Printable(n: int) {
    n > 0 && var v := Fields(n); v.major <= MAJOR_MAX && v.level <= LEVEL_MAX && StageString(v.stage).Some?
  }

  function Print(n: int): string {
    if n == 0 then "(missing)" else if Printable(n) then Text(Fields(n)) else "(invalid)"
  }

  // ----- Printing, then parsing -----------------------------------------------------------------

  lemma {:induction false} LeadOf(ds: string, rest: string, max: nat)
    requires (forall i :: 0 <= i < |ds| ==> IsDigit(ds[i])) && |ds| <= max && !IsDigit(At(rest, 0))
    ensures Lead(ds + rest, max) == |ds|
  {
    if ds != [] {
      assert (ds + rest)[1..] == ds[1..] + rest;
      LeadOf(ds[1..], rest, max - 1);
    } else {
      assert ds + rest == rest;
    }
  }

  /** A number of up to four digits, in front of anything but a digit. */
  lemma {:induction false} FieldRead(n: nat, rest: string)
    requires n < 10000 && !IsDigit(At(rest, 0))
    ensures var s := Decimal(n) + rest; var k := Lead(s, FIELD_DIGITS);
      k == |Decimal(n)| && s[k..] == rest && Value(s[..k]) == n && At(s, k) == At(rest, 0)
  {
    DecimalValue(n);
    LeadOf(Decimal(n), rest, FIELD_DIGITS);
    var s := Decimal(n) + rest;
    assert s[..|Decimal(n)|] == Decimal(n);
  }

  lemma {:induction false} LevelRead(stage: nat, level: nat)
    requires level <= LEVEL_MAX
    ensures Level(stage, Decimal(level)) == if stage == CANDIDATE && level == 0 then None else Some((stage, level))
  {
    DecimalValue(level);
    LeadOf(Decimal(level), "", LEVEL_DIGITS);
    assert Decimal(level) + "" == Decimal(level);
    assert Decimal(level)[..|Decimal(level)|] == Decimal(level);
  }

  lemma {:induction false} StageRead(v: Version)
    requires StageString(v.stage).Some? && v.level <= LEVEL_MAX
    ensures Stage(StageText(v)) == if v.stage == CANDIDATE && v.level == 0 then None
                                   else if v.stage == RELEASE then Some((v.stage, 0)) else Some((v.stage, v.level))
    ensures !IsDigit(At(StageText(v), 0)) && At(StageText(v), 0) != '.'
  {
    if v.stage < RELEASE {
      LevelRead(v.stage, v.level);
      assert StageText(v)[1..] == Decimal(v.level);
      assert StageText(v)[1] == Decimal(v.level)[0];
    }
  }

  lemma {:induction false} RevisionRead(revision: nat, st: string)
    requires revision < 10000 && !IsDigit(At(st, 0)) && At(st, 0) != '.'
    ensures Revision(Decimal(revision) + st) ==
      WithRevision(revision, Stage(st))
  {
    FieldRead(revision, st);
  }

  lemma {:induction false} MinorRead(minor: nat, revision: nat, st: string)
    requires minor < 10000 && revision < 10000 && !IsDigit(At(st, 0)) && At(st, 0) != '.'
    ensures Minor(Decimal(minor) + ((if revision != 0 then "." + Decimal(revision) else "") + st)) ==
      WithMinor(minor, WithRevision(revision, Stage(st)))
  {
    var rest := (if revision != 0 then "." + Decimal(revision) else "") + st;
    if revision != 0 {
      FieldRead(minor, rest);
      assert rest[1..] == Decimal(revision) + st;
      var s := Decimal(minor) + rest;
      assert s[|Decimal(minor)| + 1..] == rest[1..];
      RevisionRead(revision, st);
    } else {
      assert rest == st;
      FieldRead(minor, st);
    }
  }

  lemma {:induction false} MajorRead(major: nat, tail: string)
    requires major < 10000
    ensures Parsed(Decimal(major) + ("." + tail)) ==
      WithMajor(major, Minor(tail))
  {
    var s := Decimal(major) + ("." + tail);
    FieldRead(major, "." + tail);
    assert s[|Decimal(major)| + 1..] == tail;
  }

  function Tail(v: Version): string
    requires StageString(v.stage).Some?
  {
    Decimal(v.minor) + ((if v.revision != 0 then "." + Decimal(v.revision) else "") + StageText(v))
  }

  lemma {:induction false} TextSplit(v: Version)
    requires StageString(v.stage).Some?
    ensures Text(v) == Decimal(v.major) + ("." + Tail(v))
  {
  }

  lemma {:induction false} TextRead(v: Version)
    requires v.major < 10000 && v.minor < 10000 && v.revision < 10000 && v.level <= LEVEL_MAX
      && StageString(v.stage).Some?
    ensures Parsed(Text(v)) == if v.stage == CANDIDATE && v.level == 0 then None
                               else Some(if v.stage == RELEASE then v.(level := 0) else v)
  {
    StageRead(v);
    MinorRead(v.minor, v.revision, StageText(v));
    TextSplit(v);
    MajorRead(v.major, Tail(v));
  }

  // ----- The format in numbers ------------------------------------------------------------------

  /** Decimal digits: the last is that of the remainder, and the others are those of a tenth. */
  lemma {:induction false} DecimalDigits(n: nat)
    ensures var ds := Decimal(n); ds[|ds| - 1] == "0123456789"[n % 10]
    ensures n < 10 ==> |Decimal(n)| == 1
    ensures n >= 10 ==> var ds := Decimal(n); ds[..|ds| - 1] == Decimal(n / 10)
  {
  }

  /** The stages and their numbers. */
  lemma {:induction false} StageLetters(level: nat)
    requires level <= 255
    ensures Stage("d" + Decimal(level)) == Some((1, level)) && Stage("a" + Decimal(level)) == Some((3, level))
    ensures Stage("b" + Decimal(level)) == Some((5, level)) && Stage("") == Some((9, 0))
    ensures Stage("f" + Decimal(level)) == Stage("fc" + Decimal(level)) == if level == 0 then None else Some((7, level))
  {
    StageLetter("d", 1, level);
    StageLetter("a", 3, level);
    StageLetter("b", 5, level);
    StageLetter("f", 7, level);
    StageLetter("fc", 7, level);
  }

  lemma {:induction false} StageLetter(letters: string, stage: nat, level: nat)
    requires level <= 255
    requires (letters, stage) in {("d", 1), ("a", 3), ("b", 5), ("f", 7), ("fc", 7)}
    ensures Stage(letters + Decimal(level)) == if stage == 7 && level == 0 then None else Some((stage, level))
    ensures !IsDigit(At(letters + Decimal(level), 0)) && At(letters + Decimal(level), 0) != '.'
  {
    var s := letters + Decimal(level);
    LevelRead(stage, level);
    assert s[|letters|..] == Decimal(level);
    assert s[0] == letters[0] && s[|letters|] == Decimal(level)[0];
    if letters == "fc" {
      assert s[1] == 'c';
    }
  }

  /** A level above 255 is refused, and so is one of more than three digits. */
  lemma {:induction false} LevelRefused(letters: string, ds: string)
    requires letters in {"d", "a", "b", "f", "fc"} && ds != [] && forall i :: 0 <= i < |ds| ==> IsDigit(ds[i])
    requires |ds| > 3 || Value(ds) > 255
    ensures Stage(letters + ds).None?
  {
    var s := letters + ds;
    assert s[|letters|..] == ds && s[0] == letters[0] && s[|letters|] == ds[0];
    assert letters == "fc" ==> s[1] == 'c';
    if |ds| <= 3 {
      LeadOf(ds, "", LEVEL_DIGITS);
      assert ds + "" == ds && ds[..|ds|] == ds;
    } else {
      LeadThree(ds);
    }
  }

  lemma {:induction false} LeadThree(ds: string)
    requires |ds| > 3 && forall i :: 0 <= i < |ds| ==> IsDigit(ds[i])
    ensures Lead(ds, 3) == 3 && IsDigit(At(ds, 3))
  {
    assert Lead(ds[3..], 0) == 0;
    assert ds[1..][1..] == ds[2..] && ds[2..][1..] == ds[3..];
  }

  /** Three numbers and whatever may follow them. */
  function ThreeNumbers(major: nat, minor: nat, revision: nat, st: string): string {
    Decimal(major) + ("." + (Decimal(minor) + ("." + (Decimal(revision) + st))))
  }

  lemma {:induction false} ThreeRead(major: nat, minor: nat, revision: nat, st: string)
    requires major < 10000 && minor < 10000 && revision < 10000 && !IsDigit(At(st, 0)) && At(st, 0) != '.'
    ensures Number(ThreeNumbers(major, minor, revision, st)) == match Stage(st)
      case None => -1
      case Some(sl) =>
        major * 1_0000_0000_0000 + minor * 1_0000_0000 + revision * 1_0000 + sl.0 * 1000 + sl.1
  {
    var rest := "." + (Decimal(revision) + st);
    RevisionRead(revision, st);
    FieldRead(minor, rest);
    var s := Decimal(minor) + rest;
    assert s[|Decimal(minor)| + 1..] == Decimal(revision) + st;
    MajorRead(major, s);
  }

  /** Fewer numbers stand for zeros. */
  lemma {:induction false} FewerRead(major: nat, minor: nat, st: string)
    requires major < 10000 && minor < 10000 && !IsDigit(At(st, 0)) && At(st, 0) != '.'
    ensures Number(Decimal(major) + ("." + (Decimal(minor) + st))) == Number(ThreeNumbers(major, minor, 0, st))
    ensures Number(Decimal(major) + st) == Number(ThreeNumbers(major, 0, 0, st))
  {
    ThreeRead(major, minor, 0, st);
    ThreeRead(major, 0, 0, st);
    FieldRead(minor, st);
    MajorRead(major, Decimal(minor) + st);
    FieldRead(major, st);
  }

  /** The number of a text of each stage, and so their order: development, alpha, beta and candidate
      versions of any level, and then the release. */
  lemma {:induction false} StageOrder(major: nat, minor: nat, revision: nat, d: nat, a: nat, b: nat, f: nat)
    requires major < 10000 && minor < 10000 && revision < 10000
    requires d <= 255 && a <= 255 && b <= 255 && 1 <= f <= 255
    ensures var n := major * 1_0000_0000_0000 + minor * 1_0000_0000 + revision * 1_0000;
      && Number(ThreeNumbers(major, minor, revision, "d" + Decimal(d))) == n + 1000 + d
      && Number(ThreeNumbers(major, minor, revision, "a" + Decimal(a))) == n + 3000 + a
      && Number(ThreeNumbers(major, minor, revision, "b" + Decimal(b))) == n + 5000 + b
      && Number(ThreeNumbers(major, minor, revision, "f" + Decimal(f))) == n + 7000 + f
      && Number(ThreeNumbers(major, minor, revision, "fc" + Decimal(f))) == n + 7000 + f
      && Number(ThreeNumbers(major, minor, revision, "")) == n + 9000
      && n + 1000 + d < n + 3000 + a < n + 5000 + b < n + 7000 + f < n + 9000
  {
    StageLetter("d", 1, d);
    ThreeRead(major, minor, revision, "d" + Decimal(d));
    StageLetter("a", 3, a);
    ThreeRead(major, minor, revision, "a" + Decimal(a));
    StageLetter("b", 5, b);
    ThreeRead(major, minor, revision, "b" + Decimal(b));
    StageLetter("f", 7, f);
    ThreeRead(major, minor, revision, "f" + Decimal(f));
    StageLetter("fc", 7, f);
    ThreeRead(major, minor, revision, "fc" + Decimal(f));
    ThreeRead(major, minor, revision, "");
  }

  /** What such a number prints as: the revision is left out if it is zero, and the level of a
      release always. */
  lemma {:induction false} StagePrinted(major: nat, minor: nat, revision: nat, letter: string, stage: nat, level: nat)
    requires major < 10000 && minor < 10000 && revision < 10000 && level <= 255
    requires (letter, stage) in {("d", 1), ("a", 3), ("b", 5), ("f", 7), ("", 9)}
    ensures Print(major * 1_0000_0000_0000 + minor * 1_0000_0000 + revision * 1_0000 + stage * 1000 + level)
         == Decimal(major) + "." + Decimal(minor) + (if revision == 0 then "" else "." + Decimal(revision))
            + (letter + if stage == 9 then "" else Decimal(level))
  {
    VersionPrinted(Version(major, minor, revision, stage, level));
  }

  lemma {:induction false} VersionPrinted(v: Version)
    requires v.major < 10000 && v.minor < 10000 && v.revision < 10000 && v.level <= 255 && StageString(v.stage).Some?
    ensures Print(Encode(v)) == Text(v)
  {
    SameFields(Fields(Encode(v)), v);
  }

  lemma {:induction false} NotesRejected()
    ensures Number("(invalid)") == -1 && Number("(missing)") == -1
  {
    assert "(invalid)"[0] == '(' && "(missing)"[0] == '(';
  }

  /** For every string the parser accepts, printing its number and parsing that gives the
      number back. */
  lemma {:induction false} RoundTrip(s: string)
    requires Number(s) != -1
    ensures Number(Print(Number(s))) == Number(s)
  {
    ParsedGood(s);
    PrintExact(Number(s));
    FieldsEncode(Parsed(s).value);
    NumberOrder(Parsed(s).value, Parsed(s).value);
  }

  /** Exactly the numbers of versions survive being printed, and the error number, which
      prints as a note that does not parse. */
  lemma {:induction false} PrintExact(n: int)
    ensures Number(Print(n)) == n <==> n == -1 || (n > 0 && Good(Fields(n)))
  {
    NotesRejected();
    if Printable(n) {
      var v := Fields(n);
      TextRead(v);
      assert Encode(v) == n;
    }
  }

  /** A number is the number of some string exactly when its fields are those of a version. */
  lemma {:induction false} ImageExact(n: nat)
    ensures (exists s :: Number(s) == n) <==> (n > 0 && Good(Fields(n)))
  {
    PrintExact(n);
    if s :| Number(s) == n {
      RoundTrip(s);
    }
  }

  // ----- The parser -----------------------------------------------------------------------------

  lemma {:induction false} LeadIs(t: string, n: nat, max: nat)
    requires n <= max && n <= |t| && (forall i :: 0 <= i < n ==> IsDigit(t[i])) && (n == max || !IsDigit(At(t, n)))
    ensures Lead(t, max) == n
  {
    if n > 0 { LeadIs(t[1..], n - 1, max - 1); }
  }

  /** How the scan of a number ends: in error, at the end of the string, at a stage letter,
      or at the place where the next number may start. */
  datatype Exit = Bad | Finish | State | Next

  function ExitFor(c: char, n: nat, dotEnds: bool): Exit {
    if n < FIELD_DIGITS then
      if Ends(c) then Finish else if IsReleaseState(c) then State else if c == '.' && dotEnds then Next else Bad
    else if IsDigit(c) then Bad else Next
  }

  ghost predicate Scanned(t: string, dotEnds: bool, exit: Exit, value: nat, k: int) {
    var n := Lead(t, FIELD_DIGITS);
    && value == Value(t[..n]) && exit == ExitFor(At(t, n), n, dotEnds)
    && k == (if exit == Next && At(t, n) == '.' then n + 1 else n)
  }

  /** Scans the number that starts at `b`, of which the digits up to `i0` are read. */
  method ScanNumber(s: string, b: nat, i0: nat, v0: nat, dotEnds: bool) returns (exit: Exit, value: nat, i: nat)
    requires b <= i0 <= |s| && i0 - b <= 1 && (forall j :: b <= j < i0 ==> IsDigit(s[j])) && v0 == Value(s[b..i0])
    ensures Scanned(s[b..], dotEnds, exit, value, i - b) && i <= |s|
  {
    i, value := i0, v0;
    while i - b < FIELD_DIGITS
      invariant i0 <= i <= |s| && i - b <= FIELD_DIGITS
      invariant (forall j :: b <= j < i ==> IsDigit(s[j])) && value == Value(s[b..i])
    {
      var c := At(s, i);
      if !IsDigit(c) {
        ScanEnds(s, b, i);
        exit := ExitFor(c, i - b, dotEnds);
        if exit == Next {
          i := i + 1;
        }
        return;
      }
      assert s[b..i + 1][..i - b] == s[b..i];
      value := value * 10 + DigitFor(c);
      i := i + 1;
    }
    ScanEnds(s, b, i);
    if At(s, i) == '.' {
      i := i + 1;
      exit := Next;
    } else if IsDigit(At(s, i)) {
      exit := Bad;
    } else {
      exit := Next;
    }
  }

  lemma {:induction false} ScanEnds(s: string, b: nat, i: nat)
    requires b <= i <= |s| && i - b <= FIELD_DIGITS && (forall j :: b <= j < i ==> IsDigit(s[j]))
    requires i - b == FIELD_DIGITS || !IsDigit(At(s, i))
    ensures Lead(s[b..], FIELD_DIGITS) == i - b && s[b..][..i - b] == s[b..i]
  {
    LeadIs(s[b..], i - b, FIELD_DIGITS);
  }

  /** The stage and its level. */
  method ReleaseState(s: string, i: nat) returns (r: Option<(nat, nat)>)
    requires i <= |s|
    ensures r == Stage(s[i..])
  {
    if Ends(At(s, i)) {
      return Some((RELEASE, 0));
    }
    var (stage, k) := StageFor(s[i..]);
    if stage == INVALID {
      return None;
    }
    assert s[i..][k..] == s[i + k..];
    r := StageLevel(stage, s, i + k);
  }

  method StageLevel(stage: nat, s: string, b: nat) returns (r: Option<(nat, nat)>)
    requires b <= |s| && stage != RELEASE
    ensures r == Level(stage, s[b..])
  {
    var i, level := b, 0;
    while i - b < LEVEL_DIGITS
      invariant b <= i <= |s| && i - b <= LEVEL_DIGITS
      invariant (forall j :: b <= j < i ==> IsDigit(s[j])) && level == Value(s[b..i])
    {
      var c := At(s, i);
      if Ends(c) {
        if i == b {
          LevelEnds(s, b, i);
          return None;
        }
        break;
      } else if IsDigit(c) {
        assert s[b..i + 1][..i - b] == s[b..i];
        level := level * 10 + DigitFor(c);
        i := i + 1;
      } else {
        LevelEnds(s, b, i);
        return None;
      }
    }
    LevelEnds(s, b, i);
    if i - b == LEVEL_DIGITS && !Ends(At(s, i)) {
      return None;
    }
    if level > LEVEL_MAX {
      return None;
    }
    if stage == CANDIDATE && level == 0 {
      return None;
    }
    r := Some((stage, level));
  }

  lemma {:induction false} LevelEnds(s: string, b: nat, i: nat)
    requires b <= i <= |s| && i - b <= LEVEL_DIGITS && (forall j :: b <= j < i ==> IsDigit(s[j]))
    requires i - b == LEVEL_DIGITS || !IsDigit(At(s, i))
    ensures Lead(s[b..], LEVEL_DIGITS) == i - b && s[b..][..i - b] == s[b..i]
  {
    LeadIs(s[b..], i - b, LEVEL_DIGITS);
  }

  lemma {:induction false} Suffix(s: string, b: nat, k: nat)
    requires b + k <= |s|
    ensures s[b..][k..] == s[b + k..]
  {
  }

  /** What may follow a number of which all digits are read: in error there is no stage
      either, and at the end of the string the stage is the release. */
  lemma {:induction false} ExitStage(u: string, n: nat, dotEnds: bool)
    requires n <= FIELD_DIGITS && (n < FIELD_DIGITS ==> !IsDigit(At(u, 0)))
    ensures ExitFor(At(u, 0), n, dotEnds) == Bad && !(At(u, 0) == '.' && dotEnds) ==> Stage(u) == None
    ensures ExitFor(At(u, 0), n, dotEnds) == Finish ==> Stage(u) == Some((RELEASE, 0))
  {
  }

  lemma {:induction false} RevisionExit(t: string, exit: Exit, revision: nat, k: nat)
    requires Scanned(t, false, exit, revision, k) && k <= |t|
    ensures Revision(t) == match exit case Bad => None case Finish => Some((revision, RELEASE, 0))
                                      case _ => WithRevision(revision, Stage(t[k..]))
  {
    var n := Lead(t, FIELD_DIGITS);
    ExitStage(t[n..], n, false);
  }

  method RevisionAt(s: string, b: nat) returns (r: Option<(nat, nat, nat)>)
    requires b <= |s|
    ensures r == Revision(s[b..])
  {
    var exit, revision, i := ScanNumber(s, b, b, 0, false);
    RevisionExit(s[b..], exit, revision, i - b);
    Suffix(s, b, i - b);
    match exit
    case Bad => r := None;
    case Finish => r := Some((revision, RELEASE, 0));
    case _ =>
      var st := ReleaseState(s, i);
      r := WithRevision(revision, st);
  }

  /** After a number of four digits with no period, the next number is not there. */
  lemma {:induction false} NoRevision(t: string)
    requires !IsDigit(At(t, 0)) && At(t, 0) != '.'
    ensures Revision(t) == WithRevision(0, Stage(t))
  {
    assert t[..0] == [] && t[0..] == t;
  }

  lemma {:induction false} MinorExit(t: string, exit: Exit, minor: nat, k: nat)
    requires Scanned(t, true, exit, minor, k) && k <= |t|
    ensures Minor(t) == match exit case Bad => None case Finish => Some((minor, 0, RELEASE, 0))
                                   case State => WithMinor(minor, WithRevision(0, Stage(t[k..])))
                                   case Next => WithMinor(minor, Revision(t[k..]))
  {
    var n := Lead(t, FIELD_DIGITS);
    ExitStage(t[n..], n, true);
    if exit == Next && k == n {
      NoRevision(t[n..]);
    }
  }

  method MinorAt(s: string, b: nat) returns (r: Option<(nat, nat, nat, nat)>)
    requires b <= |s|
    ensures r == Minor(s[b..])
  {
    var exit, minor, i := ScanNumber(s, b, b, 0, true);
    MinorExit(s[b..], exit, minor, i - b);
    Suffix(s, b, i - b);
    match exit
    case Bad => r := None;
    case Finish => r := Some((minor, 0, RELEASE, 0));
    case State =>
      var st := ReleaseState(s, i);
      r := WithMinor(minor, WithRevision(0, st));
    case Next =>
      var rest := RevisionAt(s, i);
      r := WithMinor(minor, rest);
  }

  lemma {:induction false} NoMinor(t: string)
    requires !IsDigit(At(t, 0)) && At(t, 0) != '.'
    ensures Minor(t) == WithMinor(0, WithRevision(0, Stage(t)))
  {
    assert t[..0] == [] && t[0..] == t;
  }

  lemma {:induction false} MajorExit(t: string, exit: Exit, major: nat, k: nat)
    requires Scanned(t, true, exit, major, k) && k <= |t| && IsDigit(At(t, 0))
    ensures Parsed(t) == match exit case Bad => None case Finish => Some(Version(major, 0, 0, RELEASE, 0))
                                    case State => WithMajor(major, WithMinor(0, WithRevision(0, Stage(t[k..]))))
                                    case Next => WithMajor(major, Minor(t[k..]))
  {
    var n := Lead(t, FIELD_DIGITS);
    ExitStage(t[n..], n, true);
    if exit == Next && k == n {
      NoMinor(t[n..]);
    }
  }

  /** OSKextParseVersionString: the number of a version string, or -1. */
  method ParseVersionString(s: string) returns (result: int)
    ensures result == Number(s)
  {
    if At(s, 0) == '\0' || DigitFor(At(s, 0)) < 0 {
      return -1;
    }
    assert s[0..1] == [s[0]] && s[0..] == s;
    var exit, major, i := ScanNumber(s, 0, 1, DigitFor(s[0]), true);
    MajorExit(s, exit, major, i);
    var v: Option<Version>;
    match exit {
      case Bad =>
        v := None;
      case Finish =>
        v := Some(Version(major, 0, 0, RELEASE, 0));
      case State =>
        var st := ReleaseState(s, i);
        v := WithMajor(major, WithMinor(0, WithRevision(0, st)));
      case Next =>
        var rest := MinorAt(s, i);
        v := WithMajor(major, rest);
    }
    result := if v.Some? then Encode(v.value) else -1;
  }

  // ----- Printing into a buffer -----------------------------------------------------------------

  /** The buffer starts with this text and its closing zero. */
  ghost predicate Holds(b: seq<char>, text: string) {
    |text| < |b| && b[..|text|] == text && b[|text|] == '\0'
  }

  /** A piece and a closing zero, written behind what is there. */
  method Put(buffer: array<char>, at: nat, piece: string) returns (end: nat)
    requires at + |piece| < buffer.Length
    modifies buffer
    ensures end == at + |piece|
    ensures Holds(buffer[..], old(buffer[..at]) + piece)
  {
    for k := 0 to |piece|
      invariant buffer[..at + k] == old(buffer[..at]) + piece[..k]
    {
      buffer[at + k] := piece[k];
    }
    end := at + |piece|;
    buffer[end] := '\0';
  }

  method PutAlone(buffer: array<char>, text: string) returns (end: nat)
    requires |text| < buffer.Length
    modifies buffer
    ensures end == |text| && Holds(buffer[..], text)
  {
    end := Put(buffer, 0, text);
    assert buffer[..0] == [] && [] + text == text;
  }

  /** strlcat: the piece goes to where the text ends. */
  method Concat(buffer: array<char>, piece: string, ghost text: string)
    requires Holds(buffer[..], text) && '\0' !in text && |text| + |piece| < buffer.Length
    modifies buffer
    ensures Holds(buffer[..], text + piece)
  {
    var at := 0;
    while buffer[at] != '\0'
      invariant at <= |text|
      decreases |text| - at
    {
      assert buffer[..][|text|] == '\0';
      at := at + 1;
    }
    var _ := Put(buffer, at, piece);
  }

  lemma {:induction false} NumberTextFits(v: Version)
    requires v.major < 10000 && v.minor < 10000 && v.revision < 10000
    ensures |NumberText(v)| <= 14 && '\0' !in NumberText(v)
  {
    DecimalValue(v.major);
    DecimalValue(v.minor);
    DecimalValue(v.revision);
  }

  lemma {:induction false} NumberTextParts(v: Version)
    ensures var text := Decimal(v.major) + "." + Decimal(v.minor);
      NumberText(v) == if v.revision == 0 then text else text + "." + Decimal(v.revision)
  {
    var text := Decimal(v.major) + "." + Decimal(v.minor);
    assert text + "." + Decimal(v.revision) == text + ("." + Decimal(v.revision));
  }

  /** A point, then a number. */
  method PutField(buffer: array<char>, at: nat, n: nat, ghost text: string) returns (end: nat)
    requires at == |text| && n < 10000 && at + 5 < buffer.Length && Holds(buffer[..], text)
    modifies buffer
    ensures end == |text + "." + Decimal(n)| && Holds(buffer[..], text + "." + Decimal(n))
  {
    DecimalValue(n);
    buffer[at] := '.';
    assert buffer[..at + 1] == text + ".";
    end := Put(buffer, at + 1, Decimal(n));
  }

  method PutNumbers(buffer: array<char>, v: Version) returns (end: nat)
    requires v.major < 10000 && v.minor < 10000 && v.revision < 10000 && buffer.Length >= MAX_LENGTH
    modifies buffer
    ensures end == |NumberText(v)| && Holds(buffer[..], NumberText(v))
  {
    var major := Decimal(v.major);
    DecimalValue(v.major);
    end := PutAlone(buffer, major);
    ghost var text := major + "." + Decimal(v.minor);
    end := PutField(buffer, end, v.minor, major);
    NumberTextParts(v);
    if v.revision != 0 {
      DecimalValue(v.minor);
      end := PutField(buffer, end, v.revision, text);
    }
  }

  lemma {:induction false} TextParts(v: Version, text: string)
    requires StageString(v.stage).Some? && v.level <= LEVEL_MAX && text == NumberText(v) && |text| <= 14
    ensures var stage := StageString(v.stage).value;
      |stage| <= 1 && Text(v) == (if v.stage < RELEASE then text + stage + Decimal(v.level) else text + stage)
    ensures |Text(v)| < MAX_LENGTH
  {
    DecimalValue(v.level);
    var stage := StageString(v.stage).value;
    assert text + (stage + Decimal(v.level)) == text + stage + Decimal(v.level);
    assert stage + "" == stage;
  }

  method PutStageString(buffer: array<char>, stage: string, ghost text: string)
    requires Holds(buffer[..], text) && '\0' !in text && |text| + |stage| < buffer.Length
    modifies buffer
    ensures Holds(buffer[..], text + stage)
  {
    if stage != "" {
      Concat(buffer, stage, text);
    } else {
      assert text + stage == text;
    }
  }

  /** The stage, and the level unless it is a release. */
  method PutStage(buffer: array<char>, at: nat, v: Version)
    requires v.major < 10000 && v.minor < 10000 && v.revision < 10000 && v.level <= LEVEL_MAX
    requires StageString(v.stage).Some? && buffer.Length >= MAX_LENGTH
    requires at == |NumberText(v)| && Holds(buffer[..], NumberText(v))
    modifies buffer
    ensures Holds(buffer[..], Text(v)) && |Text(v)| < MAX_LENGTH
  {
    NumberTextFits(v);
    ghost var text := NumberText(v);
    TextParts(v, text);
    var stage := StageString(v.stage).value;
    PutStageString(buffer, stage, text);
    if v.stage < RELEASE {
      var _ := Put(buffer, at + |stage|, Decimal(v.level));
    }
  }

  /** OSKextVersionGetString: false, and nothing written, when the buffer is too short;
      otherwise the buffer holds the text with its closing zero. */
  method GetString(n: int, buffer: array?<char>) returns (ok: bool)
    modifies buffer
    ensures ok <==> buffer != null && buffer.Length >= 20
    ensures ok ==> Holds(buffer[..], Print(n)) && |Print(n)| < MAX_LENGTH
    ensures !ok && buffer != null ==> buffer[..] == old(buffer[..])
  {
    if buffer == null || buffer.Length < MAX_LENGTH {
      return false;
    }
    ok := true;
    for k := 0 to buffer.Length {
      buffer[k] := '\0';
    }
    if n < 0 {
      var _ := PutAlone(buffer, "(invalid)");
      return;
    }
    if n == 0 {
      var _ := PutAlone(buffer, "(missing)");
      return;
    }
    var v := Fields(n);
    if v.major > MAJOR_MAX || v.level > LEVEL_MAX {
      var _ := PutAlone(buffer, "(invalid)");
      return;
    }
    var end := PutNumbers(buffer, v);
    if StageString(v.stage).None? {
      var _ := PutAlone(buffer, "(invalid)");
      return;
    }
    PutStage(buffer, end, v);
  }
}
