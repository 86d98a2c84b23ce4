/**
 * The bump command: parsing and printing a `major.minor.patch[-prerelease]`
 * version, the seven kinds of bump, and the rewrite of the first `version`
 * line of a manifest's text.
 */
module Bump {
  import opened Wrappers
  import opened Strings

  /** `Version`; each number is a `u64`. */
  datatype Version = Version(major: nat, minor: nat, patch: nat, prerelease: Option<string>)

  /** `BumpVersionType` */
  datatype BumpVersionType = Patch | Minor | Major | Release | Alpha | Beta | Rc

  /**
   * Why `execute_bump` gives no new version: no line holds a parseable
   * version, or a number would pass `u64::MAX` (an arithmetic panic in a
   * debug build).
   */
  datatype BumpError = VersionFieldNotFound | Overflow

  predicate InU64(v: Version)
  {
    v.major <= U64_MAX && v.minor <= U64_MAX && v.patch <= U64_MAX
  }

  /**
   * `parse_version`: the text before the first `-` must split on `.` into
   * exactly three `u64` numbers; the text between the first and the second
   * `-`, if any, is the pre-release.
   */
  function ParseVersion(text: string): (r: Option<Version>)
    ensures var nums := Split(Split(text, '-')[0], '.');
            r.Some? <==> |nums| == 3 && ParseU64(nums[0]).Some? && ParseU64(nums[1]).Some? && ParseU64(nums[2]).Some?
    ensures var parts := Split(text, '-');
            var nums := Split(parts[0], '.');
            r.Some? ==> && r.value.major == ParseU64(nums[0]).value
                        && r.value.minor == ParseU64(nums[1]).value
                        && r.value.patch == ParseU64(nums[2]).value
                        && r.value.prerelease == (if |parts| > 1 then Some(parts[1]) else None)
    ensures r.Some? ==> InU64(r.value)
    ensures r.Some? ==> (r.value.prerelease.Some? <==> '-' in text)
    ensures r.Some? && r.value.prerelease.Some? ==> '-' !in r.value.prerelease.value
  {
    var parts := Split(text, '-');
    SplitSingle(text, '-');
    var prerelease := if |parts| > 1 then Some(parts[1]) else None;
    var nums := Split(parts[0], '.');
    if |nums| != 3 then None
    else match (ParseU64(nums[0]), ParseU64(nums[1]), ParseU64(nums[2]))
      case (Some(major), Some(minor), Some(patch)) => Some(Version(major, minor, patch, prerelease))
      case _ => None
  }

  /** `version_to_string` */
  function VersionToString(v: Version): string
  {
    var base := NatToString(v.major) + "." + NatToString(v.minor) + "." + NatToString(v.patch);
    match v.prerelease
    case Some(pre) => base + "-" + pre
    case None => base
  }

  /** Formatted numbers hold only digits. */
  lemma NumberTextHasNo(n: nat, c: char)
    requires !IsDigit(c)
    ensures c !in NatToString(n)
  {
    DigitsHaveNo(NatToString(n), c);
  }

  /** Printing a version and parsing it back gives the version, when its pre-release has no `-`. */
  lemma ParseVersionToString(v: Version)
    requires InU64(v)
    requires v.prerelease.Some? ==> '-' !in v.prerelease.value
    ensures ParseVersion(VersionToString(v)) == Some(v)
  {
    var a, b, c := NatToString(v.major), NatToString(v.minor), NatToString(v.patch);
    NumberTextHasNo(v.major, '.');
    NumberTextHasNo(v.minor, '.');
    NumberTextHasNo(v.patch, '.');
    NumberTextHasNo(v.major, '-');
    NumberTextHasNo(v.minor, '-');
    NumberTextHasNo(v.patch, '-');
    var base := a + "." + b + "." + c;
    SplitJoinThree(a, b, c, '.');
    match v.prerelease {
      case Some(pre) =>
        SplitJoinTwo(base, pre, '-');
      case None =>
        SplitNone(base, '-');
    }
    ParseU64OfNatToString(v.major);
    ParseU64OfNatToString(v.minor);
    ParseU64OfNatToString(v.patch);
  }

  /**
   * Version text in the form `version_to_string` prints: at most one `-`,
   * and three canonical decimal numbers that fit in a `u64`.
   */
  predicate IsVersionText(text: string)
  {
    var parts := Split(text, '-');
    var nums := Split(parts[0], '.');
    && |parts| <= 2
    && |nums| == 3
    && IsCanonicalDecimal(nums[0]) && DigitsValue(nums[0]) <= U64_MAX
    && IsCanonicalDecimal(nums[1]) && DigitsValue(nums[1]) <= U64_MAX
    && IsCanonicalDecimal(nums[2]) && DigitsValue(nums[2]) <= U64_MAX
  }

  /** Parsing such text and printing the version gives the text back. */
  lemma VersionToStringOfParse(text: string)
    requires IsVersionText(text)
    ensures ParseVersion(text).Some? && VersionToString(ParseVersion(text).value) == text
  {
    var parts := Split(text, '-');
    var nums := Split(parts[0], '.');
    CanonicalNumber(nums[0]);
    CanonicalNumber(nums[1]);
    CanonicalNumber(nums[2]);
    var v := ParseVersion(text).value;
    assert NatToString(v.major) + "." + NatToString(v.minor) + "." + NatToString(v.patch) == parts[0] by {
      JoinThree(nums, '.');
    }
    if |parts| == 2 {
      JoinTwo(parts, '-');
    }
  }

  /** Text after a second `-` is dropped: `1.2.3-a-b` parses as `1.2.3-a`. */
  lemma ParseVersionDropsAfterSecondDash(base: string, pre: string, rest: string)
    requires '-' !in base && '-' !in pre
    ensures ParseVersion(base + "-" + pre + "-" + rest) == ParseVersion(base + "-" + pre)
  {
    assert base + "-" + pre + "-" + rest == base + ['-'] + (pre + ['-'] + rest);
    SplitAfter(base, '-', pre + ['-'] + rest);
    SplitAfter(pre, '-', rest);
    SplitJoinTwo(base, pre, '-');
  }

  /** `parse_prerelease`: the text before the first `.` and the number after it, 0 when that is missing or not a `u64`. */
  function ParsePrerelease(pre: string): (r: Option<(string, nat)>)
    ensures r.Some? && r.value.1 <= U64_MAX
    ensures '.' !in r.value.0 && StartsWith(pre, r.value.0)
    ensures '.' !in pre ==> r == Some((pre, 0))
    ensures '.' in pre ==> |r.value.0| < |pre| && pre[|r.value.0|] == '.'
    ensures var parts := Split(pre, '.');
            |parts| > 1 ==> r.value.1 == (if ParseU64(parts[1]).Some? then ParseU64(parts[1]).value else 0)
  {
    var parts := Split(pre, '.');
    if '.' !in pre then SplitNone(pre, '.'); Some((pre, 0))
    else
      var number := if |parts| > 1 && ParseU64(parts[1]).Some? then ParseU64(parts[1]).value else 0;
      Some((parts[0], number))
  }

  /** `<type>.<n>` parses back to its type and number. */
  lemma ParsePrereleaseNumbered(t: string, n: nat)
    requires '.' !in t && n <= U64_MAX
    ensures ParsePrerelease(t + "." + NatToString(n)) == Some((t, n))
  {
    NumberTextHasNo(n, '.');
    SplitJoinTwo(t, NatToString(n), '.');
    ParseU64OfNatToString(n);
  }

  /** The number the next pre-release of type `target` gets after `current`. */
  function NextNumber(current: Option<string>, target: string): nat
  {
    match current
    case None => 0
    case Some(pre) =>
      var parsed := ParsePrerelease(pre).value;
      if parsed.0 == target && parsed.1 > 0 then parsed.1 + 1 else 1
  }

  /** `number + 1` stays a `u64`. */
  predicate NextFits(current: Option<string>, target: string)
  {
    NextNumber(current, target) <= U64_MAX
  }

  /** `get_next_prerelease` */
  function GetNextPrerelease(current: Option<string>, target: string): (r: string)
    requires NextFits(current, target)
    ensures StartsWith(r, target)
    ensures current.None? ==> r == target
    ensures current.Some? ==> (&& |r| > |target| + 1 && r[|target|] == '.'
                               && r[|target| + 1..] == NatToString(NextNumber(current, target)))
  {
    match current
    case None => target
    case Some(pre) =>
      var parsed := ParsePrerelease(pre).value;
      if parsed.0 == target && parsed.1 > 0 then target + "." + NatToString(parsed.1 + 1) else target + ".1"
  }

  /** `<type>.1` parses as number 1. */
  lemma FirstPrerelease(target: string)
    requires '.' !in target
    ensures ParsePrerelease(target + ".1") == Some((target, 1))
  {
    assert DigitChar(1) == '1';
    assert NatToString(1) == ['1'];
    assert target + "." + NatToString(1) == target + ".1";
    ParsePrereleaseNumbered(target, 1);
  }

  /**
   * The next pre-release parses back as the target type with the next
   * number: 0 (the bare type) with no current pre-release, one more for
   * the same type with a positive number, and 1 otherwise. So repeated
   * bumps of one type count `t`, `t.1`, `t.2`, ...
   */
  lemma NextPrereleaseParses(current: Option<string>, target: string)
    requires '.' !in target && NextFits(current, target)
    ensures ParsePrerelease(GetNextPrerelease(current, target)) == Some((target, NextNumber(current, target)))
  {
    match current {
      case None =>
        assert GetNextPrerelease(current, target) == target;
      case Some(pre) =>
        var parsed := ParsePrerelease(pre).value;
        if parsed.0 == target && parsed.1 > 0 {
          ParsePrereleaseNumbered(target, parsed.1 + 1);
        } else {
          FirstPrerelease(target);
        }
    }
  }


  /** The next pre-release holds only the target's characters, a `.` and digits. */
  lemma NextPrereleaseHasNo(current: Option<string>, target: string, c: char)
    requires NextFits(current, target)
    requires c !in target && c != '.' && !IsDigit(c)
    ensures c !in GetNextPrerelease(current, target)
  {
    if current.Some? {
      NumberTextHasNo(NextNumber(current, target), c);
    }
  }

  function PrereleaseName(kind: BumpVersionType): (name: string)
    requires kind in {Alpha, Beta, Rc}
    ensures '.' !in name && '-' !in name && '\n' !in name
  {
    match kind
    case Alpha => "alpha"
    case Beta => "beta"
    case Rc => "rc"
  }

  /** Whether bumping would take a number past `u64::MAX`. */
  predicate BumpOverflows(v: Version, kind: BumpVersionType)
  {
    match kind
    case Patch => v.patch + 1 > U64_MAX
    case Minor => v.minor + 1 > U64_MAX
    case Major => v.major + 1 > U64_MAX
    case Release => false
    case _ => !NextFits(v.prerelease, PrereleaseName(kind))
  }

  /** Semantic-version order on the numbers: major, then minor, then patch. */
  predicate NumbersBelow(a: Version, b: Version)
  {
    a.major < b.major
    || (a.major == b.major && a.minor < b.minor)
    || (a.major == b.major && a.minor == b.minor && a.patch < b.patch)
  }

  predicate SameNumbers(a: Version, b: Version)
  {
    a.major == b.major && a.minor == b.minor && a.patch == b.patch
  }

  /**
   * `bump_version`: patch, minor and major bumps move the numbers strictly
   * up and drop the pre-release; a release bump only drops the pre-release;
   * alpha, beta and rc bumps keep the numbers and set the next pre-release
   * of their type.
   */
  function BumpVersion(v: Version, kind: BumpVersionType): (r: Version)
    requires !BumpOverflows(v, kind)
    ensures InU64(v) ==> InU64(r)
    ensures r.prerelease.None? <==> kind in {Patch, Minor, Major, Release}
    ensures kind in {Patch, Minor, Major} ==> NumbersBelow(v, r)
    ensures kind !in {Patch, Minor, Major} ==> SameNumbers(v, r)
    ensures kind in {Alpha, Beta, Rc} ==>
              ParsePrerelease(r.prerelease.value) == Some((PrereleaseName(kind), NextNumber(v.prerelease, PrereleaseName(kind))))
    ensures r.prerelease.Some? ==> '-' !in r.prerelease.value && '\n' !in r.prerelease.value
  {
    match kind
    case Patch => Version(v.major, v.minor, v.patch + 1, None)
    case Minor => Version(v.major, v.minor + 1, 0, None)
    case Major => Version(v.major + 1, 0, 0, None)
    case Release => Version(v.major, v.minor, v.patch, None)
    case _ =>
      var name := PrereleaseName(kind);
      NextPrereleaseParses(v.prerelease, name);
      NextPrereleaseHasNo(v.prerelease, name, '-');
      NextPrereleaseHasNo(v.prerelease, name, '\n');
      Version(v.major, v.minor, v.patch, Some(GetNextPrerelease(v.prerelease, name)))
  }

  /** A minor bump resets the patch number, a major bump the minor and patch numbers. */
  lemma BumpResets(v: Version, kind: BumpVersionType)
    requires !BumpOverflows(v, kind)
    ensures kind == Patch ==> BumpVersion(v, kind).patch == v.patch + 1 && BumpVersion(v, kind).minor == v.minor
    ensures kind == Minor ==> BumpVersion(v, kind).minor == v.minor + 1 && BumpVersion(v, kind).patch == 0
    ensures kind in {Patch, Minor} ==> BumpVersion(v, kind).major == v.major
    ensures kind == Major ==> BumpVersion(v, kind).major == v.major + 1 && BumpVersion(v, kind).minor == 0 && BumpVersion(v, kind).patch == 0
  {
  }

  /** A release bump is idempotent. */
  lemma ReleaseIdempotent(v: Version)
    ensures BumpVersion(BumpVersion(v, Release), Release) == BumpVersion(v, Release)
  {
  }

  /** What any bump prints parses back to the bumped version. */
  lemma BumpedVersionParses(v: Version, kind: BumpVersionType)
    requires InU64(v) && !BumpOverflows(v, kind)
    ensures ParseVersion(VersionToString(BumpVersion(v, kind))) == Some(BumpVersion(v, kind))
  {
    ParseVersionToString(BumpVersion(v, kind));
  }

  /** The printed bumped version is a single line. */
  lemma BumpedVersionOneLine(v: Version, kind: BumpVersionType)
    requires !BumpOverflows(v, kind)
    ensures '\n' !in VersionToString(BumpVersion(v, kind))
  {
    var r := BumpVersion(v, kind);
    NumberTextHasNo(r.major, '\n');
    NumberTextHasNo(r.minor, '\n');
    NumberTextHasNo(r.patch, '\n');
  }

  /**
   * Where the version sits in a line: `start..end` lies strictly between
   * the first two `"` after the line's first `=`.
   */
  predicate QuotedAfterEquals(line: string, start: nat, end: nat)
  {
    && Find(line, '=').Some?
    && Find(line, '=').value + 1 < start <= end < |line|
    && line[start - 1] == '"' && line[end] == '"'
    && '"' !in line[Find(line, '=').value + 1..start - 1]
    && '"' !in line[start..end]
  }

  lemma QuoteSpan(line: string, eq: nat, quoteStart: nat, quoteEnd: nat)
    requires Find(line, '=') == Some(eq)
    requires var afterEq := line[eq + 1..];
             Find(afterEq, '"') == Some(quoteStart) && Find(afterEq[quoteStart + 1..], '"') == Some(quoteEnd)
    ensures QuotedAfterEquals(line, eq + 1 + quoteStart + 1, eq + 1 + quoteStart + 1 + quoteEnd)
  {
    var afterEq := line[eq + 1..];
    var afterFirstQuote := afterEq[quoteStart + 1..];
    var start := eq + 1 + quoteStart + 1;
    assert line[eq + 1..start - 1] == afterEq[..quoteStart];
    assert line[start..start + quoteEnd] == afterFirstQuote[..quoteEnd];
  }

  /**
   * The span between the first two `"` after the `=` at `eq`, the second
   * half of `find_version_position`: found exactly when two such quotes
   * exist.
   */
  function QuotedSpan(line: string, eq: nat): (r: Option<(nat, nat)>)
    requires Find(line, '=') == Some(eq)
    ensures r.Some? ==> QuotedAfterEquals(line, r.value.0, r.value.1)
  {
    var afterEq := line[eq + 1..];
    match Find(afterEq, '"')
    case None => None
    case Some(quoteStart) =>
      match Find(afterEq[quoteStart + 1..], '"')
      case None => None
      case Some(quoteEnd) =>
        QuoteSpan(line, eq, quoteStart, quoteEnd);
        Some((eq + 1 + quoteStart + 1, eq + 1 + quoteStart + 1 + quoteEnd))
  }

  /**
   * `find_version_position`: for a line whose trimmed text starts with
   * `version` and holds a `=`, the span strictly between the first two `"`
   * after the line's first `=`.
   */
  function FindVersionPosition(line: string): (r: Option<(nat, nat)>)
    ensures r.Some? ==> StartsWith(Trim(line), "version") && QuotedAfterEquals(line, r.value.0, r.value.1)
  {
    var trimmed := Trim(line);
    if !StartsWith(trimmed, "version") || '=' !in trimmed then None
    else
      TrimKeeps(line, '=');
      QuotedSpan(line, Find(line, '=').value)
  }

  /** Two quotes after the first `=`, with none between it and them, are the ones `QuotedSpan` finds. */
  lemma QuotedSpanComplete(line: string, eq: nat, start: nat, end: nat)
    requires Find(line, '=') == Some(eq) && QuotedAfterEquals(line, start, end)
    ensures QuotedSpan(line, eq) == Some((start, end))
  {
    var afterEq := line[eq + 1..];
    var quoteStart: nat := start - eq - 2;
    assert afterEq[..quoteStart] == line[eq + 1..start - 1];
    assert afterEq[quoteStart] == line[start - 1];
    FindIs(afterEq, '"', quoteStart);
    var afterFirstQuote := line[start..];
    assert afterEq[quoteStart + 1..] == afterFirstQuote;
    assert afterFirstQuote[..end - start] == line[start..end];
    assert afterFirstQuote[end - start] == line[end];
    FindIs(afterFirstQuote, '"', end - start);
    assert Find(afterEq[quoteStart + 1..], '"') == Some(end - start);
    assert QuotedSpan(line, eq).Some?;
    assert QuotedSpan(line, eq).value.0 == start;
    assert QuotedSpan(line, eq).value.1 == end;
  }

  /**
   * Every line whose trimmed text starts with `version` and that has two
   * `"` after its first `=` is found, with the span between those quotes.
   */
  lemma FindVersionPositionComplete(line: string, start: nat, end: nat)
    requires StartsWith(Trim(line), "version") && QuotedAfterEquals(line, start, end)
    ensures FindVersionPosition(line) == Some((start, end))
  {
    TrimKeeps(line, '=');
    assert line[Find(line, '=').value] == '=';
    QuotedSpanComplete(line, Find(line, '=').value, start, end);
  }

  /** A line carrying a version `execute_bump` would bump. */
  predicate IsVersionLine(line: string)
  {
    && FindVersionPosition(line).Some?
    && ParseVersion(line[FindVersionPosition(line).value.0..FindVersionPosition(line).value.1]).Some?
  }

  /** The version a version line carries. */
  function LineVersion(line: string): Version
    requires IsVersionLine(line)
  {
    ParseVersion(line[FindVersionPosition(line).value.0..FindVersionPosition(line).value.1]).value
  }

  /** The index of the first line from index `k` on that satisfies `p`. */
  function FirstMatch(lines: seq<string>, k: nat, p: string -> bool): (r: Option<nat>)
    requires k <= |lines|
    ensures r.Some? ==> k <= r.value < |lines| && p(lines[r.value])
    ensures r.Some? ==> forall j :: k <= j < r.value ==> !p(lines[j])
    ensures r.None? ==> forall j :: k <= j < |lines| ==> !p(lines[j])
    decreases |lines| - k
  {
    if k == |lines| then None
    else if p(lines[k]) then Some(k)
    else FirstMatch(lines, k + 1, p)
  }

  /**
   * A version line with its version replaced by the bumped one, and the
   * bumped version's text. Everything outside the quotes is kept, and the
   * new text parses as the bumped version.
   */
  function BumpLine(line: string, kind: BumpVersionType): (r: Result<(string, string), BumpError>)
    requires IsVersionLine(line)
    ensures r.Err? <==> BumpOverflows(LineVersion(line), kind)
    ensures r.Err? ==> r.error == Overflow
    ensures r.Ok? ==> ParseVersion(r.value.1) == Some(BumpVersion(LineVersion(line), kind))
    ensures r.Ok? ==>
              var (start, end) := FindVersionPosition(line).value;
              r.value.0 == line[..start] + r.value.1 + line[end..]
  {
    var (start, end) := FindVersionPosition(line).value;
    var version := ParseVersion(line[start..end]).value;
    if BumpOverflows(version, kind) then Err(Overflow)
    else
      BumpedVersionParses(version, kind);
      var text := VersionToString(BumpVersion(version, kind));
      Ok((line[..start] + text + line[end..], text))
  }

  /**
   * What `execute_bump` writes and returns, as written: the first version
   * line is bumped, and the first occurrence of that line's text anywhere
   * in the content is replaced by the new line.
   */
  function BumpContent(content: string, kind: BumpVersionType): (r: Result<(string, string), BumpError>)
    ensures r == Err(VersionFieldNotFound) <==>
            forall j :: 0 <= j < |Lines(content)| ==> !IsVersionLine(Lines(content)[j])
  {
    BumpLines(content, Lines(content), kind)
  }

  /** `BumpContent` over the lines `lines` of `content`. */
  function BumpLines(content: string, lines: seq<string>, kind: BumpVersionType): (r: Result<(string, string), BumpError>)
    ensures r == Err(VersionFieldNotFound) <==> forall j :: 0 <= j < |lines| ==> !IsVersionLine(lines[j])
  {
    match FirstMatch(lines, 0, IsVersionLine)
    case None => Err(VersionFieldNotFound)
    case Some(i) =>
      match BumpLine(lines[i], kind)
      case Err(e) => Err(e)
      case Ok((newLine, text)) => Ok((ReplaceFirst(content, lines[i], newLine), text))
  }

  /** A line whose quoted span parses is a version line, and `BumpLine` bumps that version. */
  lemma BumpLineAt(line: string, kind: BumpVersionType, start: nat, end: nat, v: Version)
    requires FindVersionPosition(line) == Some((start, end)) && ParseVersion(line[start..end]) == Some(v)
    ensures IsVersionLine(line) && LineVersion(line) == v
    ensures BumpLine(line, kind) ==
            if BumpOverflows(v, kind) then Err(Overflow)
            else Ok((line[..start] + VersionToString(BumpVersion(v, kind)) + line[end..], VersionToString(BumpVersion(v, kind))))
  {
  }

  /**
   * When the scan reaches line `i` with no version line before it and
   * finds a version there, `BumpContent` bumps that line.
   */
  lemma BumpLinesFound(content: string, lines: seq<string>, kind: BumpVersionType, i: nat, start: nat, end: nat, v: Version)
    requires i < |lines|
    requires FirstMatch(lines, 0, IsVersionLine) == FirstMatch(lines, i, IsVersionLine)
    requires FindVersionPosition(lines[i]) == Some((start, end)) && ParseVersion(lines[i][start..end]) == Some(v)
    ensures var line := lines[i];
            BumpLines(content, lines, kind) ==
              if BumpOverflows(v, kind) then Err(Overflow)
              else
                var text := VersionToString(BumpVersion(v, kind));
                Ok((ReplaceFirst(content, line, line[..start] + text + line[end..]), text))
  {
    BumpLineAt(lines[i], kind, start, end, v);
  }

  /** A line whose version position is missing or does not parse is not a version line. */
  lemma NotVersionLine(line: string, position: Option<(nat, nat)>)
    requires position == FindVersionPosition(line)
    requires position.Some? ==> ParseVersion(line[position.value.0..position.value.1]).None?
    ensures !IsVersionLine(line)
  {
  }

  /** The search moves past a line that does not match. */
  lemma FirstMatchSkip(lines: seq<string>, i: nat, p: string -> bool)
    requires i < |lines| && !p(lines[i])
    ensures FirstMatch(lines, i, p) == FirstMatch(lines, i + 1, p)
  {
  }

  /**
   * The loop of `execute_bump` over the lines of the manifest text: the
   * first line with a parseable version is bumped, then the loop stops.
   * Reading and writing the file are left to the caller.
   */
  method ExecuteBump(content: string, kind: BumpVersionType) returns (r: Result<(string, string), BumpError>)
    ensures r == BumpContent(content, kind)
  {
    r := BumpFirstVersionLine(content, Lines(content), kind);
  }

  /** The loop of `execute_bump` over the lines `lines` of `content`. */
  method BumpFirstVersionLine(content: string, lines: seq<string>, kind: BumpVersionType)
    returns (r: Result<(string, string), BumpError>)
    ensures r == BumpLines(content, lines, kind)
  {
    var newVersion: Option<string> := None;
    var found := false;
    var updated := content;
    var i := 0;
    while i < |lines|
      invariant 0 <= i <= |lines|
      invariant !found ==> updated == content && newVersion.None?
      invariant !found ==> FirstMatch(lines, 0, IsVersionLine) == FirstMatch(lines, i, IsVersionLine)
      invariant found ==> newVersion.Some? && BumpLines(content, lines, kind) == Ok((updated, newVersion.value))
      decreases |lines| - i
    {
      if found {
        break;
      }
      var line := lines[i];
      var position := FindVersionPosition(line);
      if position.Some? {
        var (start, end) := position.value;
        var parsed := ParseVersion(line[start..end]);
        if parsed.Some? {
          BumpLinesFound(content, lines, kind, i, start, end, parsed.value);
          if BumpOverflows(parsed.value, kind) {
            return Err(Overflow);
          }
          var text := VersionToString(BumpVersion(parsed.value, kind));
          newVersion := Some(text);
          updated := ReplaceFirst(updated, line, line[..start] + text + line[end..]);
          found := true;
        }
      }
      if !found {
        NotVersionLine(line, position);
        FirstMatchSkip(lines, i, IsVersionLine);
      }
      i := i + 1;
    }
    if !found {
      return Err(VersionFieldNotFound);
    }
    r := Ok((updated, newVersion.value));
  }

  lemma UpdateSecond(a: string, b: string, c: string)
    ensures [a, b][1 := c] == [a, c]
  {
  }

  /** A text with a commented-out copy of a version line `L` on the line before it. */
  function CommentedCopy(L: string): string
  {
    "#" + L + "\n" + L
  }

  /** Its lines are the comment and `L`. */
  lemma CommentedCopySplit(L: string)
    requires |L| > 0 && '\n' !in L && L[|L| - 1] != '\r'
    ensures Split(CommentedCopy(L), '\n') == ["#" + L, L]
    ensures Lines(CommentedCopy(L)) == ["#" + L, L]
  {
    var comment := "#" + L;
    SplitJoinTwo(comment, L, '\n');
    assert comment[|comment| - 1] == L[|L| - 1];
    assert StripCR(comment) == comment;
  }

  /** A commented-out line is no version line. */
  lemma CommentNotVersionLine(L: string)
    ensures !IsVersionLine("#" + L)
  {
    var t := Trim("#" + L);
    TrimFirst("#" + L);
    assert !StartsWith(t, "version") by {
      if |t| >= 7 {
        assert t[..7][0] == '#';
      }
    }
  }

  /** A version line does not start with `#`: its first non-space character is the `v` of `version`. */
  lemma VersionLineStart(L: string)
    requires IsVersionLine(L)
    ensures L[0] != '#'
  {
    KeywordStart(L);
  }

  lemma KeywordStart(L: string)
    requires StartsWith(Trim(L), "version")
    ensures L[0] != '#'
  {
    var t := Trim(L);
    TrimStartIndex(L);
    assert t[0] == 'v' by {
      assert t[..7][0] == 'v';
    }
    var w := |L| - |TrimStart(L)|;
    if w == 0 {
      assert L[0] == 'v';
    } else {
      assert IsWhitespace(L[0]);
    }
  }

  /** In the commented copy, `L` is the first version line. */
  lemma CommentedCopyLines(L: string)
    requires IsVersionLine(L) && '\n' !in L && L[|L| - 1] != '\r'
    ensures Split(CommentedCopy(L), '\n') == ["#" + L, L]
    ensures Lines(CommentedCopy(L)) == ["#" + L, L]
    ensures FirstMatch(Lines(CommentedCopy(L)), 0, IsVersionLine) == Some(1)
    ensures L[0] != '#'
  {
    CommentedCopySplit(L);
    CommentNotVersionLine(L);
    VersionLineStart(L);
  }

  /** `replacen` on the commented copy finds `L` first inside the comment. */
  lemma ReplaceFirstInCopy(L: string, newLine: string)
    requires |L| > 0 && L[0] != '#'
    ensures ReplaceFirst(CommentedCopy(L), L, newLine) == "#" + newLine + "\n" + L
  {
    var content := CommentedCopy(L);
    assert OccursAt(content, L, 1) by {
      assert content[1..1 + |L|] == L;
    }
    assert !OccursAt(content, L, 0) by {
      assert content[0] == '#';
    }
    assert FindText(content, L) == Some(1);
    assert content[..1] == "#";
    assert content[1 + |L|..] == "\n" + L;
  }

  /**
   * As written, the bump rewrites the commented-out copy: `replacen` looks
   * for the first occurrence of the version line's text, which is inside
   * the comment, so the comment changes and the real version line does
   * not.
   */
  lemma ReplacenRewritesEarlierLine(L: string)
    requires IsVersionLine(L) && '\n' !in L && L[|L| - 1] != '\r'
    requires !BumpOverflows(LineVersion(L), Patch)
    ensures BumpLine(L, Patch).Ok? && BumpLine(L, Patch).value.0 != L
    ensures BumpContent(CommentedCopy(L), Patch) ==
            Ok(("#" + BumpLine(L, Patch).value.0 + "\n" + L, BumpLine(L, Patch).value.1))
  {
    CommentedCopyLines(L);
    var newLine := BumpLine(L, Patch).value.0;
    ReplaceFirstInCopy(L, newLine);
    BumpLineChanges(L, Patch);
  }

  /** A bump that changes the version changes the line. */
  lemma BumpLineChanges(line: string, kind: BumpVersionType)
    requires IsVersionLine(line) && !BumpOverflows(LineVersion(line), kind)
    requires BumpVersion(LineVersion(line), kind) != LineVersion(line)
    ensures BumpLine(line, kind).Ok? && BumpLine(line, kind).value.0 != line
  {
    var (start, end) := FindVersionPosition(line).value;
    var (newLine, text) := BumpLine(line, kind).value;
    if newLine == line {
      assert false;
    }
  }

  /** The bumped line is still one line. */
  lemma BumpLineOneLine(line: string, kind: BumpVersionType)
    requires IsVersionLine(line) && '\n' !in line && !BumpOverflows(LineVersion(line), kind)
    ensures '\n' !in BumpLine(line, kind).value.0
  {
    var (start, end) := FindVersionPosition(line).value;
    BumpedVersionOneLine(LineVersion(line), kind);
    assert '\n' !in line[..start] && '\n' !in line[end..];
  }

  /**
   * The first version line bumped where it stands: the content cut at each
   * `\n`, the piece holding that line replaced by the new line (keeping a
   * `\r` the line ending had), and the pieces joined again.
   */
  function BumpContentInPlace(content: string, kind: BumpVersionType): (r: Result<(string, string), BumpError>)
    ensures r.Err? ==> r == BumpContent(content, kind)
    ensures r.Ok? ==> BumpContent(content, kind).Ok? && r.value.1 == BumpContent(content, kind).value.1
  {
    var lines := Lines(content);
    var parts := Split(content, '\n');
    match FirstMatch(lines, 0, IsVersionLine)
    case None => Err(VersionFieldNotFound)
    case Some(i) =>
      match BumpLine(lines[i], kind)
      case Err(e) => Err(e)
      case Ok((newLine, text)) =>
        LinePrefix(content, i);
        var piece := if parts[i] == lines[i] then newLine else newLine + "\r";
        Ok((Join(parts[i := piece], '\n'), text))
  }

  /** The piece that replaces a line's piece: the new line, with the `\r` the old piece ended in. */
  function EditPiece(part: string, line: string, newLine: string): string
  {
    if part == line then newLine else newLine + "\r"
  }

  /** The in-place result is the content's pieces with the first version line's piece edited, joined again. */
  lemma InPlaceValue(content: string, kind: BumpVersionType, i: nat)
    requires FirstMatch(Lines(content), 0, IsVersionLine) == Some(i)
    requires BumpLine(Lines(content)[i], kind).Ok?
    ensures var parts, lines := Split(content, '\n'), Lines(content);
            && i < |parts|
            && (parts[i] == lines[i] || parts[i] == lines[i] + "\r")
            && '\n' !in EditPiece(parts[i], lines[i], BumpLine(lines[i], kind).value.0)
            && BumpContentInPlace(content, kind).Ok?
            && BumpContentInPlace(content, kind).value.0 ==
                 Join(parts[i := EditPiece(parts[i], lines[i], BumpLine(lines[i], kind).value.0)], '\n')
  {
    LinePrefix(content, i);
    BumpLineOneLine(Lines(content)[i], kind);
  }

  /**
   * The in-place bump edits exactly one line: cut at `\n`, the result has
   * the pieces of the content, except that the first version line's piece
   * holds the bumped line with the same line ending.
   */
  lemma InPlaceEditsOneLine(content: string, kind: BumpVersionType, i: nat)
    requires FirstMatch(Lines(content), 0, IsVersionLine) == Some(i)
    requires BumpLine(Lines(content)[i], kind).Ok?
    ensures var parts, lines := Split(content, '\n'), Lines(content);
            var newLine := BumpLine(lines[i], kind).value.0;
            var out := Split(BumpContentInPlace(content, kind).value.0, '\n');
            && |out| == |parts|
            && (forall j :: 0 <= j < |parts| && j != i ==> out[j] == parts[j])
            && (out[i] == newLine || out[i] == newLine + "\r")
            && (out[i] == newLine <==> parts[i] == lines[i])
  {
    var parts, lines := Split(content, '\n'), Lines(content);
    InPlaceValue(content, kind, i);
    var newLine := BumpLine(lines[i], kind).value.0;
    var piece := EditPiece(parts[i], lines[i], newLine);
    SplitJoinEdited(parts, '\n', i, piece);
    PiecesEdited(parts, i, lines[i], newLine, Split(BumpContentInPlace(content, kind).value.0, '\n'));
  }

  /** The pieces with one piece edited: the others are kept, and the edited one keeps its line ending. */
  lemma PiecesEdited(parts: seq<string>, i: nat, line: string, newLine: string, out: seq<string>)
    requires i < |parts| && (parts[i] == line || parts[i] == line + "\r")
    requires out == parts[i := EditPiece(parts[i], line, newLine)]
    ensures |out| == |parts|
    ensures forall j :: 0 <= j < |parts| && j != i ==> out[j] == parts[j]
    ensures out[i] == newLine || out[i] == newLine + "\r"
    ensures out[i] == newLine <==> parts[i] == line
  {
    assert |out[i]| == |newLine| || |out[i]| == |newLine| + 1;
  }

  /** On the example that trips `replacen`, the in-place bump changes the real version line and keeps the comment. */
  lemma InPlaceKeepsComment(L: string)
    requires IsVersionLine(L) && '\n' !in L && L[|L| - 1] != '\r'
    requires !BumpOverflows(LineVersion(L), Patch)
    ensures BumpContentInPlace(CommentedCopy(L), Patch) ==
            Ok(("#" + L + "\n" + BumpLine(L, Patch).value.0, BumpLine(L, Patch).value.1))
  {
    var content := CommentedCopy(L);
    CommentedCopyLines(L);
    var (newLine, text) := BumpLine(L, Patch).value;
    var parts, lines := Split(content, '\n'), Lines(content);
    assert lines[1] == L && parts[1] == L;
    var edited := parts[1 := newLine];
    assert BumpContentInPlace(content, Patch) == Ok((Join(edited, '\n'), text));
    UpdateSecond("#" + L, L, newLine);
    assert edited == ["#" + L, newLine];
    JoinTwo(edited, '\n');
  }

  /** The version line of the example, and the line a patch bump makes of it. */
  const ExampleLine: string := "version = \"1.2.3\""
  const BumpedExampleLine: string := "version = \"1.2.4\""

  /** The versions of the example print as 1.2.3 and 1.2.4. */
  lemma ExampleVersionText()
    ensures VersionToString(Version(1, 2, 3, None)) == "1.2.3"
    ensures VersionToString(Version(1, 2, 4, None)) == "1.2.4"
  {
    assert NatToString(1) == "1" && NatToString(2) == "2";
    assert NatToString(3) == "3" && NatToString(4) == "4";
  }

  /** The example line's quoted text, and the line with other text in the quotes. */
  lemma ExampleSplice()
    ensures ExampleLine[11..16] == "1.2.3"
    ensures ExampleLine[..11] + "1.2.4" + ExampleLine[16..] == BumpedExampleLine
    ensures '\n' !in ExampleLine && ExampleLine[|ExampleLine| - 1] == '"'
  {
  }

  /** The example line has no surrounding white space. */
  lemma ExampleTrim()
    ensures Trim(ExampleLine) == ExampleLine
  {
    var L := ExampleLine;
    assert L[0] == 'v' && !IsWhitespace(L[0]);
    assert TrimStart(L) == L;
    assert L[|L| - 1] == '"' && !IsWhitespace(L[|L| - 1]);
  }

  /** The example line starts with `version`, and its first `=` is at 8. */
  lemma ExampleEquals()
    ensures StartsWith(ExampleLine, "version") && '=' in ExampleLine
    ensures Find(ExampleLine, '=') == Some(8)
  {
    assert ExampleLine[..7] == "version";
    assert ExampleLine[..8] == "version ";
    FindIs(ExampleLine, '=', 8);
  }

  /** After the `=`, the opening quote comes second. */
  lemma ExampleOpenQuote()
    ensures Find(ExampleLine[9..], '"') == Some(1)
  {
    var afterEq := ExampleLine[9..];
    assert afterEq[..1] == " " && afterEq[1] == '"';
    FindIs(afterEq, '"', 1);
  }

  /** After the opening quote, the closing one comes after five characters. */
  lemma ExampleCloseQuote()
    ensures Find(ExampleLine[9..][2..], '"') == Some(5)
  {
    var afterQuote := ExampleLine[9..][2..];
    assert afterQuote == "1.2.3\"";
    assert afterQuote[..5] == "1.2.3";
    FindIs(afterQuote, '"', 5);
  }

  /** The example line carries its version at `11..16`. */
  lemma ExamplePosition()
    ensures FindVersionPosition(ExampleLine) == Some((11, 16))
  {
    ExampleTrim();
    ExampleEquals();
    ExampleOpenQuote();
    ExampleCloseQuote();
    assert QuotedSpan(ExampleLine, 8) == Some((11, 16));
  }

  /** It is a version line for 1.2.3, and a patch bump rewrites it to 1.2.4. */
  lemma ExampleBumpLine()
    ensures IsVersionLine(ExampleLine) && LineVersion(ExampleLine) == Version(1, 2, 3, None)
    ensures !BumpOverflows(LineVersion(ExampleLine), Patch)
    ensures BumpLine(ExampleLine, Patch) == Ok((BumpedExampleLine, "1.2.4"))
  {
    var v := Version(1, 2, 3, None);
    ExamplePosition();
    ExampleVersionText();
    ExampleSplice();
    ParseVersionToString(v);
    BumpLineAt(ExampleLine, Patch, 11, 16, v);
  }

  /**
   * The finding on one manifest, a comment `#version = "1.2.3"` above the
   * line `version = "1.2.3"`: the bump as written rewrites the comment and
   * leaves the version line at 1.2.3, while the in-place bump leaves the
   * comment and moves the version line to 1.2.4.
   */
  lemma ReplacenExample()
    ensures BumpContent(CommentedCopy(ExampleLine), Patch)
            == Ok(("#" + BumpedExampleLine + "\n" + ExampleLine, "1.2.4"))
    ensures BumpContentInPlace(CommentedCopy(ExampleLine), Patch)
            == Ok(("#" + ExampleLine + "\n" + BumpedExampleLine, "1.2.4"))
  {
    ExampleBumpLine();
    ExampleSplice();
    ReplacenRewritesEarlierLine(ExampleLine);
    InPlaceKeepsComment(ExampleLine);
  }
}
