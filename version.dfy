/** utils/version.go: version bumping, slugs, Linux distribution detection
    and the GitHub-archive install of protoc. */
module Version {
  import opened Wrappers
  import opened Text
  import opened Host

  // ---------------------------------------------------------------------
  // Decimal integers as strconv.Atoi reads them and fmt's %d writes them.
  // ---------------------------------------------------------------------

  predicate AllDigits(s: string) {
    forall i :: 0 <= i < |s| ==> IsDigit(s[i])
  }

  function DigitValue(c: char): nat
    requires IsDigit(c)
  {
    c as int - '0' as int
  }

  function DigitChar(d: nat): (c: char)
    requires d < 10
    ensures IsDigit(c) && DigitValue(c) == d
  {
    ('0' as int + d) as char
  }

  /** The value of a string of decimal digits; leading zeros are allowed. */
  function DigitsValue(s: string): nat
    requires AllDigits(s)
    decreases |s|
  {
    if s == [] then 0 else 10 * DigitsValue(s[..|s| - 1]) + DigitValue(s[|s| - 1])
  }

  /** `strconv.Atoi`: an optional sign followed by at least one decimal digit. */
  function Atoi(s: string): (r: Option<int>)
    ensures r.Some? <==>
      || (s != [] && AllDigits(s))
      || (|s| > 1 && (s[0] == '+' || s[0] == '-') && AllDigits(s[1..]))
    ensures s != [] && AllDigits(s) ==> r == Some(DigitsValue(s))
    ensures |s| > 1 && s[0] == '+' && AllDigits(s[1..]) ==> r == Some(DigitsValue(s[1..]))
    ensures |s| > 1 && s[0] == '-' && AllDigits(s[1..]) ==> r == Some(0 - DigitsValue(s[1..]))
    ensures r.Some? && '-' !in s ==> r.value >= 0
  {
    if s != [] && s[0] == '-' then
      if |s| > 1 && AllDigits(s[1..]) then var n: int := DigitsValue(s[1..]); Some(-n) else None
    else
      var digits := if s != [] && s[0] == '+' then s[1..] else s;
      if digits != [] && AllDigits(digits) then Some(DigitsValue(digits)) else None
  }

  /** The decimal digits of `n`, without leading zeros. */
  function NatToDigits(n: nat): (r: string)
    ensures r != [] && AllDigits(r)
    ensures |r| > 1 ==> r[0] != '0'
    decreases n
  {
    if n < 10 then [DigitChar(n)] else NatToDigits(n / 10) + [DigitChar(n % 10)]
  }

  /** fmt's `%d`: a minus sign for negative numbers only, then the digits
      without leading zeros. */
  function Itoa(n: int): (r: string)
    ensures r != [] && (r[0] == '-' <==> n < 0)
    ensures n >= 0 ==> r == NatToDigits(n)
    ensures n < 0 ==> r[1..] == NatToDigits(-n)
  {
    if n < 0 then "-" + NatToDigits(-n) else NatToDigits(n)
  }

  lemma {:induction false} NatToDigitsValue(n: nat)
    ensures DigitsValue(NatToDigits(n)) == n
    decreases n
  {
    if n >= 10 {
      NatToDigitsValue(n / 10);
      var s := NatToDigits(n);
      assert s[..|s| - 1] == NatToDigits(n / 10);
    }
  }

  /** `Atoi` reads back what `%d` writes. */
  lemma AtoiItoa(n: int)
    ensures Atoi(Itoa(n)) == Some(n)
  {
    if n < 0 {
      NatToDigitsValue(-n);
      assert Itoa(n)[1..] == NatToDigits(-n);
    } else {
      NatToDigitsValue(n);
    }
  }

  // ---------------------------------------------------------------------
  // BumpVersion (lines 59-101)
  // ---------------------------------------------------------------------

  datatype Triple = Triple(major: int, minor: int, patch: int)

  datatype BumpError =
    | InvalidFormat(core: string)
    | InvalidMajor(part: string)
    | InvalidMinor(part: string)
    | InvalidPatch(part: string)
    | UnknownBumpType(bumpType: string)

  /** The version part of BumpVersion: everything from the first `-` is
      dropped, the rest must split on `.` into exactly three parts, and each
      part must be an integer for `Atoi`, checked major, minor, patch. */
  function ParseVersion(version: string): (r: Result<Triple, BumpError>)
    ensures r.Ok? ==> r.value.major >= 0 && r.value.minor >= 0 && r.value.patch >= 0
    ensures var core := BeforeFirst(version, '-');
      var parts := Split(core, '.');
      && (r.Ok? <==> |parts| == 3 && Atoi(parts[0]).Some? && Atoi(parts[1]).Some? && Atoi(parts[2]).Some?)
      && (|parts| != 3 ==> r == Err(InvalidFormat(core)))
      && (|parts| == 3 && Atoi(parts[0]).None? ==> r == Err(InvalidMajor(parts[0])))
      && (|parts| == 3 && Atoi(parts[0]).Some? && Atoi(parts[1]).None? ==> r == Err(InvalidMinor(parts[1])))
      && (|parts| == 3 && Atoi(parts[0]).Some? && Atoi(parts[1]).Some? && Atoi(parts[2]).None? ==>
            r == Err(InvalidPatch(parts[2])))
      && (r.Ok? ==> r.value == Triple(Atoi(parts[0]).value, Atoi(parts[1]).value, Atoi(parts[2]).value))
  {
    var core := BeforeFirst(version, '-');
    var parts := Split(core, '.');
    if |parts| != 3 then Err(InvalidFormat(core))
    else if Atoi(parts[0]).None? then Err(InvalidMajor(parts[0]))
    else if Atoi(parts[1]).None? then Err(InvalidMinor(parts[1]))
    else if Atoi(parts[2]).None? then Err(InvalidPatch(parts[2]))
    else
      JoinKeepsPieces(parts, '.', 0);
      JoinKeepsPieces(parts, '.', 1);
      JoinKeepsPieces(parts, '.', 2);
      Ok(Triple(Atoi(parts[0]).value, Atoi(parts[1]).value, Atoi(parts[2]).value))
  }

  /** Semantic-versioning precedence of release versions. */
  predicate Precedes(a: Triple, b: Triple) {
    || a.major < b.major
    || (a.major == b.major && a.minor < b.minor)
    || (a.major == b.major && a.minor == b.minor && a.patch < b.patch)
  }

  /** The components a bump of this kind leaves at zero. */
  predicate ResetBelow(bumpType: string, t: Triple) {
    && (bumpType == "major" ==> t.minor == 0 && t.patch == 0)
    && (bumpType == "minor" ==> t.patch == 0)
  }

  /** The increment itself: major, minor or patch; any other kind is an error. */
  function Bump(t: Triple, bumpType: string): (r: Result<Triple, BumpError>)
    ensures r.Ok? <==> bumpType in {"major", "minor", "patch"}
    ensures r.Err? ==> r.error == UnknownBumpType(bumpType)
    ensures r.Ok? ==> Precedes(t, r.value) && ResetBelow(bumpType, r.value)
  {
    if bumpType == "major" then Ok(Triple(t.major + 1, 0, 0))
    else if bumpType == "minor" then Ok(Triple(t.major, t.minor + 1, 0))
    else if bumpType == "patch" then Ok(Triple(t.major, t.minor, t.patch + 1))
    else Err(UnknownBumpType(bumpType))
  }

  /** The bumped version is the next one of its kind (items 6 to 8 of
      Semantic Versioning 2.0.0): every later version whose lower components
      are zero is at or after it. */
  lemma BumpIsNextRelease(t: Triple, bumpType: string, u: Triple)
    requires t.major >= 0 && t.minor >= 0 && t.patch >= 0
    requires u.minor >= 0 && u.patch >= 0
    requires Bump(t, bumpType).Ok?
    requires Precedes(t, u) && ResetBelow(bumpType, u)
    ensures var b := Bump(t, bumpType).value; b == u || Precedes(b, u)
  {
  }

  /** `%d.%d.%d`: three integers in decimal, separated by dots. */
  function Format(t: Triple): (r: string)
    ensures Split(r, '.') == [Itoa(t.major), Itoa(t.minor), Itoa(t.patch)]
  {
    var a, b, c := Itoa(t.major), Itoa(t.minor), Itoa(t.patch);
    assert Join([a, b, c], '.') == a + "." + b + "." + c by {
      assert Join([b, c], '.') == b + "." + c;
    }
    assert '.' !in a && '.' !in b && '.' !in c by {
      assert forall x :: x in a[1..] ==> x != '.';
      assert forall x :: x in b[1..] ==> x != '.';
      assert forall x :: x in c[1..] ==> x != '.';
    }
    SplitJoin([a, b, c], '.');
    a + "." + b + "." + c
  }

  function BumpVersion(version: string, bumpType: string): (r: Result<string, BumpError>)
    ensures r.Ok? <==> ParseVersion(version).Ok? && bumpType in {"major", "minor", "patch"}
    ensures ParseVersion(version).Err? ==> r == Err(ParseVersion(version).error)
    ensures ParseVersion(version).Ok? && bumpType !in {"major", "minor", "patch"} ==>
      r == Err(UnknownBumpType(bumpType))
    ensures r.Ok? ==> r.value == Format(Bump(ParseVersion(version).value, bumpType).value)
  {
    match ParseVersion(version)
    case Err(e) => Err(e)
    case Ok(t) =>
      match Bump(t, bumpType)
      case Err(e) => Err(e)
      case Ok(b) => Ok(Format(b))
  }

  /** A formatted version reads back as itself, with or without a
      pre-release suffix. */
  lemma {:induction false} FormatParses(t: Triple, suffix: string)
    requires t.major >= 0 && t.minor >= 0 && t.patch >= 0
    ensures ParseVersion(Format(t)) == Ok(t)
    ensures ParseVersion(Format(t) + "-" + suffix) == Ok(t)
  {
    var s := Format(t);
    assert forall x :: x in s ==> IsDigit(x) || x == '.';
    assert '-' !in s;
    BeforeFirstWhole(s, "", '-');
    BeforeFirstWhole(s, suffix, '-');
    AtoiItoa(t.major);
    AtoiItoa(t.minor);
    AtoiItoa(t.patch);
  }

  lemma BeforeFirstWhole(s: string, suffix: string, sep: char)
    requires sep !in s
    ensures BeforeFirst(s, sep) == s
    ensures BeforeFirst(s + [sep] + suffix, sep) == s
  {
    var t := s + [sep] + suffix;
    assert t[..|s|] == s && t[|s|] == sep;
  }

  /** Anything from the first `-` on is ignored: `1.2.3-alpha`,
      `1.2.3-beta.1` and `1.2.3-rc.1+build.123` bump as `1.2.3` does. */
  lemma BumpIgnoresPreRelease(core: string, suffix: string, bumpType: string)
    requires '-' !in core
    ensures BumpVersion(core + "-" + suffix, bumpType) == BumpVersion(core, bumpType)
  {
    BeforeFirstWhole(core, suffix, '-');
  }

  /** A successful output is itself a valid input, holding exactly the
      bumped version. */
  lemma BumpedVersionParses(version: string, bumpType: string)
    requires BumpVersion(version, bumpType).Ok?
    ensures ParseVersion(BumpVersion(version, bumpType).value)
         == Bump(ParseVersion(version).value, bumpType)
  {
    var b := Bump(ParseVersion(version).value, bumpType).value;
    FormatParses(b, "");
  }

  lemma AtoiZeroPadded(d: char)
    requires IsDigit(d)
    ensures Atoi(['0', d]) == Some(DigitValue(d))
  {
    var s := ['0', d];
    assert AllDigits(s) by { assert s[0] == '0' && s[1] == d; }
    assert s[..1] == "0" && DigitsValue(s[..1][..0]) == 0;
    assert DigitsValue(s) == DigitValue(d);
  }

  lemma SplitZeroPadded(a: char, b: char, c: char)
    requires IsDigit(a) && IsDigit(b) && IsDigit(c)
    ensures Split(['0', a, '.', '0', b, '.', '0', c], '.') == [['0', a], ['0', b], ['0', c]]
  {
    var s := ['0', a, '.', '0', b, '.', '0', c];
    assert Join([['0', c]], '.') == ['0', c];
    assert Join([['0', b], ['0', c]], '.') == ['0', b] + ['.'] + ['0', c];
    assert Join([['0', a], ['0', b], ['0', c]], '.') == s;
    SplitJoin([['0', a], ['0', b], ['0', c]], '.');
  }

  /** Leading zeros are accepted, which item 2 of Semantic Versioning
      forbids, and are not written back: `01.02.03` reads as 1.2.3, so a
      minor bump of it gives `1.3.0`. */
  lemma LeadingZerosAccepted(a: char, b: char, c: char, bumpType: string)
    requires IsDigit(a) && IsDigit(b) && IsDigit(c)
    requires bumpType in {"major", "minor", "patch"}
    ensures var t := Triple(DigitValue(a), DigitValue(b), DigitValue(c));
      && ParseVersion(['0', a, '.', '0', b, '.', '0', c]) == Ok(t)
      && BumpVersion(['0', a, '.', '0', b, '.', '0', c], bumpType) == Ok(Format(Bump(t, bumpType).value))
  {
    var s := ['0', a, '.', '0', b, '.', '0', c];
    assert '-' !in s;
    BeforeFirstWhole(s, "", '-');
    SplitZeroPadded(a, b, c);
    AtoiZeroPadded(a);
    AtoiZeroPadded(b);
    AtoiZeroPadded(c);
  }

  /** Only pre-release text after `-` is cut off: build metadata after `+`
      (item 10 of Semantic Versioning) stays in the patch component, which
      then does not parse, so `1.2.3+build` is rejected. */
  lemma BuildMetadataRejected(major: string, minor: string, patch: string, build: string, bumpType: string)
    requires major != [] && minor != [] && patch != []
    requires AllDigits(major) && AllDigits(minor) && AllDigits(patch)
    requires '-' !in build
    ensures ParseVersion(major + "." + minor + "." + patch + "+" + build).Err?
    ensures BumpVersion(major + "." + minor + "." + patch + "+" + build, bumpType).Err?
  {
    var rest := patch + "+" + build;
    var v := major + "." + minor + "." + rest;
    assert v == major + "." + minor + "." + patch + "+" + build;
    SplitMajorMinor(major, minor, rest);
    assert forall x :: x in patch ==> IsDigit(x);
    assert '-' !in v;
    BeforeFirstWhole(v, "", '-');
    PatchWithBuildRejected(patch, build);
  }

  /** Two digit strings and a dot each split off the front. */
  lemma SplitMajorMinor(major: string, minor: string, rest: string)
    requires AllDigits(major) && AllDigits(minor)
    ensures Split(major + "." + minor + "." + rest, '.') == [major, minor] + Split(rest, '.')
  {
    assert major + "." + minor + "." + rest == major + ['.'] + (minor + ['.'] + rest);
    assert forall x :: x in major ==> IsDigit(x);
    assert forall x :: x in minor ==> IsDigit(x);
    SplitAfterPiece(major, minor + ['.'] + rest, '.');
    SplitAfterPiece(minor, rest, '.');
  }

  /** A patch component with `+build` is either split further or does not
      parse. */
  lemma PatchWithBuildRejected(patch: string, build: string)
    requires patch != [] && AllDigits(patch)
    ensures var tail := Split(patch + "+" + build, '.');
      |tail| != 1 || Atoi(tail[0]).None?
  {
    var rest := patch + "+" + build;
    var tail := Split(rest, '.');
    if |tail| == 1 {
      assert tail[0] == rest;
      assert rest[|patch|] == '+';
    }
  }


  // ---------------------------------------------------------------------
  // Slugify (lines 39-55)
  // ---------------------------------------------------------------------

  predicate SlugChar(c: char) {
    'a' <= c <= 'z' || '0' <= c <= '9' || c == '-'
  }

  /** Drops the leading characters outside [a-z0-9-]. */
  function DropInvalid(s: string): (r: string)
    ensures |r| <= |s|
    decreases |s|
  {
    if s != [] && !SlugChar(s[0]) then DropInvalid(s[1..]) else s
  }

  /** What DropInvalid leaves is a suffix of its input that starts inside
      the class. */
  lemma {:induction false} DropInvalidSuffix(s: string)
    ensures var r := DropInvalid(s); r == s[|s| - |r|..] && (r != [] ==> SlugChar(r[0]))
    decreases |s|
  {
    if s != [] && !SlugChar(s[0]) {
      DropInvalidSuffix(s[1..]);
    }
  }

  /** The regular-expression replacement of `[^a-z0-9-]+` by `-`: every
      maximal run of characters outside the class becomes a single dash. */
  function ReplaceInvalidRuns(s: string): (r: string)
    ensures forall i :: 0 <= i < |r| ==> SlugChar(r[i])
    decreases |s|
  {
    if s == [] then []
    else if SlugChar(s[0]) then [s[0]] + ReplaceInvalidRuns(s[1..])
    else "-" + ReplaceInvalidRuns(DropInvalid(s[1..]))
  }

  /** The replacement of `-+` by `-`: every run of dashes becomes one dash. */
  function CollapseDashes(s: string): (r: string)
    ensures forall i :: 0 <= i < |r| - 1 ==> !(r[i] == '-' && r[i + 1] == '-')
    ensures s != [] ==> r != [] && r[0] == s[0] && r[|r| - 1] == s[|s| - 1]
    decreases |s|
  {
    if s == [] then []
    else if s[0] == '-' then
      var rest := TrimLeft(s[1..], Only('-'));
      assert rest == [] ==> s[|s| - 1] == '-';
      "-" + CollapseDashes(rest)
    else
      [s[0]] + CollapseDashes(s[1..])
  }

  lemma SuffixKeepsSlugChars(s: string, t: string)
    requires forall i :: 0 <= i < |s| ==> SlugChar(s[i])
    requires |t| <= |s| && t == s[|s| - |t|..]
    ensures forall i :: 0 <= i < |t| ==> SlugChar(t[i])
  {
    assert forall i :: 0 <= i < |t| ==> t[i] == s[|s| - |t| + i];
  }

  lemma {:induction false} CollapseKeepsSlugChars(s: string)
    requires forall i :: 0 <= i < |s| ==> SlugChar(s[i])
    ensures forall i :: 0 <= i < |CollapseDashes(s)| ==> SlugChar(CollapseDashes(s)[i])
    decreases |s|
  {
    if s != [] {
      if s[0] == '-' {
        var rest := TrimLeft(s[1..], Only('-'));
        SuffixKeepsSlugChars(s, s[1..]);
        SuffixKeepsSlugChars(s[1..], rest);
        CollapseKeepsSlugChars(rest);
        assert CollapseDashes(s) == "-" + CollapseDashes(rest);
      } else {
        CollapseKeepsSlugChars(s[1..]);
        assert CollapseDashes(s) == [s[0]] + CollapseDashes(s[1..]);
      }
    }
  }

  lemma TrimKeepsSlugChars(s: string)
    requires forall i :: 0 <= i < |s| ==> SlugChar(s[i])
    ensures var t := Trim(s, Only('-')); forall k :: 0 <= k < |t| ==> SlugChar(t[k])
  {
    var t := Trim(s, Only('-'));
    var i := |s| - |TrimLeft(s, Only('-'))|;
    assert forall k :: 0 <= k < |t| ==> t[k] == s[i + k];
  }

  /** A well-formed slug: only [a-z0-9-], no dash at either end, no two
      dashes in a row. */
  predicate IsSlug(s: string) {
    && (forall i :: 0 <= i < |s| ==> SlugChar(s[i]))
    && (s != [] ==> s[0] != '-' && s[|s| - 1] != '-')
    && (forall i :: 0 <= i < |s| - 1 ==> !(s[i] == '-' && s[i + 1] == '-'))
  }

  /** Lower-case, replace runs outside [a-z0-9-] by `-`, trim dashes at both
      ends, collapse runs of dashes. */
  function Slugify(str: string): (r: string)
    ensures IsSlug(r)
  {
    var replaced := ReplaceInvalidRuns(ToLower(str));
    var trimmed := Trim(replaced, Only('-'));
    TrimKeepsSlugChars(replaced);
    CollapseKeepsSlugChars(trimmed);
    CollapseDashes(trimmed)
  }

  lemma {:induction false} ReplaceKeepsSlugChars(s: string)
    requires forall i :: 0 <= i < |s| ==> SlugChar(s[i])
    ensures ReplaceInvalidRuns(s) == s
    decreases |s|
  {
    if s != [] {
      ReplaceKeepsSlugChars(s[1..]);
    }
  }

  lemma {:induction false} CollapseKeepsSingleDashes(s: string)
    requires forall i :: 0 <= i < |s| - 1 ==> !(s[i] == '-' && s[i + 1] == '-')
    ensures CollapseDashes(s) == s
    decreases |s|
  {
    if s != [] {
      CollapseKeepsSingleDashes(s[1..]);
    }
  }

  /** A slug is left as it is. */
  lemma SlugifyKeepsSlugs(s: string)
    requires IsSlug(s)
    ensures Slugify(s) == s
  {
    assert ToLower(s) == s;
    ReplaceKeepsSlugChars(s);
    TrimUntouched(s, Only('-'));
    CollapseKeepsSingleDashes(s);
  }

  /** Slugify is idempotent. */
  lemma SlugifyIdempotent(s: string)
    ensures Slugify(Slugify(s)) == Slugify(s)
  {
    SlugifyKeepsSlugs(Slugify(s));
  }

  /** The letters and digits a slug keeps: the characters of `s` in
      [a-z0-9], in order. */
  function Alnums(s: string): (r: string)
    ensures |r| <= |s|
    ensures forall i :: 0 <= i < |r| ==> SlugChar(r[i]) && r[i] != '-'
    decreases |s|
  {
    if s == [] then []
    else if SlugChar(s[0]) && s[0] != '-' then [s[0]] + Alnums(s[1..])
    else Alnums(s[1..])
  }

  lemma {:induction false} AlnumsAppend(a: string, b: string)
    ensures Alnums(a + b) == Alnums(a) + Alnums(b)
    decreases |a|
  {
    if a == [] {
      assert a + b == b;
    } else {
      assert (a + b)[1..] == a[1..] + b;
      AlnumsAppend(a[1..], b);
    }
  }

  lemma {:induction false} AlnumsOfNone(s: string)
    requires forall i :: 0 <= i < |s| ==> !SlugChar(s[i]) || s[i] == '-'
    ensures Alnums(s) == []
    decreases |s|
  {
    if s != [] {
      AlnumsOfNone(s[1..]);
    }
  }

  lemma {:induction false} DropInvalidKeepsAlnums(s: string)
    ensures Alnums(DropInvalid(s)) == Alnums(s)
    decreases |s|
  {
    if s != [] && !SlugChar(s[0]) {
      DropInvalidKeepsAlnums(s[1..]);
    }
  }

  /** DropInvalid stops exactly at the end of a run outside the class. */
  lemma {:induction false} DropInvalidRun(w: string, v: string)
    requires forall i :: 0 <= i < |w| ==> !SlugChar(w[i])
    requires v == [] || SlugChar(v[0])
    ensures DropInvalid(w + v) == v
    decreases |w|
  {
    if w == [] {
      assert w + v == v;
    } else {
      assert (w + v)[1..] == w[1..] + v;
      DropInvalidRun(w[1..], v);
    }
  }

  /** Characters of the class pass through the replacement unchanged. */
  lemma {:induction false} ReplaceKeepsValidPrefix(u: string, v: string)
    requires forall i :: 0 <= i < |u| ==> SlugChar(u[i])
    ensures ReplaceInvalidRuns(u + v) == u + ReplaceInvalidRuns(v)
    decreases |u|
  {
    if u == [] {
      assert u + v == v;
    } else {
      assert (u + v)[1..] == u[1..] + v;
      ReplaceKeepsValidPrefix(u[1..], v);
    }
  }

  /** A maximal run of characters outside the class becomes one dash. */
  lemma ReplaceInvalidRun(w: string, v: string)
    requires w != [] && forall i :: 0 <= i < |w| ==> !SlugChar(w[i])
    requires v == [] || SlugChar(v[0])
    ensures ReplaceInvalidRuns(w + v) == "-" + ReplaceInvalidRuns(v)
  {
    assert (w + v)[1..] == w[1..] + v;
    DropInvalidRun(w[1..], v);
  }

  /** The replacement keeps every letter and digit, in order. */
  lemma {:induction false} ReplaceKeepsAlnums(s: string)
    ensures Alnums(ReplaceInvalidRuns(s)) == Alnums(s)
    decreases |s|
  {
    if s != [] {
      assert s == [s[0]] + s[1..];
      AlnumsAppend([s[0]], s[1..]);
      if SlugChar(s[0]) {
        ReplaceKeepsAlnums(s[1..]);
        AlnumsAppend([s[0]], ReplaceInvalidRuns(s[1..]));
      } else {
        var d := DropInvalid(s[1..]);
        ReplaceKeepsAlnums(d);
        DropInvalidKeepsAlnums(s[1..]);
        AlnumsAppend("-", ReplaceInvalidRuns(d));
      }
    }
  }

  /** A maximal run of dashes becomes one dash. */
  lemma CollapseDashRun(d: string, v: string)
    requires d != [] && forall i :: 0 <= i < |d| ==> d[i] == '-'
    requires v == [] || v[0] != '-'
    ensures CollapseDashes(d + v) == "-" + CollapseDashes(v)
  {
    assert (d + v)[1..] == d[1..] + v;
    TrimLeftRun(d[1..], v, Only('-'));
  }

  /** Any other character passes through the collapse unchanged. */
  lemma CollapseKeepsNonDash(c: char, v: string)
    requires c != '-'
    ensures CollapseDashes([c] + v) == [c] + CollapseDashes(v)
  {
    assert ([c] + v)[1..] == v;
  }

  /** One step of the collapse on a string that starts with a dash run and
      ends in another character, with or without a tail. */
  lemma CollapseDashStep(u: string, v: string)
    requires u != [] && u[0] == '-' && u[|u| - 1] != '-'
    ensures var rest := TrimLeft(u[1..], Only('-'));
      && rest != [] && rest[|rest| - 1] == u[|u| - 1] && |rest| < |u|
      && CollapseDashes(u) == "-" + CollapseDashes(rest)
      && CollapseDashes(u + v) == "-" + CollapseDashes(rest + v)
  {
    assert (u + v)[1..] == u[1..] + v;
    TrimLeftAppend(u[1..], v, Only('-'));
  }

  /** A string ending in a character other than a dash is collapsed
      independently of what follows it. */
  lemma {:induction false} CollapseAppend(u: string, v: string)
    requires u == [] || u[|u| - 1] != '-'
    ensures CollapseDashes(u + v) == CollapseDashes(u) + CollapseDashes(v)
    decreases |u|
  {
    if u == [] {
      assert u + v == v;
    } else if u[0] != '-' {
      assert (u + v)[1..] == u[1..] + v;
      CollapseAppend(u[1..], v);
    } else {
      CollapseDashStep(u, v);
      var rest := TrimLeft(u[1..], Only('-'));
      CollapseAppend(rest, v);
    }
  }

  /** A run of dashes holds no letter or digit. */
  lemma DashRunAlnums(s: string)
    requires s != [] && s[0] == '-'
    ensures Alnums(TrimLeft(s[1..], Only('-'))) == Alnums(s)
  {
    var t := s[1..];
    var rest := TrimLeft(t, Only('-'));
    var dashes := t[..|t| - |rest|];
    assert t == dashes + rest;
    assert forall i :: 0 <= i < |dashes| ==> Cuts(Only('-'), t[i]);
    AlnumsOfNone(dashes);
    AlnumsAppend(dashes, rest);
    assert Alnums(s) == Alnums(t);
  }

  /** Collapsing dashes keeps every letter and digit, in order. */
  lemma {:induction false} CollapseKeepsAlnums(s: string)
    ensures Alnums(CollapseDashes(s)) == Alnums(s)
    decreases |s|
  {
    if s != [] {
      if s[0] == '-' {
        var rest := TrimLeft(s[1..], Only('-'));
        DashRunAlnums(s);
        CollapseKeepsAlnums(rest);
        AlnumsAppend("-", CollapseDashes(rest));
      } else {
        assert s == [s[0]] + s[1..];
        AlnumsAppend([s[0]], s[1..]);
        CollapseKeepsAlnums(s[1..]);
        AlnumsAppend([s[0]], CollapseDashes(s[1..]));
      }
    }
  }

  lemma {:induction false} TrimLeftKeepsAlnums(s: string)
    ensures Alnums(TrimLeft(s, Only('-'))) == Alnums(s)
    decreases |s|
  {
    if s != [] && s[0] == '-' {
      TrimLeftKeepsAlnums(s[1..]);
    }
  }

  lemma {:induction false} TrimRightKeepsAlnums(s: string)
    ensures Alnums(TrimRight(s, Only('-'))) == Alnums(s)
    decreases |s|
  {
    if s != [] && s[|s| - 1] == '-' {
      var init := s[..|s| - 1];
      TrimRightKeepsAlnums(init);
      assert s == init + ['-'];
      AlnumsAppend(init, ['-']);
    }
  }

  /** Trimming dashes keeps every letter and digit, in order. */
  lemma TrimDashesKeepsAlnums(s: string)
    ensures Alnums(Trim(s, Only('-'))) == Alnums(s)
  {
    TrimLeftKeepsAlnums(s);
    TrimRightKeepsAlnums(TrimLeft(s, Only('-')));
  }

  /** Slugify keeps every letter and digit of the lower-cased input, in
      order, and adds none; the slug is empty exactly when there are none. */
  lemma SlugifyKeepsLettersAndDigits(str: string)
    ensures Alnums(Slugify(str)) == Alnums(ToLower(str))
    ensures Slugify(str) == [] <==> Alnums(ToLower(str)) == []
  {
    var replaced := ReplaceInvalidRuns(ToLower(str));
    var trimmed := Trim(replaced, Only('-'));
    ReplaceKeepsAlnums(ToLower(str));
    TrimDashesKeepsAlnums(replaced);
    CollapseKeepsAlnums(trimmed);
    var r := Slugify(str);
    if r != [] {
      assert r == [r[0]] + r[1..];
      AlnumsAppend([r[0]], r[1..]);
    }
  }

  /** The replacement distributes over a split before a character of the
      class. */
  lemma {:induction false} DropInvalidAppend(a: string, v: string)
    requires v == [] || SlugChar(v[0])
    ensures DropInvalid(a + v) == DropInvalid(a) + v
    decreases |a|
  {
    if a == [] {
      assert a + v == v;
    } else if !SlugChar(a[0]) {
      assert (a + v)[1..] == a[1..] + v;
      DropInvalidAppend(a[1..], v);
    }
  }

  lemma {:induction false} ReplaceAppend(w: string, v: string)
    requires v == [] || SlugChar(v[0])
    ensures ReplaceInvalidRuns(w + v) == ReplaceInvalidRuns(w) + ReplaceInvalidRuns(v)
    decreases |w|
  {
    if w == [] {
      assert w + v == v;
    } else if SlugChar(w[0]) {
      assert (w + v)[1..] == w[1..] + v;
      ReplaceAppend(w[1..], v);
    } else {
      assert (w + v)[1..] == w[1..] + v;
      DropInvalidAppend(w[1..], v);
      ReplaceAppend(DropInvalid(w[1..]), v);
    }
  }

  /** A non-empty run of separators (no letter, no digit) is replaced by a
      non-empty run of dashes. */
  lemma {:induction false} ReplaceSeparators(w: string)
    requires w != [] && forall i :: 0 <= i < |w| ==> !(SlugChar(w[i]) && w[i] != '-')
    ensures var r := ReplaceInvalidRuns(w); r != [] && forall i :: 0 <= i < |r| ==> r[i] == '-'
    decreases |w|
  {
    DropInvalidSuffix(w[1..]);
    var t := if SlugChar(w[0]) then w[1..] else DropInvalid(w[1..]);
    assert forall i :: 0 <= i < |t| ==> t[i] == w[|w| - |t| + i];
    if t != [] {
      ReplaceSeparators(t);
    }
  }

  /** Letters and digits around a run of separators pass through the
      replacement; the separators become dashes. */
  lemma ReplaceJoinsWords(u: string, w: string, v: string)
    requires forall i :: 0 <= i < |u| ==> SlugChar(u[i])
    requires v != [] && forall i :: 0 <= i < |v| ==> SlugChar(v[i])
    ensures ReplaceInvalidRuns(u + w + v) == u + ReplaceInvalidRuns(w) + v
  {
    assert u + w + v == u + (w + v);
    ReplaceKeepsValidPrefix(u, w + v);
    ReplaceAppend(w, v);
    ReplaceKeepsSlugChars(v);
  }

  /** A run of dashes between two dash-free words becomes one dash. */
  lemma CollapseJoinsWords(u: string, d: string, v: string)
    requires u != [] && forall i :: 0 <= i < |u| ==> u[i] != '-'
    requires d != [] && forall i :: 0 <= i < |d| ==> d[i] == '-'
    requires v != [] && forall i :: 0 <= i < |v| ==> v[i] != '-'
    ensures CollapseDashes(u + d + v) == u + "-" + v
  {
    var tail := d + v;
    assert u + d + v == u + tail;
    CollapseKeepsSingleDashes(u);
    CollapseKeepsSingleDashes(v);
    CollapseDashRun(d, v);
    assert CollapseDashes(tail) == "-" + v;
    CollapseAppend(u, tail);
    assert u + ("-" + v) == u + "-" + v;
  }

  /** Two words of letters and digits joined by any run of separators (dashes,
      blanks, punctuation) become the two words joined by a single dash. */
  lemma SlugifyJoinsWords(u: string, w: string, v: string)
    requires u != [] && forall i :: 0 <= i < |u| ==> SlugChar(u[i]) && u[i] != '-'
    requires v != [] && forall i :: 0 <= i < |v| ==> SlugChar(v[i]) && v[i] != '-'
    requires w != [] && forall i :: 0 <= i < |w| ==> !(SlugChar(w[i]) && w[i] != '-') && !('A' <= w[i] <= 'Z')
    ensures Slugify(u + w + v) == u + "-" + v
  {
    var s := u + w + v;
    assert forall i :: 0 <= i < |s| ==> !('A' <= s[i] <= 'Z');
    assert ToLower(s) == s;
    ReplaceJoinsWords(u, w, v);
    ReplaceSeparators(w);
    var replaced := u + ReplaceInvalidRuns(w) + v;
    TrimUntouched(replaced, Only('-'));
    CollapseJoinsWords(u, ReplaceInvalidRuns(w), v);
  }

  // ---------------------------------------------------------------------
  // Release tag of the GitHub API (line 156)
  // ---------------------------------------------------------------------

  /** White space is trimmed, then at most one leading `v` is removed. */
  function TrimTag(tag: string): (r: string)
    ensures var t := TrimSpace(tag);
      && (HasPrefix(t, "v") ==> "v" + r == t)
      && (!HasPrefix(t, "v") ==> r == t)
  {
    TrimPrefix(TrimSpace(tag), "v")
  }

  /** The tag of a release reads back as its version, for a version without
      surrounding white space; a second `v` is kept. */
  lemma TrimTagOfRelease(version: string)
    requires version != [] ==> !IsSpace(version[0]) && !IsSpace(version[|version| - 1])
    ensures TrimTag("v" + version) == version
  {
    TrimUntouched("v" + version, Spaces);
  }

  // ---------------------------------------------------------------------
  // Architecture and download URL (lines 160-172)
  // ---------------------------------------------------------------------

  /** The archive's name for Go's architecture. */
  function ArchLabel(goarch: string): (r: Result<string, Cause>)
    ensures goarch == "amd64" <==> r == Ok("x86_64")
    ensures goarch == "arm64" <==> r == Ok("aarch_64")
    ensures r.Err? <==> goarch !in {"amd64", "arm64"}
    ensures r.Err? ==> r.error == UnsupportedArchitecture(goarch)
  {
    match goarch
    case "amd64" => Ok("x86_64")
    case "arm64" => Ok("aarch_64")
    case _ => Err(UnsupportedArchitecture(goarch))
  }

  const ReleasesPrefix := "https://github.com/protocolbuffers/protobuf/releases/download/v"

  const ProtocInfix := "/protoc-"
  const LinuxInfix := "-linux-"
  const ZipSuffix := ".zip"

  /** The URL template with the version twice, then the architecture. */
  function DownloadUrl(version: string, arch: string): string {
    ReleasesPrefix + version + ProtocInfix + version + LinuxInfix + arch + ZipSuffix
  }

  /** Where the parts sit in the URL: the version right after the
      releases prefix and again before `-linux-`, the architecture right
      before `.zip`. */
  lemma DownloadUrlLayout(version: string, arch: string)
    ensures var r := DownloadUrl(version, arch);
      && |r| == |ReleasesPrefix| + 2 * |version| + |arch| + |ProtocInfix| + |LinuxInfix| + |ZipSuffix|
      && HasPrefix(r, ReleasesPrefix)
      && r[|ReleasesPrefix|..|ReleasesPrefix| + |version|] == version
      && var archAt := |r| - |ZipSuffix| - |arch|;
         && r[archAt - |LinuxInfix| - |version|..archAt - |LinuxInfix|] == version
         && r[archAt - |LinuxInfix|..archAt] == LinuxInfix
         && r[archAt..|r| - |ZipSuffix|] == arch
         && r[|r| - |ZipSuffix|..] == ZipSuffix
  {
    var r := DownloadUrl(version, arch);
    var p := ReleasesPrefix + version + ProtocInfix;
    assert r == p + version + (LinuxInfix + arch + ZipSuffix);
    assert r[..|ReleasesPrefix|] == ReleasesPrefix;
    assert r[|ReleasesPrefix|..|ReleasesPrefix| + |version|] == version;
    assert r[|p|..|p| + |version|] == version;
    assert r[|p| + |version|..|p| + |version| + |LinuxInfix|] == LinuxInfix;
    assert r[|r| - |ZipSuffix| - |arch|..|r| - |ZipSuffix|] == arch;
  }

  /** The URL names its release: two URLs for supported architectures are
      equal only when version and architecture are. */
  lemma DownloadUrlIdentifiesRelease(v1: string, a1: string, v2: string, a2: string)
    requires a1 in {"x86_64", "aarch_64"} && a2 in {"x86_64", "aarch_64"}
    requires DownloadUrl(v1, a1) == DownloadUrl(v2, a2)
    ensures v1 == v2 && a1 == a2
  {
    var u := DownloadUrl(v1, a1);
    var n := |u|;
    var fixed := |ReleasesPrefix| + |ProtocInfix| + |LinuxInfix| + |ZipSuffix|;
    assert n == fixed + 2 * |v1| + |a1|;
    assert n == fixed + 2 * |v2| + |a2|;
    // the fourth character before the suffix lies in the label, where the
    // two labels differ
    assert u[n - |ZipSuffix| - 4] == (a1 + ZipSuffix)[|a1| - 4];
    assert u[n - |ZipSuffix| - 4] == (a2 + ZipSuffix)[|a2| - 4];
    assert u[|ReleasesPrefix|..|ReleasesPrefix| + |v1|] == v1;
    assert u[|ReleasesPrefix|..|ReleasesPrefix| + |v2|] == v2;
  }

  // ---------------------------------------------------------------------
  // DetectLinuxDistribution (lines 189-221)
  // ---------------------------------------------------------------------

  /** The value of a `KEY=value` line, with surrounding `"` trimmed. */
  function FieldValue(line: string, key: string): string {
    Trim(TrimPrefix(line, key), Only('"'))
  }

  /** The value of the last line starting with `key`, or "" when there is
      none: each matching line overwrites the previous one. */
  function LastValue(lines: seq<string>, key: string): (r: string)
    ensures r != "" ==> exists k :: 0 <= k < |lines| && HasPrefix(lines[k], key) && r == FieldValue(lines[k], key)
    decreases |lines|
  {
    if lines == [] then ""
    else if HasPrefix(lines[|lines| - 1], key) then FieldValue(lines[|lines| - 1], key)
    else LastValue(lines[..|lines| - 1], key)
  }

  /** The last matching line wins. */
  lemma {:induction false} LastMatchWins(lines: seq<string>, key: string, j: nat)
    requires j < |lines| && HasPrefix(lines[j], key)
    requires forall k :: j < k < |lines| ==> !HasPrefix(lines[k], key)
    ensures LastValue(lines, key) == FieldValue(lines[j], key)
    decreases |lines|
  {
    if j < |lines| - 1 {
      LastMatchWins(lines[..|lines| - 1], key, j);
    }
  }

  /** Without a matching line the value stays empty. */
  lemma {:induction false} NoMatchIsEmpty(lines: seq<string>, key: string)
    requires forall k :: 0 <= k < |lines| ==> !HasPrefix(lines[k], key)
    ensures LastValue(lines, key) == ""
    decreases |lines|
  {
    if lines != [] {
      NoMatchIsEmpty(lines[..|lines| - 1], key);
    }
  }

  lemma LastValueAppend(lines: seq<string>, i: nat, key: string)
    requires i < |lines|
    ensures LastValue(lines[..i + 1], key)
         == if HasPrefix(lines[i], key) then FieldValue(lines[i], key) else LastValue(lines[..i], key)
  {
    assert lines[..i + 1][..i] == lines[..i];
  }

  /** A line starts with at most one of the three keys. */
  lemma KeysExclusive(line: string)
    ensures HasPrefix(line, "ID=") ==> !HasPrefix(line, "VERSION_ID=") && !HasPrefix(line, "ID_LIKE=")
    ensures HasPrefix(line, "VERSION_ID=") ==> !HasPrefix(line, "ID_LIKE=")
  {
    if HasPrefix(line, "ID=") {
      assert line[0] == 'I' && line[2] == '=';
    }
    if HasPrefix(line, "VERSION_ID=") {
      assert line[0] == 'V';
    }
  }

  /** The scanner loop of DetectLinuxDistribution. */
  method ParseOsRelease(lines: seq<string>) returns (id: string, versionId: string, idLike: string)
    ensures id == LastValue(lines, "ID=")
    ensures versionId == LastValue(lines, "VERSION_ID=")
    ensures idLike == LastValue(lines, "ID_LIKE=")
  {
    id, versionId, idLike := "", "", "";
    var i := 0;
    while i < |lines|
      invariant 0 <= i <= |lines|
      invariant id == LastValue(lines[..i], "ID=")
      invariant versionId == LastValue(lines[..i], "VERSION_ID=")
      invariant idLike == LastValue(lines[..i], "ID_LIKE=")
    {
      var line := lines[i];
      LastValueAppend(lines, i, "ID=");
      LastValueAppend(lines, i, "VERSION_ID=");
      LastValueAppend(lines, i, "ID_LIKE=");
      KeysExclusive(line);
      if HasPrefix(line, "ID=") {
        id := FieldValue(line, "ID=");
      } else if HasPrefix(line, "VERSION_ID=") {
        versionId := FieldValue(line, "VERSION_ID=");
      } else if HasPrefix(line, "ID_LIKE=") {
        idLike := FieldValue(line, "ID_LIKE=");
      }
      i := i + 1;
    }
    assert lines[..i] == lines;
  }

  /** A detected distribution: its family and VERSION_ID. */
  datatype OsInfo = OsInfo(family: string, versionId: string)

  predicate MentionsSuse(s: string) {
    Contains(ToLower(s), "suse")
  }

  /** The decision after the scan: an empty ID is an error; SUSE variants,
      by ID or ID_LIKE, become `suse`; anything else is the lower-cased ID. */
  function Classify(id: string, versionId: string, idLike: string): (r: Result<OsInfo, Cause>)
    ensures r.Err? <==> id == ""
    ensures r.Err? ==> r.error == NoDistributionId
    ensures r.Ok? ==> r.value.versionId == versionId
    ensures r.Ok? ==> (r.value.family == "suse" <==> MentionsSuse(id) || MentionsSuse(idLike))
    ensures r.Ok? && !MentionsSuse(id) && !MentionsSuse(idLike) ==> r.value.family == ToLower(id)
  {
    if id == "" then Err(NoDistributionId)
    else if MentionsSuse(id) || MentionsSuse(idLike) then Ok(OsInfo("suse", versionId))
    else Ok(OsInfo(ToLower(id), versionId))
  }

  /** DetectLinuxDistribution: one read of /etc/os-release, then the scan
      and the decision. */
  function DetectLinuxDistribution(env: Env): (o: Outcome<OsInfo>)
    ensures o.steps == [ReadOsRelease]
    ensures env.osRelease.None? ==> o.result == Err(OsReleaseUnreadable)
    ensures env.osRelease.Some? ==> o.result == Classify(
      LastValue(env.osRelease.value, "ID="),
      LastValue(env.osRelease.value, "VERSION_ID="),
      LastValue(env.osRelease.value, "ID_LIKE="))
  {
    match env.osRelease
    case None => Outcome(Err(OsReleaseUnreadable), [ReadOsRelease])
    case Some(lines) =>
      var id := LastValue(lines, "ID=");
      var versionId := LastValue(lines, "VERSION_ID=");
      var idLike := LastValue(lines, "ID_LIKE=");
      Outcome(Classify(id, versionId, idLike), [ReadOsRelease])
  }

  /** A file without an ID= line is rejected. */
  lemma MissingIdRejected(env: Env)
    requires env.osRelease.Some?
    requires forall k :: 0 <= k < |env.osRelease.value| ==> !HasPrefix(env.osRelease.value[k], "ID=")
    ensures DetectLinuxDistribution(env).result == Err(NoDistributionId)
  {
    NoMatchIsEmpty(env.osRelease.value, "ID=");
  }

  lemma SuseInOpenSuseLeap()
    ensures MentionsSuse("opensuse-leap")
  {
    var s := "opensuse-leap";
    var l := ToLower(s);
    assert forall i :: 0 <= i < |s| ==> !('A' <= s[i] <= 'Z');
    assert l == s;
    assert HasPrefix(l[4..], "suse");
  }

  // ---------------------------------------------------------------------
  // GetStableProtocVersion (lines 103-158)
  // ---------------------------------------------------------------------

  const BrewFormulaUrl := "https://formulae.brew.sh/api/formula/protobuf.json"
  const LatestReleaseUrl := "https://api.github.com/repos/protocolbuffers/protobuf/releases/latest"

  /** The stable version: Homebrew's `versions.stable` on darwin, the
      trimmed `tag_name` of the latest GitHub release on linux, an error on
      any other platform, where nothing is fetched. */
  function GetStableProtocVersion(env: Env, k: nat): (o: Outcome<string>)
    ensures env.goos == "darwin" ==>
      && o.steps == [Get(BrewFormulaUrl)]
      && o.result == (match env.get(k, BrewFormulaUrl)
                      case Some(stable) => Ok(stable)
                      case None => Err(RequestFailed(BrewFormulaUrl)))
    ensures env.goos == "linux" ==>
      && o.steps == [Get(LatestReleaseUrl)]
      && o.result == (match env.get(k, LatestReleaseUrl)
                      case Some(tag) => Ok(TrimTag(tag))
                      case None => Err(RequestFailed(LatestReleaseUrl)))
    ensures env.goos !in {"darwin", "linux"} ==> o == Outcome(Err(PlatformNotSupported(env.goos)), [])
  {
    match env.goos
    case "darwin" => HttpGet(env, k, BrewFormulaUrl)
    case "linux" =>
      var fetched := HttpGet(env, k, LatestReleaseUrl);
      (match fetched.result
       case Ok(tag) => Outcome(Ok(TrimTag(tag)), fetched.steps)
       case Err(e) => Outcome(Err(e), fetched.steps))
    case _ => Outcome(Err(PlatformNotSupported(env.goos)), [])
  }

  // ---------------------------------------------------------------------
  // InstallProtoBufLinuxGithub (lines 160-187)
  // ---------------------------------------------------------------------

  const ArchiveName := "protoc.zip"

  function DownloadCommand(url: string): Command {
    Command("curl", ["-L", "-o", ArchiveName, url])
  }

  const UnzipCommand := Command("sudo", ["unzip", "-o", ArchiveName, "-d", "/usr/local"])
  const ChmodCommand := Command("sudo", ["chmod", "+x", "/usr/local/bin/protoc"])

  /** Download, unzip and mark executable, starting at step `k`. An
      unsupported architecture fails before any step. Once the download has
      succeeded the archive is removed last, whatever happens next. */
  function InstallProtoBufLinuxGithub(env: Env, k: nat, version: string): (o: Outcome<()>)
    ensures ArchLabel(env.goarch).Err? ==> o == Outcome(Err(ArchLabel(env.goarch).error), [])
    ensures ArchLabel(env.goarch).Ok? ==>
      var curl := DownloadCommand(DownloadUrl(version, ArchLabel(env.goarch).value));
      if env.exec(k, curl).None? then
        o == Outcome(Err(CommandFailed(curl)), [Exec(curl)])
      else if env.exec(k + 1, UnzipCommand).None? then
        o == Outcome(Err(CommandFailed(UnzipCommand)), [Exec(curl), Exec(UnzipCommand), RemoveFile(ArchiveName)])
      else if env.exec(k + 2, ChmodCommand).None? then
        o == Outcome(Err(CommandFailed(ChmodCommand)),
                     [Exec(curl), Exec(UnzipCommand), Exec(ChmodCommand), RemoveFile(ArchiveName)])
      else
        o == Outcome(Ok(()), [Exec(curl), Exec(UnzipCommand), Exec(ChmodCommand), RemoveFile(ArchiveName)])
  {
    match ArchLabel(env.goarch)
    case Err(e) => Outcome(Err(e), [])
    case Ok(arch) =>
      var download := RunCommandWithOutput(env, k, DownloadCommand(DownloadUrl(version, arch)));
      if download.result.Err? then Outcome(Err(download.result.error), download.steps)
      else
        var unzip := RunCommand(env, k + 1, UnzipCommand);
        if unzip.result.Err? then
          Outcome(unzip.result, download.steps + unzip.steps + [RemoveFile(ArchiveName)])
        else
          var chmod := RunCommand(env, k + 2, ChmodCommand);
          Outcome(chmod.result, download.steps + unzip.steps + chmod.steps + [RemoveFile(ArchiveName)])
  }

  // ---------------------------------------------------------------------
  // RemovePackageManagerProtobuf (lines 223-266)
  // ---------------------------------------------------------------------

  /** How a distribution family checks for and removes its packaged compiler. */
  datatype Removal = Removal(check: Command, remove: Command)

  /** The removal entry of a family: only the seven families below have
      one, and every removal runs under sudo. */
  function RemovalFor(distro: string): (r: Option<Removal>)
    ensures r.Some? <==> distro in {"ubuntu", "debian", "centos", "fedora", "rhel", "suse", "alpine"}
    ensures r.Some? ==> r.value.remove.name == "sudo" && r.value.check.name != "sudo"
  {
    match distro
    case "ubuntu" => Some(DebRemoval)
    case "debian" => Some(DebRemoval)
    case "centos" => Some(RpmRemoval)
    case "fedora" => Some(RpmRemoval)
    case "rhel" => Some(RpmRemoval)
    case "suse" => Some(Removal(Command("rpm", ["-q", "protobuf"]),
                                Command("sudo", ["zypper", "--non-interactive", "remove", "protobuf"])))
    case "alpine" => Some(Removal(Command("apk", ["info", "protobuf"]),
                                  Command("sudo", ["apk", "del", "protobuf"])))
    case _ => None
  }

  const DebRemoval := Removal(Command("dpkg", ["-l", "protobuf-compiler"]),
                              Command("sudo", ["apt-get", "remove", "-y", "protobuf-compiler"]))
  const RpmRemoval := Removal(Command("rpm", ["-q", "protobuf-compiler"]),
                              Command("sudo", ["dnf", "remove", "-y", "protobuf-compiler"]))


  /** Starting at step `k`: the removal runs only when the check finds the
      package, an absent package is not an error, and an unknown family fails
      before any command. */
  function RemovePackageManagerProtobuf(env: Env, k: nat, distro: string): (o: Outcome<()>)
    ensures RemovalFor(distro).None? ==> o == Outcome(Err(UnsupportedDistribution(distro)), [])
    ensures RemovalFor(distro).Some? ==>
      var rm := RemovalFor(distro).value;
      && (env.exec(k, rm.check).None? ==> o == Outcome(Ok(()), [Exec(rm.check)]))
      && (env.exec(k, rm.check).Some? ==>
            && o.steps == [Exec(rm.check), Exec(rm.remove)]
            && (o.result.Ok? <==> env.exec(k + 1, rm.remove).Some?)
            && (o.result.Err? ==> o.result.error == CommandFailed(rm.remove)))
  {
    match RemovalFor(distro)
    case None => Outcome(Err(UnsupportedDistribution(distro)), [])
    case Some(rm) =>
      var check := RunCommandWithOutput(env, k, rm.check);
      if check.result.Err? then Outcome(Ok(()), check.steps)
      else
        var remove := RunCommand(env, k + 1, rm.remove);
        Outcome(remove.result, check.steps + remove.steps)
  }
}
