/**
 * The release helper `bin/prerelease`: given a git reference it prints a
 * GitHub Actions output line saying whether the build is a prerelease, that
 * is, whether the reference is NOT a tag of the form `<n>.<n>.<n>`.
 */
module Prerelease {
  import opened Numeric

  const TAG_PREFIX: string := "refs/tags/"

  const OUTPUT_PREFIX: string := "::set-output name=value::"

  /** One or more ASCII digits (`[[:digit:]]+`). */
  predicate DigitRun(s: string)
  {
    |s| > 0 && AllDigits(s)
  }

  /**
   * The language of `^refs/tags/[[:digit:]]+[.][[:digit:]]+[.][[:digit:]]+$`:
   * the tag prefix and three digit runs separated by dots, and nothing else.
   */
  ghost predicate ReleaseGrammar(reference: string)
  {
    exists major, minor, patch ::
      DigitRun(major) && DigitRun(minor) && DigitRun(patch)
      && reference == TAG_PREFIX + major + "." + minor + "." + patch
  }

  /** The length of the run of digits `s` starts with. */
  function LeadingDigits(s: string): (n: nat)
    ensures n <= |s|
    ensures forall i :: 0 <= i < n ==> IsDigit(s[i])
    ensures n < |s| ==> !IsDigit(s[n])
  {
    if s == [] || !IsDigit(s[0]) then 0 else 1 + LeadingDigits(s[1..])
  }

  /** `<digits>.<digits>`, the minor and patch part, matched greedily. */
  predicate IsMinorPatch(t: string)
  {
    var b := LeadingDigits(t);
    0 < b < |t| && t[b] == '.' && DigitRun(t[b + 1..])
  }

  /** `<digits>.<digits>.<digits>`, matched greedily run by run. */
  predicate IsVersion(s: string)
  {
    var a := LeadingDigits(s);
    0 < a < |s| && s[a] == '.' && IsMinorPatch(s[a + 1..])
  }

  /** `Regex::is_match` for the release pattern. */
  predicate IsRelease(reference: string)
  {
    |reference| >= |TAG_PREFIX| && reference[..|TAG_PREFIX|] == TAG_PREFIX
    && IsVersion(reference[|TAG_PREFIX|..])
  }

  /** A digit run followed by a dot: the greedy run stops exactly at the dot. */
  lemma RunThenDot(digits: string, rest: string)
    requires DigitRun(digits)
    ensures LeadingDigits(digits + "." + rest) == |digits|
    ensures (digits + "." + rest)[|digits|] == '.'
    ensures (digits + "." + rest)[|digits| + 1..] == rest
  {
    var s := digits + "." + rest;
    forall i | 0 <= i < |digits| ensures IsDigit(s[i]) {
      assert s[i] == digits[i];
    }
    assert s[|digits|] == '.';
  }

  lemma MinorPatchOf(minor: string, patch: string)
    requires DigitRun(minor)
    ensures IsMinorPatch(minor + "." + patch) <==> DigitRun(patch)
  {
    RunThenDot(minor, patch);
  }

  lemma VersionOf(major: string, t: string)
    requires DigitRun(major)
    ensures IsVersion(major + "." + t) <==> IsMinorPatch(t)
  {
    RunThenDot(major, t);
  }

  /** A greedy match splits into its three digit runs. */
  lemma VersionParts(v: string) returns (major: string, minor: string, patch: string)
    requires IsVersion(v)
    ensures DigitRun(major) && DigitRun(minor) && DigitRun(patch)
    ensures v == major + "." + minor + "." + patch
  {
    var a := LeadingDigits(v);
    var t := v[a + 1..];
    var b := LeadingDigits(t);
    major, minor, patch := v[..a], t[..b], t[b + 1..];
    assert v == major + "." + t;
    assert t == minor + "." + patch;
  }

  lemma ReleaseIsInGrammar(reference: string)
    requires IsRelease(reference)
    ensures ReleaseGrammar(reference)
  {
    var v := reference[|TAG_PREFIX|..];
    var major, minor, patch := VersionParts(v);
    assert reference == TAG_PREFIX + v;
    assert reference == TAG_PREFIX + major + "." + minor + "." + patch;
  }

  lemma TagIsRelease(major: string, minor: string, patch: string)
    requires DigitRun(major) && DigitRun(minor) && DigitRun(patch)
    ensures IsRelease(TAG_PREFIX + major + "." + minor + "." + patch)
  {
    var reference := TAG_PREFIX + major + "." + minor + "." + patch;
    var t := minor + "." + patch;
    var v := major + "." + t;
    assert reference == TAG_PREFIX + v;
    assert reference[..|TAG_PREFIX|] == TAG_PREFIX;
    assert reference[|TAG_PREFIX|..] == v;
    MinorPatchOf(minor, patch);
    VersionOf(major, t);
  }

  /** The greedy recogniser accepts exactly the language of the pattern. */
  lemma IsReleaseMatchesGrammar(reference: string)
    ensures IsRelease(reference) <==> ReleaseGrammar(reference)
  {
    if IsRelease(reference) {
      ReleaseIsInGrammar(reference);
    }
    if ReleaseGrammar(reference) {
      var major, minor, patch :| DigitRun(major) && DigitRun(minor) && DigitRun(patch)
        && reference == TAG_PREFIX + major + "." + minor + "." + patch;
      TagIsRelease(major, minor, patch);
    }
  }

  function BoolText(b: bool): string
  {
    if b then "true" else "false"
  }

  /** The line `main` prints, with the newline `println!` ends it with: the prerelease flag is the negated match. */
  function Output(reference: string): (line: string)
    ensures line == OUTPUT_PREFIX + "false\n" <==> ReleaseGrammar(reference)
    ensures line == OUTPUT_PREFIX + "true\n" <==> !ReleaseGrammar(reference)
  {
    IsReleaseMatchesGrammar(reference);
    OUTPUT_PREFIX + BoolText(!IsRelease(reference)) + "\n"
  }

  /** A version holds only digits and dots. */
  lemma VersionChars(v: string)
    requires IsVersion(v)
    ensures forall i :: 0 <= i < |v| ==> IsDigit(v[i]) || v[i] == '.'
  {
    var major, minor, patch := VersionParts(v);
    forall i | 0 <= i < |v| ensures IsDigit(v[i]) || v[i] == '.' {
      if i < |major| {
        assert v[i] == major[i];
      } else if |major| < i < |major| + 1 + |minor| {
        assert v[i] == minor[i - |major| - 1];
      } else if i > |major| + 1 + |minor| {
        assert v[i] == patch[i - |major| - |minor| - 2];
      }
    }
  }

  lemma SuffixBreaksVersion(major: string, minor: string, patch: string, suffix: string)
    requires DigitRun(major) && DigitRun(minor) && DigitRun(patch)
    requires suffix != [] && !IsDigit(suffix[0])
    ensures !IsRelease(TAG_PREFIX + major + "." + minor + "." + patch + suffix)
  {
    var s := TAG_PREFIX + major + "." + minor + "." + patch + suffix;
    var rest := minor + "." + (patch + suffix);
    assert s == TAG_PREFIX + (major + "." + rest);
    assert s[|TAG_PREFIX|..] == major + "." + rest;
    VersionOf(major, rest);
    MinorPatchOf(minor, patch + suffix);
    assert (patch + suffix)[|patch|] == suffix[0];
  }

  /** A release tag followed by anything that does not start with a digit is a prerelease. */
  lemma SuffixMakesPrerelease(reference: string, suffix: string)
    requires ReleaseGrammar(reference)
    requires suffix != [] && !IsDigit(suffix[0])
    ensures !ReleaseGrammar(reference + suffix)
  {
    var major, minor, patch :| DigitRun(major) && DigitRun(minor) && DigitRun(patch)
      && reference == TAG_PREFIX + major + "." + minor + "." + patch;
    SuffixBreaksVersion(major, minor, patch, suffix);
    IsReleaseMatchesGrammar(reference + suffix);
  }

  /** Anything in front of a release tag makes it a prerelease: the pattern is anchored. */
  lemma PrefixMakesPrerelease(reference: string, prefix: string)
    requires ReleaseGrammar(reference) && prefix != []
    ensures !ReleaseGrammar(prefix + reference)
  {
    IsReleaseMatchesGrammar(prefix + reference);
    var s := prefix + reference;
    var p := |TAG_PREFIX|;
    assert reference[..p] == TAG_PREFIX;
    if |s| >= p {
      var v := s[p..];
      var slash := |prefix| - 1;
      assert s[|prefix| + p - 1] == reference[p - 1] == '/';
      if IsVersion(v) {
        VersionChars(v);
        assert v[slash] == '/';
      }
    }
  }

  /** A three-part version tag prints false. */
  lemma ReleaseTagOutput(major: string, minor: string, patch: string)
    requires DigitRun(major) && DigitRun(minor) && DigitRun(patch)
    ensures Output(TAG_PREFIX + major + "." + minor + "." + patch) == OUTPUT_PREFIX + "false\n"
  {
    TagIsRelease(major, minor, patch);
  }

  /** A three-part version tag is a release. */
  lemma ReleaseExample()
    ensures Output("refs/tags/1.2.3") == OUTPUT_PREFIX + "false\n"
  {
    assert DigitRun("1") && DigitRun("2") && DigitRun("3");
    ReleaseTagOutput("1", "2", "3");
    assert TAG_PREFIX + "1" + "." + "2" + "." + "3" == "refs/tags/1.2.3";
  }

  /** A branch reference is a prerelease. */
  lemma BranchIsPrerelease()
    ensures Output("refs/heads/master") == OUTPUT_PREFIX + "true\n"
  {
    assert "refs/heads/master"[5] == 'h';
    assert "refs/heads/master"[..|TAG_PREFIX|] != TAG_PREFIX;
  }

  /** A version with two parts is a prerelease. */
  lemma TwoPartVersionIsPrerelease()
    ensures Output("refs/tags/1.2") == OUTPUT_PREFIX + "true\n"
  {
    assert "refs/tags/1.2"[|TAG_PREFIX|..] == "1.2";
    assert LeadingDigits("1.2") == 1;
    assert "1.2"[2..] == "2";
    assert LeadingDigits("2") == 1;
  }

  /** A `v` in front of the version is a prerelease. */
  lemma PrefixedVersionIsPrerelease()
    ensures Output("refs/tags/v1.2.3") == OUTPUT_PREFIX + "true\n"
  {
    assert "refs/tags/v1.2.3"[|TAG_PREFIX|..] == "v1.2.3";
    assert LeadingDigits("v1.2.3") == 0;
  }

  /** A pre-release suffix is a prerelease. */
  lemma SuffixedVersionIsPrerelease()
    ensures Output("refs/tags/1.2.3-rc.1") == OUTPUT_PREFIX + "true\n"
  {
    assert DigitRun("1") && DigitRun("2") && DigitRun("3");
    assert !IsDigit('-');
    SuffixBreaksVersion("1", "2", "3", "-rc.1");
    assert TAG_PREFIX + "1" + "." + "2" + "." + "3" + "-rc.1" == "refs/tags/1.2.3-rc.1";
  }
}
