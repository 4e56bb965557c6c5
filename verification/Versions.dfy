/** Which release an installation follows, and whether it is newer. */
module Versions {
  import opened Prelude
  import opened Text

  // ------------------------------------------------------------------------
  // Comparing versions
  // ------------------------------------------------------------------------

  predicate IsDigit(c: char) {
    '0' <= c <= '9'
  }

  function LeadingDigits(s: string): (d: string)
    ensures d <= s && forall i :: 0 <= i < |d| ==> IsDigit(d[i])
  {
    if s == [] || !IsDigit(s[0]) then [] else
      var rest := LeadingDigits(s[1..]);
      assert [s[0]] + s[1..] == s;
      [s[0]] + rest
  }

  function Value(s: string): nat
    requires forall i :: 0 <= i < |s| ==> IsDigit(s[i])
  {
    if s == [] then 0
    else
      assert IsDigit(s[|s| - 1]);
      Value(s[..|s| - 1]) * 10 + (s[|s| - 1] as int - '0' as int)
  }

  /** `Number.parseInt(s, 10)` of a text without signs; nothing stands for NaN. */
  function ParseInt(s: string): Option<nat> {
    var d := LeadingDigits(TrimStart(s));
    if d == [] then None else Some(Value(d))
  }

  predicate IsPunctuation(c: char) {
    c == '.' || c == '+' || c == '-'
  }

  function StripV(s: string): string {
    if "v" <= s then s[1..] else s
  }

  /** The i-th number of a version; what is missing or not a number counts as 0. */
  function Score(parts: seq<string>, i: nat): nat {
    if i < |parts| then
      var n := ParseInt(parts[i]);
      if n.Some? then n.value else 0
    else 0
  }

  function CompareVersions(a: string, b: string): int {
    var p, q := Split(StripV(a), IsPunctuation), Split(StripV(b), IsPunctuation);
    if Score(p, 0) != Score(q, 0) then Score(p, 0) - Score(q, 0)
    else if Score(p, 1) != Score(q, 1) then Score(p, 1) - Score(q, 1)
    else Score(p, 2) - Score(q, 2)
  }

  // ------------------------------------------------------------------------
  // Comparing versions as they are written
  // ------------------------------------------------------------------------

  function Digits(n: nat): (d: string)
    ensures d != [] && forall i :: 0 <= i < |d| ==> IsDigit(d[i])
  {
    var last := [('0' as int + n % 10) as char];
    if n < 10 then last else Digits(n / 10) + last
  }

  lemma {:induction false} ValueOfDigits(n: nat)
    ensures Value(Digits(n)) == n
  {
    var d := Digits(n);
    if n < 10 {
      assert d[..0] == [];
    } else {
      assert d[..|d| - 1] == Digits(n / 10);
      ValueOfDigits(n / 10);
    }
  }

  lemma {:induction false} AllLeading(d: string)
    requires forall i :: 0 <= i < |d| ==> IsDigit(d[i])
    ensures LeadingDigits(d) == d
  {
    if d == [] {
    } else {
      AllLeading(d[1..]);
      assert [d[0]] + d[1..] == d;
    }
  }

  lemma ParsesItsDigits(n: nat)
    ensures ParseInt(Digits(n)) == Some(n)
  {
    var d := Digits(n);
    assert IsDigit(d[0]);
    assert TrimStart(d) == d;
    AllLeading(d);
    ValueOfDigits(n);
  }

  /** A semantic version: three numbers, and a suffix that opens with `-` or `+` if there is one. */
  datatype Version = Version(major: nat, minor: nat, patch: nat, suffix: string)

  predicate WellFormed(v: Version) {
    v.suffix == [] || v.suffix[0] == '-' || v.suffix[0] == '+'
  }

  function Bare(v: Version): string {
    Digits(v.major) + ['.'] + (Digits(v.minor) + ['.'] + (Digits(v.patch) + v.suffix))
  }

  /** A tag may have a `v` in front. */
  function Print(v: Version, tag: bool): string {
    (if tag then "v" else "") + Bare(v)
  }

  lemma DigitsAreWhole(n: nat)
    ensures forall i :: 0 <= i < |Digits(n)| ==> !IsPunctuation(Digits(n)[i])
    ensures !("v" <= Digits(n))
  {
    assert IsDigit(Digits(n)[0]);
    forall i | 0 <= i < |Digits(n)| ensures !IsPunctuation(Digits(n)[i]) {
      assert IsDigit(Digits(n)[i]);
    }
  }

  lemma SplitPatch(v: Version)
    requires WellFormed(v)
    ensures Split(Digits(v.patch) + v.suffix, IsPunctuation)[0] == Digits(v.patch)
  {
    DigitsAreWhole(v.patch);
    if v.suffix == [] {
      assert Digits(v.patch) + v.suffix == Digits(v.patch);
      SplitWhole(Digits(v.patch), IsPunctuation);
    } else {
      assert Digits(v.patch) + v.suffix == Digits(v.patch) + [v.suffix[0]] + v.suffix[1..];
      SplitFirst(Digits(v.patch), v.suffix[0], v.suffix[1..], IsPunctuation);
    }
  }

  lemma StripPrinted(v: Version, tag: bool)
    ensures StripV(Print(v, tag)) == Bare(v)
  {
    hide Digits;
    DigitsAreWhole(v.major);
    assert Bare(v)[0] == Digits(v.major)[0];
  }

  lemma SplitVersion(v: Version, tag: bool)
    requires WellFormed(v)
    ensures var p := Split(StripV(Print(v, tag)), IsPunctuation);
            |p| >= 3 && p[0] == Digits(v.major) && p[1] == Digits(v.minor) && p[2] == Digits(v.patch)
  {
    var tail := Digits(v.patch) + v.suffix;
    var more := Digits(v.minor) + ['.'] + tail;
    DigitsAreWhole(v.major);
    DigitsAreWhole(v.minor);
    StripPrinted(v, tag);
    SplitFirst(Digits(v.major), '.', more, IsPunctuation);
    SplitFirst(Digits(v.minor), '.', tail, IsPunctuation);
    SplitPatch(v);
  }

  /** Precedence by major, minor and patch alone. */
  predicate Newer(a: Version, b: Version) {
    || a.major > b.major
    || (a.major == b.major && a.minor > b.minor)
    || (a.major == b.major && a.minor == b.minor && a.patch > b.patch)
  }

  /** Written versions compare by their numbers; a suffix or a leading `v` makes no difference. */
  lemma CompareIsPrecedence(a: Version, b: Version, tagA: bool, tagB: bool)
    requires WellFormed(a) && WellFormed(b)
    ensures CompareVersions(Print(a, tagA), Print(b, tagB)) > 0 <==> Newer(a, b)
    ensures CompareVersions(Print(a, tagA), Print(b, tagB)) < 0 <==> Newer(b, a)
  {
    SplitVersion(a, tagA);
    SplitVersion(b, tagB);
    ParsesItsDigits(a.major);
    ParsesItsDigits(a.minor);
    ParsesItsDigits(a.patch);
    ParsesItsDigits(b.major);
    ParsesItsDigits(b.minor);
    ParsesItsDigits(b.patch);
    hide ParseInt, Digits, Split, StripV, Print;
  }

  // ------------------------------------------------------------------------
  // Picking a release
  // ------------------------------------------------------------------------

  datatype Channel = Stable | PrereleaseChannel | Nightly | Disabled

  datatype Release = Release(tag: string, prerelease: bool)

  predicate OccursAt(s: string, text: string, i: nat) {
    i + |text| <= |s| && s[i..i + |text|] == text
  }

  /** The text occurs somewhere, in whatever case. */
  predicate Mentions(s: string, text: string) {
    exists i: nat :: i <= |s| && OccursAt(Lower(s), text, i)
  }

  predicate IsPrerelease(r: Release) {
    r.prerelease || Mentions(r.tag, "-rc") || Mentions(r.tag, "-beta") || Mentions(r.tag, "-nightly")
  }

  predicate IsNightly(r: Release) {
    Mentions(r.tag, "-nightly")
  }

  predicate Admits(channel: Channel, r: Release) {
    match channel
    case Stable => !IsPrerelease(r)
    case PrereleaseChannel => !IsNightly(r)
    case Nightly => true
    case Disabled => false
  }

  lemma MentionsExactly(s: string, text: string)
    ensures Mentions(s, text) <==> exists a: string, b: string :: Lower(s) == a + text + b
  {
    var t := Lower(s);
    if i: nat :| i <= |s| && OccursAt(t, text, i) {
      assert t == t[..i] + text + t[i + |text|..];
    }
    if a: string, b: string :| t == a + text + b {
      assert OccursAt(t, text, |a|);
    }
  }

  /** What each channel takes: no marked release, no nightly one, every one, none. */
  lemma AdmitsExactly(r: Release)
    ensures Admits(Stable, r) <==>
            !r.prerelease && forall text <- ["-rc", "-beta", "-nightly"] :: !Mentions(r.tag, text)
    ensures Admits(PrereleaseChannel, r) <==> !Mentions(r.tag, "-nightly")
    ensures Admits(Nightly, r) && !Admits(Disabled, r)
    ensures Admits(Stable, r) ==> Admits(PrereleaseChannel, r)
  {
    var texts := ["-rc", "-beta", "-nightly"];
    assert texts[0] in texts && texts[1] in texts && texts[2] in texts;
    hide Mentions;
  }

  /** The first release in the list that the channel admits. */
  method PickReleaseForChannel(releases: seq<Release>, channel: Channel) returns (pick: Option<nat>)
    ensures match pick
            case Some(k) => k < |releases| && Admits(channel, releases[k])
                            && forall i :: 0 <= i < k ==> !Admits(channel, releases[i])
            case None => forall i :: 0 <= i < |releases| ==> !Admits(channel, releases[i])
  {
    if channel == Disabled {
      return None;
    }
    for k := 0 to |releases|
      invariant forall i :: 0 <= i < k ==> !Admits(channel, releases[i])
    {
      var isPrerelease, isNightly := IsPrerelease(releases[k]), IsNightly(releases[k]);
      if channel == Stable && !isPrerelease {
        return Some(k);
      }
      if channel == PrereleaseChannel && !isNightly {
        return Some(k);
      }
      if channel == Nightly {
        return Some(k);
      }
    }
    return None;
  }
}
