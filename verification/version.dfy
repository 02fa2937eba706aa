/** Version strings of the federation runtime: the parser `t` and the
    strict order `versionLt` (`n`) of remoteEntry.71fdd4ee54dea9240f59.js.

    A version becomes a list of tokens: the dot-separated release segments,
    then (when a pre-release part is present) an array hole followed by the
    pre-release segments, then (when build metadata is present) an empty
    array followed by the build segments. */
module Version {
  import opened Text
  import opened Results

  /** One token of a parsed version. `Hole` is the array slot the parser
      leaves empty before the pre-release segments (it reads as `undefined`);
      `Build` is the empty array `[]` put before the build segments. */
  datatype Token = Num(n: nat) | Str(s: string) | Hole | Build

  type Version = seq<Token>

  /** The first letter of `typeof` that the comparison code inspects. */
  datatype Kind = KNumber | KString | KUndefined | KObject

  function KindOf(t: Token): Kind {
    match t
    case Num(_) => KNumber
    case Str(_) => KString
    case Hole => KUndefined
    case Build => KObject
  }

  /** A release or pre-release segment: `+e==e ? +e : e`, restricted to the
      case where the string is all decimal digits. */
  function Segment(s: string): Token {
    if AllDigits(s) then Num(DigitsValue(s)) else Str(s)
  }

  /** A token that segments can produce: a number or a string. */
  predicate Plain(t: Token) {
    t.Num? || t.Str?
  }

  function SegmentsOf(parts: seq<string>): (r: Version)
    ensures |r| == |parts|
    ensures forall i :: 0 <= i < |r| ==> r[i] == Segment(parts[i])
  {
    if |parts| == 0 then [] else [Segment(parts[0])] + SegmentsOf(parts[1..])
  }

  /** `e.split(".").map(...)`. */
  function Segments(s: string): (r: Version)
    ensures |r| >= 1
    ensures forall i :: 0 <= i < |r| ==> Plain(r[i])
  {
    SegmentsOf(Split(s, '.'))
  }

  /** Characters that `.` in a JavaScript regular expression does not match. */
  predicate IsLineTerminator(c: char) {
    c == '\n' || c == '\r' || c == '\U{2028}' || c == '\U{2029}'
  }

  predicate HasLineTerminator(s: string) {
    exists i :: 0 <= i < |s| && IsLineTerminator(s[i])
  }

  /** Index of the first `-` or `+`, or `|s|`: where the greedy group
      `([^-+]+)?` of the version pattern stops. */
  function MarkerIndex(s: string): (i: nat)
    ensures i <= |s|
    ensures forall j :: 0 <= j < i ==> s[j] != '-' && s[j] != '+'
    ensures i < |s| ==> s[i] == '-' || s[i] == '+'
    decreases |s|
  {
    if |s| == 0 || s[0] == '-' || s[0] == '+' then 0 else 1 + MarkerIndex(s[1..])
  }

  /** The three groups of `/^([^-+]+)?(?:-([^+]+))?(?:\+(.+))?$/`; an
      unmatched first group is the empty string, which the parser treats
      like `undefined`. */
  datatype Groups = Groups(release: string, pre: Option<string>, build: Option<string>)

  /** The build group `(.+)` after a `+`: non-empty and free of line
      terminators, else the whole match fails. */
  function BuildGroup(b: string): Option<Option<string>> {
    if |b| == 0 || HasLineTerminator(b) then None else Some(Some(b))
  }

  /** `exec` of the version pattern; `None` is the `null` it returns when
      the string does not match. The pattern has one way to match: the
      first group runs up to the first `-` or `+`, the pre-release group up
      to the next `+`, and the build group takes the rest. */
  function MatchGroups(s: string): Option<Groups> {
    var p := MarkerIndex(s);
    if p == |s| then Some(Groups(s, None, None))
    else if s[p] == '+' then
      match BuildGroup(s[p + 1..])
      case None => None
      case Some(b) => Some(Groups(s[..p], None, b))
    else
      var rest := s[p + 1..];
      var q := IndexOf(rest, '+');
      if q == 0 then None
      else if q == |rest| then Some(Groups(s[..p], Some(rest), None))
      else
        match BuildGroup(rest[q + 1..])
        case None => None
        case Some(b) => Some(Groups(s[..p], Some(rest[..q]), b))
  }

  /** The tokens `t` builds from the groups: release segments, then the
      hole and the pre-release segments, then `[]` and the build segments. */
  function Layout(g: Groups): Version {
    (if g.release == "" then [] else Segments(g.release))
    + (if g.pre.Some? then [Hole] + Segments(g.pre.value) else [])
    + (if g.build.Some? then [Build] + Segments(g.build.value) else [])
  }

  /** The parser `t`. `None` is the TypeError the code raises when the
      pattern does not match (reading `t[1]` of `null`). */
  function Parse(s: string): Option<Version> {
    match MatchGroups(s)
    case None => None
    case Some(g) => Some(Layout(g))
  }

  /** The pattern's match of `release-pre+build` when each part fits its
      group. */
  lemma MatchAllGroups(release: string, pre: string, build: string)
    requires '-' !in release && '+' !in release
    requires |pre| > 0 && '+' !in pre
    requires |build| > 0 && !HasLineTerminator(build)
    ensures MatchGroups(release + "-" + pre + "+" + build) == Some(Groups(release, Some(pre), Some(build)))
  {
    var s := release + "-" + pre + "+" + build;
    var p := MarkerIndex(s);
    assert s[|release|] == '-';
    assert p == |release|;
    assert s[..p] == release;
    var rest := s[p + 1..];
    assert rest == pre + "+" + build;
    var q := IndexOf(rest, '+');
    assert rest[|pre|] == '+';
    assert q == |pre|;
    assert rest[..q] == pre && rest[q + 1..] == build;
  }

  /** The pattern's match of `release-pre` when each part fits its group. */
  lemma MatchPreGroup(release: string, pre: string)
    requires '-' !in release && '+' !in release
    requires |pre| > 0 && '+' !in pre
    ensures MatchGroups(release + "-" + pre) == Some(Groups(release, Some(pre), None))
  {
    var s := release + "-" + pre;
    var p := MarkerIndex(s);
    assert s[|release|] == '-';
    assert p == |release|;
    assert s[..p] == release;
    assert s[p + 1..] == pre;
  }

  /** A string with neither `-` nor `+` is all release group. */
  lemma MatchReleaseGroup(release: string)
    requires '-' !in release && '+' !in release
    ensures MatchGroups(release) == Some(Groups(release, None, None))
  {
  }

  /** Parsing is the layout of the matched groups. */
  lemma ParseOfGroups(s: string, g: Groups)
    requires MatchGroups(s) == Some(g)
    ensures Parse(s) == Some(Layout(g))
  {
  }

  /** The layout of a release version. */
  lemma LayoutOfRelease(release: string)
    requires release != ""
    ensures Layout(Groups(release, None, None)) == Segments(release)
  {
    assert Segments(release) + [] + [] == Segments(release);
  }

  /** The layout of a pre-release version without build metadata. */
  lemma LayoutOfPreRelease(release: string, pre: string)
    ensures Layout(Groups(release, Some(pre), None))
         == (if release == "" then [] else Segments(release)) + [Hole] + Segments(pre)
  {
    var r: Version := if release == "" then [] else Segments(release);
    assert r + ([Hole] + Segments(pre)) + [] == r + [Hole] + Segments(pre);
  }

  /** A release version parses into its segments. */
  lemma ParseRelease(release: string)
    requires release != "" && '-' !in release && '+' !in release
    ensures Parse(release) == Some(Segments(release))
  {
    MatchReleaseGroup(release);
    ParseOfGroups(release, Groups(release, None, None));
    LayoutOfRelease(release);
  }

  /** A pre-release version parses into the release segments, the hole and
      the pre-release segments. */
  lemma ParsePreRelease(release: string, pre: string)
    requires '-' !in release && '+' !in release
    requires |pre| > 0 && '+' !in pre
    ensures Parse(release + "-" + pre)
         == Some((if release == "" then [] else Segments(release)) + [Hole] + Segments(pre))
  {
    MatchPreGroup(release, pre);
    ParseOfGroups(release + "-" + pre, Groups(release, Some(pre), None));
    LayoutOfPreRelease(release, pre);
  }

  /** The layout of a version with all three groups present. */
  lemma LayoutOfAllGroups(release: string, pre: string, build: string)
    requires release != ""
    ensures Layout(Groups(release, Some(pre), Some(build)))
         == Segments(release) + [Hole] + Segments(pre) + [Build] + Segments(build)
  {
  }

  /** A `-` that comes before every `+` of the string. */
  predicate HasPreReleaseDash(s: string) {
    exists i :: 0 <= i < |s| && s[i] == '-' && '+' !in s[..i]
  }

  /** Segments never produce a marker. */
  lemma SegmentsHaveNoMarkers(s: string)
    ensures Hole !in Segments(s) && Build !in Segments(s)
  {
    var segs := Segments(s);
    assert forall i :: 0 <= i < |segs| ==> Plain(segs[i]);
  }

  /** Where the markers of a laid-out version come from: a hole exactly
      when there is a pre-release group, a `[]` exactly when there is a
      build group. */
  lemma LayoutMarkers(g: Groups)
    ensures Hole in Layout(g) <==> g.pre.Some?
    ensures Build in Layout(g) <==> g.build.Some?
  {
    var r: Version := if g.release == "" then [] else Segments(g.release);
    var p: Version := if g.pre.Some? then [Hole] + Segments(g.pre.value) else [];
    var b: Version := if g.build.Some? then [Build] + Segments(g.build.value) else [];
    SegmentsHaveNoMarkers(g.release);
    if g.pre.Some? {
      SegmentsHaveNoMarkers(g.pre.value);
    }
    if g.build.Some? {
      SegmentsHaveNoMarkers(g.build.value);
    }
    assert Layout(g) == r + p + b;
  }

  /** The groups the pattern finds: a pre-release group exactly when a `-`
      precedes any `+`, a build group exactly when a `+` is present. */
  lemma MatchGroupsMarkers(s: string)
    requires MatchGroups(s).Some?
    ensures MatchGroups(s).value.pre.Some? <==> HasPreReleaseDash(s)
    ensures MatchGroups(s).value.build.Some? <==> '+' in s
  {
    var p := MarkerIndex(s);
    assert '+' !in s[..p];
    if p == |s| {
      assert !HasPreReleaseDash(s);
    } else if s[p] == '+' {
      assert !HasPreReleaseDash(s) by {
        forall i | 0 <= i < |s| && s[i] == '-'
          ensures '+' in s[..i]
        {
          assert i > p;
          assert s[..i][p] == '+';
        }
      }
    } else {
      var rest := s[p + 1..];
      var q := IndexOf(rest, '+');
      assert HasPreReleaseDash(s) by {
        assert s[p] == '-' && '+' !in s[..p];
      }
      if q == |rest| {
        assert '+' !in s by {
          forall j | 0 <= j < |s|
            ensures s[j] != '+'
          {
            if j > p {
              assert s[j] == rest[j - p - 1];
            }
          }
        }
      } else {
        assert s[p + 1 + q] == '+';
      }
    }
  }

  /** Where the markers of a parsed version come from: the hole appears
      exactly when a `-` precedes any `+`, the build marker exactly when a
      `+` is present. */
  lemma ParseLayout(s: string)
    requires Parse(s).Some?
    ensures Hole in Parse(s).value <==> HasPreReleaseDash(s)
    ensures Build in Parse(s).value <==> '+' in s
  {
    MatchGroupsMarkers(s);
    LayoutMarkers(MatchGroups(s).value);
  }

  /** Tokens of the same kind that are not interchangeable: JavaScript `!=`
      on two numbers or two strings. */
  predicate ValueLt(a: Token, b: Token) {
    match (a, b)
    case (Num(x), Num(y)) => x < y
    case (Str(x), Str(y)) => StrLt(x, y)
    case _ => false
  }

  /** The loop of `versionLt` from position `n` on: is `e` below `r`? */
  predicate LtFrom(e: Version, r: Version, n: nat)
    decreases |e| - n
  {
    if n >= |e| then n < |r| && KindOf(r[n]) != KUndefined
    else if n >= |r| then KindOf(e[n]) == KUndefined
    else
      var a := KindOf(e[n]);
      var l := KindOf(r[n]);
      if a != l then (a == KObject && l == KNumber) || l == KString || a == KUndefined
      else if a != KObject && a != KUndefined && e[n] != r[n] then ValueLt(e[n], r[n])
      else LtFrom(e, r, n + 1)
  }

  /** `versionLt` on parsed versions. */
  predicate Lt(a: Version, b: Version) {
    LtFrom(a, b, 0)
  }

  /** `versionLt` on strings: both are parsed first (left one first), and a
      string the pattern rejects raises a TypeError. */
  function VersionLt(a: string, b: string): Result<bool> {
    match Parse(a)
    case None => Failure(TypeError)
    case Some(x) =>
      match Parse(b)
      case None => Failure(TypeError)
      case Some(y) => Success(Lt(x, y))
  }

  /** Where a position sits in the order of kinds the loop implements: the
      hole below the end of the list, which is below the build marker, then
      numbers, then strings. */
  function RankAt(v: Version, n: nat): nat {
    if n >= |v| then 1
    else match v[n]
      case Hole => 0
      case Build => 2
      case Num(_) => 3
      case Str(_) => 4
  }

  /** One step of the loop, stated through ranks: a lower rank decides,
      equal ranks compare values, and equal tokens move on. */
  lemma LtStep(a: Version, b: Version, n: nat)
    ensures LtFrom(a, b, n) <==>
      || RankAt(a, n) < RankAt(b, n)
      || (&& RankAt(a, n) == RankAt(b, n) && n < |a| && n < |b|
          && (if Plain(a[n]) && a[n] != b[n] then ValueLt(a[n], b[n]) else LtFrom(a, b, n + 1)))
  {
  }

  lemma {:induction false} LtFromIrreflexive(a: Version, n: nat)
    ensures !LtFrom(a, a, n)
    decreases |a| - n
  {
    if n < |a| {
      LtFromIrreflexive(a, n + 1);
      if a[n].Str? {
        StrLtIrreflexive(a[n].s);
      }
    }
  }

  lemma LtIrreflexive(a: Version)
    ensures !Lt(a, a)
  {
    LtFromIrreflexive(a, 0);
  }

  lemma {:induction false} LtFromTransitive(a: Version, b: Version, c: Version, n: nat)
    requires LtFrom(a, b, n) && LtFrom(b, c, n)
    ensures LtFrom(a, c, n)
    decreases |a| - n
  {
    LtStep(a, b, n);
    LtStep(b, c, n);
    LtStep(a, c, n);
    if RankAt(a, n) == RankAt(b, n) == RankAt(c, n) && n < |a| && n < |b| && n < |c| {
      if a[n] == b[n] && b[n] == c[n] {
        if !(Plain(a[n]) && a[n] != c[n]) {
          LtFromTransitive(a, b, c, n + 1);
        }
      } else if a[n].Str? && b[n].Str? && c[n].Str? {
        if a[n] != b[n] && b[n] != c[n] {
          StrLtTransitive(a[n].s, b[n].s, c[n].s);
          if a[n] == c[n] {
            StrLtIrreflexive(a[n].s);
          }
        }
      }
    }
  }

  lemma LtTransitive(a: Version, b: Version, c: Version)
    requires Lt(a, b) && Lt(b, c)
    ensures Lt(a, c)
  {
    LtFromTransitive(a, b, c, 0);
  }

  lemma LtAsymmetric(a: Version, b: Version)
    requires Lt(a, b)
    ensures !Lt(b, a)
  {
    if Lt(b, a) {
      LtTransitive(a, b, a);
      LtIrreflexive(a);
    }
  }

  lemma {:induction false} LtFromConnected(a: Version, b: Version, n: nat)
    requires n <= |a| && n <= |b|
    requires a[..n] == b[..n]
    requires a != b
    ensures LtFrom(a, b, n) || LtFrom(b, a, n)
    decreases |a| - n
  {
    LtStep(a, b, n);
    LtStep(b, a, n);
    if n < |a| && n < |b| {
      if a[n] == b[n] {
        assert a[..n + 1] == b[..n + 1] by {
          assert a[..n + 1] == a[..n] + [a[n]];
          assert b[..n + 1] == b[..n] + [b[n]];
        }
        LtFromConnected(a, b, n + 1);
      } else if a[n].Str? && b[n].Str? {
        StrLtConnected(a[n].s, b[n].s);
      }
    } else if n == |a| && n == |b| {
      assert false;
    }
  }

  /** Two different token lists are always ordered one way or the other:
      the comparison is a strict total order on parsed versions. */
  lemma LtConnected(a: Version, b: Version)
    requires a != b
    ensures Lt(a, b) || Lt(b, a)
  {
    LtFromConnected(a, b, 0);
  }
}
