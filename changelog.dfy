/**
  * The release-notes extractor (scripts/extract_latest_changelog.js): find
  * the `## [Unreleased]` / `## [x.y.z]` headers at line starts of the
  * changelog, take the text of the first section without its header line
  * (and, for an Unreleased section, without the lines before its first
  * `####` heading), choose the version, and render the release notes.
  * The two file reads become the parameters `changelog` and `packageVersion`.
  */
module Changelog {
  import opened Text

  datatype Option<T> = None | Some(value: T)

  // ---------------------------------------------------------------------
  // Characters as JavaScript regular expressions and `trim` classify them
  // ---------------------------------------------------------------------

  /** LineTerminator: what `^` in a multiline pattern may follow. */
  predicate IsLineTerminator(c: char) {
    c == '\n' || c == '\r' || c == '\U{2028}' || c == '\U{2029}'
  }

  /** WhiteSpace or LineTerminator: what `String.prototype.trim` removes. */
  predicate IsJsSpace(c: char) {
    || c == '\t' || c == '\n' || c == '\U{000B}' || c == '\U{000C}' || c == '\r' || c == ' '
    || c == '\U{00A0}' || c == '\U{1680}' || c == '\U{2028}' || c == '\U{2029}'
    || c == '\U{202F}' || c == '\U{205F}' || c == '\U{3000}' || c == '\U{FEFF}'
    || ('\U{2000}' <= c <= '\U{200A}')
  }

  /** `^` in a multiline pattern matches at `p`. */
  predicate IsLineStart(s: string, p: nat)
    requires p <= |s|
  {
    p == 0 || IsLineTerminator(s[p - 1])
  }

  // ---------------------------------------------------------------------
  // Header detection: /^## \[(?:Unreleased|\d+\.\d+\.\d+)\]/gm
  // ---------------------------------------------------------------------

  /** Where a greedy `\d*` starting at `q` stops. */
  function DigitRunEnd(s: string, q: nat): (e: nat)
    requires q <= |s|
    ensures q <= e <= |s|
    ensures forall i :: q <= i < e ==> IsDigit(s[i])
    ensures e < |s| ==> !IsDigit(s[e])
    decreases |s| - q
  {
    if q < |s| && IsDigit(s[q]) then DigitRunEnd(s, q + 1) else q
  }

  /** Where `\d+\.\d+\.\d+` matching at `q` ends, if it matches there. */
  function VersionEnd(s: string, q: nat): (e: Option<nat>)
    requires q <= |s|
    ensures e.Some? ==> q + 5 <= e.value <= |s| && forall i :: q <= i < e.value ==> IsDigit(s[i]) || s[i] == '.'
  {
    var e1 := DigitRunEnd(s, q);
    if e1 == q || e1 == |s| || s[e1] != '.' then None
    else
      var e2 := DigitRunEnd(s, e1 + 1);
      if e2 == e1 + 1 || e2 == |s| || s[e2] != '.' then None
      else
        var e3 := DigitRunEnd(s, e2 + 1);
        if e3 == e2 + 1 then None else Some(e3)
  }

  datatype HeaderKind = Unreleased | Release(version: string)

  /** A header match: its kind and the length of the matched text. */
  datatype HeaderMatch = HeaderMatch(kind: HeaderKind, length: nat)

  /** The header pattern, without `^`, matched at the start of `t`. */
  function ParseHeader(t: string): (h: Option<HeaderMatch>)
    ensures h.Some? ==> 4 < h.value.length <= |t|
    ensures h.Some? ==> forall i :: 0 <= i < h.value.length ==> !IsLineTerminator(t[i])
  {
    if |t| < 4 || t[..4] != "## [" then None
    else
      assert forall i :: 0 <= i < 4 ==> t[i] == "## ["[i];
      if |t| >= 15 && t[4..15] == "Unreleased]" then
        assert forall i :: 4 <= i < 15 ==> t[i] == "Unreleased]"[i - 4];
        Some(HeaderMatch(Unreleased, 15))
      else
        match VersionEnd(t, 4)
        case None => None
        case Some(e) => if e < |t| && t[e] == ']' then Some(HeaderMatch(Release(t[4..e]), e + 1)) else None
  }

  /** A header starts at `p`: a line start followed by the header pattern. */
  predicate IsHeaderAt(s: string, p: nat) {
    p < |s| && IsLineStart(s, p) && ParseHeader(s[p..]).Some?
  }

  /**
    * `[...content.matchAll(versionRegex)]` searching from `p`: each match is
    * found at the next position where the pattern matches, and the search
    * resumes where that match ends.
    */
  function MatchAll(s: string, p: nat): (ms: seq<nat>)
    requires p <= |s|
    ensures forall j :: 0 <= j < |ms| ==> p <= ms[j] < |s| && IsHeaderAt(s, ms[j])
    ensures forall j, j' :: 0 <= j < j' < |ms| ==> ms[j] < ms[j']
    ensures forall q :: p <= q < |s| && IsHeaderAt(s, q) ==> q in ms
    decreases |s| - p
  {
    if p == |s| then []
    else if IsHeaderAt(s, p) then
      var e := p + ParseHeader(s[p..]).value.length;
      NoLineStartInsideHeader(s, p);
      assert forall q :: p < q < e ==> !IsHeaderAt(s, q);
      var rest := MatchAll(s, e);
      MatchStep(s, p, e, rest);
      [p] + rest
    else MatchAll(s, p + 1)
  }

  /** A match at `p`, no header inside it, and the matches from its end: together, the matches from `p`. */
  lemma MatchStep(s: string, p: nat, e: nat, rest: seq<nat>)
    requires p < e <= |s| && IsHeaderAt(s, p)
    requires forall q :: p < q < e ==> !IsHeaderAt(s, q)
    requires forall j :: 0 <= j < |rest| ==> e <= rest[j] < |s| && IsHeaderAt(s, rest[j])
    requires forall j, j' :: 0 <= j < j' < |rest| ==> rest[j] < rest[j']
    requires forall q :: e <= q < |s| && IsHeaderAt(s, q) ==> q in rest
    ensures var ms := [p] + rest;
      && (forall j :: 0 <= j < |ms| ==> p <= ms[j] < |s| && IsHeaderAt(s, ms[j]))
      && (forall j, j' :: 0 <= j < j' < |ms| ==> ms[j] < ms[j'])
      && (forall q :: p <= q < |s| && IsHeaderAt(s, q) ==> q in ms)
  {
    var ms := [p] + rest;
    forall j | 0 < j < |ms|
      ensures ms[j] == rest[j - 1]
    {
    }
  }

  /** No line starts inside a header's match text, so the matches of `matchAll` cannot skip a header. */
  lemma NoLineStartInsideHeader(s: string, p: nat)
    requires IsHeaderAt(s, p)
    ensures forall q :: p < q < p + ParseHeader(s[p..]).value.length ==> !IsLineStart(s, q)
  {
    var t := s[p..];
    forall q | p < q < p + ParseHeader(t).value.length
      ensures !IsLineStart(s, q)
    {
      assert s[q - 1] == t[q - 1 - p];
    }
  }

  /** The header positions of the changelog, in order. */
  function Headers(s: string): seq<nat> {
    MatchAll(s, 0)
  }

  /** Every header of the changelog is found, in ascending order, and nothing else. */
  lemma HeadersAreAllHeaderPositions(s: string)
    ensures forall p :: p in Headers(s) <==> 0 <= p < |s| && IsHeaderAt(s, p)
    ensures forall j, j' :: 0 <= j < j' < |Headers(s)| ==> Headers(s)[j] < Headers(s)[j']
  {
  }

  /** `matchAll` finds nothing exactly when no position of the changelog starts a header. */
  lemma NoHeadersIff(s: string)
    ensures Headers(s) == [] <==> forall p :: 0 <= p < |s| ==> !IsHeaderAt(s, p)
  {
    HeadersAreAllHeaderPositions(s);
    if Headers(s) != [] {
      assert Headers(s)[0] in Headers(s);
    }
  }

  /** The first header's match text, `matches[0][0]`. */
  function MatchText(s: string, p: nat): (m: string)
    requires IsHeaderAt(s, p)
    ensures 4 < |m| && m[..4] == "## [" && OccursAt(s, m, p)
    ensures forall i :: 0 <= i < |m| ==> !IsLineTerminator(m[i])
  {
    var t := s[p..];
    var m := t[..ParseHeader(t).value.length];
    assert t[..4] == "## [";
    assert m[..4] == t[..4];
    m
  }

  // ---------------------------------------------------------------------
  // /^## \[Unreleased\]/gm and the choice of section and version
  // ---------------------------------------------------------------------

  const UnreleasedHeader := "## [Unreleased]"

  predicate IsUnreleasedAt(s: string, q: nat) {
    q + 15 <= |s| && IsLineStart(s, q) && s[q..q + 15] == UnreleasedHeader
  }

  /** `unreleasedRegex.exec(content)`: the first line start holding `## [Unreleased]`. */
  function FirstUnreleased(s: string, p: nat): (u: Option<nat>)
    requires p <= |s|
    ensures u.Some? ==> p <= u.value && IsUnreleasedAt(s, u.value)
    ensures u.Some? ==> forall q :: p <= q < u.value ==> !IsUnreleasedAt(s, q)
    ensures u.None? ==> forall q :: p <= q <= |s| ==> !IsUnreleasedAt(s, q)
    decreases |s| - p
  {
    if IsUnreleasedAt(s, p) then Some(p)
    else if p == |s| then None
    else FirstUnreleased(s, p + 1)
  }

  /** An Unreleased header is exactly a header of kind Unreleased. */
  lemma UnreleasedIsHeader(s: string, q: nat)
    requires q < |s|
    ensures IsUnreleasedAt(s, q) <==> IsHeaderAt(s, q) && ParseHeader(s[q..]).value.kind == Unreleased
  {
    var t := s[q..];
    if IsUnreleasedAt(s, q) {
      assert t[..4] == UnreleasedHeader[..4] && t[4..15] == UnreleasedHeader[4..];
    }
    if IsHeaderAt(s, q) && ParseHeader(t).value.kind == Unreleased {
      assert s[q..q + 15] == t[..4] + t[4..15];
    }
  }

  /** The kind of the first header. */
  function FirstHeaderKind(s: string): HeaderKind
    requires Headers(s) != []
  {
    var p := Headers(s)[0];
    ParseHeader(s[p..]).value.kind
  }

  /**
    * `unreleasedMatch && matches[0].index === unreleasedMatch.index` holds
    * exactly when the first header of the changelog is `## [Unreleased]`.
    */
  lemma UnreleasedTestIsFirstHeaderKind(s: string)
    requires Headers(s) != []
    ensures (var u := FirstUnreleased(s, 0); u.Some? && Headers(s)[0] == u.value) <==> FirstHeaderKind(s) == Unreleased
  {
    var ms, u := Headers(s), FirstUnreleased(s, 0);
    UnreleasedIsHeader(s, ms[0]);
    if u.Some? {
      UnreleasedIsHeader(s, u.value);
      assert u.value in ms;
    }
  }

  /** `\[(\d+\.\d+\.\d+)\]` tried at position `i` of `t`: the captured version, if it matches there. */
  function BracketAt(t: string, i: nat): (v: Option<string>)
    requires i < |t|
    ensures v.Some? ==> 5 <= |v.value| && forall k :: 0 <= k < |v.value| ==> IsDigit(v.value[k]) || v.value[k] == '.'
    ensures v.Some? ==> OccursAt(t, "[" + v.value + "]", i)
  {
    if t[i] == '[' && VersionEnd(t, i + 1).Some? && VersionEnd(t, i + 1).value < |t|
       && t[VersionEnd(t, i + 1).value] == ']' then
      var e := VersionEnd(t, i + 1).value;
      assert t[i..e + 1] == "[" + t[i + 1..e] + "]";
      Some(t[i + 1..e])
    else None
  }

  /** `/\[(\d+\.\d+\.\d+)\]/` matched leftmost in `t` from position `i`: the captured version. */
  function BracketVersion(t: string, i: nat): (v: Option<string>)
    requires i <= |t|
    ensures v.Some? ==> 5 <= |v.value| && forall k :: 0 <= k < |v.value| ==> IsDigit(v.value[k]) || v.value[k] == '.'
    ensures v.Some? ==> exists j :: i <= j && OccursAt(t, "[" + v.value + "]", j)
    decreases |t| - i
  {
    if i == |t| then None
    else if BracketAt(t, i).Some? then BracketAt(t, i)
    else BracketVersion(t, i + 1)
  }

  /** A digit run that ends before `n` ends at the same place in the prefix `t[..n]`. */
  lemma {:induction false} DigitRunEndInPrefix(t: string, n: nat, q: nat)
    requires q <= n <= |t| && DigitRunEnd(t, q) < n
    ensures DigitRunEnd(t[..n], q) == DigitRunEnd(t, q)
    decreases n - q
  {
    if q < n && IsDigit(t[q]) {
      DigitRunEndInPrefix(t, n, q + 1);
    }
  }

  /** A version that ends before `n` is matched the same way in the prefix `t[..n]`. */
  lemma VersionEndInPrefix(t: string, n: nat, q: nat)
    requires q <= n <= |t| && VersionEnd(t, q).Some? && VersionEnd(t, q).value < n
    ensures VersionEnd(t[..n], q) == VersionEnd(t, q)
  {
    var e1 := DigitRunEnd(t, q);
    DigitRunEndInPrefix(t, n, q);
    var e2 := DigitRunEnd(t, e1 + 1);
    DigitRunEndInPrefix(t, n, e1 + 1);
    DigitRunEndInPrefix(t, n, e2 + 1);
  }

  /**
    * On the text of a `## [x.y.z]` header the bracket pattern always finds
    * `x.y.z`, so the fallback to the package version is never taken.
    */
  lemma ReleaseHeaderVersion(t: string, v: string, n: nat)
    requires ParseHeader(t) == Some(HeaderMatch(Release(v), n))
    ensures BracketVersion(t[..n], 0) == Some(v)
  {
    ReleaseHeaderShape(t, v, n);
    var m, e := t[..n], n - 1;
    VersionEndInPrefix(t, n, 4);
    assert m[..4] == t[..4];
    assert m[0] == '#' && m[1] == '#' && m[2] == ' ' && m[3] == '[';
    assert m[e] == ']' && m[4..e] == v;
    assert BracketVersion(m, 3) == Some(v);
    BracketSkip(m, 2);
    BracketSkip(m, 1);
    BracketSkip(m, 0);
  }

  /** The bracket search moves past a character that is not `[`. */
  lemma BracketSkip(t: string, i: nat)
    requires i < |t| && t[i] != '['
    ensures BracketVersion(t, i) == BracketVersion(t, i + 1)
  {
  }

  /** A release header is `## [`, a version ending at `n - 1`, and `]`. */
  lemma ReleaseHeaderShape(t: string, v: string, n: nat)
    requires ParseHeader(t) == Some(HeaderMatch(Release(v), n))
    ensures 4 < n <= |t| && t[..4] == "## [" && t[n - 1] == ']' && t[4..n - 1] == v && n == |v| + 5
    ensures VersionEnd(t, 4) == Some(n - 1)
  {
    assert !(|t| >= 15 && t[4..15] == "Unreleased]");
  }

  /**
    * `v` is `\d+\.\d+\.\d+` with its two dots at `i` and `j`: three non-empty
    * digit groups, every other character a digit.
    */
  predicate DotsAt(v: string, i: nat, j: nat) {
    && 0 < i && i + 1 < j && j + 1 < |v| && v[i] == '.' && v[j] == '.'
    && forall k :: 0 <= k < |v| && k != i && k != j ==> IsDigit(v[k])
  }

  /** `v` is three non-empty runs of digits joined by single dots. */
  ghost predicate IsVersion(v: string) {
    exists i: nat, j: nat :: DotsAt(v, i, j)
  }

  /** A greedy digit run from `q` stops exactly at the first non-digit (or the end). */
  lemma {:induction false} DigitRunEndAt(s: string, q: nat, e: nat)
    requires q <= e <= |s|
    requires forall k :: q <= k < e ==> IsDigit(s[k])
    requires e == |s| || !IsDigit(s[e])
    ensures DigitRunEnd(s, q) == e
    decreases e - q
  {
    if q < e {
      DigitRunEndAt(s, q + 1, e);
    }
  }

  /** What `VersionEnd` accepts is a version. */
  lemma VersionEndIsVersion(s: string, q: nat)
    requires q <= |s| && VersionEnd(s, q).Some?
    ensures IsVersion(s[q..VersionEnd(s, q).value])
  {
    var e1 := DigitRunEnd(s, q);
    var e2 := DigitRunEnd(s, e1 + 1);
    var v := s[q..VersionEnd(s, q).value];
    forall k | 0 <= k < |v| && k != e1 - q && k != e2 - q
      ensures IsDigit(v[k])
    {
      assert v[k] == s[q + k];
    }
    assert DotsAt(v, e1 - q, e2 - q);
  }

  /** A version at `q` that is not followed by a digit is matched by `VersionEnd` in full. */
  lemma VersionEndFinds(s: string, q: nat, v: string)
    requires q + |v| <= |s| && s[q..q + |v|] == v && IsVersion(v)
    requires q + |v| == |s| || !IsDigit(s[q + |v|])
    ensures VersionEnd(s, q) == Some(q + |v|)
  {
    var i: nat, j: nat :| DotsAt(v, i, j);
    forall k | q <= k < q + |v| && k != q + i && k != q + j
      ensures IsDigit(s[k])
    {
      assert s[k] == v[k - q];
    }
    assert s[q + i] == v[i] && s[q + j] == v[j];
    DigitRunEndAt(s, q, q + i);
    DigitRunEndAt(s, q + i + 1, q + j);
    DigitRunEndAt(s, q + j + 1, q + |v|);
  }

  /** A release header's text is `## [`, its version, and `]`. */
  lemma ReleaseHeaderText(t: string, v: string)
    requires ParseHeader(t) == Some(HeaderMatch(Release(v), |v| + 5))
    ensures "## [" + v + "]" <= t && IsVersion(v)
  {
    ReleaseHeaderShape(t, v, |v| + 5);
    VersionEndIsVersion(t, 4);
    assert t[..|v| + 5] == t[..4] + t[4..|v| + 4] + [t[|v| + 4]];
  }

  /** Text starting with `## [`, a version and `]` is a release header for that version. */
  lemma ReleaseTextIsHeader(t: string, v: string)
    requires "## [" + v + "]" <= t && IsVersion(v)
    ensures ParseHeader(t) == Some(HeaderMatch(Release(v), |v| + 5))
  {
    var e := 4 + |v|;
    BracketedPrefix(t, v);
    VersionStartsWithDigit(v);
    VersionEndFinds(t, 4, v);
    NotUnreleased(t);
    ParseReleaseHeader(t, e);
  }

  /** Where the pieces of a `## [v]` prefix sit. */
  lemma BracketedPrefix(t: string, v: string)
    requires "## [" + v + "]" <= t
    ensures 4 + |v| < |t| && t[..4] == "## [" && t[4..4 + |v|] == v && t[4 + |v|] == ']'
  {
    var h := "## [" + v + "]";
    assert t[..|h|] == h;
    assert h[..4] == "## [" && h[4..4 + |v|] == v;
  }

  /** A version is at least five characters long and starts with a digit. */
  lemma VersionStartsWithDigit(v: string)
    requires IsVersion(v)
    ensures |v| >= 5 && IsDigit(v[0])
  {
    var i: nat, j: nat :| DotsAt(v, i, j);
  }

  /** Text whose fifth character is a digit does not continue `## [` with `Unreleased]`. */
  lemma NotUnreleased(t: string)
    requires |t| > 4 && IsDigit(t[4])
    ensures !(|t| >= 15 && t[4..15] == "Unreleased]")
  {
    assert |t| >= 15 ==> t[4..15][0] == t[4];
    assert !IsDigit("Unreleased]"[0]);
  }

  /** The header pattern on text that is `## [`, not `Unreleased]`, and a version closed by `]`. */
  lemma ParseReleaseHeader(t: string, e: nat)
    requires |t| >= 4 && t[..4] == "## [" && !(|t| >= 15 && t[4..15] == "Unreleased]")
    requires VersionEnd(t, 4) == Some(e) && e < |t| && t[e] == ']'
    ensures ParseHeader(t) == Some(HeaderMatch(Release(t[4..e]), e + 1))
  {
  }

  /**
    * The header pattern matches `t` as a release header for `v` exactly when
    * `t` starts with `## [`, then `v`, then `]`, and `v` is a version.
    */
  lemma ReleaseHeaderIff(t: string, v: string)
    ensures ParseHeader(t) == Some(HeaderMatch(Release(v), |v| + 5)) <==> "## [" + v + "]" <= t && IsVersion(v)
  {
    if ParseHeader(t) == Some(HeaderMatch(Release(v), |v| + 5)) {
      ReleaseHeaderText(t, v);
    }
    if "## [" + v + "]" <= t && IsVersion(v) {
      ReleaseTextIsHeader(t, v);
    }
  }

  /** Every `## [x.y.z]` at a line start is one of the matches. */
  lemma ReleaseHeaderFound(s: string, p: nat, v: string)
    requires p < |s| && IsLineStart(s, p) && "## [" + v + "]" <= s[p..] && IsVersion(v)
    ensures p in Headers(s)
  {
    ReleaseHeaderIff(s[p..], v);
    assert IsHeaderAt(s, p);
  }

  /** A version found by the bracket pattern is `\d+\.\d+\.\d+`. */
  lemma {:induction false} BracketVersionIsVersion(t: string, i: nat)
    requires i <= |t|
    ensures BracketVersion(t, i).Some? ==> IsVersion(BracketVersion(t, i).value)
    decreases |t| - i
  {
    if i < |t| {
      if BracketAt(t, i).Some? {
        VersionEndIsVersion(t, i + 1);
      } else {
        BracketVersionIsVersion(t, i + 1);
      }
    }
  }

  /**
    * The bracket search returns the match at the leftmost position where the
    * pattern matches, and `None` only when it matches nowhere from `i` on.
    */
  lemma {:induction false} BracketVersionIsLeftmost(t: string, i: nat)
    requires i <= |t|
    ensures BracketVersion(t, i).Some? ==>
      exists j :: i <= j < |t| && BracketAt(t, j) == BracketVersion(t, i)
        && forall j' :: i <= j' < j ==> BracketAt(t, j').None?
    ensures BracketVersion(t, i).None? ==> forall j :: i <= j < |t| ==> BracketAt(t, j).None?
    decreases |t| - i
  {
    if i < |t| && BracketAt(t, i).None? {
      BracketVersionIsLeftmost(t, i + 1);
    }
  }

  /** The version the notes are for: the package version under Unreleased, else the header's. */
  function ChosenVersion(s: string, packageVersion: string): string
    requires Headers(s) != []
  {
    match FirstHeaderKind(s)
    case Unreleased => packageVersion
    case Release(v) => v
  }

  // ---------------------------------------------------------------------
  // Trimming, splitting into lines and joining
  // ---------------------------------------------------------------------

  /** The length of the longest all-white-space prefix. */
  function LeadingSpaces(s: string): (n: nat)
    ensures n <= |s|
    ensures forall i :: 0 <= i < n ==> IsJsSpace(s[i])
    ensures n < |s| ==> !IsJsSpace(s[n])
  {
    if s != [] && IsJsSpace(s[0]) then 1 + LeadingSpaces(s[1..]) else 0
  }

  /** The length of the longest all-white-space suffix. */
  function TrailingSpaces(s: string): (n: nat)
    ensures n <= |s|
    ensures forall i :: |s| - n <= i < |s| ==> IsJsSpace(s[i])
    ensures n < |s| ==> !IsJsSpace(s[|s| - 1 - n])
  {
    if s != [] && IsJsSpace(s[|s| - 1]) then 1 + TrailingSpaces(s[..|s| - 1]) else 0
  }

  /** `String.prototype.trim`: the text between the leading and the trailing white space. */
  function Trim(s: string): (r: string)
    ensures |r| <= |s|
    ensures r == [] || (!IsJsSpace(r[0]) && !IsJsSpace(r[|r| - 1]))
  {
    var rest := s[LeadingSpaces(s)..];
    rest[..|rest| - TrailingSpaces(rest)]
  }

  /** `trim` removes white space only, and only at the two ends. */
  lemma TrimRemovesOnlyOuterSpace(s: string)
    ensures var a, r := LeadingSpaces(s), Trim(s);
      && a + |r| <= |s| && s[a..a + |r|] == r
      && (forall i :: 0 <= i < a ==> IsJsSpace(s[i]))
      && (forall i :: a + |r| <= i < |s| ==> IsJsSpace(s[i]))
  {
    TrimIsInfix(s);
    TrimDropsTrailingSpace(s);
  }

  /** The trimmed text sits in the original right after the leading white space. */
  lemma TrimIsInfix(s: string)
    ensures var a, r := LeadingSpaces(s), Trim(s);
      a + |r| <= |s| && s[a..a + |r|] == r
  {
    var a := LeadingSpaces(s);
    var rest := s[a..];
    var n := |rest| - TrailingSpaces(rest);
    assert Trim(s) == rest[..n];
    PrefixOfSuffix(s, a, n);
  }

  /** The first `n` elements after position `a` are the slice from `a` to `a + n`. */
  lemma PrefixOfSuffix<T>(s: seq<T>, a: nat, n: nat)
    requires a + n <= |s|
    ensures s[a..][..n] == s[a..a + n]
  {
  }

  /** Everything after the trimmed text is white space. */
  lemma TrimDropsTrailingSpace(s: string)
    ensures var a, r := LeadingSpaces(s), Trim(s);
      forall i :: a + |r| <= i < |s| ==> IsJsSpace(s[i])
  {
    var a := LeadingSpaces(s);
    var rest := s[a..];
    var t := TrailingSpaces(rest);
    assert |Trim(s)| == |rest| - t;
    forall i | a + |Trim(s)| <= i < |s|
      ensures IsJsSpace(s[i])
    {
      assert s[i] == rest[i - a];
    }
  }

  /** The first position of `c` in `s`. */
  function IndexOf(s: string, c: char): (i: nat)
    requires c in s
    ensures i < |s| && s[i] == c && c !in s[..i]
  {
    if s[0] == c then 0 else 1 + IndexOf(s[1..], c)
  }

  /** The first occurrence is the position before which the character does not occur. */
  lemma IndexOfAt(s: string, c: char, k: nat)
    requires k < |s| && s[k] == c && c !in s[..k]
    ensures IndexOf(s, c) == k
  {
  }

  /** `s.split('\n')`. */
  function Split(s: string): (lines: seq<string>)
    ensures |lines| >= 1
    ensures forall j :: 0 <= j < |lines| ==> '\n' !in lines[j]
    decreases |s|
  {
    if '\n' in s then
      var i := IndexOf(s, '\n');
      [s[..i]] + Split(s[i + 1..])
    else [s]
  }

  /** `lines.join('\n')`. */
  function Join(lines: seq<string>): (s: string)
    ensures lines != [] ==> lines[0] <= s
    ensures |lines| > 1 ==> |lines[0]| < |s| && s[|lines[0]|] == '\n'
  {
    if lines == [] then ""
    else if |lines| == 1 then lines[0]
    else lines[0] + "\n" + Join(lines[1..])
  }

  /** Joining the lines of a text gives the text back. */
  lemma {:induction false} JoinSplit(s: string)
    ensures Join(Split(s)) == s
    decreases |s|
  {
    if '\n' in s {
      var i := IndexOf(s, '\n');
      var rest := s[i + 1..];
      var lines := Split(s);
      assert lines == [s[..i]] + Split(rest);
      assert lines[1..] == Split(rest);
      assert Join(lines) == s[..i] + "\n" + Join(Split(rest));
      JoinSplit(rest);
      assert s == s[..i] + "\n" + rest;
    }
  }

  /** A first line without a line feed, then a line feed: splitting peels off that line. */
  lemma SplitCons(line: string, rest: string)
    requires '\n' !in line
    ensures Split(line + "\n" + rest) == [line] + Split(rest)
  {
    var s, k := line + "\n" + rest, |line|;
    assert s[k] == '\n' && s[..k] == line && s[k + 1..] == rest;
    IndexOfAt(s, '\n', k);
  }

  /** Splitting joined lines that hold no line feed gives the lines back. */
  lemma {:induction false} SplitJoin(lines: seq<string>)
    requires |lines| >= 1
    requires forall j :: 0 <= j < |lines| ==> '\n' !in lines[j]
    ensures Split(Join(lines)) == lines
  {
    if |lines| > 1 {
      assert '\n' !in lines[0];
      SplitCons(lines[0], Join(lines[1..]));
      SplitJoin(lines[1..]);
    }
  }

  /** What follows the first line feed (nothing if there is none). */
  function AfterFirstLine(s: string): (r: string)
    ensures '\n' !in s ==> r == ""
    ensures '\n' in s ==> |r| < |s| && r == s[|s| - |r|..] && s[|s| - |r| - 1] == '\n' && '\n' !in s[..|s| - |r| - 1]
  {
    if '\n' in s then s[IndexOf(s, '\n') + 1..] else ""
  }

  /** `s.split('\n').slice(1).join('\n')` removes exactly the first line and its line feed. */
  lemma DropFirstLine(s: string)
    ensures Join(Split(s)[1..]) == AfterFirstLine(s)
  {
    if '\n' in s {
      var i := IndexOf(s, '\n');
      assert Split(s)[1..] == Split(s[i + 1..]);
      JoinSplit(s[i + 1..]);
    }
  }

  predicate StartsWithHashes(line: string) {
    |line| >= 4 && line[..4] == "####"
  }

  /** `lines.findIndex(line => line.startsWith('####'))`. */
  function FindIndex(lines: seq<string>): (i: int)
    ensures -1 <= i < |lines|
    ensures i >= 0 ==> StartsWithHashes(lines[i])
    ensures i >= 0 ==> forall j :: 0 <= j < i ==> !StartsWithHashes(lines[j])
    ensures i == -1 ==> forall j :: 0 <= j < |lines| ==> !StartsWithHashes(lines[j])
  {
    if lines == [] then -1
    else if StartsWithHashes(lines[0]) then 0
    else
      var r := FindIndex(lines[1..]);
      if r == -1 then -1 else r + 1
  }

  /** For an Unreleased section: drop the lines before the first `####` line, when there are any. */
  function StripPreamble(content: string): (r: string)
    ensures FindIndex(Split(content)) <= 0 ==> r == content
    ensures FindIndex(Split(content)) > 0 ==> StartsWithHashes(r)
  {
    var lines := Split(content);
    var contentStart := FindIndex(lines);
    if contentStart > 0 then
      assert lines[contentStart..][0] <= Join(lines[contentStart..]);
      Join(lines[contentStart..])
    else content
  }

  /**
    * The preamble strip keeps the content unless the first line starting with
    * `####` exists and is not the first line; then the result is exactly the
    * lines from that line on, and the first line of the result is that heading.
    */
  lemma PreambleStripped(content: string)
    ensures var lines, i := Split(content), FindIndex(Split(content));
      && (i <= 0 ==> StripPreamble(content) == content)
      && (i > 0 ==> Split(StripPreamble(content)) == lines[i..] && StartsWithHashes(Split(StripPreamble(content))[0]))
      && (i > 0 ==> forall j :: 0 <= j < i ==> !StartsWithHashes(lines[j]))
  {
    var lines, i := Split(content), FindIndex(Split(content));
    if i > 0 {
      SplitJoin(lines[i..]);
    }
  }

  // ---------------------------------------------------------------------
  // The section and the release notes
  // ---------------------------------------------------------------------

  /**
    * The text of the section between `start` and `end`: trimmed, without its
    * header line, trimmed again, and for an Unreleased section without the
    * preamble before `####`.
    */
  function SectionOf(s: string, start: nat, end: nat, unreleased: bool): string
    requires start <= end <= |s|
  {
    var body := Trim(AfterFirstLine(Trim(s[start..end])));
    if unreleased then StripPreamble(body) else body
  }

  /** The text of the latest section: from the first header up to the second header (or the end). */
  function SectionText(s: string): string
    requires Headers(s) != []
  {
    var ms := Headers(s);
    var next := if |ms| > 1 then ms[1] else |s|;
    SectionOf(s, ms[0], next, FirstHeaderKind(s) == Unreleased)
  }

  const NotesTitle := "## What's New in v"
  const InstallPrefix := "npm install airport-data-js@"
  const NoVersionMessage := "No version found in CHANGELOG.md"

  predicate OccursAt(text: string, part: string, k: nat) {
    k + |part| <= |text| && text[k..k + |part|] == part
  }

  ghost predicate Contains(text: string, part: string) {
    exists k :: OccursAt(text, part, k)
  }

  const InstallHeading := "\n\n### \U{1F4E6} Installation\n\n```bash\n"
  const Footer := "\n```\n\nSee [CHANGELOG.md](https://github.com/aashishvanand/airport-data-js/blob/main/CHANGELOG.md) for full version history.\n"

  /** Where the pieces of a five-part concatenation sit. */
  lemma FivePieces<T>(a: seq<T>, b: seq<T>, c: seq<T>, d: seq<T>, e: seq<T>)
    ensures a <= a + b + c + d + e
    ensures (a + b + c + d + e)[|a|..|a| + |b|] == b
    ensures (a + b + c + d + e)[|a| + |b| + |c|..|a| + |b| + |c| + |d|] == d
  {
    var r := a + b + c + d + e;
    assert r == a + (b + (c + (d + e)));
    assert r == (a + b + c) + (d + e);
  }

  /** The release-notes template. */
  function ReleaseNotes(version: string, content: string): (r: string)
    ensures NotesTitle + version <= r
    ensures Contains(r, content)
    ensures Contains(r, InstallPrefix + version)
  {
    var head, install := NotesTitle + version + "\n\n", InstallPrefix + version;
    FivePieces(head, content, InstallHeading, install, Footer);
    assert OccursAt(head + content + InstallHeading + install + Footer, content, |head|);
    assert OccursAt(head + content + InstallHeading + install + Footer, install, |head| + |content| + |InstallHeading|);
    head + content + InstallHeading + install + Footer
  }

  /** The version test of the script picks the version `ChosenVersion` describes. */
  lemma VersionChoice(s: string, packageVersion: string)
    requires Headers(s) != []
    ensures var ms, u := Headers(s), FirstUnreleased(s, 0);
      && (u.Some? && ms[0] == u.value ==> ChosenVersion(s, packageVersion) == packageVersion)
      && (!(u.Some? && ms[0] == u.value) ==> BracketVersion(MatchText(s, ms[0]), 0) == Some(ChosenVersion(s, packageVersion)))
  {
    var ms := Headers(s);
    HeadersAreAllHeaderPositions(s);
    assert IsHeaderAt(s, ms[0]);
    UnreleasedTestIsFirstHeaderKind(s);
    var t := s[ms[0]..];
    var header := ParseHeader(t).value;
    if header.kind.Release? {
      ReleaseHeaderVersion(t, header.kind.version, header.length);
      assert MatchText(s, ms[0]) == t[..header.length];
    }
  }

  /**
    * The script's version choice: the package version for an Unreleased
    * first section, otherwise the version in the first header's brackets.
    */
  method ChooseVersion(changelog: string, packageVersion: string, unreleasedMatch: Option<nat>, matches: seq<nat>)
    returns (isUnreleased: bool, versionNumber: string)
    requires matches == Headers(changelog) != [] && unreleasedMatch == FirstUnreleased(changelog, 0)
    ensures isUnreleased <==> FirstHeaderKind(changelog) == Unreleased
    ensures versionNumber == ChosenVersion(changelog, packageVersion)
  {
    VersionChoice(changelog, packageVersion);
    UnreleasedTestIsFirstHeaderKind(changelog);
    isUnreleased := unreleasedMatch.Some? && matches[0] == unreleasedMatch.value;
    if isUnreleased {
      versionNumber := packageVersion;
    } else {
      var versionMatch := BracketVersion(MatchText(changelog, matches[0]), 0);
      versionNumber := if versionMatch.Some? then versionMatch.value else packageVersion;
    }
  }

  /**
    * The script's section extraction: slice from the first header to the
    * next, trim, drop the header line, trim, and for an Unreleased section
    * drop the lines before the first `####` line.
    */
  method ExtractSection(changelog: string, matches: seq<nat>, isUnreleased: bool) returns (sectionContent: string)
    requires |matches| > 0
    requires matches[0] <= (if |matches| > 1 then matches[1] else |changelog|) <= |changelog|
    ensures sectionContent == SectionOf(changelog, matches[0], if |matches| > 1 then matches[1] else |changelog|, isUnreleased)
  {
    var sectionToExtract := 0;
    var sectionIndex := matches[sectionToExtract];
    var nextSectionIndex := if sectionToExtract + 1 < |matches| then matches[sectionToExtract + 1] else |changelog|;
    sectionContent := Trim(changelog[sectionIndex..nextSectionIndex]);
    DropFirstLine(sectionContent);
    sectionContent := Trim(Join(Split(sectionContent)[1..]));

    if isUnreleased {
      var lines := Split(sectionContent);
      var contentStart := FindIndex(lines);
      if contentStart > 0 {
        sectionContent := Join(lines[contentStart..]);
      }
    }
  }

  /**
    * The script: fails with exit code 1 when the changelog has no header,
    * otherwise prints the release notes for the chosen version and section.
    */
  method ExtractLatestChangelog(changelog: string, packageVersion: string) returns (output: seq<Line>, exitCode: int)
    ensures exitCode == 0 || exitCode == 1
    ensures exitCode == 1 <==> forall p :: 0 <= p < |changelog| ==> !IsHeaderAt(changelog, p)
    ensures exitCode == 1 ==> output == [Err(NoVersionMessage)]
    ensures exitCode == 0 ==> Headers(changelog) != []
    ensures exitCode == 0 ==>
      output == [Out(ReleaseNotes(ChosenVersion(changelog, packageVersion), SectionText(changelog)))]
  {
    var unreleasedMatch := FirstUnreleased(changelog, 0);
    var matches := MatchAll(changelog, 0);
    NoHeadersIff(changelog);
    if |matches| == 0 {
      output, exitCode := [Err(NoVersionMessage)], 1;
      return;
    }
    var isUnreleased, versionNumber := ChooseVersion(changelog, packageVersion, unreleasedMatch, matches);
    var sectionContent := ExtractSection(changelog, matches, isUnreleased);
    output, exitCode := [Out(ReleaseNotes(versionNumber, sectionContent))], 0;
  }
}
