/** String and file-name operations that the server uses on plain file
    names: prefix and suffix tests, POSIX os.path.splitext, str.replace
    with an empty replacement, str.strip, and the three output names
    derived from a base name. */
module Paths {

  predicate StartsWith(s: string, prefix: string) {
    |prefix| <= |s| && s[..|prefix|] == prefix
  }

  predicate EndsWith(s: string, suffix: string) {
    |suffix| <= |s| && s[|s| - |suffix|..] == suffix
  }

  /** s ends with base + suffix, so it ends with suffix. */
  lemma EndsWithAppended(base: string, suffix: string)
    ensures EndsWith(base + suffix, suffix)
  {
    assert (base + suffix)[|base|..] == suffix;
  }

  /** One mismatched character at offset k of the suffix rules it out. */
  lemma NotEndsWith(s: string, suffix: string, k: nat)
    requires k < |suffix|
    requires |suffix| <= |s| ==> s[|s| - |suffix| + k] != suffix[k]
    ensures !EndsWith(s, suffix)
  {
    if |suffix| <= |s| {
      assert s[|s| - |suffix|..][k] == s[|s| - |suffix| + k];
    }
  }

  /** str.rfind for one character: the last index holding c, or -1. */
  function LastIndexOf(s: string, c: char): (r: int)
    ensures -1 <= r < |s|
  {
    if |s| == 0 then -1
    else if s[|s| - 1] == c then |s| - 1
    else LastIndexOf(s[..|s| - 1], c)
  }

  /** The index found holds c, and no later index does. */
  lemma {:induction false} LastIndexOfSpec(s: string, c: char)
    ensures LastIndexOf(s, c) >= 0 ==> s[LastIndexOf(s, c)] == c
    ensures forall i :: LastIndexOf(s, c) < i < |s| ==> s[i] != c
    decreases |s|
  {
    if |s| > 0 && s[|s| - 1] != c {
      var t := s[..|s| - 1];
      LastIndexOfSpec(t, c);
      assert LastIndexOf(s, c) == LastIndexOf(t, c);
      forall i | LastIndexOf(s, c) < i < |s| ensures s[i] != c {
        if i < |t| {
          assert t[i] == s[i];
        }
      }
    }
  }

  predicate AllDots(s: string) {
    forall i :: 0 <= i < |s| ==> s[i] == '.'
  }

  /** Where os.path.splitext (POSIX) starts the extension: at the last '.'
      that comes after the last '/', unless only dots precede it within the
      final path component (so ".bashrc" and "..." have no extension); |p|
      when there is no extension. */
  function ExtStart(p: string): (k: nat)
    ensures k <= |p|
  {
    var sep := LastIndexOf(p, '/');
    var dot := LastIndexOf(p, '.');
    if sep < dot && !AllDots(p[sep + 1..dot]) then dot else |p|
  }

  /** The extension starts at a '.', and neither '.' nor '/' follows it. */
  lemma ExtStartSpec(p: string)
    ensures ExtStart(p) < |p| ==> p[ExtStart(p)] == '.'
    ensures forall i :: ExtStart(p) < i < |p| ==> p[i] != '.' && p[i] != '/'
  {
    var sep := LastIndexOf(p, '/');
    var dot := LastIndexOf(p, '.');
    LastIndexOfSpec(p, '.');
    LastIndexOfSpec(p, '/');
    if ExtStart(p) < |p| {
      assert ExtStart(p) == dot && sep < dot;
    }
  }

  /** os.path.splitext: (root, ext) with root + ext == p. */
  function SplitExt(p: string): (r: (string, string))
    ensures r.0 + r.1 == p
  {
    var k := ExtStart(p);
    (p[..k], p[k..])
  }

  /** The extension splitext finds is empty, or one '.' followed by
      characters that are neither '.' nor '/'. */
  lemma SplitExtShape(p: string)
    ensures SplitExt(p).1 != [] ==> SplitExt(p).1[0] == '.'
    ensures forall i :: 1 <= i < |SplitExt(p).1| ==> SplitExt(p).1[i] != '.'
    ensures forall i :: 0 <= i < |SplitExt(p).1| ==> SplitExt(p).1[i] != '/'
  {
    ExtStartSpec(p);
    var k := ExtStart(p);
    var e := SplitExt(p).1;
    assert e == p[k..];
    assert forall i :: 0 <= i < |e| ==> e[i] == p[k + i];
  }

  /** os.path.splitext(name)[0] */
  function BaseName(name: string): string {
    SplitExt(name).0
  }

  /** The last c in a + b is in b when b has one, and otherwise in a. */
  lemma {:induction false} LastIndexOfAppend(a: string, b: string, c: char)
    ensures LastIndexOf(a + b, c) == if LastIndexOf(b, c) >= 0 then |a| + LastIndexOf(b, c) else LastIndexOf(a, c)
    decreases |b|
  {
    if b == [] {
      assert a + b == a;
    } else {
      var n := |b| - 1;
      assert (a + b)[..|a + b| - 1] == a + b[..n];
      assert (a + b)[|a + b| - 1] == b[n];
      if b[n] != c {
        LastIndexOfAppend(a, b[..n], c);
      }
    }
  }

  lemma {:induction false} LastIndexOfAbsent(s: string, c: char)
    requires c !in s
    ensures LastIndexOf(s, c) == -1
    decreases |s|
  {
    if s != [] {
      assert s[|s| - 1] in s;
      var t := s[..|s| - 1];
      assert forall x :: x in t ==> x in s;
      LastIndexOfAbsent(t, c);
    }
  }

  /** Appending an extension to a plain name and splitting again gives the
      name back, unless the name is made of dots only, in which case the
      whole string counts as having no extension. */
  lemma SplitExtAppended(base: string, ext: string)
    requires '/' !in base
    requires |ext| >= 1 && ext[0] == '.'
    requires forall i :: 1 <= i < |ext| ==> ext[i] != '.' && ext[i] != '/'
    ensures SplitExt(base + ext) == if AllDots(base) then (base + ext, []) else (base, ext)
  {
    var p := base + ext;
    var rest := ext[1..];
    assert ext == [ext[0]] + rest;
    assert '.' !in rest && '/' !in rest by {
      forall k | 0 <= k < |rest| ensures rest[k] != '.' && rest[k] != '/' {
        assert rest[k] == ext[k + 1];
      }
    }
    LastIndexOfAbsent(rest, '.');
    LastIndexOfAppend([ext[0]], rest, '.');
    assert LastIndexOf(ext, '.') == 0;
    LastIndexOfAppend(base, ext, '.');
    assert '/' !in ext;
    LastIndexOfAbsent(ext, '/');
    LastIndexOfAbsent(base, '/');
    LastIndexOfAppend(base, ext, '/');
    assert LastIndexOf(p, '.') == |base| && LastIndexOf(p, '/') == -1;
    assert p[0..|base|] == base;
    if AllDots(base) {
      assert ExtStart(p) == |p|;
      assert p[..|p|] == p;
    } else {
      assert ExtStart(p) == |base|;
      assert p[..|base|] == base && p[|base|..] == ext;
    }
  }

  // ---------------------------------------------------------------------
  // str.replace(pattern, '')

  ghost predicate OccursAt(s: string, p: string, i: int) {
    0 <= i <= |s| - |p| && s[i..i + |p|] == p
  }

  ghost predicate Occurs(s: string, p: string) {
    exists i :: OccursAt(s, p, i)
  }

  /** No proper prefix of p is also a suffix of p, so two occurrences of p
      can never overlap. */
  ghost predicate NoBorder(p: string) {
    forall k :: 0 < k < |p| ==> p[..k] != p[|p| - k..]
  }

  /** s.replace(pat, ''): scans left to right and drops every
      non-overlapping occurrence of pat. */
  function RemoveAll(s: string, pat: string): (r: string)
    requires pat != []
    ensures |r| <= |s|
    decreases |s|
  {
    if |s| < |pat| then s
    else if s[..|pat|] == pat then RemoveAll(s[|pat|..], pat)
    else [s[0]] + RemoveAll(s[1..], pat)
  }

  /** A pattern whose first character never recurs has no border. */
  lemma HeadOnceNoBorder(p: string)
    requires p != []
    requires forall i :: 1 <= i < |p| ==> p[i] != p[0]
    ensures NoBorder(p)
  {
    forall k | 0 < k < |p| ensures p[..k] != p[|p| - k..] {
      assert p[..k][0] == p[0];
      assert p[|p| - k..][0] == p[|p| - k];
    }
  }

  /** Removing a border-free pattern from b + pat, where b does not hold the
      pattern, gives back b. */
  lemma {:induction false} RemoveAllSuffix(b: string, pat: string)
    requires pat != [] && NoBorder(pat) && !Occurs(b, pat)
    ensures RemoveAll(b + pat, pat) == b
    decreases |b|
  {
    var s := b + pat;
    if b == [] {
      assert s[..|pat|] == pat;
      assert s[|pat|..] == [];
    } else {
      if |b| >= |pat| {
        assert s[..|pat|] == b[0..0 + |pat|];
        assert !OccursAt(b, pat, 0);
      } else {
        var k := |pat| - |b|;
        assert s[..|pat|][|b|..] == pat[..k];
        assert pat[..k] != pat[|pat| - k..];
      }
      forall i | 0 <= i <= |b[1..]| - |pat| ensures !OccursAt(b[1..], pat, i) {
        assert b[1..][i..i + |pat|] == b[i + 1..i + 1 + |pat|];
        assert !OccursAt(b, pat, i + 1);
      }
      RemoveAllSuffix(b[1..], pat);
      assert s[1..] == b[1..] + pat;
      assert [b[0]] + b[1..] == b;
    }
  }

  // ---------------------------------------------------------------------
  // str.strip()

  /** The characters for which Python's str.isspace is true: the ASCII
      whitespace and separator controls, NEL, NO-BREAK SPACE and the
      Unicode space and line/paragraph separators. */
  const Whitespace: string :=
    " \t\n\U{0b}\U{0c}\r\U{1c}\U{1d}\U{1e}\U{1f}\U{85}\U{a0}\U{1680}" +
    "\U{2000}\U{2001}\U{2002}\U{2003}\U{2004}\U{2005}\U{2006}\U{2007}\U{2008}\U{2009}\U{200a}" +
    "\U{2028}\U{2029}\U{202f}\U{205f}\U{3000}"

  /** c occurs in w. Written as a recursion over w, so that a proof about
      whitespace in general never expands the whole table. */
  predicate OneOf(c: char, w: string)
    decreases |w|
  {
    w != [] && (w[0] == c || OneOf(c, w[1..]))
  }

  /** Python's str.isspace for one character. */
  predicate IsSpace(c: char) {
    OneOf(c, Whitespace)
  }

  /** Drops the leading whitespace. */
  function TrimStart(s: string): string {
    if s != [] && IsSpace(s[0]) then TrimStart(s[1..]) else s
  }

  /** What TrimStart keeps is a suffix of s that is empty or starts with a
      non-space, and what it drops is whitespace. */
  lemma {:induction false} TrimStartSpec(s: string)
    ensures |TrimStart(s)| <= |s| && TrimStart(s) == s[|s| - |TrimStart(s)|..]
    ensures forall i :: 0 <= i < |s| - |TrimStart(s)| ==> IsSpace(s[i])
    ensures TrimStart(s) == [] || !IsSpace(TrimStart(s)[0])
    decreases |s|
  {
    if s != [] && IsSpace(s[0]) {
      var t := s[1..];
      TrimStartSpec(t);
      assert TrimStart(s) == TrimStart(t);
      var k := |t| - |TrimStart(t)|;
      assert t[k..] == s[k + 1..];
      forall i | 0 < i < |s| - |TrimStart(s)| ensures IsSpace(s[i]) {
        assert s[i] == t[i - 1];
      }
    }
  }

  /** Drops the trailing whitespace. */
  function TrimEnd(s: string): string {
    if s != [] && IsSpace(s[|s| - 1]) then TrimEnd(s[..|s| - 1]) else s
  }

  /** What TrimEnd keeps is a prefix of s that is empty or ends with a
      non-space, and what it drops is whitespace. */
  lemma {:induction false} TrimEndSpec(s: string)
    ensures |TrimEnd(s)| <= |s| && TrimEnd(s) == s[..|TrimEnd(s)|]
    ensures forall i :: |TrimEnd(s)| <= i < |s| ==> IsSpace(s[i])
    ensures TrimEnd(s) == [] || !IsSpace(TrimEnd(s)[|TrimEnd(s)| - 1])
    decreases |s|
  {
    if s != [] && IsSpace(s[|s| - 1]) {
      var t := s[..|s| - 1];
      TrimEndSpec(t);
      assert TrimEnd(s) == TrimEnd(t);
      assert t[..|TrimEnd(t)|] == s[..|TrimEnd(t)|];
      forall i | |TrimEnd(s)| <= i < |t| ensures IsSpace(s[i]) {
        assert s[i] == t[i];
      }
    }
  }

  /** str.strip() */
  function Strip(s: string): string {
    TrimEnd(TrimStart(s))
  }

  /** r occurs in s at index i, with only whitespace before and after it. */
  ghost predicate Framed(s: string, r: string, i: int) {
    0 <= i <= |s| - |r| && r == s[i..i + |r|] &&
    (forall j :: 0 <= j < i ==> IsSpace(s[j])) &&
    (forall j :: i + |r| <= j < |s| ==> IsSpace(s[j]))
  }

  /** The stripped text is an infix of s, with only whitespace around it
      in s, that neither starts nor ends with whitespace. */
  lemma StripSpec(s: string)
    ensures exists i :: Framed(s, Strip(s), i)
    ensures Strip(s) == [] || (!IsSpace(Strip(s)[0]) && !IsSpace(Strip(s)[|Strip(s)| - 1]))
  {
    var t := TrimStart(s);
    var r := TrimEnd(t);
    assert Strip(s) == r;
    TrimStartSpec(s);
    TrimEndSpec(t);
    InfixBetweenSpaces(s, t, r, |s| - |t|);
  }

  /** r is t without a whitespace suffix, and t is s without a whitespace
      prefix of length i. */
  lemma InfixBetweenSpaces(s: string, t: string, r: string, i: nat)
    requires i <= |s| && t == s[i..] && |r| <= |t| && r == t[..|r|]
    requires forall j :: 0 <= j < i ==> IsSpace(s[j])
    requires forall j :: |r| <= j < |t| ==> IsSpace(t[j])
    requires t == [] || !IsSpace(t[0])
    ensures Framed(s, r, i)
    ensures r == [] || !IsSpace(r[0])
  {
    forall j | i + |r| <= j < |s| ensures IsSpace(s[j]) {
      assert s[j] == t[j - i];
    }
    if r != [] {
      assert r[0] == t[0];
    }
  }

  // ---------------------------------------------------------------------
  // Output names derived from a base name

  const StatusSuffix: string := "_status.json"
  const MetadataSuffix: string := "_metadata.json"
  const TranscriptExt: string := ".txt"

  function StatusName(base: string): string { base + StatusSuffix }
  function MetadataName(base: string): string { base + MetadataSuffix }
  function TranscriptName(base: string): string { base + TranscriptExt }

  /** Each derived name determines its base, and no transcript, metadata or
      status name of one base is a name of another kind for any base. */
  lemma DerivedNamesDisjoint(b1: string, b2: string)
    ensures StatusName(b1) == StatusName(b2) ==> b1 == b2
    ensures MetadataName(b1) == MetadataName(b2) ==> b1 == b2
    ensures TranscriptName(b1) == TranscriptName(b2) ==> b1 == b2
    ensures StatusName(b1) != MetadataName(b2)
    ensures StatusName(b1) != TranscriptName(b2)
    ensures MetadataName(b1) != TranscriptName(b2)
  {
    var s, m, t := StatusName(b1), MetadataName(b2), TranscriptName(b2);
    assert s[|s| - 1] == 'n' && t[|t| - 1] == 't' && m[|m| - 1] == 'n';
    assert s[|s| - 6] == 's' && m[|m| - 6] == 'a';
    if StatusName(b1) == StatusName(b2) {
      assert b1 == StatusName(b1)[..|b1|] && b2 == StatusName(b2)[..|b2|];
    }
    if MetadataName(b1) == MetadataName(b2) {
      assert b1 == MetadataName(b1)[..|b1|] && b2 == MetadataName(b2)[..|b2|];
    }
    if TranscriptName(b1) == TranscriptName(b2) {
      assert b1 == TranscriptName(b1)[..|b1|] && b2 == TranscriptName(b2)[..|b2|];
    }
  }
}
