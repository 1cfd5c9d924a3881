/** The names of stored objects (internal/blob/blob.go): replay frames under their session,
    uploaded maps under their project and release. */
module Blob {
  import opened Common
  import opened Text

  function DigitChar(d: int): char
    requires 0 <= d < 10
  {
    '0' + d as char
  }

  /** %d of a number that is not negative. */
  function Decimal(n: nat): (s: string)
    ensures s != "" && forall i :: 0 <= i < |s| ==> '0' <= s[i] <= '9'
  {
    if n < 10 then [DigitChar(n)] else Decimal(n / 10) + [DigitChar(n % 10)]
  }

  /** %d. */
  /** The digits of n, none of them a zero in front. */
  lemma {:induction false} DecimalIsRead(n: nat)
    ensures AllDigits(Decimal(n)) && Value(Decimal(n)) == n && (n > 0 ==> Decimal(n)[0] != '0')
  {
    if n >= 10 {
      DecimalIsRead(n / 10);
      assert Decimal(n)[..|Decimal(n)| - 1] == Decimal(n / 10);
    } else {
      assert [DigitChar(n)][..0] == "";
    }
  }

  function FormatInt(n: int): string {
    if n < 0 then "-" + Decimal(-n) else Decimal(n)
  }

  lemma {:induction false} DecimalIsInjective(m: nat, n: nat)
    requires Decimal(m) == Decimal(n)
    ensures m == n
  {
    var s := Decimal(m);
    if m >= 10 && n >= 10 {
      assert s[..|s| - 1] == Decimal(m / 10) && s[..|s| - 1] == Decimal(n / 10);
      DecimalIsInjective(m / 10, n / 10);
      assert s[|s| - 1] == DigitChar(m % 10) == DigitChar(n % 10);
    } else {
      assert m >= 10 ==> |s| >= 2;
      assert n >= 10 ==> |s| >= 2;
    }
  }

  lemma FormatIntSign(n: int)
    ensures FormatInt(n) != "" && (FormatInt(n)[0] == '-' <==> n < 0)
  {
  }

  lemma FormatIntIsInjective(m: int, n: int)
    requires FormatInt(m) == FormatInt(n)
    ensures m == n
  {
    FormatIntSign(m);
    FormatIntSign(n);
    if m < 0 && n < 0 {
      assert FormatInt(m)[1..] == Decimal(-m) && FormatInt(n)[1..] == Decimal(-n);
      DecimalIsInjective(-m, -n);
    } else if m >= 0 && n >= 0 {
      DecimalIsInjective(m, n);
    }
  }

  // ----- Frames -----

  /** A number with leading zeros up to the given width, longer if it needs more. */
  function Padded(n: nat, width: nat): string {
    if n < 10 && width <= 1 then [DigitChar(n)]
    else Padded(n / 10, if width > 0 then width - 1 else 0) + [DigitChar(n % 10)]
  }

  /** The same digits, with zeros in front up to the width. */
  lemma {:induction false} PaddedIsRead(n: nat, width: nat)
    ensures var s := Padded(n, width);
      AllDigits(s) && Value(s) == n && |s| >= 1 && |s| >= width && (|s| > width && n > 0 ==> s[0] != '0')
    ensures n < 10 ==> |Padded(n, width)| == if width > 0 then width else 1
    decreases n, width
  {
    var w := if width > 0 then width - 1 else 0;
    if n < 10 && width <= 1 {
      assert [DigitChar(n)][..0] == "";
    } else {
      PaddedIsRead(n / 10, w);
      assert Padded(n, width)[..|Padded(n, width)| - 1] == Padded(n / 10, w);
    }
  }

  function Pad6(seqNo: nat): string {
    Padded(seqNo, 6)
  }

  function SessionPrefix(session: string): string {
    session + "/"
  }

  function FrameKey(session: string, seqNo: nat): string {
    SessionPrefix(session) + Pad6(seqNo) + ".png"
  }

  predicate SlashFree(s: string) {
    '/' !in s
  }

  /** The part of a key before its first slash. */
  function Head(key: string): string {
    var i := IndexByte(key, '/');
    if i < 0 then key else key[..i]
  }

  lemma HeadOfPrefixed(s: string, rest: string)
    requires SlashFree(s)
    ensures Head(SessionPrefix(s) + rest) == s && '/' in SessionPrefix(s) + rest
  {
    IndexAfterFreePart(s, '/', rest);
    assert SessionPrefix(s) + rest == s + ['/'] + rest;
    assert (s + ['/'] + rest)[..|s|] == s;
  }

  /** For slash-free sessions a prefix selects exactly the keys of that session. */
  lemma PrefixIsHead(s: string, key: string)
    requires SlashFree(s)
    ensures SessionPrefix(s) <= key <==> Head(key) == s && '/' in key
  {
    if SessionPrefix(s) <= key {
      assert key == SessionPrefix(s) + key[|s| + 1..];
      HeadOfPrefixed(s, key[|s| + 1..]);
    }
    if Head(key) == s && '/' in key {
      assert key[..|s| + 1] == SessionPrefix(s);
    }
  }

  lemma {:induction false} PaddedDigits(n: nat, width: nat)
    ensures |Padded(n, width)| >= 1 && |Padded(n, width)| >= width
    ensures forall i :: 0 <= i < |Padded(n, width)| ==> '0' <= Padded(n, width)[i] <= '9'
    decreases n, width
  {
    if !(n < 10 && width <= 1) {
      PaddedDigits(n / 10, if width > 0 then width - 1 else 0);
    }
  }

  lemma {:induction false} PaddedIsInjective(m: nat, n: nat, width: nat)
    requires Padded(m, width) == Padded(n, width)
    ensures m == n
    decreases m, width
  {
    var s := Padded(m, width);
    var w := if width > 0 then width - 1 else 0;
    if !(m < 10 && width <= 1) && !(n < 10 && width <= 1) {
      assert s[..|s| - 1] == Padded(m / 10, w) && s[..|s| - 1] == Padded(n / 10, w);
      PaddedIsInjective(m / 10, n / 10, w);
      assert s[|s| - 1] == DigitChar(m % 10) == DigitChar(n % 10);
    } else if m < 10 && width <= 1 && !(n < 10) {
      PaddedDigits(n / 10, w);
    } else if n < 10 && width <= 1 && !(m < 10) {
      PaddedDigits(m / 10, w);
    }
  }

  /** What follows a session's prefix in a frame key. */
  function FrameName(seqNo: nat): (r: string)
    ensures SlashFree(r)
  {
    PaddedDigits(seqNo, 6);
    Pad6(seqNo) + ".png"
  }

  lemma FrameKeySplits(s: string, n: nat)
    ensures FrameKey(s, n) == SessionPrefix(s) + FrameName(n)
  {
    assert SessionPrefix(s) + Pad6(n) + ".png" == SessionPrefix(s) + (Pad6(n) + ".png");
  }

  /** Two frames share an object only if they are the same frame, whatever the session ids. */
  lemma FrameKeyIsInjective(s: string, m: nat, t: string, n: nat)
    requires FrameKey(s, m) == FrameKey(t, n)
    ensures s == t && m == n
  {
    hide Padded, FrameKey, FrameName;
    FrameKeySplits(s, m);
    FrameKeySplits(t, n);
    LastSlash(s, FrameName(m), t, FrameName(n));
    FrameNameIsInjective(m, n);
  }

  lemma FrameNameIsInjective(m: nat, n: nat)
    requires FrameName(m) == FrameName(n)
    ensures m == n
  {
    hide Padded;
    var rest := FrameName(m);
    assert rest[..|rest| - 4] == Pad6(m) == Pad6(n);
    PaddedIsInjective(m, n, 6);
  }

  /** A text is cut at its last slash in one way. */
  lemma LastSlash(s: string, a: string, t: string, b: string)
    requires SlashFree(a) && SlashFree(b) && SessionPrefix(s) + a == SessionPrefix(t) + b
    ensures s == t && a == b
  {
    SlashBetween(s, a);
    SlashBetween(t, b);
    hide SessionPrefix;
  }

  lemma SlashBetween(s: string, a: string)
    requires SlashFree(a)
    ensures var k := SessionPrefix(s) + a;
      && |s| < |k| && k[|s|] == '/' && (forall i :: |s| < i < |k| ==> k[i] != '/')
      && k[..|s|] == s && k[|s| + 1..] == a
  {
    var k := SessionPrefix(s) + a;
    assert forall i :: |s| < i < |k| ==> k[i] == a[i - |s| - 1];
  }

  /** The frames of a session lie under the prefix of d. */
  predicate Above(d: string, session: string) {
    SessionPrefix(d) <= SessionPrefix(session)
  }

  /** A prefix selects a frame by its session alone, for all session ids. */
  lemma PrefixSelectsFrames(d: string, s: string, n: nat)
    ensures SessionPrefix(d) <= FrameKey(s, n) <==> Above(d, s)
  {
    hide Padded, FrameName;
    FrameKeySplits(s, n);
    var p, k := SessionPrefix(s), FrameKey(s, n);
    if SessionPrefix(d) <= k {
      assert forall i :: |s| < i < |k| ==> k[i] == FrameName(n)[i - |s| - 1];
      assert k[|d|] == '/';
      assert SessionPrefix(d) == k[..|d| + 1] && p == k[..|s| + 1];
    }
    if SessionPrefix(d) <= p {
      assert k[..|p|] == p;
    }
  }

  lemma OnlyItselfAbove(d: string, s: string)
    requires SlashFree(s)
    ensures Above(d, s) <==> d == s
  {
    var p := SessionPrefix(s);
    assert p[|s|] == '/' && forall i :: 0 <= i < |s| ==> p[i] == s[i];
    if Above(d, s) {
      assert p[|d|] == '/' && d == p[..|d|] && s == p[..|s|];
    }
  }

  lemma FrameKeyHead(s: string, n: nat)
    requires SlashFree(s)
    ensures Head(FrameKey(s, n)) == s && '/' in FrameKey(s, n)
  {
    assert FrameKey(s, n) == SessionPrefix(s) + (Pad6(n) + ".png");
    HeadOfPrefixed(s, Pad6(n) + ".png");
  }

  lemma {:induction false} LessSnoc(a: string, b: string, c: char, d: char)
    requires |a| == |b|
    ensures Less(a + [c], b + [d]) <==> Less(a, b) || (a == b && c < d)
  {
    if a != [] {
      LessSnoc(a[1..], b[1..], c, d);
      assert (a + [c])[1..] == a[1..] + [c] && (b + [d])[1..] == b[1..] + [d];
      assert a == [a[0]] + a[1..] && b == [b[0]] + b[1..];
    }
  }

  lemma {:induction false} PaddedSorts(m: nat, n: nat, width: nat, bound: nat)
    requires m < n < bound && width >= 1 && bound == Pow10(width)
    ensures |Padded(m, width)| == |Padded(n, width)| == width
    ensures Less(Padded(m, width), Padded(n, width))
    decreases width
  {
    if width == 1 {
      assert bound == 10 by { assert Pow10(0) == 1; }
    } else {
      PaddedWidth(m / 10, width - 1);
      PaddedWidth(n / 10, width - 1);
      LessSnoc(Padded(m / 10, width - 1), Padded(n / 10, width - 1), DigitChar(m % 10), DigitChar(n % 10));
      if m / 10 < n / 10 {
        PaddedSorts(m / 10, n / 10, width - 1, Pow10(width - 1));
      }
    }
  }

  lemma {:induction false} PaddedWidth(n: nat, width: nat)
    requires width >= 1 && n < Pow10(width)
    ensures |Padded(n, width)| == width
  {
    if width == 1 {
      assert Pow10(1) == 10 * Pow10(0) && Pow10(0) == 1;
    } else {
      PaddedWidth(n / 10, width - 1);
    }
  }

  /** A plain object listing is a frame list: within a session, keys sort as their numbers do, as
      long as these have six digits. */
  lemma FrameKeysSort(s: string, m: nat, n: nat)
    requires m < n < 1000000
    ensures Less(FrameKey(s, m), FrameKey(s, n))
  {
    assert Pow10(2) == 100 && Pow10(4) == 10000 && Pow10(6) == 1000000;
    PaddedSorts(m, n, 6, Pow10(6));
    LessBefore(Pad6(m), Pad6(n), ".png", ".png");
    LessAfter(SessionPrefix(s), Pad6(m) + ".png", Pad6(n) + ".png");
    assert FrameKey(s, m) == SessionPrefix(s) + (Pad6(m) + ".png");
    assert FrameKey(s, n) == SessionPrefix(s) + (Pad6(n) + ".png");
  }

  // ----- Artifacts -----

  predicate IsSafe(c: char) {
    || 'a' <= c <= 'z' || 'A' <= c <= 'Z' || '0' <= c <= '9'
    || c == '.' || c == '-' || c == '_' || c == '+'
  }

  /** One path segment that says what it can of a caller's name. */
  function SafeSegment(s: string): (r: string)
    ensures r != "" && SlashFree(r)
  {
    var mapped := seq(|s|, i requires 0 <= i < |s| => if IsSafe(s[i]) then s[i] else '_');
    if forall i :: 0 <= i < |mapped| ==> mapped[i] == '.' then "_" else mapped
  }

  function ReleasePrefix(project: int, release: string): string {
    "sourcemaps/" + FormatInt(project) + "/" + SafeSegment(release) + "/"
  }

  function ArtifactKey(project: int, release: string, filename: string): string {
    ReleasePrefix(project, release) + SafeSegment(filename)
  }

  /** Names made of safe characters, not all dots, are kept as they are. */
  /** Every character that is not safe becomes an underscore, and a name of dots alone, the empty one
      too, is a single underscore. */
  lemma SafeSegmentIsExact(s: string)
    ensures (forall i :: 0 <= i < |s| ==> s[i] == '.') ==> SafeSegment(s) == "_"
    ensures (exists i :: 0 <= i < |s| && s[i] != '.') ==>
      |SafeSegment(s)| == |s|
      && forall i :: 0 <= i < |s| ==> SafeSegment(s)[i] == if IsSafe(s[i]) then s[i] else '_'
  {
    var mapped := seq(|s|, i requires 0 <= i < |s| => if IsSafe(s[i]) then s[i] else '_');
    if exists i :: 0 <= i < |s| && s[i] != '.' {
      var i :| 0 <= i < |s| && s[i] != '.';
      assert mapped[i] != '.';
    }
  }

  lemma SafeSegmentKeeps(s: string)
    requires (forall i :: 0 <= i < |s| ==> IsSafe(s[i])) && exists i :: 0 <= i < |s| && s[i] != '.'
    ensures SafeSegment(s) == s
  {
    var mapped := seq(|s|, i requires 0 <= i < |s| => if IsSafe(s[i]) then s[i] else '_');
    assert mapped == s;
  }

  lemma SplitAtSlash(a: string, b: string, c: string, d: string)
    requires SlashFree(a) && SlashFree(c) && a + "/" + b == c + "/" + d
    ensures a == c && b == d
  {
    HeadOfPrefixed(a, b);
    HeadOfPrefixed(c, d);
    assert (a + "/" + b)[|a| + 1..] == b && (c + "/" + d)[|c| + 1..] == d;
  }

  lemma FormatIntIsSlashFree(n: int)
    ensures SlashFree(FormatInt(n))
  {
  }

  /** Two artifacts share an object exactly if project, safe release and safe filename agree. */
  lemma ArtifactKeyCollides(p: int, r: string, f: string, q: int, s: string, g: string)
    ensures ArtifactKey(p, r, f) == ArtifactKey(q, s, g) <==>
      p == q && SafeSegment(r) == SafeSegment(s) && SafeSegment(f) == SafeSegment(g)
  {
    hide SafeSegment, FormatInt;
    if ArtifactKey(p, r, f) == ArtifactKey(q, s, g) {
      var x, y := SafeSegment(r) + "/" + SafeSegment(f), SafeSegment(s) + "/" + SafeSegment(g);
      var k, l := ArtifactKey(p, r, f), ArtifactKey(q, s, g);
      assert k == "sourcemaps/" + (FormatInt(p) + "/" + x) && l == "sourcemaps/" + (FormatInt(q) + "/" + y);
      assert k[11..] == FormatInt(p) + "/" + x && l[11..] == FormatInt(q) + "/" + y;
      FormatIntIsSlashFree(p);
      FormatIntIsSlashFree(q);
      SplitAtSlash(FormatInt(p), x, FormatInt(q), y);
      FormatIntIsInjective(p, q);
      SplitAtSlash(SafeSegment(r), SafeSegment(f), SafeSegment(s), SafeSegment(g));
    }
  }

  /** An artifact lies under a release's prefix exactly if it is of that project and safe release. */
  lemma ReleasePrefixSelects(p: int, r: string, q: int, s: string, g: string)
    ensures ReleasePrefix(p, r) <= ArtifactKey(q, s, g) <==> p == q && SafeSegment(r) == SafeSegment(s)
  {
    hide SafeSegment, FormatInt;
    var k, l := ReleasePrefix(p, r), ArtifactKey(q, s, g);
    if k <= l {
      var rest := l[|k|..];
      var x, y := SafeSegment(r) + "/" + rest, SafeSegment(s) + "/" + SafeSegment(g);
      assert l == k + rest;
      assert l == "sourcemaps/" + (FormatInt(p) + "/" + x) && l == "sourcemaps/" + (FormatInt(q) + "/" + y);
      assert l[11..] == FormatInt(p) + "/" + x && l[11..] == FormatInt(q) + "/" + y;
      FormatIntIsSlashFree(p);
      FormatIntIsSlashFree(q);
      SplitAtSlash(FormatInt(p), x, FormatInt(q), y);
      FormatIntIsInjective(p, q);
      SplitAtSlash(SafeSegment(r), rest, SafeSegment(s), SafeSegment(g));
    }
  }

  /** One artifact's key begins another's, which deleting the first by prefix then takes along,
      exactly if they are of one project and safe release and the safe file name begins the other. */
  lemma ArtifactKeyPrefixes(p: int, r: string, f: string, q: int, s: string, g: string)
    ensures ArtifactKey(p, r, f) <= ArtifactKey(q, s, g) <==>
      p == q && SafeSegment(r) == SafeSegment(s) && SafeSegment(f) <= SafeSegment(g)
  {
    hide SafeSegment, ReleasePrefix;
    var prefix := ReleasePrefix(p, r);
    assert prefix <= ArtifactKey(p, r, f);
    ReleasePrefixSelects(p, r, q, s, g);
    if p == q && SafeSegment(r) == SafeSegment(s) {
      assert ReleasePrefix(q, s) == prefix by { SamePrefix(p, r, s); }
      PrefixBehind(prefix, SafeSegment(f), SafeSegment(g));
    }
  }

  lemma SamePrefix(p: int, r: string, s: string)
    requires SafeSegment(r) == SafeSegment(s)
    ensures ReleasePrefix(p, r) == ReleasePrefix(p, s)
  {
    hide SafeSegment, FormatInt;
  }

  lemma PrefixBehind(p: string, a: string, b: string)
    ensures p + a <= p + b <==> a <= b
  {
    if p + a <= p + b {
      assert a == (p + a)[|p|..] && b == (p + b)[|p|..];
      forall i | 0 <= i < |a| ensures a[i] == b[i] {
        assert (p + a)[|p| + i] == (p + b)[|p| + i];
      }
    }
  }

  /** A session whose prefix an artifact lies under: the session has to be named like one of the
      three directories above the artifact. */
  lemma SessionPrefixMeetsArtifact(session: string, p: int, r: string, f: string)
    ensures SessionPrefix(session) <= ArtifactKey(p, r, f) <==>
      || session == "sourcemaps"
      || session == "sourcemaps/" + FormatInt(p)
      || session == "sourcemaps/" + FormatInt(p) + "/" + SafeSegment(r)
  {
    hide SafeSegment, FormatInt;
    var a, b, c := FormatInt(p), SafeSegment(r), SafeSegment(f);
    FormatIntIsSlashFree(p);
    assert ArtifactKey(p, r, f) == "sourcemaps/" + a + "/" + b + "/" + c;
    ThreeDirectories(session, "sourcemaps", a, b, c);
  }

  lemma ThreeDirectories(session: string, top: string, a: string, b: string, c: string)
    requires SlashFree(top) && SlashFree(a) && SlashFree(b) && SlashFree(c)
    ensures SessionPrefix(session) <= top + "/" + a + "/" + b + "/" + c <==>
      session == top || session == top + "/" + a || session == top + "/" + a + "/" + b
  {
    var k := top + "/" + a + "/" + b + "/" + c;
    var i := |top|;
    var j := i + 1 + |a|;
    var l := j + 1 + |b|;
    assert k[..i] == top && k[..j] == top + "/" + a && k[..l] == top + "/" + a + "/" + b;
    assert k[i] == '/' && k[j] == '/' && k[l] == '/';
    forall n | 0 <= n < |k| && n != i && n != j && n != l ensures k[n] != '/' {
      assert k[n] ==
        if n < i then top[n] else if n < j then a[n - i - 1] else if n < l then b[n - j - 1] else c[n - l - 1];
    }
    forall n | 0 <= n < |k| && k[n] == '/' ensures SessionPrefix(k[..n]) <= k {
      assert SessionPrefix(k[..n]) == k[..n + 1];
    }
    if SessionPrefix(session) <= k {
      var n := |session|;
      assert k[n] == SessionPrefix(session)[n] == '/' && session == k[..n];
    }
  }

  /** No artifact lies under the prefix of a slash-free session other than "sourcemaps", and no
      frame of such a session among the artifacts. */
  lemma FramesAndArtifactsAreApart(session: string, n: nat, p: int, r: string, f: string)
    requires SlashFree(session) && session != "sourcemaps"
    ensures !(SessionPrefix(session) <= ArtifactKey(p, r, f)) && FrameKey(session, n) != ArtifactKey(p, r, f)
    ensures !("sourcemaps/" <= FrameKey(session, n))
  {
    hide SafeSegment, FormatInt;
    var rest := FormatInt(p) + "/" + SafeSegment(r) + "/" + SafeSegment(f);
    assert ArtifactKey(p, r, f) == SessionPrefix("sourcemaps") + rest;
    HeadOfPrefixed("sourcemaps", rest);
    PrefixIsHead(session, ArtifactKey(p, r, f));
    FrameKeyHead(session, n);
    PrefixIsHead("sourcemaps", FrameKey(session, n));
  }
}
