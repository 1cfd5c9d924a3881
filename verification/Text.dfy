/** The string operations of the Go standard library that the modelled code leans on.
    A string is a sequence of code points; every byte the code compares against is ASCII. */
module Text {

  /** unicode.IsSpace. */
  predicate IsSpace(c: char) {
    || '\t' <= c <= '\r' || c == ' ' || c == '\U{85}' || c == '\U{A0}' || c == '\U{1680}'
    || '\U{2000}' <= c <= '\U{200A}' || c == '\U{2028}' || c == '\U{2029}'
    || c == '\U{202F}' || c == '\U{205F}' || c == '\U{3000}'
  }

  function TrimLeft(s: string): string {
    if s != [] && IsSpace(s[0]) then TrimLeft(s[1..]) else s
  }

  function TrimRight(s: string): string {
    if s != [] && IsSpace(s[|s| - 1]) then TrimRight(s[..|s| - 1]) else s
  }

  /** strings.TrimSpace. */
  function TrimSpace(s: string): string {
    TrimRight(TrimLeft(s))
  }

  /** A string without blanks at either end. */
  predicate Tight(s: string) {
    s != [] ==> !IsSpace(s[0]) && !IsSpace(s[|s| - 1])
  }

  lemma {:induction false} TrimRightIsPrefix(s: string)
    ensures TrimRight(s) <= s
    ensures TrimRight(s) != [] ==> !IsSpace(TrimRight(s)[|TrimRight(s)| - 1])
    ensures s != [] && !IsSpace(s[0]) ==> TrimRight(s) != []
  {
    if s != [] && IsSpace(s[|s| - 1]) {
      TrimRightIsPrefix(s[..|s| - 1]);
    }
  }

  lemma {:induction false} TrimLeftStartsTight(s: string)
    ensures TrimLeft(s) != [] ==> !IsSpace(TrimLeft(s)[0])
  {
    if s != [] && IsSpace(s[0]) {
      TrimLeftStartsTight(s[1..]);
    }
  }

  lemma TrimSpaceIsTight(s: string)
    ensures Tight(TrimSpace(s))
  {
    TrimLeftStartsTight(s);
    TrimRightIsPrefix(TrimLeft(s));
  }

  lemma TrimSpaceKeepsTight(s: string)
    requires Tight(s)
    ensures TrimSpace(s) == s
  {
  }

  predicate Blank(s: string) {
    forall k :: 0 <= k < |s| ==> IsSpace(s[k])
  }

  lemma {:induction false} TrimLeftOfPadded(l: string, t: string)
    requires Blank(l) && t != "" && !IsSpace(t[0])
    ensures TrimLeft(l + t) == t
  {
    if l == "" {
      assert l + t == t;
    } else {
      assert (l + t)[1..] == l[1..] + t && (l + t)[0] == l[0];
      TrimLeftOfPadded(l[1..], t);
    }
  }

  lemma {:induction false} TrimRightOfPadded(t: string, r: string)
    requires Blank(r) && t != "" && !IsSpace(t[|t| - 1])
    ensures TrimRight(t + r) == t
  {
    if r == "" {
      assert t + r == t;
    } else {
      var n := |r| - 1;
      assert (t + r)[..|t + r| - 1] == t + r[..n] && (t + r)[|t + r| - 1] == r[n];
      TrimRightOfPadded(t, r[..n]);
    }
  }

  /** Blanks around a text that is not blank come off, and nothing else. */
  lemma TrimSpaceOfPadded(l: string, t: string, r: string)
    requires Blank(l) && Blank(r) && t != "" && Tight(t)
    ensures TrimSpace(l + t + r) == t
  {
    assert l + t + r == l + (t + r) && (t + r)[0] == t[0];
    TrimLeftOfPadded(l, t + r);
    TrimRightOfPadded(t, r);
  }

  /** strings.IndexByte. */
  function IndexByte(s: string, c: char): (i: int)
    ensures -1 <= i < |s|
    ensures i == -1 ==> c !in s
    ensures i >= 0 ==> s[i] == c && c !in s[..i]
  {
    if s == [] then -1
    else if s[0] == c then 0
    else
      var r := IndexByte(s[1..], c);
      if r < 0 then -1 else
        assert s[..r + 1] == [s[0]] + s[1..][..r];
        r + 1
  }

  predicate OccursAt(s: string, sub: string, k: int) {
    0 <= k && k + |sub| <= |s| && s[k..k + |sub|] == sub
  }

  lemma SliceOfTail(s: string, i: nat, j: nat)
    requires 1 <= i <= j <= |s|
    ensures s[1..][i - 1..j - 1] == s[i..j]
  {
  }

  lemma OccursFurther(s: string, sub: string)
    requires |s| > 0
    ensures forall k :: k >= 1 ==> (OccursAt(s, sub, k) <==> OccursAt(s[1..], sub, k - 1))
  {
    forall k | k >= 1
      ensures OccursAt(s, sub, k) <==> OccursAt(s[1..], sub, k - 1)
    {
      if k + |sub| <= |s| {
        SliceOfTail(s, k, k + |sub|);
      }
    }
  }

  /** strings.Index. */
  function Index(s: string, sub: string): (i: int)
    ensures i == -1 || OccursAt(s, sub, i)
    ensures forall k :: OccursAt(s, sub, k) ==> 0 <= i <= k
  {
    if |s| < |sub| then -1
    else if s[..|sub|] == sub then 0
    else
      var r := Index(s[1..], sub);
      OccursFurther(s, sub);
      if r < 0 then -1 else r + 1
  }

  /** strings.Split by a one-character separator. */
  function Split(s: string, sep: char): (parts: seq<string>)
    ensures |parts| >= 1
    decreases |s|
  {
    var i := IndexByte(s, sep);
    if i < 0 then [s] else [s[..i]] + Split(s[i + 1..], sep)
  }

  /** strings.Join with a one-character separator. */
  function Join(parts: seq<string>, sep: char): string
    requires |parts| >= 1
  {
    if |parts| == 1 then parts[0] else parts[0] + [sep] + Join(parts[1..], sep)
  }

  lemma JoinCons(p: string, parts: seq<string>, sep: char)
    requires |parts| >= 1
    ensures Join([p] + parts, sep) == p + [sep] + Join(parts, sep)
  {
    assert ([p] + parts)[1..] == parts;
  }

  lemma IndexAfterFreePart(p: string, sep: char, rest: string)
    requires sep !in p
    ensures IndexByte(p + [sep] + rest, sep) == |p|
  {
    var s := p + [sep] + rest;
    assert s[|p|] == sep;
    assert s[..|p|] == p;
  }

  lemma {:induction false} SplitUndoesJoin(parts: seq<string>, sep: char)
    requires |parts| >= 1
    requires forall p :: p in parts ==> sep !in p
    ensures Split(Join(parts, sep), sep) == parts
  {
    var p := parts[0];
    assert p in parts;
    if |parts| == 1 {
      assert IndexByte(p, sep) == -1;
      assert parts == [p];
    } else {
      var rest := Join(parts[1..], sep);
      IndexAfterFreePart(p, sep, rest);
      var s := Join(parts, sep);
      assert s == p + [sep] + rest;
      assert s[..|p|] == p && s[|p| + 1..] == rest;
      assert Split(s, sep) == [p] + Split(rest, sep);
      hide Split, Join, IndexByte;
      SplitUndoesJoin(parts[1..], sep);
    }
  }

  lemma {:induction false} JoinUndoesSplit(s: string, sep: char)
    ensures Join(Split(s, sep), sep) == s
    decreases |s|
  {
    hide IndexByte, Join;
    var i := IndexByte(s, sep);
    if i >= 0 {
      JoinUndoesSplit(s[i + 1..], sep);
      JoinCons(s[..i], Split(s[i + 1..], sep), sep);
      assert s == s[..i] + [sep] + s[i + 1..];
    } else {
      JoinOfOne(s, sep);
    }
  }

  lemma JoinOfOne(s: string, sep: char)
    ensures Join([s], sep) == s
  {
  }

  lemma {:induction false} SplitPartsAreFree(s: string, sep: char)
    ensures forall p :: p in Split(s, sep) ==> sep !in p
    decreases |s|
  {
    var i := IndexByte(s, sep);
    if i >= 0 {
      SplitPartsAreFree(s[i + 1..], sep);
    }
  }

  // ----- Digits -----

  predicate IsDigit(c: char) {
    '0' <= c <= '9'
  }

  predicate AllDigits(s: string) {
    forall i :: 0 <= i < |s| ==> IsDigit(s[i])
  }

  function Digit(c: char): int {
    if IsDigit(c) then c as int - '0' as int else 0
  }

  /** The number that decimal digits stand for. */
  function Value(s: string): (n: nat) {
    if s == "" then 0 else 10 * Value(s[..|s| - 1]) + Digit(s[|s| - 1])
  }

  /** Byte order on strings, which for UTF-8 is code point order. */
  predicate Less(a: string, b: string) {
    b != [] && (a == [] || a[0] < b[0] || (a[0] == b[0] && Less(a[1..], b[1..])))
  }

  lemma {:induction false} LessTotal(a: string, b: string)
    ensures a == b || Less(a, b) || Less(b, a)
    ensures !(Less(a, b) && Less(b, a))
    ensures !Less(a, a)
  {
    if a != [] && b != [] {
      LessTotal(a[1..], b[1..]);
      assert a == [a[0]] + a[1..] && b == [b[0]] + b[1..];
    }
    if a != [] {
      LessTotal(a[1..], a[1..]);
    }
  }

  lemma {:induction false} LessTransitive(a: string, b: string, c: string)
    requires Less(a, b) && Less(b, c)
    ensures Less(a, c)
  {
    if a != [] && a[0] == b[0] && b[0] == c[0] {
      LessTransitive(a[1..], b[1..], c[1..]);
    }
  }

  lemma {:induction false} LessAfter(p: string, a: string, b: string)
    ensures Less(p + a, p + b) <==> Less(a, b)
  {
    if p == "" {
      assert p + a == a && p + b == b;
    } else {
      assert (p + a)[1..] == p[1..] + a && (p + b)[1..] == p[1..] + b;
      LessAfter(p[1..], a, b);
    }
  }

  lemma {:induction false} LessBefore(a: string, b: string, c: string, d: string)
    requires |a| == |b| && Less(a, b)
    ensures Less(a + c, b + d)
  {
    assert (a + c)[1..] == a[1..] + c && (b + d)[1..] == b[1..] + d;
    if a[0] == b[0] {
      LessBefore(a[1..], b[1..], c, d);
    }
  }
}
