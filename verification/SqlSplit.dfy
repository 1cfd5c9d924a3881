/** Cutting a migration file into statements (internal/store/migrate.go). The reference is a
    lexer that reads one character at a time and remembers only the mode it is in; the source
    instead jumps over whole comments, literals and dollar-quoted bodies. */
module SqlSplit {
  import opened Text

  /** What the lexer is inside of. A dollar-quoted body remembers its tag and how many
      characters, opener included, it has read. */
  datatype Mode = Plain | Comment | Quoted | Dollar(tag: string, seen: nat)

  predicate TagChar(c: char) {
    c == '_' || 'a' <= c <= 'z' || 'A' <= c <= 'Z' || '0' <= c <= '9'
  }

  function TagFrom(s: string, i: nat): (tag: string)
    requires 1 <= i <= |s| && s[0] == '$'
    ensures tag != "" ==> |tag| > i && tag <= s
    decreases |s| - i
  {
    if i == |s| then ""
    else if s[i] == '$' then s[..i + 1]
    else if !TagChar(s[i]) then ""
    else TagFrom(s, i + 1)
  }

  /** The `$$` or `$tag$` that opens s, or "". */
  function TagOf(s: string): (tag: string)
    ensures tag != "" ==> |tag| >= 2 && tag <= s
  {
    if s == "" || s[0] != '$' then "" else TagFrom(s, 1)
  }

  method DollarTag(s: string) returns (tag: string)
    ensures tag == TagOf(s)
  {
    if |s| == 0 || s[0] != '$' {
      return "";
    }
    for i := 1 to |s|
      invariant TagFrom(s, 1) == TagFrom(s, i)
    {
      if s[i] == '$' {
        return s[..i + 1];
      }
      if !TagChar(s[i]) {
        return "";
      }
    }
    return "";
  }

  /** A dollar-quoted body begins inside the text read so far. */
  predicate Fits(k: nat, m: Mode) {
    m.Dollar? ==> m.seen <= k && 2 <= |m.tag|
  }

  /** The mode after reading s[k] in mode m. */
  function Next(s: string, k: nat, m: Mode): (n: Mode)
    requires k < |s| && Fits(k, m)
    ensures Fits(k + 1, n)
  {
    match m
    case Plain =>
      if s[k] == '-' && k + 1 < |s| && s[k + 1] == '-' then Comment
      else if s[k] == '\'' then Quoted
      else if TagOf(s[k..]) != "" then Dollar(TagOf(s[k..]), 1)
      else Plain
    case Comment => if s[k] == '\n' then Plain else Comment
    case Quoted => if s[k] == '\'' then Plain else Quoted
    case Dollar(tag, seen) =>
      if 2 * |tag| <= seen + 1 && s[k + 1 - |tag|..k + 1] == tag then Plain
      else Dollar(tag, seen + 1)
  }

  /** Reads s from position k in mode m up to the first semicolon met in mode Plain, or to the
      end: where it stopped, and in which mode. */
  function Scan(s: string, k: nat, m: Mode): (r: (nat, Mode))
    requires k <= |s| && Fits(k, m)
    ensures k <= r.0 <= |s| && Fits(r.0, r.1)
    ensures r.0 < |s| ==> s[r.0] == ';' && r.1.Plain?
    decreases |s| - k
  {
    if k == |s| || (m.Plain? && s[k] == ';') then (k, m)
    else Scan(s, k + 1, Next(s, k, m))
  }

  /** The position of the first semicolon outside comments and literals, or |s|. */
  function Cut(s: string): (e: nat)
    ensures e <= |s|
    ensures e < |s| ==> s[e] == ';'
  {
    Scan(s, 0, Plain).0
  }

  /** The text between top-level semicolons, untrimmed. */
  function Pieces(s: string): (ps: seq<string>)
    ensures |ps| >= 1
    decreases |s|
  {
    var e := Cut(s);
    if e == |s| then [s] else [s[..e]] + Pieces(s[e + 1..])
  }

  /** p has no top-level semicolon. */
  predicate Unbroken(p: string) {
    Cut(p) == |p|
  }

  /** p has no top-level semicolon and leaves no comment, literal or body open. */
  predicate Closed(p: string) {
    Scan(p, 0, Plain) == (|p|, Plain)
  }

  /** What a list of pieces must satisfy to be told apart again once joined. */
  predicate Separable(ps: seq<string>) {
    |ps| >= 1 && Unbroken(ps[|ps| - 1]) && forall i :: 0 <= i < |ps| - 1 ==> Closed(ps[i])
  }

  // ----- Joining and splitting -----

  /** A tag cannot reach across a semicolon. */
  lemma {:induction false} TagStopsAtSemicolon(p: string, rest: string, i: nat)
    requires 1 <= i <= |p| && p[0] == '$'
    ensures TagFrom(p + ";" + rest, i) == TagFrom(p, i)
    decreases |p| - i
  {
    var s := p + ";" + rest;
    if i == |p| {
      assert s[i] == ';';
    } else {
      assert s[i] == p[i] && s[..i + 1] == p[..i + 1];
      if p[i] != '$' && TagChar(p[i]) {
        TagStopsAtSemicolon(p, rest, i + 1);
      }
    }
  }

  /** Reading p is the same whether p ends there or a semicolon follows. */
  lemma NextBeforeSemicolon(p: string, rest: string, k: nat, m: Mode)
    requires k < |p| && Fits(k, m)
    ensures Next(p + ";" + rest, k, m) == Next(p, k, m)
  {
    var s := p + ";" + rest;
    assert s[k] == p[k];
    assert k + 1 < |p| ==> s[k + 1] == p[k + 1];
    assert s[k..] == p[k..] + ";" + rest;
    if m.Plain? && p[k] == '$' {
      TagStopsAtSemicolon(p[k..], rest, 1);
    }
    if m.Dollar? && 2 * |m.tag| <= m.seen + 1 {
      assert s[k + 1 - |m.tag|..k + 1] == p[k + 1 - |m.tag|..k + 1];
    }
  }

  lemma {:induction false} ScanBeforeSemicolon(p: string, rest: string, k: nat, m: Mode)
    requires k <= |p| && Fits(k, m)
    ensures var r, t := Scan(p, k, m), Scan(p + ";" + rest, k, m);
      if r.0 < |p| || r.1.Plain? then t == r else t.0 > |p|
    decreases |p| - k
  {
    var s := p + ";" + rest;
    if k < |p| {
      assert s[k] == p[k];
      if !(m.Plain? && p[k] == ';') {
        NextBeforeSemicolon(p, rest, k, m);
        ScanBeforeSemicolon(p, rest, k + 1, Next(p, k, m));
      }
    } else {
      assert s[k] == ';';
    }
  }

  lemma JoinOne(s: string)
    ensures Join([s], ';') == s
  {
  }

  lemma {:induction false} PiecesAt(s: string, e: nat)
    requires e == Cut(s)
    ensures Pieces(s) == if e == |s| then [s] else [s[..e]] + Pieces(s[e + 1..])
  {
    hide Cut;
  }

  /** Splitting loses nothing: the pieces joined by semicolons are the file. */
  lemma {:induction false} JoinUndoesSplit(s: string)
    ensures Join(Pieces(s), ';') == s
    decreases |s|
  {
    hide Cut, Join;
    var e := Cut(s);
    PiecesAt(s, e);
    if e < |s| {
      JoinUndoesSplit(s[e + 1..]);
      JoinCons(s[..e], Pieces(s[e + 1..]), ';');
      assert s == s[..e] + [';'] + s[e + 1..];
    } else {
      JoinOne(s);
    }
  }

  /** No cut falls inside a comment, a literal or a dollar-quoted body. */
  lemma {:induction false} PiecesAreSeparable(s: string)
    ensures Separable(Pieces(s))
    decreases |s|
  {
    var e := Cut(s);
    if e < |s| {
      var p, rest := s[..e], s[e + 1..];
      assert s == p + ";" + rest;
      ScanBeforeSemicolon(p, rest, 0, Plain);
      assert Closed(p) && Pieces(s) == [p] + Pieces(rest);
      hide Scan, Next, Pieces, Closed, Cut;
      PiecesAreSeparable(rest);
    }
  }

  lemma {:induction false} SplitRecoversPieces(ps: seq<string>)
    requires Separable(ps)
    ensures Pieces(Join(ps, ';')) == ps
  {
    hide Scan, Next;
    if |ps| == 1 {
      assert ps == [ps[0]];
    } else {
      var p, rest := ps[0], Join(ps[1..], ';');
      assert Closed(p);
      ScanBeforeSemicolon(p, rest, 0, Plain);
      var s := Join(ps, ';');
      assert s == p + ";" + rest;
      assert s[..|p|] == p && s[|p| + 1..] == rest;
      SplitRecoversPieces(ps[1..]);
      assert ps == [p] + ps[1..];
    }
  }

  /** The pieces of a file are the one separable list that joins back to it. */
  lemma SplitIsTheInverseOfJoin(s: string, ps: seq<string>)
    ensures Pieces(s) == ps <==> Separable(ps) && Join(ps, ';') == s
  {
    JoinUndoesSplit(s);
    PiecesAreSeparable(s);
    if Separable(ps) && Join(ps, ';') == s {
      SplitRecoversPieces(ps);
    }
  }

  // ----- Jumping over units -----

  lemma NextShift(t: string, d: nat, k: nat, m: Mode)
    requires d <= k < |t| && Fits(k - d, m)
    ensures Next(t, k, m) == Next(t[d..], k - d, m)
  {
    hide TagOf;
    var u := t[d..];
    assert t[k..] == u[k - d..];
    if m.Dollar? && 2 * |m.tag| <= m.seen + 1 {
      assert t[k + 1 - |m.tag|..k + 1] == u[k - d + 1 - |m.tag|..k - d + 1];
    }
  }

  /** What follows a position depends only on the mode there and the text since. */
  lemma {:induction false} ScanShift(t: string, d: nat, k: nat, m: Mode)
    requires d <= k <= |t| && Fits(k - d, m)
    ensures Scan(t, k, m).0 == d + Scan(t[d..], k - d, m).0
    decreases |t| - k
  {
    hide Next;
    if k < |t| && !(m.Plain? && t[k] == ';') {
      NextShift(t, d, k, m);
      ScanShift(t, d, k + 1, Next(t, k, m));
    }
  }

  /** b followed by text whose pieces are ps. */
  function Prepend(b: string, ps: seq<string>): seq<string>
    requires |ps| >= 1
  {
    [b + ps[0]] + ps[1..]
  }

  lemma PrependSlice(u: string, n: nat, e: nat)
    requires n <= e <= |u|
    ensures u[..n] + u[n..] == u
    ensures u[..e] == u[..n] + u[n..][..e - n]
    ensures e < |u| ==> u[e + 1..] == u[n..][e - n + 1..]
  {
  }

  /** Reading a prefix that leads from Plain back to Plain moves it whole into the piece. */
  lemma {:induction false} Jump(u: string, n: nat)
    requires n <= |u| && Cut(u) == Scan(u, n, Plain).0
    ensures Pieces(u) == Prepend(u[..n], Pieces(u[n..]))
  {
    hide Scan, Pieces;
    var rest := u[n..];
    ScanShift(u, n, n, Plain);
    assert Cut(u) == n + Cut(rest);
    hide Cut;
    PiecesAt(u, Cut(u));
    PiecesAt(rest, Cut(rest));
    PrependSlice(u, n, Cut(u));
  }

  lemma {:induction false} CommentRun(t: string, k: nat, j: nat)
    requires k <= j <= |t|
    requires forall q :: k <= q < j ==> t[q] != '\n'
    ensures Scan(t, k, Comment).0 == Scan(t, j, Comment).0
    decreases j - k
  {
    if k < j {
      CommentRun(t, k + 1, j);
    }
  }

  /** A line comment may be stepped over up to its newline. */
  lemma {:induction false} CommentUnit(u: string, n: nat)
    requires "--" <= u && n == (if IndexByte(u, '\n') < 0 then |u| else IndexByte(u, '\n'))
    ensures Pieces(u) == Prepend(u[..n], Pieces(u[n..]))
  {
    assert forall q :: 0 <= q < n ==> u[..n][q] == u[q];
    CommentRun(u, 1, n);
    assert Next(u, 0, Plain) == Comment;
    if n < |u| {
      assert u[n..][0] == '\n';
      assert Next(u, n, Plain) == Plain;
    }
    Jump(u, n);
  }

  lemma {:induction false} DollarRun(u: string, q: nat, tag: string)
    requires 2 <= |tag| && 0 < q <= |u|
    requires forall e :: OccursAt(u, tag, e) && |tag| <= e ==> q < e + |tag|
    ensures Scan(u, 1, Dollar(tag, 1)).0 == Scan(u, q, Dollar(tag, q)).0
    decreases q
  {
    if 1 < q {
      DollarRun(u, q - 1, tag);
      if 2 * |tag| <= q {
        assert !OccursAt(u, tag, q - |tag|);
      }
    }
  }

  lemma OpenerAt(u: string)
    requires TagOf(u) != ""
    ensures Next(u, 0, Plain) == Dollar(TagOf(u), 1) && u[0] == '$'
  {
    assert u[0..] == u;
  }

  lemma OccurrencesAfter(u: string, tag: string)
    requires |tag| <= |u|
    ensures var end := Index(u[|tag|..], tag);
      && (end >= 0 ==> OccursAt(u, tag, |tag| + end))
      && forall e :: OccursAt(u, tag, e) && |tag| <= e ==> 0 <= end <= e - |tag|
  {
    var body := u[|tag|..];
    forall e | |tag| <= e && e + |tag| <= |u|
      ensures OccursAt(u, tag, e) <==> OccursAt(body, tag, e - |tag|)
    {
      assert body[e - |tag|..e] == u[e..e + |tag|];
    }
  }

  /** A dollar-quoted body may be stepped over to the first occurrence of its tag after the
      opener, or to the end of the file. */
  lemma {:induction false} DollarUnit(u: string, tag: string, n: nat)
    requires tag == TagOf(u) && tag != ""
    requires var end := Index(u[|tag|..], tag); n == if end < 0 then |u| else |tag| + end + |tag|
    ensures n <= |u| && Pieces(u) == Prepend(u[..n], Pieces(u[n..]))
  {
    hide TagOf, Scan, Next;
    var end := Index(u[|tag|..], tag);
    OccurrencesAfter(u, tag);
    OpenerAt(u);
    ScanStep(u, 0, Plain);
    if end < 0 {
      DollarRun(u, |u|, tag);
      ScanEnd(u, Plain);
      ScanEnd(u, Dollar(tag, |u|));
    } else {
      DollarRun(u, n - 1, tag);
      CloserAt(u, tag, n);
      ScanStep(u, n - 1, Dollar(tag, n - 1));
    }
    hide Cut;
    Jump(u, n);
  }

  lemma ScanStep(s: string, k: nat, m: Mode)
    requires k < |s| && Fits(k, m) && !(m.Plain? && s[k] == ';')
    ensures Scan(s, k, m) == Scan(s, k + 1, Next(s, k, m))
  {
  }

  lemma ScanEnd(s: string, m: Mode)
    requires Fits(|s|, m)
    ensures Scan(s, |s|, m) == (|s|, m)
  {
  }

  lemma CloserAt(u: string, tag: string, n: nat)
    requires |tag| >= 2 && 2 * |tag| <= n <= |u| && OccursAt(u, tag, n - |tag|)
    ensures Next(u, n - 1, Dollar(tag, n - 1)) == Plain
  {
  }

  /** A character that opens nothing is an ordinary one. */
  lemma {:induction false} PlainUnit(u: string)
    requires u != "" && u[0] != ';' && u[0] != '\'' && !("--" <= u) && TagOf(u) == ""
    ensures Pieces(u) == Prepend(u[..1], Pieces(u[1..]))
  {
    assert u[0..] == u;
    Jump(u, 1);
  }

  // ----- What is never cut -----

  function TagWith(name: string): string {
    "$" + name + "$"
  }

  ghost predicate IsName(name: string) {
    forall c :: c in name ==> c == '_' || 'a' <= c <= 'z' || 'A' <= c <= 'Z' || '0' <= c <= '9'
  }

  predicate IsComment(t: string, rest: string) {
    "--" <= t && '\n' !in t && (rest == "" || rest[0] == '\n')
  }

  predicate IsLiteral(t: string) {
    |t| >= 2 && t[0] == '\'' == t[|t| - 1] && '\'' !in t[1..|t| - 1]
  }

  /** A tag, a text, and the first place where the tag comes again. */
  ghost predicate IsBody(t: string, name: string, text: string) {
    && IsName(name) && t == TagWith(name) + text + TagWith(name)
    && forall k :: OccursAt(text + TagWith(name), TagWith(name), k) ==> k >= |text|
  }

  ghost predicate IsPlain(t: string, rest: string) {
    && |t| == 1 && t[0] != ';' && t[0] != '\'' && !("--" <= t + rest)
    && forall name :: IsName(name) ==> !(TagWith(name) <= t + rest)
  }

  lemma {:induction false} TagFromFinds(s: string, i: nat, name: string)
    requires 1 <= i <= |name| + 1 && IsName(name) && TagWith(name) <= s
    ensures TagFrom(s, i) == TagWith(name)
    decreases |name| + 1 - i
  {
    var tag := TagWith(name);
    assert s[..|name| + 2] == tag;
    assert forall k :: 0 <= k < |tag| ==> s[k] == tag[k];
    if i <= |name| {
      assert name[i - 1] in name && s[i] == name[i - 1] && TagChar(s[i]);
      TagFromFinds(s, i + 1, name);
    }
  }

  lemma {:induction false} TagFromMeans(s: string, i: nat)
    requires 1 <= i <= |s| && s[0] == '$' && IsName(s[1..i]) && TagFrom(s, i) != ""
    ensures exists name :: IsName(name) && TagFrom(s, i) == TagWith(name)
    decreases |s| - i
  {
    if s[i] == '$' {
      assert s[..i + 1] == TagWith(s[1..i]);
    } else {
      assert s[1..i + 1] == s[1..i] + [s[i]];
      TagFromMeans(s, i + 1);
    }
  }

  /** The opener at the front of a text is what stands between two dollar signs. */
  lemma TagIsExact(s: string, name: string)
    requires IsName(name)
    ensures TagOf(s) == TagWith(name) <==> TagWith(name) <= s
    ensures TagOf(s) != "" ==> exists name :: IsName(name) && TagOf(s) == TagWith(name)
  {
    if TagWith(name) <= s {
      assert s[0] == TagWith(name)[0];
      TagFromFinds(s, 1, name);
    }
    if TagOf(s) != "" {
      assert s[1..1] == "";
      TagFromMeans(s, 1);
    }
  }

  lemma Front(t: string, rest: string)
    ensures (t + rest)[..|t|] == t && (t + rest)[|t|..] == rest
  {
  }

  lemma CommentIsWhole(t: string, rest: string)
    requires IsComment(t, rest)
    ensures Pieces(t + rest) == Prepend(t, Pieces(rest))
  {
    hide Pieces;
    var u := t + rest;
    Front(t, rest);
    assert rest != "" ==> u[|t|] == '\n';
    assert forall i :: 0 <= i < |t| ==> u[i] == t[i];
    assert u[..2] == t[..2];
    CommentUnit(u, |t|);
  }

  lemma {:induction false} QuotedRun(u: string, k: nat, j: nat)
    requires k <= j <= |u| && forall q :: k <= q < j ==> u[q] != '\''
    ensures Scan(u, k, Quoted).0 == Scan(u, j, Quoted).0
    decreases j - k
  {
    hide Scan;
    if k < j {
      QuoteToggles(u, k, Quoted);
      QuotedRun(u, k + 1, j);
    }
  }

  lemma LiteralIsWhole(t: string, rest: string)
    requires IsLiteral(t)
    ensures Pieces(t + rest) == Prepend(t, Pieces(rest))
  {
    hide Pieces, Scan;
    var u, n := t + rest, |t| - 1;
    Front(t, rest);
    assert forall q :: 1 <= q < n ==> u[q] == t[1..n][q - 1];
    QuoteToggles(u, 0, Plain);
    QuotedRun(u, 1, n);
    QuoteToggles(u, n, Quoted);
    Jump(u, |t|);
  }

  lemma BodyIsWhole(t: string, rest: string, name: string, text: string)
    requires IsBody(t, name, text)
    ensures Pieces(t + rest) == Prepend(t, Pieces(rest))
  {
    hide Pieces, TagOf;
    var u, tag := t + rest, TagWith(name);
    Front(t, rest);
    assert u[..|tag|] == tag;
    TagIsExact(u, name);
    var body := u[|tag|..];
    assert body == text + tag + rest;
    assert OccursAt(body, tag, |text|);
    forall k | OccursAt(body, tag, k) && k < |text| ensures OccursAt(text + tag, tag, k) {
      assert (text + tag)[k..k + |tag|] == body[k..k + |tag|];
    }
    DollarUnit(u, tag, |t|);
  }

  lemma PlainIsWhole(t: string, rest: string)
    requires IsPlain(t, rest)
    ensures Pieces(t + rest) == Prepend(t, Pieces(rest))
  {
    hide Pieces, TagOf;
    Front(t, rest);
    if TagOf(t + rest) != "" {
      TagIsExact(t + rest, "");
    }
    PlainUnit(t + rest);
  }

  /** A comment, a literal, a dollar-quoted body and every other character but the semicolon go
      whole into the piece they stand in, whatever follows. */
  lemma UnitsStayWhole(t: string, rest: string)
    requires IsComment(t, rest) || IsLiteral(t) || IsPlain(t, rest) || exists name, text :: IsBody(t, name, text)
    ensures Pieces(t + rest) == Prepend(t, Pieces(rest))
  {
    if IsComment(t, rest) {
      CommentIsWhole(t, rest);
    } else if IsLiteral(t) {
      LiteralIsWhole(t, rest);
    } else if IsPlain(t, rest) {
      PlainIsWhole(t, rest);
    } else {
      var name, text :| IsBody(t, name, text);
      BodyIsWhole(t, rest, name, text);
    }
  }

  /** What is opened and never closed takes the rest of the file. */
  lemma OpenUnitsTakeTheRest(t: string, name: string)
    requires (t != "" && t[0] == '\'' && '\'' !in t[1..])
      || (IsName(name) && TagWith(name) <= t && forall k :: k >= |name| + 2 ==> !OccursAt(t, TagWith(name), k))
    ensures Pieces(t) == [t]
  {
    hide Scan, TagOf;
    assert t[|t|..] == "" && t[..|t|] == t;
    if t != "" && t[0] == '\'' && '\'' !in t[1..] {
      assert forall q :: 1 <= q < |t| ==> t[q] == t[1..][q - 1];
      QuoteToggles(t, 0, Plain);
      QuotedRun(t, 1, |t|);
      ScanEnd(t, Quoted);
    } else {
      var tag := TagWith(name);
      TagIsExact(t, name);
      OccurrencesAfter(t, tag);
      hide Cut, Pieces;
      DollarUnit(t, tag, |t|);
      NoPieces();
    }
  }

  /** Every other semicolon cuts. */
  lemma SemicolonCuts(rest: string)
    ensures Pieces(";" + rest) == [""] + Pieces(rest)
    ensures Pieces("") == [""]
  {
    hide Pieces;
    assert (";" + rest)[1..] == rest;
    CutAtSemicolon(";" + rest);
    NoPieces();
  }

  // ----- The statements that are kept -----

  datatype Statement = Statement(sql: string, ignoreErrors: bool)

  /** Something stands at p that is no comment, and whatever stands before it is on earlier lines. */
  ghost predicate CodeAt(s: string, p: nat) {
    && p < |s| && !IsSpace(s[p]) && !OccursAt(s, "--", p)
    && forall k :: 0 <= k < p && !IsSpace(s[k]) ==> '\n' in s[k..p]
  }

  /** Some line is neither blank nor a comment. */
  ghost predicate HasCode(s: string) {
    exists p :: CodeAt(s, p)
  }

  /** The piece without the blanks around it, marked if it holds the directive. */
  ghost predicate IsStatementOf(st: Statement, piece: string) {
    && Tight(st.sql)
    && (exists l, r :: Blank(l) && Blank(r) && piece == l + st.sql + r)
    && (st.ignoreErrors <==> exists k :: OccursAt(st.sql, "+ignore-errors", k))
  }

  /** Statements for exactly the pieces with code, in their order. */
  ghost predicate Yields(ps: seq<string>, out: seq<Statement>)
    decreases |ps|
  {
    if ps == [] then out == []
    else if !HasCode(ps[|ps| - 1]) then Yields(ps[..|ps| - 1], out)
    else out != [] && IsStatementOf(out[|out| - 1], ps[|ps| - 1]) && Yields(ps[..|ps| - 1], out[..|out| - 1])
  }

  /** The line is neither blank nor a comment. */
  predicate IsCode(line: string) {
    TrimSpace(line) != "" && !("--" <= TrimSpace(line))
  }

  predicate AnyCode(lines: seq<string>) {
    exists l :: l in lines && IsCode(l)
  }

  function FirstCode(lines: seq<string>, otherwise: string): string {
    if lines == [] then otherwise
    else if IsCode(lines[0]) then TrimSpace(lines[0])
    else FirstCode(lines[1..], otherwise)
  }

  function FirstSqlLine(s: string): string {
    FirstCode(Split(s, '\n'), s)
  }

  predicate Kept(raw: string) {
    var s := TrimSpace(raw);
    s != "" && FirstSqlLine(s) != "" && !("--" <= FirstSqlLine(s))
  }

  method AppendStatement(out: seq<Statement>, raw: string) returns (r: seq<Statement>)
    ensures !HasCode(raw) ==> r == out
    ensures HasCode(raw) ==> |r| == |out| + 1 && r[..|out|] == out && IsStatementOf(r[|out|], raw)
  {
    hide TrimSpace, FirstSqlLine, HasCode, Index;
    var s := TrimSpace(raw);
    KeptWhenSomeLineIsCode(raw);
    if s == "" || FirstSqlLine(s) == "" || "--" <= FirstSqlLine(s) {
      return out;
    }
    var at := Index(s, "+ignore-errors");
    TrimSpaceIsTight(raw);
    TrimSpaceCuts(raw);
    return out + [Statement(s, at >= 0)];
  }

  lemma {:induction false} FirstCodeFinds(lines: seq<string>, otherwise: string)
    ensures var f := FirstCode(lines, otherwise);
      if AnyCode(lines) then f != "" && !("--" <= f) else f == otherwise
  {
    if lines != [] && !IsCode(lines[0]) {
      FirstCodeFinds(lines[1..], otherwise);
      assert forall l :: l in lines ==> l == lines[0] || l in lines[1..];
    }
  }

  lemma {:induction false} TrimLeftCuts(s: string)
    ensures exists l :: Blank(l) && s == l + TrimLeft(s)
  {
    if s != [] && IsSpace(s[0]) {
      TrimLeftCuts(s[1..]);
      var l :| Blank(l) && s[1..] == l + TrimLeft(s[1..]);
      assert Blank([s[0]] + l) && s == ([s[0]] + l) + TrimLeft(s);
    } else {
      assert Blank("") && s == "" + s;
    }
  }

  lemma {:induction false} TrimRightCuts(s: string)
    ensures exists r :: Blank(r) && s == TrimRight(s) + r
  {
    var n := |s| - 1;
    if s != [] && IsSpace(s[n]) {
      TrimRightCuts(s[..n]);
      var r :| Blank(r) && s[..n] == TrimRight(s[..n]) + r;
      assert Blank(r + [s[n]]) && s == TrimRight(s) + (r + [s[n]]);
    } else {
      assert Blank("") && s == s + "";
    }
  }

  lemma TrimSpaceCuts(s: string)
    ensures exists l, r :: Blank(l) && Blank(r) && s == l + TrimSpace(s) + r
  {
    hide TrimLeft, TrimRight;
    TrimLeftCuts(s);
    TrimRightCuts(TrimLeft(s));
    var l :| Blank(l) && s == l + TrimLeft(s);
    var r :| Blank(r) && TrimLeft(s) == TrimRight(TrimLeft(s)) + r;
    assert s == l + TrimSpace(s) + r;
  }

  lemma SliceOfSlice(s: string, a: nat, b: nat, k: nat, p: nat)
    requires k <= p && a + p <= b <= |s|
    ensures s[a..b][k..p] == s[a + k..a + p]
  {
    var t := s[a..b];
    assert |t[k..p]| == |s[a + k..a + p]| && forall q :: 0 <= q < p - k ==> t[k..p][q] == s[a + k..a + p][q];
  }

  lemma OccursInPart(s: string, a: nat, b: nat, p: nat)
    requires a + p < b <= |s| && (b < |s| ==> s[b] != '-')
    ensures OccursAt(s[a..b], "--", p) <==> OccursAt(s, "--", a + p)
  {
    if p + 1 < b - a {
      SliceOfSlice(s, a, b, p, p + 2);
    } else if b < |s| {
      assert s[a + p..a + p + 2][1] == s[b];
    }
  }

  /** Code in a part is code of the whole, if before the part there are only blanks or its line
      begins with it, and after it comes a blank. */
  lemma CodeInPart(s: string, a: nat, b: nat, p: nat)
    requires a + p < b <= |s| && (b < |s| ==> IsSpace(s[b]))
    requires Blank(s[..a]) || s[a - 1] == '\n'
    ensures CodeAt(s[a..b], p) <==> CodeAt(s, a + p)
  {
    OccursInPart(s, a, b, p);
    forall k | 0 <= k <= p ensures '\n' in s[a..b][k..p] <==> '\n' in s[a + k..a + p] {
      SliceOfSlice(s, a, b, k, p);
    }
    forall k | 0 <= k < a ensures IsSpace(s[k]) || '\n' in s[k..a + p] {
      if Blank(s[..a]) {
        assert s[..a][k] == s[k];
      } else {
        assert s[k..a + p][a - 1 - k] == '\n';
      }
    }
    if CodeAt(s[a..b], p) {
      forall k | 0 <= k < a + p && !IsSpace(s[k]) ensures '\n' in s[k..a + p] {
        if k >= a {
          assert s[a..b][k - a] == s[k];
        }
      }
    }
  }

  /** A line is code by its first character that is no blank. */
  lemma IsCodeAt(line: string)
    requires '\n' !in line
    ensures IsCode(line) <==> HasCode(line)
  {
    hide TrimSpace;
    TrimSpaceCuts(line);
    TrimSpaceIsTight(line);
    var t := TrimSpace(line);
    var l, r :| Blank(l) && Blank(r) && line == l + t + r;
    TrimmingKeepsCode(l, t, r);
    if t != "" {
      assert |t| >= 2 ==> t[0..2] == t[..2];
      assert CodeAt(t, 0) <==> !("--" <= t);
      forall p: nat | p <= |t| ensures '\n' !in t[0..p] {
        assert forall c :: c in t[0..p] ==> c in line;
      }
    }
  }

  lemma Around(l: string, t: string, r: string, p: nat)
    requires Blank(l) && Blank(r) && p < |l + t + r| && !IsSpace((l + t + r)[p])
    ensures |l| <= p < |l| + |t|
  {
  }

  lemma TrimmingKeepsCode(l: string, t: string, r: string)
    requires Blank(l) && Blank(r)
    ensures HasCode(l + t + r) <==> HasCode(t)
  {
    var s := l + t + r;
    var a, b := |l|, |l| + |t|;
    assert s[a..b] == t && s[..a] == l;
    assert b < |s| ==> s[b] == r[0];
    forall p: nat | CodeAt(s, p) ensures HasCode(t) {
      Around(l, t, r, p);
      CodeInPart(s, a, b, p - a);
    }
    forall p: nat | CodeAt(t, p) ensures HasCode(s) {
      CodeInPart(s, a, b, p);
    }
  }

  lemma NewlineIsSpace()
    ensures IsSpace('\n')
  {
  }

  lemma FirstLineOrRest(s: string, n: nat)
    requires n < |s| && s[n] == '\n'
    ensures HasCode(s) <==> HasCode(s[..n]) || HasCode(s[n + 1..])
  {
    NewlineIsSpace();
    var rest := s[n + 1..];
    assert s[0..n] == s[..n] && s[n + 1..|s|] == rest && Blank(s[..0]);
    forall p: nat | CodeAt(s, p) ensures HasCode(s[..n]) || HasCode(rest) {
      if p < n {
        CodeInPart(s, 0, n, p);
      } else {
        CodeInPart(s, n + 1, |s|, p - n - 1);
      }
    }
    forall p: nat | CodeAt(s[..n], p) ensures HasCode(s) {
      CodeInPart(s, 0, n, p);
    }
    forall p: nat | CodeAt(rest, p) ensures HasCode(s) {
      CodeInPart(s, n + 1, |s|, p);
    }
  }

  lemma AnyCodeCons(l: string, lines: seq<string>)
    ensures AnyCode([l] + lines) <==> IsCode(l) || AnyCode(lines)
    ensures AnyCode([l]) <==> IsCode(l)
  {
    hide IsCode;
    assert l in [l] + lines && l in [l];
    forall x | x in lines ensures x in [l] + lines {
    }
  }

  lemma {:induction false} SomeLineIsCode(s: string)
    ensures HasCode(s) <==> AnyCode(Split(s, '\n'))
    decreases |s|
  {
    hide IsCode, HasCode, AnyCode;
    var n := IndexByte(s, '\n');
    if n < 0 {
      IsCodeAt(s);
      AnyCodeCons(s, []);
    } else {
      FirstLineOrRest(s, n);
      IsCodeAt(s[..n]);
      SomeLineIsCode(s[n + 1..]);
      AnyCodeCons(s[..n], Split(s[n + 1..], '\n'));
    }
  }

  /** A piece is kept exactly when one of its lines holds SQL: comments alone, even many lines of
      them, are dropped, although what the source looks at is then the whole text. */
  lemma KeptWhenSomeLineIsCode(raw: string)
    ensures Kept(raw) <==> HasCode(raw)
  {
    hide TrimSpace, Split, IsCode, FirstCode, HasCode;
    var s := TrimSpace(raw);
    TrimSpaceIsTight(raw);
    TrimSpaceCuts(raw);
    var l, r :| Blank(l) && Blank(r) && raw == l + s + r;
    TrimmingKeepsCode(l, s, r);
    SomeLineIsCode(s);
    FirstCodeFinds(Split(s, '\n'), s);
    if s != "" && !HasCode(s) {
      CommentOnlyStartsAsComment(s);
    }
    if s == "" {
      NoCodeInNothing();
    }
  }

  lemma NoCodeInNothing()
    ensures !HasCode("")
  {
  }

  /** If even its first character is no code, the text starts as a comment. */
  lemma CommentOnlyStartsAsComment(s: string)
    requires s != "" && Tight(s) && !HasCode(s)
    ensures "--" <= s
  {
    assert !CodeAt(s, 0);
  }

  // ----- The source's loop -----

  method SkipQuoted(src: string, i: nat) returns (j: nat)
    requires i < |src| && src[i] == '\''
    ensures i < j <= |src|
    ensures Pieces(src[i..]) == Prepend(src[i..j], Pieces(src[j..]))
  {
    hide Scan, Next, Pieces, Prepend;
    ghost var u := src[i..];
    QuoteToggles(u, 0, Plain);
    j := i + 1;
    ghost var m := Quoted;
    while j < |src|
      invariant i < j <= |src| && m == Quoted
      invariant Cut(u) == Scan(u, j - i, Quoted).0
    {
      assert u[j - i] == src[j] && (j + 1 < |src| ==> u[j - i + 1] == src[j + 1]);
      if src[j] == '\'' {
        QuoteToggles(u, j - i, Quoted);
        if j + 1 < |src| && src[j + 1] == '\'' {
          QuoteToggles(u, j - i + 1, Plain);
          j := j + 2;
          continue;
        }
        j := j + 1;
        m := Plain;
        break;
      }
      QuoteToggles(u, j - i, Quoted);
      j := j + 1;
    }
    if m == Quoted {
      ScanEnd(u, Plain);
      ScanEnd(u, Quoted);
    }
    Jump(u, j - i);
    Slices(src, i, j);
  }

  /** One step around a quote: it opens from Plain, closes from Quoted; the rest is inside. */
  lemma QuoteToggles(u: string, k: nat, m: Mode)
    requires k < |u| && (m == Quoted || (m == Plain && u[k] == '\''))
    ensures Scan(u, k, m).0 == Scan(u, k + 1, if u[k] == '\'' && m == Quoted then Plain else Quoted).0
  {
  }

  lemma Slices(src: string, i: nat, j: nat)
    requires i <= j <= |src|
    ensures src[i..][..j - i] == src[i..j] && src[i..][j - i..] == src[j..]
  {
  }

  method SkipComment(src: string, i: nat) returns (j: nat)
    requires i < |src| && "--" <= src[i..]
    ensures i < j <= |src|
    ensures Pieces(src[i..]) == Prepend(src[i..j], Pieces(src[j..]))
  {
    var n := IndexByte(src[i..], '\n');
    if n < 0 {
      n := |src| - i;
    }
    CommentUnit(src[i..], n);
    j := i + n;
    Slices(src, i, j);
    assert src[i..][0] == '-';
  }

  method SkipDollar(src: string, i: nat) returns (j: nat)
    requires i < |src| && src[i] == '$'
    ensures i < j <= |src|
    ensures Pieces(src[i..]) == Prepend(src[i..j], Pieces(src[j..]))
  {
    hide Pieces, Scan, Next, Prepend, Cut, TagOf, Index;
    var tag := DollarTag(src[i..]);
    if tag == "" {
      PlainUnit(src[i..]);
      Slices(src, i, i + 1);
      return i + 1;
    }
    Slices(src, i, i + |tag|);
    var end := Index(src[i + |tag|..], tag);
    j := if end < 0 then |src| else i + |tag| + end + |tag|;
    DollarUnit(src[i..], tag, j - i);
    Slices(src, i, j);
  }

  /** The non-semicolon branches of the source's switch: where the next character to look at is. */
  method StepOver(src: string, i: nat) returns (j: nat)
    requires i < |src| && src[i] != ';'
    ensures i < j <= |src|
    ensures Pieces(src[i..]) == Prepend(src[i..j], Pieces(src[j..]))
  {
    if src[i] == '-' && i + 1 < |src| && src[i + 1] == '-' {
      j := SkipComment(src, i);
    } else if src[i] == '\'' {
      j := SkipQuoted(src, i);
    } else if src[i] == '$' {
      j := SkipDollar(src, i);
    } else {
      PlainUnit(src[i..]);
      j := i + 1;
      Slices(src, i, j);
    }
  }

  /** Moving read text into the piece being built. */
  lemma Extend(done: seq<string>, b: string, c: string, ps: seq<string>)
    requires |ps| >= 1
    ensures done + Prepend(b, Prepend(c, ps)) == done + Prepend(b + c, ps)
  {
    assert b + (c + ps[0]) == (b + c) + ps[0];
  }

  /** Closing the piece being built. */
  lemma Close(done: seq<string>, b: string, ps: seq<string>)
    requires |ps| >= 1
    ensures done + Prepend(b, [""] + ps) == (done + [b]) + Prepend("", ps)
  {
    assert b + "" == b && "" + ps[0] == ps[0];
  }

  lemma OneMorePiece(ps: seq<string>, p: string, out: seq<Statement>, next: seq<Statement>)
    requires Yields(ps, out)
    requires !HasCode(p) ==> next == out
    requires HasCode(p) ==> |next| == |out| + 1 && next[..|out|] == out && IsStatementOf(next[|out|], p)
    ensures Yields(ps + [p], next)
  {
    assert (ps + [p])[..|ps|] == ps;
  }

  lemma {:induction false} CutAtSemicolon(u: string)
    requires u != "" && u[0] == ';'
    ensures Pieces(u) == [""] + Pieces(u[1..])
  {
    assert u[..0] == "";
  }

  lemma NoPieces()
    ensures Pieces("") == [""]
  {
  }

  lemma NothingYieldsNothing()
    ensures Yields([], [])
  {
  }

  method SplitStatements(src: string) returns (out: seq<Statement>)
    ensures Yields(Pieces(src), out)
  {
    hide Scan, Next, Cut, Pieces, Yields, HasCode, IsStatementOf;
    out := [];
    var b := "";
    var i := 0;
    ghost var done: seq<string> := [];
    NothingYieldsNothing();
    assert src[0..] == src && "" + Pieces(src)[0] == Pieces(src)[0];
    while i < |src|
      invariant i <= |src|
      invariant Yields(done, out)
      invariant Pieces(src) == done + Prepend(b, Pieces(src[i..]))
    {
      if src[i] == ';' {
        CutAtSemicolon(src[i..]);
        Slices(src, i, i + 1);
        Close(done, b, Pieces(src[i + 1..]));
        ghost var before := out;
        out := AppendStatement(out, b);
        OneMorePiece(done, b, before, out);
        done := done + [b];
        b := "";
        i := i + 1;
      } else {
        var j := StepOver(src, i);
        Extend(done, b, src[i..j], Pieces(src[j..]));
        b := b + src[i..j];
        i := j;
      }
    }
    ghost var before := out;
    out := AppendStatement(out, b);
    OneMorePiece(done, b, before, out);
    Close(done, b, [""]);
    NoPieces();
    assert src[i..] == "";
    assert b + "" == b && Pieces(src) == done + [b];
  }
}
