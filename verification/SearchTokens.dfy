/** The tokenizer of the search box (internal/store/search.go): words separated by blanks, with
    quoting, the first unquoted colon of a word separating its key from its value. Folding the
    key to lower case is a parameter, because nothing here depends on what it does. */
module SearchTokens {
  import opened Text

  datatype Token = Token(key: string, value: string)

  /** A word as read: its characters without the quotes, and where its first unquoted colon
      stands among them, or -1. */
  datatype Word = Word(raw: string, colon: int, rest: string)

  predicate IsQuote(c: char) {
    c == '"' || c == '\''
  }

  const NO_QUOTE := '\0'

  /** Reads s inside the given quote up to the next unquoted blank. */
  function ReadWord(s: string, quote: char, raw: string, colon: int): (w: Word)
    requires quote == NO_QUOTE || IsQuote(quote)
    requires -1 <= colon < |raw|
    ensures -1 <= w.colon < |w.raw|
    ensures |w.rest| <= |s|
    ensures s != "" && (quote != NO_QUOTE || !IsSpace(s[0])) ==> |w.rest| < |s|
  {
    if s == "" then Word(raw, colon, "")
    else if quote != NO_QUOTE then
      if s[0] == quote then ReadWord(s[1..], NO_QUOTE, raw, colon)
      else ReadWord(s[1..], quote, raw + [s[0]], colon)
    else if IsQuote(s[0]) then ReadWord(s[1..], s[0], raw, colon)
    else if IsSpace(s[0]) then Word(raw, colon, s)
    else ReadWord(s[1..], NO_QUOTE, raw + [s[0]], if s[0] == ':' && colon < 0 then |raw| else colon)
  }

  function Meaning(w: Word, lower: string -> string): seq<Token>
    requires -1 <= w.colon < |w.raw|
  {
    if w.raw == "" then []
    else if w.colon > 0 then [Token(lower(w.raw[..w.colon]), w.raw[w.colon + 1..])]
    else [Token("", w.raw)]
  }

  function Tokens(s: string, lower: string -> string): seq<Token>
    decreases |s|
  {
    var t := TrimLeft(s);
    TrimLeftStartsTight(s);
    TrimLeftShortens(s);
    if t == "" then [] else
      var w := ReadWord(t, NO_QUOTE, "", -1);
      Meaning(w, lower) + Tokens(w.rest, lower)
  }

  lemma {:induction false} TrimLeftShortens(s: string)
    ensures |TrimLeft(s)| <= |s|
  {
    if s != [] && IsSpace(s[0]) {
      TrimLeftShortens(s[1..]);
    }
  }

  /** The source's inner loop: reads one word from position start. */
  method ReadOne(runes: string, start: nat) returns (i: nat, sb: string, hasColon: bool, colonPos: int)
    requires start < |runes| && !IsSpace(runes[start])
    ensures start < i <= |runes| && -1 <= colonPos < |sb| && (hasColon <==> colonPos >= 0)
    ensures Word(sb, colonPos, runes[i..]) == ReadWord(runes[start..], NO_QUOTE, "", -1)
  {
    sb := "";
    var inQuote := NO_QUOTE;
    hasColon := false;
    colonPos := -1;
    i := start;
    while i < |runes|
      invariant start <= i <= |runes|
      invariant inQuote == NO_QUOTE || IsQuote(inQuote)
      invariant -1 <= colonPos < |sb| && (hasColon <==> colonPos >= 0)
      invariant ReadWord(runes[start..], NO_QUOTE, "", -1) == ReadWord(runes[i..], inQuote, sb, colonPos)
      invariant i == start ==> inQuote == NO_QUOTE
    {
      var r := runes[i];
      assert runes[i..][1..] == runes[i + 1..];
      if inQuote != NO_QUOTE {
        if r == inQuote {
          inQuote := NO_QUOTE;
        } else {
          sb := sb + [r];
        }
        i := i + 1;
        continue;
      }
      if r == '"' || r == '\'' {
        inQuote := r;
        i := i + 1;
        continue;
      }
      if IsSpace(r) {
        break;
      }
      if r == ':' && !hasColon {
        hasColon := true;
        colonPos := |sb|;
      }
      sb := sb + [r];
      i := i + 1;
    }
  }

  /** The source's loop over blanks. */
  method SkipBlanks(runes: string, start: nat) returns (i: nat)
    requires start <= |runes|
    ensures start <= i <= |runes|
    ensures i < |runes| ==> !IsSpace(runes[i])
    ensures TrimLeft(runes[start..]) == runes[i..]
  {
    i := start;
    while i < |runes| && IsSpace(runes[i])
      invariant start <= i <= |runes|
      invariant TrimLeft(runes[start..]) == TrimLeft(runes[i..])
    {
      assert runes[i..][1..] == runes[i + 1..];
      i := i + 1;
    }
  }

  lemma {:induction false} TokensUnfold(s: string, lower: string -> string)
    ensures TrimLeft(s) == "" ==> Tokens(s, lower) == []
    ensures TrimLeft(s) != "" ==>
      !IsSpace(TrimLeft(s)[0]) &&
      var w := ReadWord(TrimLeft(s), NO_QUOTE, "", -1);
      Tokens(s, lower) == Meaning(w, lower) + Tokens(w.rest, lower)
  {
    TrimLeftStartsTight(s);
  }

  lemma NoTokens(lower: string -> string)
    ensures Tokens("", lower) == []
  {
  }

  method TokenizeSearch(q: string, lower: string -> string) returns (tokens: seq<Token>)
    ensures tokens == Tokens(TrimSpace(q), lower)
  {
    hide ReadWord, TrimLeft, TrimSpace, IsSpace, Tokens;
    tokens := [];
    var runes := TrimSpace(q);
    var n := |runes|;
    var i := 0;
    assert runes[0..] == runes;
    while i < n
      invariant i <= n
      invariant Tokens(runes, lower) == tokens + Tokens(runes[i..], lower)
    {
      TokensUnfold(runes[i..], lower);
      var start := SkipBlanks(runes, i);
      if start >= n {
        i := n;
        NoTokens(lower);
        assert runes[n..] == "";
        break;
      }
      var end, raw, hasColon, colonPos := ReadOne(runes, start);
      i := end;
      if raw == "" {
        continue;
      }
      if hasColon && colonPos > 0 {
        tokens := tokens + [Token(lower(raw[..colonPos]), raw[colonPos + 1..])];
      } else {
        tokens := tokens + [Token("", raw)];
      }
    }
    NoTokens(lower);
    assert runes[n..] == "";
  }

  // ----- Printing -----

  /** A stretch of a printed word: characters as they are, or between two quotes. */
  datatype Part = Bare(text: string) | Quoted(quote: char, text: string)

  /** A word as somebody may type it. */
  datatype Typed = Pair(key: seq<Part>, value: seq<Part>) | Free(text: seq<Part>)

  predicate IsPart(p: Part, colons: bool) {
    match p
    case Bare(text) => forall c :: c in text ==> !IsSpace(c) && !IsQuote(c) && (colons || c != ':')
    case Quoted(quote, text) => IsQuote(quote) && quote !in text
  }

  predicate AreParts(ps: seq<Part>, colons: bool) {
    forall p :: p in ps ==> IsPart(p, colons)
  }

  function PrintPart(p: Part): string {
    match p
    case Bare(text) => text
    case Quoted(quote, text) => [quote] + text + [quote]
  }

  function PrintParts(ps: seq<Part>): string {
    if ps == [] then "" else PrintPart(ps[0]) + PrintParts(ps[1..])
  }

  function TextOf(ps: seq<Part>): string {
    if ps == [] then "" else ps[0].text + TextOf(ps[1..])
  }

  /** The key holds no bare colon, and a word without a colon outside quotes is at least a pair of
      quotes. */
  predicate IsTyped(t: Typed) {
    match t
    case Pair(key, value) => AreParts(key, false) && AreParts(value, true)
    case Free(text) => AreParts(text, false) && PrintParts(text) != ""
  }

  function PrintTyped(t: Typed): string {
    match t
    case Pair(key, value) => PrintParts(key) + ":" + PrintParts(value)
    case Free(text) => PrintParts(text)
  }

  /** A colon with nothing in front of it belongs to a free word, and quotes around nothing are no
      word at all. */
  function MeaningOf(t: Typed, lower: string -> string): seq<Token> {
    match t
    case Pair(key, value) =>
      if TextOf(key) == "" then [Token("", ":" + TextOf(value))] else [Token(lower(TextOf(key)), TextOf(value))]
    case Free(text) => if TextOf(text) == "" then [] else [Token("", TextOf(text))]
  }

  /** Words with blanks between them, any number and any kind. */
  function PrintAll(ts: seq<Typed>, gaps: seq<string>): string
    requires |gaps| >= |ts|
  {
    if ts == [] then "" else if |ts| == 1 then PrintTyped(ts[0])
    else PrintTyped(ts[0]) + gaps[0] + PrintAll(ts[1..], gaps[1..])
  }

  predicate AreGaps(gaps: seq<string>) {
    forall i :: 0 <= i < |gaps| ==> gaps[i] != "" && Blank(gaps[i])
  }

  function MeaningOfAll(ts: seq<Typed>, lower: string -> string): seq<Token> {
    if ts == [] then [] else MeaningOf(ts[0], lower) + MeaningOfAll(ts[1..], lower)
  }

  lemma {:induction false} ReadQuotedText(text: string, tail: string, quote: char, raw: string, colon: int)
    requires IsQuote(quote) && quote !in text && -1 <= colon < |raw|
    ensures ReadWord(text + [quote] + tail, quote, raw, colon) == ReadWord(tail, NO_QUOTE, raw + text, colon)
  {
    var s := text + [quote] + tail;
    if text == "" {
      assert raw + text == raw && s[1..] == tail;
    } else {
      assert s[1..] == text[1..] + [quote] + tail;
      assert raw + [text[0]] + text[1..] == raw + text;
      ReadQuotedText(text[1..], tail, quote, raw + [text[0]], colon);
    }
  }

  lemma {:induction false} ReadBareText(text: string, tail: string, raw: string, colon: int)
    requires IsPart(Bare(text), colon >= 0) && -1 <= colon < |raw|
    ensures ReadWord(text + tail, NO_QUOTE, raw, colon) == ReadWord(tail, NO_QUOTE, raw + text, colon)
  {
    var s := text + tail;
    if text == "" {
      assert raw + text == raw && s == tail;
    } else {
      assert s[0] == text[0] && s[1..] == text[1..] + tail;
      assert raw + [text[0]] + text[1..] == raw + text;
      ReadBareText(text[1..], tail, raw + [text[0]], colon);
    }
  }

  lemma {:induction false} ReadPart(p: Part, tail: string, raw: string, colon: int)
    requires IsPart(p, colon >= 0) && -1 <= colon < |raw|
    ensures ReadWord(PrintPart(p) + tail, NO_QUOTE, raw, colon) == ReadWord(tail, NO_QUOTE, raw + p.text, colon)
  {
    match p {
      case Bare(text) => ReadBareText(text, tail, raw, colon);
      case Quoted(quote, text) =>
        assert (PrintPart(p) + tail)[1..] == text + [quote] + tail;
        ReadQuotedText(text, tail, quote, raw, colon);
    }
  }

  lemma {:induction false} ReadParts(ps: seq<Part>, tail: string, raw: string, colon: int)
    requires AreParts(ps, colon >= 0)
    requires -1 <= colon < |raw|
    ensures ReadWord(PrintParts(ps) + tail, NO_QUOTE, raw, colon)
         == ReadWord(tail, NO_QUOTE, raw + TextOf(ps), colon)
  {
    hide ReadWord, IsPart, PrintPart, IsSpace;
    if ps == [] {
      assert PrintParts(ps) + tail == tail && raw + TextOf(ps) == raw;
    } else {
      var p, more := ps[0], PrintParts(ps[1..]) + tail;
      assert PrintParts(ps) + tail == PrintPart(p) + more;
      assert AreParts(ps[1..], colon >= 0);
      ReadPart(p, more, raw, colon);
      ReadParts(ps[1..], tail, raw + p.text, colon);
      hide PrintParts;
      assert raw + p.text + TextOf(ps[1..]) == raw + (p.text + TextOf(ps[1..]));
    }
  }

  lemma ReadColon(tail: string, raw: string)
    ensures ReadWord(":" + tail, NO_QUOTE, raw, -1) == ReadWord(tail, NO_QUOTE, raw + ":", |raw|)
  {
    assert (":" + tail)[1..] == tail;
  }

  lemma ReadEnd(tail: string, raw: string, colon: int)
    requires (tail == "" || IsSpace(tail[0])) && -1 <= colon < |raw|
    ensures ReadWord(tail, NO_QUOTE, raw, colon) == Word(raw, colon, tail)
  {
  }

  lemma {:induction false} ReadTyped(t: Typed, tail: string, lower: string -> string)
    requires IsTyped(t) && (tail == "" || IsSpace(tail[0]))
    ensures var w := ReadWord(PrintTyped(t) + tail, NO_QUOTE, "", -1);
      w.rest == tail && Meaning(w, lower) == MeaningOf(t, lower)
  {
    hide ReadWord, IsPart, PrintParts, TextOf, IsSpace;
    match t {
      case Free(text) =>
        ReadParts(text, tail, "", -1);
        assert "" + TextOf(text) == TextOf(text);
        ReadEnd(tail, TextOf(text), -1);
      case Pair(key, value) => ReadPair(key, value, tail, lower);
    }
  }

  lemma ReadPair(key: seq<Part>, value: seq<Part>, tail: string, lower: string -> string)
    requires AreParts(key, false) && AreParts(value, true) && (tail == "" || IsSpace(tail[0]))
    ensures var w := ReadWord(PrintTyped(Pair(key, value)) + tail, NO_QUOTE, "", -1);
      w.rest == tail && Meaning(w, lower) == MeaningOf(Pair(key, value), lower)
  {
    hide ReadWord, AreParts, PrintParts, TextOf, IsSpace;
    var k, v := TextOf(key), TextOf(value);
    var more := PrintParts(value) + tail;
    assert PrintTyped(Pair(key, value)) + tail == PrintParts(key) + (":" + more);
    ReadParts(key, ":" + more, "", -1);
    assert "" + k == k;
    ReadColon(more, k);
    ReadParts(value, tail, k + ":", |k|);
    ReadEnd(tail, k + ":" + v, |k|);
    PairMeans(k, v, tail, lower);
  }

  lemma PairMeans(k: string, v: string, tail: string, lower: string -> string)
    ensures Meaning(Word(k + ":" + v, |k|, tail), lower) ==
      if k == "" then [Token("", ":" + v)] else [Token(lower(k), v)]
  {
    var raw := k + ":" + v;
    assert raw[..|k|] == k && raw[|k| + 1..] == v;
    assert k == "" ==> raw == ":" + v;
  }

  lemma TightSum(a: string, b: string)
    requires Tight(a) && Tight(b)
    ensures Tight(a + b)
  {
    assert b == "" ==> a + b == a;
    assert a == "" ==> a + b == b;
  }

  /** A printed word begins and ends with something other than a blank. */
  lemma {:induction false} PartsAreTight(ps: seq<Part>, colons: bool)
    requires AreParts(ps, colons)
    ensures Tight(PrintParts(ps))
    ensures TextOf(ps) != "" ==> PrintParts(ps) != ""
  {
    if ps != [] {
      assert IsPart(ps[0], colons) && AreParts(ps[1..], colons);
      PartsAreTight(ps[1..], colons);
      TightSum(PrintPart(ps[0]), PrintParts(ps[1..]));
    }
  }

  lemma {:induction false} TypedIsTight(t: Typed)
    requires IsTyped(t)
    ensures PrintTyped(t) != "" && Tight(PrintTyped(t))
  {
    match t {
      case Free(text) => PartsAreTight(text, false);
      case Pair(key, value) =>
        PartsAreTight(key, false);
        PartsAreTight(value, true);
    }
  }

  lemma {:induction false} PrintIsTight(ts: seq<Typed>, gaps: seq<string>)
    requires |gaps| >= |ts| && forall t :: t in ts ==> IsTyped(t)
    ensures Tight(PrintAll(ts, gaps)) && (ts != [] ==> PrintAll(ts, gaps) != "")
  {
    hide PrintTyped, IsTyped;
    if ts != [] {
      assert ts[0] in ts;
      TypedIsTight(ts[0]);
      PrintIsTight(ts[1..], gaps[1..]);
    }
  }

  lemma {:induction false} TrimLeftOfBlank(blank: string, s: string)
    requires Blank(blank) && (s != "" ==> !IsSpace(s[0]))
    ensures TrimLeft(blank + s) == s
  {
    if blank == "" {
      assert blank + s == s;
    } else {
      assert (blank + s)[1..] == blank[1..] + s;
      TrimLeftOfBlank(blank[1..], s);
    }
  }

  lemma {:induction false} TokensOfWord(t: Typed, blank: string, tail: string, lower: string -> string)
    requires IsTyped(t) && (tail == "" || IsSpace(tail[0])) && Blank(blank)
    ensures Tokens(blank + (PrintTyped(t) + tail), lower) == MeaningOf(t, lower) + Tokens(tail, lower)
  {
    hide ReadWord, IsTyped, PrintTyped, TrimLeft, IsSpace, MeaningOf, Meaning, Tokens, Blank;
    TypedIsTight(t);
    ReadTyped(t, tail, lower);
    TrimLeftOfBlank(blank, PrintTyped(t) + tail);
    TokensUnfold(blank + (PrintTyped(t) + tail), lower);
  }

  lemma {:induction false} TokensOfPrint(ts: seq<Typed>, gaps: seq<string>, blank: string, lower: string -> string)
    requires |gaps| >= |ts| && AreGaps(gaps) && Blank(blank) && forall t :: t in ts ==> IsTyped(t)
    ensures Tokens(blank + PrintAll(ts, gaps), lower) == MeaningOfAll(ts, lower)
  {
    hide IsTyped, PrintTyped, TrimLeft, Tokens, MeaningOf;
    if ts == [] {
      TrimLeftOfBlank(blank, "");
      TokensUnfold(blank + "", lower);
    } else {
      var next := if |ts| == 1 then "" else gaps[0];
      var tail := next + PrintAll(ts[1..], gaps[1..]);
      assert PrintAll(ts, gaps) == PrintTyped(ts[0]) + tail;
      TokensOfWord(ts[0], blank, tail, lower);
      TokensOfPrint(ts[1..], gaps[1..], next, lower);
    }
  }

  /** Whatever quoting and spacing a writer chooses, the tokenizer reads back the words that were
      meant. */
  lemma PrintThenTokenize(ts: seq<Typed>, gaps: seq<string>, l: string, r: string, lower: string -> string)
    requires |gaps| >= |ts| && AreGaps(gaps) && Blank(l) && Blank(r) && forall t :: t in ts ==> IsTyped(t)
    ensures Tokens(TrimSpace(l + PrintAll(ts, gaps) + r), lower) == MeaningOfAll(ts, lower)
  {
    hide TrimSpace, Tokens, PrintAll, Tight;
    PrintIsTight(ts, gaps);
    var body := PrintAll(ts, gaps);
    TrimSpaceOfBlanks(l, body, r);
    assert "" + body == body;
    TokensOfPrint(ts, gaps, "", lower);
  }

  lemma TrimSpaceOfBlanks(l: string, t: string, r: string)
    requires Blank(l) && Blank(r) && Tight(t)
    ensures TrimSpace(l + t + r) == t
  {
    hide TrimSpace;
    if t == "" {
      TrimLeftOfBlank(l + r, "");
      assert l + t + r == l + r + "" && TrimRight("") == "";
      TrimsBothSides(l + t + r);
    } else {
      TrimSpaceOfPadded(l, t, r);
    }
  }

  lemma TrimsBothSides(s: string)
    ensures TrimSpace(s) == TrimRight(TrimLeft(s))
  {
  }

  /** A quote that is never closed takes the rest of the query, blanks and colons included. */
  lemma OpenQuoteTakesTheRest(quote: char, text: string, lower: string -> string)
    requires IsQuote(quote) && quote !in text && text != "" && Tight([quote] + text)
    ensures Tokens(TrimSpace([quote] + text), lower) == [Token("", text)]
  {
    hide TrimSpace, Tokens, TrimLeft, ReadWord;
    var s := [quote] + text;
    TrimSpaceKeepsTight(s);
    assert "" + s == s;
    TrimLeftOfBlank("", s);
    TokensUnfold(s, lower);
    TokensUnfold("", lower);
    TrimLeftOfBlank("", "");
    assert "" + "" == "";
    ReadOpen(quote, text);
  }

  lemma ReadOpen(quote: char, text: string)
    requires IsQuote(quote) && quote !in text
    ensures ReadWord([quote] + text, NO_QUOTE, "", -1) == Word(text, -1, "")
  {
    assert ([quote] + text)[1..] == text && "" + text == text;
    ReadOpenText(text, quote, "");
  }

  lemma {:induction false} ReadOpenText(text: string, quote: char, raw: string)
    requires IsQuote(quote) && quote !in text
    ensures ReadWord(text, quote, raw, -1) == Word(raw + text, -1, "")
  {
    if text == "" {
      assert raw + text == raw;
    } else {
      assert raw + [text[0]] + text[1..] == raw + text;
      ReadOpenText(text[1..], quote, raw + [text[0]]);
    }
  }

  // ----- Every token list has a query -----

  function QuoteFor(c: char): Part {
    Quoted(if c == '"' then '\'' else '"', [c])
  }

  /** Each character between quotes of the other kind. */
  function QuoteText(s: string): seq<Part> {
    if s == "" then [] else [QuoteFor(s[0])] + QuoteText(s[1..])
  }

  function QuoteToken(t: Token): Typed {
    if t.key == "" then Free(QuoteText(t.value)) else Pair(QuoteText(t.key), QuoteText(t.value))
  }

  function QuoteAll(ts: seq<Token>): seq<Typed> {
    if ts == [] then [] else [QuoteToken(ts[0])] + QuoteAll(ts[1..])
  }

  function Spaces(n: nat): (gaps: seq<string>)
    ensures |gaps| == n && AreGaps(gaps)
  {
    seq(n, _ => " ")
  }

  function PrintTokens(ts: seq<Token>): string {
    QuoteAllIsAsLong(ts);
    PrintAll(QuoteAll(ts), Spaces(|ts|))
  }

  lemma {:induction false} QuoteAllIsAsLong(ts: seq<Token>)
    ensures |QuoteAll(ts)| == |ts|
  {
    if ts != [] {
      QuoteAllIsAsLong(ts[1..]);
    }
  }

  /** What the tokenizer can return: a folded key, or a free word that is not empty. */
  predicate IsToken(t: Token, lower: string -> string) {
    if t.key == "" then t.value != "" else lower(t.key) == t.key
  }

  lemma {:induction false} QuoteTextKeeps(s: string)
    ensures TextOf(QuoteText(s)) == s && (s != "" ==> PrintParts(QuoteText(s)) != "")
    ensures AreParts(QuoteText(s), false) && AreParts(QuoteText(s), true)
  {
    if s != "" {
      QuoteTextKeeps(s[1..]);
      assert [s[0]] + s[1..] == s;
    }
  }

  /** Any list of tokens, colons, blanks and both kinds of quote included, is the reading of
      some query. */
  lemma {:induction false} EveryTokenListHasAQuery(ts: seq<Token>, lower: string -> string)
    requires forall t :: t in ts ==> IsToken(t, lower)
    ensures Tokens(TrimSpace(PrintTokens(ts)), lower) == ts
  {
    QuoteAllKeeps(ts, lower);
    QuoteAllIsAsLong(ts);
    assert "" + PrintTokens(ts) + "" == PrintTokens(ts);
    PrintThenTokenize(QuoteAll(ts), Spaces(|ts|), "", "", lower);
  }

  lemma {:induction false} QuoteAllKeeps(ts: seq<Token>, lower: string -> string)
    requires forall t :: t in ts ==> IsToken(t, lower)
    ensures forall t :: t in QuoteAll(ts) ==> IsTyped(t)
    ensures MeaningOfAll(QuoteAll(ts), lower) == ts
  {
    if ts != [] {
      QuoteTextKeeps(ts[0].key);
      QuoteTextKeeps(ts[0].value);
      assert IsToken(ts[0], lower);
      QuoteAllKeeps(ts[1..], lower);
      assert [ts[0]] + ts[1..] == ts;
    }
  }

  lemma {:induction false} TokensAreTokens(s: string, lower: string -> string)
    requires forall k: string :: lower(lower(k)) == lower(k) && (lower(k) == "" ==> k == "")
    ensures forall t :: t in Tokens(s, lower) ==> IsToken(t, lower)
    decreases |s|
  {
    var t := TrimLeft(s);
    TrimLeftStartsTight(s);
    TrimLeftShortens(s);
    if t != "" {
      TokensAreTokens(ReadWord(t, NO_QUOTE, "", -1).rest, lower);
    }
  }

  /** Re-quoting what a query was read as, and reading it again, changes nothing: for every
      query, well quoted or not. */
  lemma RequotingIsStable(q: string, lower: string -> string)
    requires forall k: string :: lower(lower(k)) == lower(k) && (lower(k) == "" ==> k == "")
    ensures var ts := Tokens(TrimSpace(q), lower);
      Tokens(TrimSpace(PrintTokens(ts)), lower) == ts
  {
    TokensAreTokens(TrimSpace(q), lower);
    EveryTokenListHasAQuery(Tokens(TrimSpace(q), lower), lower);
  }
}
