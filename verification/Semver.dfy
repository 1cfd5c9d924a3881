/** The version order (internal/store/semver.go) that decides whether a resolved issue has
    regressed: where it is an order, and exactly where it stops being one. */
module Semver {
  import opened Common
  import opened Text

  /** strconv.ParseInt(s, 10, 64). */
  function ParseInt(s: string): Option<int> {
    if s == "" then None else
      var signed := s[0] == '+' || s[0] == '-';
      var digits := if signed then s[1..] else s;
      if digits == "" || !AllDigits(digits) then None else
        var n: int := Value(digits);
        if s[0] == '-' then if n <= MAX_INT64 + 1 then Some(-n) else None
        else if n <= MAX_INT64 then Some(n) else None
  }

  function TrimPrefix(s: string, c: char): string {
    if s != "" && s[0] == c then s[1..] else s
  }

  function Before(s: string, c: char): string {
    var i := IndexByte(s, c);
    if i >= 0 then s[..i] else s
  }

  function After(s: string, c: char): string {
    var i := IndexByte(s, c);
    if i >= 0 then s[i + 1..] else ""
  }

  /** A trimmed version without its leading v and its build metadata. */
  function Clean(v: string): string {
    Before(TrimPrefix(TrimPrefix(v, 'v'), 'V'), '+')
  }

  function Parts(v: string): (ps: seq<string>)
    ensures |ps| >= 1
  {
    Split(Before(Clean(v), '-'), '.')
  }

  function Pre(v: string): string {
    After(Clean(v), '-')
  }

  function CompareStrings(a: string, b: string): int {
    if Less(a, b) then -1 else if Less(b, a) then 1 else 0
  }

  function CompareInts(a: int, b: int): int {
    if a < b then -1 else if a > b then 1 else 0
  }

  function Part(ps: seq<string>, i: nat): Option<string> {
    if i < |ps| then Some(ps[i]) else None
  }

  /** A missing component is the number 0 and the text "". */
  function NumberOf(p: Option<string>): Option<int> {
    match p case None => Some(0) case Some(s) => ParseInt(s)
  }

  function TextOf(p: Option<string>): string {
    match p case None => "" case Some(s) => s
  }

  function CompareParts(p: Option<string>, q: Option<string>): int {
    if NumberOf(p).Some? && NumberOf(q).Some? then CompareInts(NumberOf(p).value, NumberOf(q).value)
    else CompareStrings(TextOf(p), TextOf(q))
  }

  function CompareFrom(ps: seq<string>, qs: seq<string>, i: nat, n: nat): int
    decreases n - i
  {
    if i >= n then 0 else
      var c := CompareParts(Part(ps, i), Part(qs, i));
      if c != 0 then c else CompareFrom(ps, qs, i + 1, n)
  }

  function MaxLength(ps: seq<string>, qs: seq<string>): nat {
    if |qs| > |ps| then |qs| else |ps|
  }

  /** A pre-release is below its release. */
  function ComparePre(p: string, q: string): int {
    if p == "" && q != "" then 1 else if p != "" && q == "" then -1 else CompareStrings(p, q)
  }

  function CompareTrimmed(v: string, w: string): int {
    var c := CompareFrom(Parts(v), Parts(w), 0, MaxLength(Parts(v), Parts(w)));
    if c != 0 then c else ComparePre(Pre(v), Pre(w))
  }

  function Compare(v: string, w: string): int {
    var v1, w1 := TrimSpace(v), TrimSpace(w);
    if v1 == w1 then 0 else if v1 == "" then -1 else if w1 == "" then 1 else CompareTrimmed(v1, w1)
  }

  /** Drops the leading v and the build metadata and parts the core from the pre-release. */
  method Strip(v: string) returns (core: string, pre: string)
    ensures Split(core, '.') == Parts(v) && pre == Pre(v)
  {
    hide Split, IndexByte;
    core := TrimPrefix(TrimPrefix(v, 'v'), 'V');
    var idx := IndexByte(core, '+');
    if idx != -1 {
      core := core[..idx];
    }
    pre := "";
    idx := IndexByte(core, '-');
    if idx != -1 {
      pre := core[idx + 1..];
      core := core[..idx];
    }
  }

  /** The comparison as the source computes it. */
  method CompareVersions(v1: string, v2: string) returns (r: int)
    ensures r == Compare(v1, v2)
  {
    hide TrimSpace, IndexByte, Split, ParseInt, Less, Parts, Pre;
    var a, b := TrimSpace(v1), TrimSpace(v2);
    if a == b {
      return 0;
    }
    if a == "" {
      return -1;
    }
    if b == "" {
      return 1;
    }
    var clean1, pre1 := Strip(a);
    var clean2, pre2 := Strip(b);
    var parts1, parts2 := Split(clean1, '.'), Split(clean2, '.');
    var maxLen := |parts1|;
    if |parts2| > maxLen {
      maxLen := |parts2|;
    }
    for i := 0 to maxLen
      invariant CompareFrom(parts1, parts2, 0, maxLen) == CompareFrom(parts1, parts2, i, maxLen)
    {
      var n1, n2 := Some(0), Some(0);
      var p1, p2 := "", "";
      if i < |parts1| {
        p1 := parts1[i];
        n1 := ParseInt(p1);
      }
      if i < |parts2| {
        p2 := parts2[i];
        n2 := ParseInt(p2);
      }
      if n1.Some? && n2.Some? {
        if n1.value < n2.value {
          return -1;
        }
        if n1.value > n2.value {
          return 1;
        }
      } else {
        if Less(p1, p2) {
          return -1;
        }
        if Less(p2, p1) {
          return 1;
        }
      }
    }
    if pre1 == "" && pre2 != "" {
      return 1;
    }
    if pre1 != "" && pre2 == "" {
      return -1;
    }
    if pre1 != "" && pre2 != "" {
      if Less(pre1, pre2) {
        return -1;
      }
      if Less(pre2, pre1) {
        return 1;
      }
    } else {
      LessTotal(pre1, pre2);
    }
    return 0;
  }

  // ----- On all strings -----

  lemma {:induction false} FromIsAntisymmetric(ps: seq<string>, qs: seq<string>, i: nat, n: nat)
    ensures CompareFrom(ps, qs, i, n) == -CompareFrom(qs, ps, i, n)
    decreases n - i
  {
    hide ParseInt, Less;
    if i < n {
      LessTotal(TextOf(Part(ps, i)), TextOf(Part(qs, i)));
      FromIsAntisymmetric(ps, qs, i + 1, n);
    }
  }

  /** Exchanging the arguments negates the answer, whatever the strings. */
  lemma CompareIsAntisymmetric(v: string, w: string)
    ensures Compare(v, w) == -Compare(w, v)
  {
    hide TrimSpace, Parts, Pre, Less;
    var a, b := TrimSpace(v), TrimSpace(w);
    FromIsAntisymmetric(Parts(a), Parts(b), 0, MaxLength(Parts(a), Parts(b)));
    LessTotal(Pre(a), Pre(b));
  }

  // ----- Where it is an order -----

  function Nines(k: nat): string {
    if k == 0 then "" else Nines(k - 1) + ['9']
  }

  /** The numeral that comes last in text order among those that fit 64 bits: 18 nines. */
  const LAST_NUMERAL: string := Nines(18)

  /** Component x at position i sorts against numbers the same way as text and as a value: it is
      a number itself, or its text is beyond every number's. Below all of them is beyond too, but
      only at the front, where no version lacks the component. */
  predicate OrderlyPart(x: string, i: nat) {
    ParseInt(x).Some? || Less(LAST_NUMERAL, x) || (i == 0 && Less(x, "0"))
  }

  predicate OrderlyParts(ps: seq<string>) {
    forall i :: 0 <= i < |ps| ==> OrderlyPart(ps[i], i)
  }

  predicate Orderly(v: string) {
    OrderlyParts(Parts(TrimSpace(v)))
  }

  datatype Key = Low(text: string) | Num(n: int) | High(text: string)

  function KeyOf(p: Option<string>): Key {
    if NumberOf(p).Some? then Num(NumberOf(p).value)
    else if Less(TextOf(p), "0") then Low(TextOf(p))
    else High(TextOf(p))
  }

  function CompareKeys(a: Key, b: Key): int {
    match (a, b)
    case (Low(s), Low(t)) => CompareStrings(s, t)
    case (Num(m), Num(n)) => CompareInts(m, n)
    case (High(s), High(t)) => CompareStrings(s, t)
    case (Low(_), _) => -1
    case (_, Low(_)) => 1
    case (Num(_), High(_)) => -1
    case (High(_), Num(_)) => 1
  }

  predicate Unsigned(s: string) {
    '+' !in s && '-' !in s
  }

  lemma {:induction false} NinesAreLast(t: string, s: string)
    requires (forall i :: 0 <= i < |t| ==> t[i] == '9') && AllDigits(s) && Less(t, s)
    ensures t <= s && |t| < |s|
  {
    if t != "" {
      NinesAreLast(t[1..], s[1..]);
      assert s == [s[0]] + s[1..] && t == [t[0]] + t[1..];
    }
  }

  lemma {:induction false} ValueOfPrefix(s: string, k: nat)
    requires k < |s|
    ensures Value(s) >= 10 * Value(s[..k])
  {
    if k < |s| - 1 {
      ValueOfPrefix(s[..|s| - 1], k);
      assert s[..|s| - 1][..k] == s[..k];
    }
  }

  lemma {:induction false} NinesValue(k: nat)
    ensures |Nines(k)| == k && Value(Nines(k)) == Pow10(k) - 1
    ensures forall i :: 0 <= i < k ==> Nines(k)[i] == '9'
  {
    if k > 0 {
      NinesValue(k - 1);
      assert Nines(k)[..k - 1] == Nines(k - 1);
    }
  }

  lemma Pow10Of18()
    ensures Pow10(18) == 1000000000000000000
  {
    assert Pow10(2) == 100;
    assert Pow10(4) == 10000;
    assert Pow10(6) == 1000000;
    assert Pow10(8) == 100000000;
    assert Pow10(10) == 10000000000;
    assert Pow10(12) == 1000000000000;
    assert Pow10(14) == 100000000000000;
    assert Pow10(16) == 10000000000000000;
  }

  /** Every number's text lies between "0" and the last numeral. */
  lemma NumeralsAreBetween(s: string)
    requires ParseInt(s).Some? && Unsigned(s)
    ensures !Less(s, "0") && !Less(LAST_NUMERAL, s)
  {
    assert s[0] in s;
    NinesValue(18);
    Pow10Of18();
    if Less(LAST_NUMERAL, s) {
      NinesAreLast(LAST_NUMERAL, s);
      assert s[..18] == LAST_NUMERAL;
      ValueOfPrefix(s, 18);
    }
  }

  lemma PartsAreUnsigned(v: string, i: nat)
    requires i < |Parts(v)|
    ensures Unsigned(Parts(v)[i])
  {
    var core := Before(Clean(v), '-');
    assert '-' !in core && '+' !in core;
    SplitPartsAreInside(core, '.', i);
  }

  lemma {:induction false} SplitPartsAreInside(s: string, sep: char, i: nat)
    requires i < |Split(s, sep)|
    ensures forall c :: c in Split(s, sep)[i] ==> c in s
    decreases |s|
  {
    hide IndexByte;
    var at := IndexByte(s, sep);
    if at >= 0 {
      var rest := s[at + 1..];
      assert Split(s, sep) == [s[..at]] + Split(rest, sep);
      hide Split;
      if i > 0 {
        SplitPartsAreInside(rest, sep, i - 1);
        assert Split(s, sep)[i] == Split(rest, sep)[i - 1];
      }
    }
  }

  predicate Comparable(p: Option<string>, i: nat) {
    match p case None => i > 0 case Some(x) => OrderlyPart(x, i) && Unsigned(x)
  }

  lemma NumeralBelowHigh(x: string, y: string)
    requires x == "" || (ParseInt(x).Some? && Unsigned(x))
    requires Less(LAST_NUMERAL, y)
    ensures Less(x, y)
  {
    hide ParseInt, Nines;
    if x != "" {
      NumeralsAreBetween(x);
      LessTotal(x, LAST_NUMERAL);
      if x != LAST_NUMERAL {
        LessTransitive(x, LAST_NUMERAL, y);
      }
    }
  }

  lemma LowBelowNumeral(x: string, y: string)
    requires Less(x, "0") && ParseInt(y).Some? && Unsigned(y)
    ensures Less(x, y)
  {
    hide ParseInt;
    NumeralsAreBetween(y);
    LessTotal("0", y);
    if y != "0" {
      LessTransitive(x, "0", y);
    }
  }

  lemma LowBelowHigh(x: string, y: string)
    requires Less(x, "0") && Less(LAST_NUMERAL, y)
    ensures Less(x, y) && !Less(y, "0")
  {
    NinesValue(18);
    assert Less("0", LAST_NUMERAL);
    LessTransitive("0", LAST_NUMERAL, y);
    LessTransitive(x, "0", y);
    LessTotal("0", y);
  }

  lemma LowIsInFront(p: Option<string>, i: nat)
    requires Comparable(p, i) && KeyOf(p).Low?
    ensures i == 0
  {
    if Less(LAST_NUMERAL, TextOf(p)) {
      LowBelowHigh(TextOf(p), TextOf(p));
    }
  }

  /** On orderly components the source's comparison is a comparison of keys. */
  lemma PartsCompareAsKeys(p: Option<string>, q: Option<string>, i: nat)
    requires Comparable(p, i) && Comparable(q, i)
    ensures CompareParts(p, q) == CompareKeys(KeyOf(p), KeyOf(q))
  {
    hide ParseInt, Nines, Unsigned, Less;
    var x, y := TextOf(p), TextOf(q);
    LessTotal(x, y);
    if KeyOf(p).Low? {
      LowIsInFront(p, i);
    }
    if KeyOf(q).Low? {
      LowIsInFront(q, i);
    }
    match (KeyOf(p), KeyOf(q)) {
      case (Num(_), High(_)) => NumeralBelowHigh(x, y);
      case (High(_), Num(_)) => NumeralBelowHigh(y, x);
      case (Low(_), Num(_)) => LowBelowNumeral(x, y);
      case (Num(_), Low(_)) => LowBelowNumeral(y, x);
      case (Low(_), High(_)) => LowBelowHigh(x, y);
      case (High(_), Low(_)) => LowBelowHigh(y, x);
      case _ =>
    }
  }

  lemma KeysAreOrdered(a: Key, b: Key, c: Key)
    requires CompareKeys(a, b) <= 0 && CompareKeys(b, c) <= 0
    ensures CompareKeys(a, c) <= 0
    ensures CompareKeys(a, c) == 0 ==> CompareKeys(a, b) == 0 && CompareKeys(b, c) == 0
    ensures CompareKeys(a, b) == 0 && CompareKeys(b, c) == 0 ==> CompareKeys(a, c) == 0
  {
    hide Less;
    match (a, b, c) {
      case (Low(s), Low(t), Low(u)) => StringsAreOrdered(s, t, u);
      case (High(s), High(t), High(u)) => StringsAreOrdered(s, t, u);
      case _ =>
    }
  }

  lemma StringsAreOrdered(s: string, t: string, u: string)
    requires CompareStrings(s, t) <= 0 && CompareStrings(t, u) <= 0
    ensures CompareStrings(s, u) <= 0
    ensures CompareStrings(s, u) == 0 ==> CompareStrings(s, t) == 0 && CompareStrings(t, u) == 0
    ensures CompareStrings(s, t) == 0 && CompareStrings(t, u) == 0 ==> CompareStrings(s, u) == 0
  {
    hide Less;
    LessTotal(s, t);
    LessTotal(t, u);
    LessTotal(s, u);
    if Less(s, t) && Less(t, u) {
      LessTransitive(s, t, u);
    }
  }

  ghost predicate ComparableParts(ps: seq<string>) {
    forall i: nat :: Comparable(Part(ps, i), i)
  }

  lemma {:induction false} FromIsTransitive(ps: seq<string>, qs: seq<string>, rs: seq<string>, i: nat, n: nat)
    requires ComparableParts(ps) && ComparableParts(qs) && ComparableParts(rs)
    requires CompareFrom(ps, qs, i, n) <= 0 && CompareFrom(qs, rs, i, n) <= 0
    ensures CompareFrom(ps, rs, i, n) <= 0
    ensures CompareFrom(ps, rs, i, n) == 0 ==> CompareFrom(ps, qs, i, n) == 0 && CompareFrom(qs, rs, i, n) == 0
    decreases n - i
  {
    hide CompareParts, KeyOf, CompareKeys, Comparable;
    if i < n {
      PartsCompareAsKeys(Part(ps, i), Part(qs, i), i);
      PartsCompareAsKeys(Part(qs, i), Part(rs, i), i);
      PartsCompareAsKeys(Part(ps, i), Part(rs, i), i);
      KeysAreOrdered(KeyOf(Part(ps, i)), KeyOf(Part(qs, i)), KeyOf(Part(rs, i)));
      if CompareParts(Part(ps, i), Part(qs, i)) == 0 && CompareParts(Part(qs, i), Part(rs, i)) == 0 {
        FromIsTransitive(ps, qs, rs, i + 1, n);
      }
    }
  }

  /** Comparing past both ends compares nothing with nothing. */
  lemma {:induction false} BoundIsIrrelevant(ps: seq<string>, qs: seq<string>, i: nat, m: nat, n: nat)
    requires MaxLength(ps, qs) <= m <= n
    ensures CompareFrom(ps, qs, i, m) == CompareFrom(ps, qs, i, n)
    decreases n - i
  {
    if i < n {
      BoundIsIrrelevant(ps, qs, i + 1, m, n);
      assert i >= m ==> CompareParts(Part(ps, i), Part(qs, i)) == 0;
    }
  }

  lemma OrderlyIsComparable(v: string)
    requires OrderlyParts(Parts(v))
    ensures ComparableParts(Parts(v))
  {
    forall i: nat
      ensures Comparable(Part(Parts(v), i), i)
    {
      if i < |Parts(v)| {
        PartsAreUnsigned(v, i);
      }
    }
  }

  /** On orderly versions the comparison is a total preorder: with antisymmetry, which holds of
      all strings, transitivity is all that is left to ask. */
  lemma CompareIsTransitive(u: string, v: string, w: string)
    requires Orderly(u) && Orderly(v) && Orderly(w)
    requires Compare(u, v) <= 0 && Compare(v, w) <= 0
    ensures Compare(u, w) <= 0
  {
    hide TrimSpace, Parts, Pre, Less, OrderlyParts, CompareFrom, ComparableParts;
    var a, b, c := TrimSpace(u), TrimSpace(v), TrimSpace(w);
    if a != b && b != c && a != c && a != "" && b != "" && c != "" {
      var ps, qs, rs := Parts(a), Parts(b), Parts(c);
      OrderlyIsComparable(a);
      OrderlyIsComparable(b);
      OrderlyIsComparable(c);
      var n := |ps| + |qs| + |rs|;
      BoundIsIrrelevant(ps, qs, 0, MaxLength(ps, qs), n);
      BoundIsIrrelevant(qs, rs, 0, MaxLength(qs, rs), n);
      BoundIsIrrelevant(ps, rs, 0, MaxLength(ps, rs), n);
      FromIsTransitive(ps, qs, rs, 0, n);
      FromIsAntisymmetric(ps, qs, 0, n);
      if ComparePre(Pre(a), Pre(b)) <= 0 && ComparePre(Pre(b), Pre(c)) <= 0 {
        PreIsOrdered(Pre(a), Pre(b), Pre(c));
      }
    }
  }

  lemma PreIsOrdered(p: string, q: string, r: string)
    requires ComparePre(p, q) <= 0 && ComparePre(q, r) <= 0
    ensures ComparePre(p, r) <= 0
  {
    hide Less;
    if p != "" && q != "" && r != "" {
      StringsAreOrdered(p, q, r);
    } else {
      LessTotal("", "");
    }
  }

  // ----- Where it is not -----

  function Zeros(j: nat): (z: string)
    ensures |z| == j && forall i :: 0 <= i < j ==> z[i] == '0'
  {
    if j == 0 then "" else Zeros(j - 1) + ['0']
  }

  lemma {:induction false} ValueOfZeros(j: nat, t: string)
    ensures Value(Zeros(j) + t) == Value(t)
    decreases j, |t|
  {
    if t != "" {
      assert (Zeros(j) + t)[..j + |t| - 1] == Zeros(j) + t[..|t| - 1];
      ValueOfZeros(j, t[..|t| - 1]);
    } else if j > 0 {
      assert Zeros(j) + t == Zeros(j) && Zeros(j)[..j - 1] == Zeros(j - 1) + "";
      ValueOfZeros(j - 1, "");
    } else {
      assert Zeros(0) + t == "";
    }
  }

  lemma {:induction false} ValueOfPower(k: nat)
    ensures Value("1" + Zeros(k)) == Pow10(k)
  {
    if k > 0 {
      assert ("1" + Zeros(k))[..k] == "1" + Zeros(k - 1);
      ValueOfPower(k - 1);
    } else {
      assert "1" + Zeros(0) == "1" && "1"[..0] == "";
    }
  }

  lemma {:induction false} LessAfterZeros(j: nat, a: string, b: string)
    ensures Less(Zeros(j) + a, Zeros(j) + b) == Less(a, b)
  {
    if j == 0 {
      assert Zeros(0) + a == a && Zeros(0) + b == b;
    } else {
      assert (Zeros(j) + a)[1..] == Zeros(j - 1) + a && (Zeros(j) + b)[1..] == Zeros(j - 1) + b;
      LessAfterZeros(j - 1, a, b);
    }
  }

  lemma {:induction false} LeadingZeros(x: string) returns (j: nat, rest: string)
    ensures x == Zeros(j) + rest && (rest == "" || rest[0] != '0')
  {
    if x != "" && x[0] == '0' {
      var k;
      k, rest := LeadingZeros(x[1..]);
      j := k + 1;
      assert x == Zeros(j) + rest;
    } else {
      j, rest := 0, x;
    }
  }

  /** A numeral wide of nothing but leading zeros is a number. */
  lemma DigitsParse(s: string)
    requires s != "" && AllDigits(s) && Value(s) <= MAX_INT64
    ensures ParseInt(s) == Some(Value(s)) && Unsigned(s)
  {
  }

  lemma ZerosParse(j: nat)
    requires j > 0
    ensures ParseInt(Zeros(j)) == Some(0) && Unsigned(Zeros(j))
  {
    ValueOfZeros(j, "");
    assert Zeros(j) == Zeros(j) + "";
    DigitsParse(Zeros(j));
  }

  lemma EmptyIsLeast(x: string)
    ensures !Less(x, "") && Less("", "0") && (x != "" ==> Less("", x))
  {
  }

  /** For an unorderly component there are two numbers b <= a, or b and a lack, that it comes
      between the wrong way round. */
  lemma {:induction false} PartBreaks(x: string, i: nat) returns (b: string, a: Option<string>)
    requires !OrderlyPart(x, i)
    ensures ParseInt(b).Some? && Unsigned(b)
    ensures a.None? ==> i > 0
    ensures a.Some? ==> ParseInt(a.value).Some? && Unsigned(a.value)
    ensures CompareParts(Some(b), a) <= 0
    ensures CompareParts(a, Some(x)) < 0 || (CompareParts(a, Some(x)) == 0 && a.None?)
    ensures CompareParts(Some(b), Some(x)) > 0
  {
    DigitsParse("0");
    assert Value("0") == 0;
    EmptyIsLeast(x);
    hide ParseInt, Less, Value, Nines, Unsigned;
    var j, rest := LeadingZeros(x);
    LessTotal("0", x);
    if Less(x, "0") {
      b, a := "0", None;
    } else if rest == "" {
      assert x == Zeros(j) && j > 0;
      ZerosParse(j);
      assert false;
    } else if rest[0] > '0' {
      b, a := BreakAbove(x, j, rest);
    } else {
      b, a := BreakBelow(x, j, rest);
    }
  }

  lemma {:induction false} BreakAbove(x: string, j: nat, rest: string) returns (b: string, a: Option<string>)
    requires x == Zeros(j) + rest && rest != "" && rest[0] > '0'
    requires ParseInt(x).None? && !Less(LAST_NUMERAL, x)
    ensures a.Some? && ParseInt(b).Some? && Unsigned(b) && ParseInt(a.value).Some? && Unsigned(a.value)
    ensures CompareParts(Some(b), a) <= 0 && CompareParts(a, Some(x)) < 0 && CompareParts(Some(b), Some(x)) > 0
  {
    hide ParseInt, Nines, Zeros, Unsigned;
    LastNumeralParses();
    LessTotal(x, LAST_NUMERAL);
    var q := BigNumeral(j);
    LessAfterZeros(j, "0" + ("1" + Zeros(18)), rest);
    LessTotal(LAST_NUMERAL, x);
    b, a := LAST_NUMERAL, Some(q);
  }

  lemma LastNumeralParses()
    ensures ParseInt(LAST_NUMERAL) == Some(999999999999999999) && Unsigned(LAST_NUMERAL)
  {
    NinesValue(18);
    Pow10Of18();
    DigitsParse(LAST_NUMERAL);
  }

  /** A larger number than the last numeral, however many zeros its text begins with. */
  lemma BigNumeral(j: nat) returns (q: string)
    ensures q == Zeros(j) + ("0" + ("1" + Zeros(18)))
    ensures ParseInt(q) == Some(1000000000000000000) && Unsigned(q)
  {
    ValueOfPower(18);
    Pow10Of18();
    hide Value, ParseInt, Pow10, Unsigned;
    var big := "1" + Zeros(18);
    q := Zeros(j) + ("0" + big);
    assert q == Zeros(j + 1) + big;
    ValueOfZeros(j + 1, big);
    DigitsParse(q);
  }

  lemma {:induction false} BreakBelow(x: string, j: nat, rest: string) returns (b: string, a: Option<string>)
    requires x == Zeros(j) + rest && rest != "" && rest[0] < '0' && !Less(x, "0")
    requires ParseInt(x).None?
    ensures a.Some? && ParseInt(b).Some? && Unsigned(b) && ParseInt(a.value).Some? && Unsigned(a.value)
    ensures CompareParts(Some(b), a) <= 0 && CompareParts(a, Some(x)) < 0 && CompareParts(Some(b), Some(x)) > 0
  {
    assert j > 0;
    ZerosParse(j);
    ZerosParse(j + 1);
    assert Zeros(j) == Zeros(j) + "" && Zeros(j + 1) == Zeros(j) + "0";
    LessAfterZeros(j, "", rest);
    LessAfterZeros(j, rest, "0");
    LessTotal(x, Zeros(j + 1));
    b, a := Zeros(j + 1), Some(Zeros(j));
  }

  /** A version with the given components and pre-release. */
  function Build(ps: seq<string>, pre: string): string
    requires |ps| >= 1
  {
    "vV" + Join(ps, '.') + "-" + pre + "+"
  }

  predicate PlainParts(ps: seq<string>) {
    |ps| >= 1 && forall p :: p in ps ==> Unsigned(p) && '.' !in p
  }

  lemma {:induction false} JoinIsUnsigned(ps: seq<string>)
    requires PlainParts(ps)
    ensures Unsigned(Join(ps, '.'))
  {
    assert ps[0] in ps;
    if |ps| > 1 {
      JoinIsUnsigned(ps[1..]);
    }
  }

  lemma BuildIsReadBack(ps: seq<string>, pre: string)
    requires PlainParts(ps) && '+' !in pre
    ensures TrimSpace(Build(ps, pre)) == Build(ps, pre) != ""
    ensures Parts(Build(ps, pre)) == ps && Pre(Build(ps, pre)) == pre
  {
    hide Split, IsSpace;
    var v, core := Build(ps, pre), Join(ps, '.');
    assert Tight(v) by { assert !IsSpace('v') && !IsSpace('+') by { NotBlank(); } }
    TrimSpaceKeepsTight(v);
    JoinIsUnsigned(ps);
    assert v[1..][1..] == core + "-" + pre + "+";
    var tagged := core + "-" + pre;
    assert tagged + "+" == tagged + ['+'] + "" == v[1..][1..];
    IndexAfterFreePart(tagged, '+', "");
    assert Clean(v) == tagged;
    assert tagged == core + ['-'] + pre;
    IndexAfterFreePart(core, '-', pre);
    assert Before(tagged, '-') == core && After(tagged, '-') == pre;
    SplitUndoesJoin(ps, '.');
  }

  lemma NotBlank()
    ensures !IsSpace('v') && !IsSpace('+')
  {
  }

  lemma {:induction false} SamePrefixComparesBelow(ps: seq<string>, qs: seq<string>, k: nat, i: nat, n: nat)
    requires k <= i <= |ps| && i <= |qs| && ps[..i] == qs[..i] && i <= n
    ensures CompareFrom(ps, qs, k, n) == CompareFrom(ps, qs, i, n)
    decreases i - k
  {
    if k < i {
      assert ps[k] == ps[..i][k] == qs[k];
      LessTotal(ps[k], qs[k]);
      SamePrefixComparesBelow(ps, qs, k + 1, i, n);
    }
  }

  /** Nothing is no greater than any unsigned component. */
  lemma {:induction false} MissingIsLeast(ps: seq<string>, qs: seq<string>, i: nat, n: nat)
    requires i >= |ps| && forall k :: i <= k < |qs| ==> Unsigned(qs[k])
    ensures CompareFrom(ps, qs, i, n) <= 0
    decreases n - i
  {
    if i < n {
      if i < |qs| {
        assert qs[i] != "" ==> qs[i][0] in qs[i];
      }
      MissingIsLeast(ps, qs, i + 1, n);
    }
  }

  /** Comparing two versions that are not blank is comparing their components, then their
      pre-releases, even when they are the same text. */
  lemma CompareIsByParts(v: string, w: string, n: nat)
    requires TrimSpace(v) != "" && TrimSpace(w) != ""
    requires MaxLength(Parts(TrimSpace(v)), Parts(TrimSpace(w))) <= n
    ensures var v1, w1 := TrimSpace(v), TrimSpace(w);
      var c := CompareFrom(Parts(v1), Parts(w1), 0, n);
      Compare(v, w) == if c != 0 then c else ComparePre(Pre(v1), Pre(w1))
  {
    hide TrimSpace, Parts, Pre, CompareParts, Less;
    var v1, w1 := TrimSpace(v), TrimSpace(w);
    var ps, qs := Parts(v1), Parts(w1);
    BoundIsIrrelevant(ps, qs, 0, MaxLength(ps, qs), n);
    if v1 == w1 {
      SamePrefixComparesBelow(ps, qs, 0, |ps|, n);
      FromIsAntisymmetric(ps, ps, 0, n);
      LessTotal(Pre(v1), Pre(v1));
    }
  }

  lemma {:induction false} FirstUnorderly(ps: seq<string>) returns (i: nat)
    requires !OrderlyParts(ps)
    ensures i < |ps| && !OrderlyPart(ps[i], i)
    ensures forall k :: 0 <= k < i ==> OrderlyPart(ps[k], k)
  {
    hide OrderlyPart;
    i := 0;
    while OrderlyPart(ps[i], i)
      invariant i < |ps| && forall k :: 0 <= k < i ==> OrderlyPart(ps[k], k)
      decreases |ps| - i
    {
      i := i + 1;
    }
  }

  lemma PartsArePlain(t: string)
    ensures PlainParts(Parts(t)) && '+' !in Pre(t)
  {
    hide Split, Unsigned, IndexByte;
    forall p | p in Parts(t)
      ensures Unsigned(p) && '.' !in p
    {
      var i :| 0 <= i < |Parts(t)| && Parts(t)[i] == p;
      PartsAreUnsigned(t, i);
      SplitPartsAreFree(Before(Clean(t), '-'), '.');
    }
    assert '+' !in Clean(t);
  }

  lemma NumberIsPlain(x: string)
    requires ParseInt(x).Some? && Unsigned(x)
    ensures '.' !in x
  {
    assert x[0] in x;
  }

  /** The neighbours' components: v's up to the first unorderly one, then the chosen numbers. */
  lemma NeighboursArePlain(ps: seq<string>, i: nat, x: string)
    requires PlainParts(ps) && i < |ps|
    requires forall k :: 0 <= k < i ==> OrderlyPart(ps[k], k)
    ensures i > 0 ==> PlainParts(ps[..i]) && OrderlyParts(ps[..i])
    ensures ParseInt(x).Some? && Unsigned(x) ==> PlainParts(ps[..i] + [x]) && OrderlyParts(ps[..i] + [x])
  {
    hide ParseInt, Less, Unsigned;
    if ParseInt(x).Some? && Unsigned(x) {
      NumberIsPlain(x);
    }
  }

  lemma NeighboursCompare(bs: seq<string>, as': seq<string>, ps: seq<string>, i: nat, n: nat)
    requires PlainParts(ps) && i < |ps| && |bs| == i + 1 && i <= |as'| <= i + 1 && |ps| <= n
    requires bs[..i] == ps[..i] == as'[..i]
    requires PlainParts(as')
    requires CompareParts(Part(bs, i), Part(as', i)) <= 0
    requires CompareParts(Part(as', i), Part(ps, i)) <= 0
    requires CompareParts(Part(bs, i), Part(ps, i)) > 0
    ensures CompareFrom(bs, as', 0, n) <= 0 && CompareFrom(as', ps, 0, n) <= 0 && CompareFrom(bs, ps, 0, n) > 0
  {
    hide CompareParts, Unsigned;
    SamePrefixComparesBelow(bs, as', 0, i, n);
    SamePrefixComparesBelow(as', ps, 0, i, n);
    SamePrefixComparesBelow(bs, ps, 0, i, n);
    MissingIsLeast(bs, as', i + 1, n);
    MissingIsLeast(as', ps, i + 1, n);
  }

  /** A version that is not orderly breaks the order: it has two orderly neighbours b <= a with
      a at most v and b above it. */
  lemma UnorderlyBreaks(v: string) returns (a: string, b: string)
    requires !Orderly(v)
    ensures Orderly(a) && Orderly(b)
    ensures Compare(b, a) <= 0 && Compare(a, v) <= 0 && Compare(b, v) > 0
  {
    hide Less, ParseInt, Parts, Pre, Build, CompareParts, TrimSpace, CompareFrom;
    hide OrderlyPart, PlainParts, Unsigned, Compare;
    var t := TrimSpace(v);
    var ps, pre := Parts(t), Pre(t);
    PartsArePlain(t);
    var i := FirstUnorderly(ps);
    var bPart, aPart := PartBreaks(ps[i], i);
    NeighboursArePlain(ps, i, bPart);
    NeighboursArePlain(ps, i, if aPart.Some? then aPart.value else "");
    var bs := ps[..i] + [bPart];
    var as' := if aPart.Some? then ps[..i] + [aPart.value] else ps[..i];
    BuildIsReadBack(bs, pre);
    BuildIsReadBack(as', pre);
    a, b := Build(as', pre), Build(bs, pre);
    assert Part(bs, i) == Some(bPart) && Part(as', i) == aPart && Part(ps, i) == Some(ps[i]);
    EmptyIsOrderly();
    NeighboursCompare(bs, as', ps, i, |ps|);
    CompareIsByParts(b, a, |ps|);
    CompareIsByParts(a, v, |ps|);
    CompareIsByParts(b, v, |ps|);
    LessTotal(pre, pre);
    assert ComparePre(pre, pre) == 0;
  }

  lemma EmptyIsOrderly()
    ensures OrderlyParts(Parts(""))
  {
    assert Clean("") == "" && Before("", '-') == "";
    assert Split("", '.') == [""];
  }

  /** v may join the orderly versions without breaking transitivity. */
  ghost predicate Fits(v: string) {
    forall a, b :: Orderly(a) && Orderly(b) && Compare(b, a) <= 0 && Compare(a, v) <= 0 ==> Compare(b, v) <= 0
  }

  /** The exact domain: a version keeps the order transitive beside the orderly ones if and only
      if it is orderly itself. */
  lemma OrderlyIsExact(v: string)
    ensures Fits(v) <==> Orderly(v)
  {
    hide Orderly, Compare;
    if Orderly(v) {
      forall a, b | Orderly(a) && Orderly(b) && Compare(b, a) <= 0 && Compare(a, v) <= 0
        ensures Compare(b, v) <= 0
      {
        CompareIsTransitive(b, a, v);
      }
    } else {
      var a, b := UnorderlyBreaks(v);
    }
  }

  /** What the components alone decide. */
  function CompareCore(v: string, w: string): int {
    var ps, qs := Parts(TrimSpace(v)), Parts(TrimSpace(w));
    CompareFrom(ps, qs, 0, MaxLength(ps, qs))
  }

  /** Two versions, not blank, whose components compare as equal: a pre-release is below its
      release, and two of them compare as plain text. */
  lemma PreReleaseDecides(v: string, w: string)
    requires TrimSpace(v) != "" && TrimSpace(w) != "" && CompareCore(v, w) == 0
    ensures var p, q := Pre(TrimSpace(v)), Pre(TrimSpace(w));
      Compare(v, w) ==
        if q == "" then (if p == "" then 0 else -1)
        else if p == "" then 1
        else CompareStrings(p, q)
  {
    hide TrimSpace, Parts, Pre, Less, CompareFrom, Compare;
    CompareIsByParts(v, w, MaxLength(Parts(TrimSpace(v)), Parts(TrimSpace(w))));
    LessTotal("", "");
  }

  lemma {:induction false} ZerosAreNothing(ps: seq<string>, qs: seq<string>, i: nat, n: nat)
    requires |ps| <= i <= n && |qs| <= n
    ensures CompareFrom(ps, qs, i, n) == 0 <==>
      forall k :: i <= k < |qs| ==> qs[k] == "" || ParseInt(qs[k]) == Some(0)
    decreases n - i
  {
    hide ParseInt;
    if i < n {
      ZerosAreNothing(ps, qs, i + 1, n);
      if i < |qs| {
        assert ParseInt("") == None by { EmptyIsNoNumber(); }
        EmptyIsLeast(qs[i]);
        assert CompareParts(Part(ps, i), Part(qs, i)) == 0 <==> qs[i] == "" || ParseInt(qs[i]) == Some(0);
      }
    }
  }

  lemma EmptyIsNoNumber()
    ensures ParseInt("") == None
  {
  }

  /** A missing component counts as 0: versions where one goes on after the other's components
      compare as equal, pre-releases being the same, exactly if all it adds is zeros, however
      written, or empty. */
  lemma TrailingZeroIsNothing(v: string, w: string, more: seq<string>)
    requires TrimSpace(v) != "" && TrimSpace(w) != "" && Pre(TrimSpace(v)) == Pre(TrimSpace(w))
    requires Parts(TrimSpace(w)) == Parts(TrimSpace(v)) + more
    ensures Compare(v, w) == 0 <==> forall z :: z in more ==> z == "" || ParseInt(z) == Some(0)
  {
    hide TrimSpace, Parts, Pre, Less, ParseInt, Compare, CompareParts;
    var ps, qs := Parts(TrimSpace(v)), Parts(TrimSpace(w));
    CompareIsByParts(v, w, |qs|);
    SamePrefixComparesBelow(ps, qs, 0, |ps|, |qs|);
    ZerosAreNothing(ps, qs, |ps|, |qs|);
    assert forall k :: |ps| <= k < |qs| ==> qs[k] == more[k - |ps|];
    assert forall k :: 0 <= k < |more| ==> more[k] == qs[|ps| + k];
    LessTotal(Pre(TrimSpace(v)), Pre(TrimSpace(v)));
  }

  // ----- Against the standard -----

  predicate IdentifierChar(c: char) {
    IsDigit(c) || 'A' <= c <= 'Z' || 'a' <= c <= 'z' || c == '-'
  }

  /** Section 9: identifiers are not empty, and numbers have no leading zeros. */
  predicate Identifier(x: string) {
    && x != "" && (forall i :: 0 <= i < |x| ==> IdentifierChar(x[i]))
    && (AllDigits(x) && |x| > 1 ==> x[0] != '0')
  }

  predicate Identifiers(ps: seq<string>) {
    |ps| >= 1 && forall i :: 0 <= i < |ps| ==> Identifier(ps[i])
  }

  /** Section 11: numbers by value and below everything else, the rest as text. */
  function CompareIdentifiers(x: string, y: string): int {
    if AllDigits(x) && AllDigits(y) then CompareInts(Value(x), Value(y))
    else if AllDigits(x) then -1
    else if AllDigits(y) then 1
    else CompareStrings(x, y)
  }

  /** Section 11: by the first different identifiers; of two otherwise equal lists the longer one
      is greater. */
  function Precedence(ps: seq<string>, qs: seq<string>): int {
    if ps == [] then (if qs == [] then 0 else -1)
    else if qs == [] then 1
    else
      var c := CompareIdentifiers(ps[0], qs[0]);
      if c != 0 then c else Precedence(ps[1..], qs[1..])
  }

  /** x is cut off by a dot where y goes on with a hyphen, which comes before the dot. */
  predicate CutBeforeHyphen(x: string, goesOn: bool, y: string) {
    goesOn && |x| < |y| && y[..|x|] == x && y[|x|] == '-'
  }

  /** Of two different identifiers: neither are they numbers of different length the wrong way
      round in text order, nor a number after a text, nor cut before a hyphen. */
  predicate SortsAlike(x: string, xGoesOn: bool, y: string, yGoesOn: bool) {
    && !(AllDigits(x) && AllDigits(y) && |x| < |y| && Less(y, x))
    && !(AllDigits(x) && AllDigits(y) && |y| < |x| && Less(x, y))
    && !(AllDigits(x) && !AllDigits(y) && Less(y, x))
    && !(AllDigits(y) && !AllDigits(x) && Less(x, y))
    && !CutBeforeHyphen(x, xGoesOn, y)
    && !CutBeforeHyphen(y, yGoesOn, x)
  }

  /** The first pair of different identifiers, if there is one, sorts alike. */
  predicate FirstPairSortsAlike(ps: seq<string>, qs: seq<string>) {
    ps != [] && qs != [] ==>
      if ps[0] == qs[0] then FirstPairSortsAlike(ps[1..], qs[1..])
      else SortsAlike(ps[0], |ps| > 1, qs[0], |qs| > 1)
  }

  // ----- Text order of joined identifiers -----

  /** Texts that differ before either ends sort by the difference, whatever follows. */
  lemma {:induction false} LessApart(x: string, y: string, a: string, b: string)
    requires !(x <= y) && !(y <= x)
    ensures Less(x + a, y + b) == Less(x, y)
  {
    assert (x + a)[1..] == x[1..] + a && (y + b)[1..] == y[1..] + b;
    if x[0] == y[0] {
      assert x == [x[0]] + x[1..] && y == [y[0]] + y[1..];
      LessApart(x[1..], y[1..], a, b);
    }
  }

  /** What follows an identifier in its list: nothing, or a dot and the others. */
  function Tail(ps: seq<string>): string
    requires |ps| >= 1
  {
    if |ps| == 1 then "" else "." + Join(ps[1..], '.')
  }

  lemma JoinIsHeadAndTail(ps: seq<string>)
    requires |ps| >= 1
    ensures Join(ps, '.') == ps[0] + Tail(ps)
  {
    hide Join;
    if |ps| > 1 {
      JoinCons(ps[0], ps[1..], '.');
      assert ps == [ps[0]] + ps[1..];
    } else {
      JoinOfOne(ps[0], '.');
      assert ps == [ps[0]];
    }
  }

  /** x, with what follows it, against a longer identifier that begins with x. */
  lemma CutAgainstLonger(x: string, a: string, y: string, b: string, goesOn: bool)
    requires x < y && Identifier(y) && (if goesOn then a != "" && a[0] == '.' else a == "")
    ensures Less(x + a, y + b) == !CutBeforeHyphen(x, goesOn, y)
    ensures Less(y + b, x + a) == CutBeforeHyphen(x, goesOn, y)
  {
    var rest := y[|x|..];
    assert y == x + rest && y + b == x + (rest + b) && y[..|x|] == x;
    LessAfter(x, a, rest + b);
    LessAfter(x, rest + b, a);
    assert rest[0] == y[|x|] && (rest + b)[0] == rest[0];
    assert IdentifierChar(y[|x|]);
  }

  /** A longer number without leading zeros is greater. */
  lemma {:induction false} ValueOfLonger(x: string, y: string)
    requires Identifier(x) && Identifier(y) && AllDigits(x) && AllDigits(y) && |x| < |y|
    ensures Value(x) < Value(y)
  {
    ValueBelowPower(x);
    ValueAbovePower(y);
    PowerGrows(|x|, |y| - 1);
  }

  lemma {:induction false} ValueBelowPower(x: string)
    ensures Value(x) < Pow10(|x|)
  {
    if x != "" {
      ValueBelowPower(x[..|x| - 1]);
    }
  }

  lemma {:induction false} ValueAbovePower(y: string)
    requires y != "" && '1' <= y[0] <= '9'
    ensures Value(y) >= Pow10(|y| - 1)
  {
    if |y| > 1 {
      ValueAbovePower(y[..|y| - 1]);
    } else {
      assert y[..0] == "";
    }
  }

  lemma {:induction false} PowerGrows(m: nat, n: nat)
    requires m <= n
    ensures Pow10(m) <= Pow10(n)
  {
    if m < n {
      PowerGrows(m, n - 1);
    }
  }

  /** Numbers of one length sort as text and by value alike. */
  lemma {:induction false} ValueOfEqualLength(x: string, y: string)
    requires |x| == |y| && AllDigits(x) && AllDigits(y) && Less(x, y)
    ensures Value(x) < Value(y)
  {
    var n := |x| - 1;
    var a, b := x[..n], y[..n];
    assert x == a + [x[n]] && y == b + [y[n]];
    LessTotal(a, b);
    if a == b {
      LessAfter(a, [x[n]], [y[n]]);
    } else if Less(a, b) {
      ValueOfEqualLength(a, b);
    } else {
      LessBefore(b, a, [y[n]], [x[n]]);
      LessTotal(x, y);
      assert false;
    }
  }

  /** Different identifiers are never of equal precedence, and with x before y the text order of
      the identifiers agrees unless SortsAlike forbids it. */
  lemma IdentifiersAreStrict(x: string, y: string)
    requires Identifier(x) && Identifier(y) && Less(x, y)
    ensures CompareIdentifiers(x, y) ==
      if AllDigits(y) && (AllDigits(x) ==> |y| < |x|) then 1 else -1
  {
    LessTotal(x, y);
    if AllDigits(x) && AllDigits(y) {
      if |x| < |y| {
        ValueOfLonger(x, y);
      } else if |y| < |x| {
        ValueOfLonger(y, x);
      } else {
        ValueOfEqualLength(x, y);
      }
    }
  }

  /** The first different identifiers: text order, with what follows, against precedence. */
  lemma PairSortsAlike(x: string, a: string, xGoesOn: bool, y: string, b: string, yGoesOn: bool)
    requires Identifier(x) && Identifier(y) && Less(x, y)
    requires if xGoesOn then a != "" && a[0] == '.' else a == ""
    requires if yGoesOn then b != "" && b[0] == '.' else b == ""
    ensures CompareStrings(x + a, y + b) == CompareIdentifiers(x, y) <==> SortsAlike(x, xGoesOn, y, yGoesOn)
  {
    hide Less, CompareIdentifiers, Identifier;
    LessTotal(x, y);
    LessTotal(x + a, y + b);
    IdentifiersAreStrict(x, y);
    PrefixIsLess(x, y);
    if x <= y {
      CutAgainstLonger(x, a, y, b, xGoesOn);
    } else {
      LessApart(x, y, a, b);
    }
  }

  /** What is less does not go on where the other stops. */
  lemma {:induction false} PrefixIsLess(x: string, y: string)
    requires Less(x, y)
    ensures !(y <= x) && (x <= y ==> x < y)
  {
    if x != "" && x[0] == y[0] {
      PrefixIsLess(x[1..], y[1..]);
      assert x == [x[0]] + x[1..] && y == [y[0]] + y[1..];
    }
  }

  lemma SortsAlikeIsSymmetric(x: string, xGoesOn: bool, y: string, yGoesOn: bool)
    ensures SortsAlike(x, xGoesOn, y, yGoesOn) == SortsAlike(y, yGoesOn, x, xGoesOn)
  {
  }

  lemma IdentifiersAreAntisymmetric(x: string, y: string)
    ensures CompareIdentifiers(x, y) == -CompareIdentifiers(y, x)
    ensures CompareStrings(x, y) == -CompareStrings(y, x)
  {
    hide Less;
    LessTotal(x, y);
  }

  /** Text order is the precedence of the standard exactly if the first pair of different
      identifiers sorts alike. */
  lemma {:induction false} TextIsPrecedence(ps: seq<string>, qs: seq<string>)
    requires Identifiers(ps) && Identifiers(qs)
    ensures CompareStrings(Join(ps, '.'), Join(qs, '.')) == Precedence(ps, qs) <==> FirstPairSortsAlike(ps, qs)
    decreases |ps|, 1
  {
    hide Less, CompareIdentifiers, SortsAlike, Identifier, Join, Tail;
    var x, y, a, b := ps[0], qs[0], Tail(ps), Tail(qs);
    JoinIsHeadAndTail(ps);
    JoinIsHeadAndTail(qs);
    TailBegins(ps);
    TailBegins(qs);
    LessTotal(x, y);
    if Less(x, y) {
      PairSortsAlike(x, a, |ps| > 1, y, b, |qs| > 1);
      IdentifiersDiffer(x, y);
    } else if Less(y, x) {
      PairSortsAlike(y, b, |qs| > 1, x, a, |ps| > 1);
      SortsAlikeIsSymmetric(x, |ps| > 1, y, |qs| > 1);
      IdentifiersAreAntisymmetric(x, y);
      IdentifiersAreAntisymmetric(x + a, y + b);
      IdentifiersDiffer(y, x);
    } else {
      SameHead(ps, qs);
    }
  }

  lemma IdentifiersDiffer(x: string, y: string)
    requires Identifier(x) && Identifier(y) && Less(x, y)
    ensures CompareIdentifiers(x, y) != 0
  {
    hide CompareIdentifiers, Less;
    IdentifiersAreStrict(x, y);
  }

  lemma TailBegins(ps: seq<string>)
    requires |ps| >= 1
    ensures if |ps| > 1 then Tail(ps) != "" && Tail(ps)[0] == '.' else Tail(ps) == ""
  {
  }

  lemma {:induction false} SameHead(ps: seq<string>, qs: seq<string>)
    requires Identifiers(ps) && Identifiers(qs) && ps[0] == qs[0]
    ensures CompareStrings(ps[0] + Tail(ps), qs[0] + Tail(qs)) == Precedence(ps, qs) <==> FirstPairSortsAlike(ps, qs)
    decreases |ps|, 0
  {
    hide Identifier;
    var x, a, b := ps[0], Tail(ps), Tail(qs);
    SameComparesEqual(x);
    LessAfter(x, a, b);
    LessAfter(x, b, a);
    if |ps| > 1 && |qs| > 1 {
      var p, q := Join(ps[1..], '.'), Join(qs[1..], '.');
      LessAfter(".", p, q);
      LessAfter(".", q, p);
      TextIsPrecedence(ps[1..], qs[1..]);
    }
  }

  lemma SameComparesEqual(x: string)
    ensures CompareIdentifiers(x, x) == 0
  {
    LessTotal(x, x);
  }

  /** The source against section 11 of Semantic Versioning 2.0.0: two well-formed pre-releases of
      versions with equal components compare by the standard exactly if the first pair of
      different identifiers sorts alike. */
  lemma StandardOrderIsExact(v: string, w: string)
    requires TrimSpace(v) != "" && TrimSpace(w) != "" && CompareCore(v, w) == 0
    requires Pre(TrimSpace(v)) != "" && Pre(TrimSpace(w)) != ""
    requires Identifiers(Split(Pre(TrimSpace(v)), '.')) && Identifiers(Split(Pre(TrimSpace(w)), '.'))
    ensures var ps, qs := Split(Pre(TrimSpace(v)), '.'), Split(Pre(TrimSpace(w)), '.');
      Compare(v, w) == Precedence(ps, qs) <==> FirstPairSortsAlike(ps, qs)
  {
    hide TrimSpace, Pre, CompareCore, Compare, Split, Join, Less, Identifiers, FirstPairSortsAlike, Precedence;
    var p, q := Pre(TrimSpace(v)), Pre(TrimSpace(w));
    PreReleaseDecides(v, w);
    JoinUndoesSplit(p, '.');
    JoinUndoesSplit(q, '.');
    TextIsPrecedence(Split(p, '.'), Split(q, '.'));
  }

  // ----- Versions as they are written -----

  /** A marker, numbers between dots, a pre-release after a hyphen and build metadata after a plus;
      all but the numbers may be missing. */
  datatype Form = Form(marker: string, numbers: seq<string>, pre: string, build: string)

  predicate IsForm(f: Form) {
    && f.marker in ["", "v", "V", "vV"]
    && |f.numbers| >= 1 && (forall x :: x in f.numbers ==> x != "" && AllDigits(x) && Value(x) <= MAX_INT64)
    && (f.pre == "" || f.pre[0] == '-') && '+' !in f.pre
    && (f.build == "" || f.build[0] == '+')
    && Tight(Written(f))
  }

  function Written(f: Form): string
    requires |f.numbers| >= 1
  {
    f.marker + Join(f.numbers, '.') + f.pre + f.build
  }

  /** The k-th number; 0 for one that is missing. */
  function NumberAt(f: Form, k: nat): nat {
    if k < |f.numbers| then Value(f.numbers[k]) else 0
  }

  predicate AgreeBefore(f: Form, g: Form, k: nat) {
    forall j :: 0 <= j < k ==> NumberAt(f, j) == NumberAt(g, j)
  }

  lemma NumbersArePlain(f: Form)
    requires IsForm(f)
    ensures PlainParts(f.numbers) && Unsigned(Join(f.numbers, '.'))
    ensures Join(f.numbers, '.') != "" && IsDigit(Join(f.numbers, '.')[0])
  {
    hide Value, Tight, Written;
    forall x | x in f.numbers ensures Unsigned(x) && '.' !in x {
      assert forall c :: c in x ==> IsDigit(c);
    }
    JoinIsUnsigned(f.numbers);
    assert f.numbers[0] in f.numbers;
    JoinBegins(f.numbers);
  }

  lemma CutsAt(p: string, c: char, rest: string)
    requires c !in p && (rest == "" || rest[0] == c)
    ensures Before(p + rest, c) == p && After(p + rest, c) == if rest == "" then "" else rest[1..]
  {
    if rest == "" {
      assert p + rest == p && IndexByte(p, c) == -1;
    } else {
      assert rest == [c] + rest[1..] && p + rest == p + [c] + rest[1..];
      IndexAfterFreePart(p, c, rest[1..]);
    }
  }

  lemma MarkerIsDropped(marker: string, t: string)
    requires marker in ["", "v", "V", "vV"] && t != "" && t[0] != 'v' && t[0] != 'V'
    ensures TrimPrefix(TrimPrefix(marker + t, 'v'), 'V') == t
  {
    if marker == "" {
      assert marker + t == t;
    } else if marker == "vV" {
      assert (marker + t)[1..] == "V" + t && ("V" + t)[1..] == t;
    } else {
      assert (marker + t)[1..] == t;
    }
  }

  lemma FormIsReadBack(f: Form, l: string, r: string)
    requires IsForm(f) && Blank(l) && Blank(r)
    ensures TrimSpace(l + Written(f) + r) == Written(f) != "" && Parts(Written(f)) == f.numbers
    ensures Pre(Written(f)) == if f.pre == "" then "" else f.pre[1..]
  {
    hide Split, IndexByte, Tight, TrimSpace, Join, Unsigned, Value, Before, After, Blank, TrimPrefix, PlainParts;
    NumbersArePlain(f);
    TrimSpaceOfPadded(l, Written(f), r);
    var core := Join(f.numbers, '.');
    UnsignedMeans(core);
    var body := core + f.pre + f.build;
    assert Written(f) == f.marker + body;
    MarkerIsDropped(f.marker, body);
    CutsAt(core + f.pre, '+', f.build);
    CutsAt(core, '-', f.pre);
    assert Clean(Written(f)) == core + f.pre;
    PlainSplit(f.numbers);
  }

  lemma PlainSplit(ps: seq<string>)
    requires PlainParts(ps)
    ensures Split(Join(ps, '.'), '.') == ps
  {
    SplitUndoesJoin(ps, '.');
  }

  lemma NumbersCompare(f: Form, g: Form, k: nat)
    requires IsForm(f) && IsForm(g)
    ensures CompareParts(Part(f.numbers, k), Part(g.numbers, k)) == CompareInts(NumberAt(f, k), NumberAt(g, k))
  {
    hide ParseInt, Value, Written, Tight;
    if k < |f.numbers| {
      assert f.numbers[k] in f.numbers;
      DigitsParse(f.numbers[k]);
    }
    if k < |g.numbers| {
      assert g.numbers[k] in g.numbers;
      DigitsParse(g.numbers[k]);
    }
  }

  lemma {:induction false} EqualNumbersPass(f: Form, g: Form, k: nat, i: nat, n: nat)
    requires IsForm(f) && IsForm(g) && k <= i <= n && AgreeBefore(f, g, i)
    ensures CompareFrom(f.numbers, g.numbers, k, n) == CompareFrom(f.numbers, g.numbers, i, n)
    decreases i - k
  {
    hide CompareParts, IsForm, NumberAt;
    if k < i {
      NumbersCompare(f, g, k);
      EqualNumbersPass(f, g, k + 1, i, n);
    }
  }

  /** The comparison as its callers mean it: the first number that differs decides, a missing one
      being 0; without one, a pre-release is below its release and two compare as text. Blanks
      around a version, a leading v and build metadata do not matter. */
  lemma FirstDifferenceDecides(f: Form, g: Form, l: string, r: string, l': string, r': string, k: nat)
    requires IsForm(f) && IsForm(g) && Blank(l) && Blank(r) && Blank(l') && Blank(r') && AgreeBefore(f, g, k)
    ensures var v, w := l + Written(f) + r, l' + Written(g) + r';
      && (NumberAt(f, k) < NumberAt(g, k) ==> Compare(v, w) == -1)
      && (NumberAt(f, k) > NumberAt(g, k) ==> Compare(v, w) == 1)
      && (k >= |f.numbers| && k >= |g.numbers| ==>
           Compare(v, w) == ByPreRelease(if f.pre == "" then "" else f.pre[1..], if g.pre == "" then "" else g.pre[1..]))
  {
    hide TrimSpace, Parts, Pre, Blank, Compare, Tight, Value, AgreeBefore, NumberAt, ByPreRelease;
    FormIsReadBack(f, l, r);
    FormIsReadBack(g, l', r');
    FormsCompare(f, g, l + Written(f) + r, l' + Written(g) + r', k);
  }

  /** Nothing after the numbers stands above any pre-release; two of them compare as text. */
  function ByPreRelease(p: string, q: string): int {
    if p == q then 0 else if p == "" then 1 else if q == "" then -1 else if Less(p, q) then -1 else 1
  }

  lemma PreIsByPreRelease(p: string, q: string)
    ensures ComparePre(p, q) == ByPreRelease(p, q)
  {
    LessTotal(p, q);
  }

  lemma FormsCompare(f: Form, g: Form, v: string, w: string, k: nat)
    requires IsForm(f) && IsForm(g) && AgreeBefore(f, g, k) && TrimSpace(v) != "" && TrimSpace(w) != ""
    requires Parts(TrimSpace(v)) == f.numbers && Parts(TrimSpace(w)) == g.numbers
    ensures NumberAt(f, k) < NumberAt(g, k) ==> Compare(v, w) == -1
    ensures NumberAt(f, k) > NumberAt(g, k) ==> Compare(v, w) == 1
    ensures k >= |f.numbers| && k >= |g.numbers| ==>
      Compare(v, w) == ByPreRelease(Pre(TrimSpace(v)), Pre(TrimSpace(w)))
  {
    hide TrimSpace, Parts, Pre, CompareParts, IsForm, NumberAt, AgreeBefore, Compare, ComparePre, ByPreRelease;
    var n := MaxLength(f.numbers, g.numbers) + k + 1;
    CompareIsByParts(v, w, n);
    EqualNumbersPass(f, g, 0, k, n);
    NumbersCompare(f, g, k);
    PreIsByPreRelease(Pre(TrimSpace(v)), Pre(TrimSpace(w)));
    if k >= |f.numbers| && k >= |g.numbers| {
      NothingLeft(f.numbers, g.numbers, k, n);
    }
  }

  lemma {:induction false} NothingLeft(ps: seq<string>, qs: seq<string>, i: nat, n: nat)
    requires i >= |ps| && i >= |qs|
    ensures CompareFrom(ps, qs, i, n) == 0
    decreases n - i
  {
    if i < n {
      NothingLeft(ps, qs, i + 1, n);
    }
  }

  /** A leading v makes no difference, whatever follows, unless that begins with a v itself. */
  lemma LeadingVIsNothing(x: string)
    requires x != "" && Tight(x) && x[0] != 'v'
    ensures Compare("v" + x, x) == 0 && (x[0] != 'V' ==> Compare("V" + x, x) == 0)
  {
    hide Split, IndexByte, TrimSpace, Before, After, Compare, IsSpace;
    VIsNoSpace();
    assert ("v" + x)[1..] == x && ("V" + x)[1..] == x;
    TrimSpaceKeepsTight(x);
    TrimSpaceKeepsTight("v" + x);
    TrimSpaceKeepsTight("V" + x);
    assert Clean("v" + x) == Clean(x);
    SameReadingIsEqual("v" + x, x);
    if x[0] != 'V' {
      assert Clean("V" + x) == Clean(x);
      SameReadingIsEqual("V" + x, x);
    }
  }

  lemma VIsNoSpace()
    ensures !IsSpace('v') && !IsSpace('V')
  {
  }

  lemma SameReadingIsEqual(v: string, w: string)
    requires TrimSpace(v) == v != "" && TrimSpace(w) == w != "" && Parts(v) == Parts(w) && Pre(v) == Pre(w)
    ensures Compare(v, w) == 0
  {
    hide TrimSpace, Parts, Pre, Less, Compare;
    var ps := Parts(v);
    SamePrefixComparesBelow(ps, ps, 0, |ps|, |ps|);
    PreReleaseDecides(v, w);
    LessTotal(Pre(v), Pre(v));
  }

  lemma UnsignedMeans(s: string)
    requires Unsigned(s)
    ensures '+' !in s && '-' !in s
  {
  }

  lemma JoinBegins(ps: seq<string>)
    requires |ps| >= 1 && ps[0] != ""
    ensures Join(ps, '.') != "" && Join(ps, '.')[0] == ps[0][0]
  {
  }

  lemma TenIsReadBack(pre: string, last: string)
    requires pre == "rc." + last && (last == "10" || last == "9")
    ensures var v := "1.0.0-" + pre;
      TrimSpace(v) == v != "" && Parts(v) == ["1", "0", "0"] && Pre(v) == pre && Split(pre, '.') == ["rc", last]
  {
    hide Parts, Pre, TrimSpace, Split, IsForm, Written, Join;
    var f := Form("", ["1", "0", "0"], "-" + pre, "");
    TenIsForm(f, pre);
    FormIsReadBack(f, "", "");
    assert "" + Written(f) + "" == Written(f) && f.pre[1..] == pre;
    RcIsSplit(pre, last);
  }

  lemma RcIsSplit(pre: string, last: string)
    requires pre == "rc." + last && '.' !in last
    ensures Split(pre, '.') == ["rc", last]
  {
    hide Split;
    assert ["rc", last][1..] == [last];
    assert Join(["rc", last], '.') == "rc" + ['.'] + last == pre;
    SplitUndoesJoin(["rc", last], '.');
  }

  lemma TenIsForm(f: Form, pre: string)
    requires f == Form("", ["1", "0", "0"], "-" + pre, "") && (pre == "rc.10" || pre == "rc.9")
    ensures IsForm(f) && Written(f) == "1.0.0-" + pre
  {
    hide Value;
    assert Join(f.numbers, '.') == "1.0.0" by {
      assert f.numbers[1..] == ["0", "0"] && f.numbers[1..][1..] == ["0"];
    }
    ValueOfSmall();
  }

  lemma ValueOfSmall()
    ensures Value("1") == 1 && Value("0") == 0
  {
    assert "1"[..0] == "" == "0"[..0];
  }

  /** 1.0.0-rc.10 comes before 1.0.0-rc.9, against the standard. */
  lemma TenComesBeforeNine(v: string, w: string)
    requires v == "1.0.0-rc.10" && w == "1.0.0-rc.9"
    ensures Compare(v, w) == -1
    ensures Split(Pre(v), '.') == ["rc", "10"] && Split(Pre(w), '.') == ["rc", "9"]
    ensures Precedence(["rc", "10"], ["rc", "9"]) == 1 && !FirstPairSortsAlike(["rc", "10"], ["rc", "9"])
  {
    hide Compare, Parts, Pre, TrimSpace, Split, Precedence, FirstPairSortsAlike, Less, IsSpace;
    var p, q := "rc.10", "rc.9";
    assert v == "1.0.0-" + p && w == "1.0.0-" + q;
    TenIsReadBack(p, "10");
    TenIsReadBack(q, "9");
    TenSortsBeforeNine();
    SameCoreComparesPre(v, w);
  }

  lemma SameCoreComparesPre(v: string, w: string)
    requires TrimSpace(v) == v != "" && TrimSpace(w) == w != "" && Parts(v) == Parts(w)
    requires Pre(v) != "" && Pre(w) != ""
    ensures Compare(v, w) == CompareStrings(Pre(v), Pre(w))
  {
    hide TrimSpace, Parts, Pre, Less, Compare;
    var ps := Parts(v);
    SamePrefixComparesBelow(ps, ps, 0, |ps|, |ps|);
    PreReleaseDecides(v, w);
  }

  lemma TenSortsBeforeNine()
    ensures !FirstPairSortsAlike(["rc", "10"], ["rc", "9"]) && Precedence(["rc", "10"], ["rc", "9"]) == 1
    ensures CompareStrings("rc.10", "rc.9") == -1
  {
    assert ["rc", "10"][1..] == ["10"] && ["rc", "9"][1..] == ["9"];
    assert Less("10", "9");
    assert !AllDigits("rc") by { assert !IsDigit("rc"[0]); }
    SameComparesEqual("rc");
    IdentifiersAreStrict("10", "9");
    assert "rc.10" == "rc." + "10" && "rc.9" == "rc." + "9";
    LessAfter("rc.", "10", "9");
  }

  lemma PlainVersion(v: string)
    requires v != "" && Tight(v) && v[0] != 'v' && v[0] != 'V' && Unsigned(v) && '.' !in v
    ensures TrimSpace(v) == v
    ensures Parts(v) == [v]
    ensures Pre(v) == ""
  {
    TrimSpaceKeepsTight(v);
    assert Clean(v) == v && Before(v, '-') == v;
    SplitUndoesJoin([v], '.');
  }

  /** The shortest circle: 2 is below 10 as a number, 10 below 1a and 1a below 2 as text. */
  lemma CycleOutsideTheDomain()
    ensures Compare("2", "10") == -1 && Compare("10", "1a") == -1 && Compare("1a", "2") == -1
    ensures Orderly("2") && Orderly("10") && !Orderly("1a")
  {
    CycleIsPlain();
    NumbersOfCycle();
    LessOfCycle();
    hide TrimSpace, Parts, Pre, Nines, ParseInt, Value, Less, Compare, Unsigned;
    SinglePartsDecide("2", "10");
    SinglePartsDecide("10", "1a");
    SinglePartsDecide("1a", "2");
    assert !OrderlyPart(Parts("1a")[0], 0);
  }

  lemma CycleIsPlain()
    ensures forall v :: v in ["2", "10", "1a"] ==> TrimSpace(v) == v && Parts(v) == [v]
  {
    forall v | v in ["2", "10", "1a"]
      ensures TrimSpace(v) == v && Parts(v) == [v]
    {
      PlainVersion(v);
    }
  }

  lemma SinglePartsDecide(v: string, w: string)
    requires TrimSpace(v) == v != "" && Parts(v) == [v] && TrimSpace(w) == w != "" && Parts(w) == [w]
    requires CompareParts(Some(v), Some(w)) != 0
    ensures Compare(v, w) == CompareParts(Some(v), Some(w))
  {
    hide TrimSpace, Parts, Pre, CompareParts, Compare;
    CompareIsByParts(v, w, 1);
    assert Part(Parts(v), 0) == Some(v) && Part(Parts(w), 0) == Some(w);
  }

  lemma NumbersOfCycle()
    ensures ParseInt("2") == Some(2) && ParseInt("10") == Some(10) && ParseInt("1a") == None
  {
    assert "2"[..0] == "" && "10"[..1] == "1" && "1"[..0] == "";
    assert Value("1") == 1;
    assert !AllDigits("1a") by { assert !IsDigit("1a"[1]); }
  }

  lemma LessOfCycle()
    ensures Less("10", "1a") && !Less("1a", "10") && Less("1a", "2") && !Less("2", "1a")
    ensures !Less(LAST_NUMERAL, "1a") && !Less("1a", "0")
  {
    assert "10"[1..] == "0" && "1a"[1..] == "a" && "0"[1..] == "" && "a"[1..] == "";
    NinesValue(18);
    assert LAST_NUMERAL[0] == '9';
  }
}
