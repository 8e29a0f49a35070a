/** The JavaScript built-ins the table core relies on, stated over Dafny
    values: `String.prototype.trim`, `Number(text)` and `String(number)`,
    `Array.prototype.join` / `String.prototype.split` with a one-character
    separator, and `Array.prototype.filter` / `findIndex` / `find`. */
module JsRuntime {
  import opened Wrappers

  // ---------------------------------------------------------------------
  // String.prototype.trim

  /** The characters `trim` strips: ECMAScript WhiteSpace and LineTerminator. */
  predicate IsWhiteSpace(ch: char) {
    ch == '\t' || ch == '\n' || ch == '\U{000B}' || ch == '\U{000C}' || ch == '\r' ||
    ch == ' ' || ch == '\U{00A0}' || ch == '\U{1680}' ||
    ('\U{2000}' <= ch <= '\U{200A}') ||
    ch == '\U{2028}' || ch == '\U{2029}' || ch == '\U{202F}' || ch == '\U{205F}' ||
    ch == '\U{3000}' || ch == '\U{FEFF}'
  }

  predicate NoWhiteSpace(s: string) {
    forall i :: 0 <= i < |s| ==> !IsWhiteSpace(s[i])
  }

  /** `s.trimStart()`. */
  function TrimStart(s: string): string {
    if s != [] && IsWhiteSpace(s[0]) then TrimStart(s[1..]) else s
  }

  /** `trimStart` cuts a white-space prefix and leaves a text that does not
      start with white space. */
  lemma {:induction false} TrimStartSpec(s: string)
    ensures var r := TrimStart(s);
      |r| <= |s| && r == s[|s| - |r|..] &&
      (forall i :: 0 <= i < |s| - |r| ==> IsWhiteSpace(s[i])) &&
      (r == [] || !IsWhiteSpace(r[0]))
  {
    if s != [] && IsWhiteSpace(s[0]) {
      var t := s[1..];
      TrimStartSpec(t);
      var r := TrimStart(t);
      assert s[|s| - |r|..] == t[|t| - |r|..];
      forall i | 0 <= i < |s| - |r|
        ensures IsWhiteSpace(s[i])
      {
        if i > 0 { assert s[i] == t[i - 1]; }
      }
    }
  }

  /** `s.trimEnd()`. */
  function TrimEnd(s: string): string {
    if s != [] && IsWhiteSpace(s[|s| - 1]) then TrimEnd(s[..|s| - 1]) else s
  }

  /** `trimEnd` cuts a white-space suffix and leaves a text that does not end
      with white space. */
  lemma {:induction false} TrimEndSpec(s: string)
    ensures var r := TrimEnd(s);
      |r| <= |s| && r == s[..|r|] &&
      (forall i :: |r| <= i < |s| ==> IsWhiteSpace(s[i])) &&
      (r == [] || !IsWhiteSpace(r[|r| - 1]))
  {
    if s != [] && IsWhiteSpace(s[|s| - 1]) {
      var t := s[..|s| - 1];
      TrimEndSpec(t);
      var r := TrimEnd(t);
      assert s[..|r|] == t[..|r|];
      forall i | |r| <= i < |s|
        ensures IsWhiteSpace(s[i])
      {
        if i < |t| { assert s[i] == t[i]; }
      }
    }
  }

  /** `s.trim()`: never longer than `s`, and neither starting nor ending
      with white space. */
  function Trim(s: string): (r: string)
    ensures |r| <= |s|
    ensures r == [] || (!IsWhiteSpace(r[0]) && !IsWhiteSpace(r[|r| - 1]))
  {
    TrimStartSpec(s);
    TrimEndSpec(TrimStart(s));
    TrimEnd(TrimStart(s))
  }

  /** `trim` keeps the longest slice of `s` that neither starts nor ends with
      white space; everything cut off on either side is white space. */
  lemma TrimSpec(s: string)
    ensures var r := Trim(s);
      var k := |s| - |TrimStart(s)|;
      0 <= k && k + |r| <= |s| && r == s[k..k + |r|] &&
      (forall i :: 0 <= i < k ==> IsWhiteSpace(s[i])) &&
      (forall i :: k + |r| <= i < |s| ==> IsWhiteSpace(s[i])) &&
      (r == [] || (!IsWhiteSpace(r[0]) && !IsWhiteSpace(r[|r| - 1])))
  {
    TrimStartSpec(s);
    TrimEndSpec(TrimStart(s));
  }

  /** `Number` ignores the white space around a text. */
  lemma ToNumberTrimmed(s: string)
    ensures ToNumber(Trim(s)) == ToNumber(s)
  {
    TrimIdempotent(s);
  }

  /** A text without white space is its own trim. */
  lemma TrimKeepsClean(s: string)
    requires NoWhiteSpace(s)
    ensures Trim(s) == s
  {
    assert s == [] || !IsWhiteSpace(s[0]);
    assert TrimStart(s) == s;
    assert s == [] || !IsWhiteSpace(s[|s| - 1]);
  }

  /** Trimming twice is trimming once. */
  lemma TrimIdempotent(s: string)
    ensures Trim(Trim(s)) == Trim(s)
  {
    TrimSpec(s);
    var r := Trim(s);
    assert TrimStart(r) == r by {
      if r != [] { assert !IsWhiteSpace(r[0]); }
    }
    assert TrimEnd(r) == r by {
      if r != [] { assert !IsWhiteSpace(r[|r| - 1]); }
    }
  }

  // ---------------------------------------------------------------------
  // Number(text) and String(number)

  /** A JavaScript number as the table uses it: an integer or NaN. */
  datatype JsNumber = Num(value: int) | NaN

  /** `x + d` on a JavaScript number: NaN absorbs. */
  function Plus(x: JsNumber, d: int): (r: JsNumber)
    ensures r.NaN? <==> x.NaN?
    ensures x.Num? ==> r.value - x.value == d
  {
    match x
    case NaN => NaN
    case Num(n) => Num(n + d)
  }

  predicate IsDigit(ch: char) { '0' <= ch <= '9' }

  predicate AllDigits(s: string) {
    forall i :: 0 <= i < |s| ==> IsDigit(s[i])
  }

  /** The value of a string of decimal digits, most significant first. */
  function DigitsValue(s: string): nat
    requires AllDigits(s)
  {
    if s == [] then 0
    else 10 * DigitsValue(s[..|s| - 1]) + (s[|s| - 1] as int - '0' as int)
  }

  function DigitChar(d: nat): (ch: char)
    requires d < 10
    ensures IsDigit(ch) && ch as int - '0' as int == d
  {
    ('0' as int + d) as char
  }

  /** The canonical decimal text of a natural number (no leading zeros). */
  function NatToDecimal(n: nat): (r: string)
    ensures r != [] && AllDigits(r)
    ensures DigitsValue(r) == n
    decreases n
  {
    if n < 10 then [DigitChar(n)]
    else
      var prefix := NatToDecimal(n / 10);
      assert (prefix + [DigitChar(n % 10)])[..|prefix|] == prefix;
      prefix + [DigitChar(n % 10)]
  }

  /** A text made of white space only (the empty text included). */
  predicate Blank(s: string) {
    forall i :: 0 <= i < |s| ==> IsWhiteSpace(s[i])
  }

  /** `Number(s)` on the attribute texts the table renders: surrounding white
      space is ignored, the empty text is 0, an optionally signed run of
      decimal digits is its value, and any other text is NaN. A blank text
      reads as 0, and only a text with a minus sign reads as a negative
      number. */
  function ToNumber(s: string): (r: JsNumber)
    ensures Blank(s) ==> r == Num(0)
    ensures r.Num? && r.value < 0 ==> '-' in s
  {
    TrimSpec(s);
    var t := Trim(s);
    if t == [] then Num(0)
    else if (t[0] == '-' || t[0] == '+') && |t| > 1 && AllDigits(t[1..]) then
      if t[0] == '-' then Num(-(DigitsValue(t[1..]) as int)) else Num(DigitsValue(t[1..]))
    else if AllDigits(t) then Num(DigitsValue(t))
    else NaN
  }

  /** The characters `String(x)` can produce for an integer or NaN. */
  predicate IsNumberChar(ch: char) {
    IsDigit(ch) || ch == '-' || ch == 'N' || ch == 'a'
  }

  /** `String(x)` (also the text of `${x}`) for an integer or NaN. */
  function NumberToString(x: JsNumber): (r: string)
    ensures r != []
    ensures forall i :: 0 <= i < |r| ==> IsNumberChar(r[i])
  {
    match x
    case NaN => "NaN"
    case Num(n) => if n < 0 then "-" + NatToDecimal(-n) else NatToDecimal(n)
  }

  /** `Number(String(x)) == x`: the decimal text of a number reads back as
      that number, so `String` is injective. */
  lemma NumberRoundTrip(x: JsNumber)
    ensures ToNumber(NumberToString(x)) == x
  {
    var r := NumberToString(x);
    assert NoWhiteSpace(r) by {
      forall i | 0 <= i < |r| ensures !IsWhiteSpace(r[i]) {
        assert IsNumberChar(r[i]);
      }
    }
    TrimKeepsClean(r);
    match x
    case NaN =>
      assert r[0] == 'N' && !IsDigit(r[0]);
    case Num(n) =>
      if n < 0 {
        assert r[1..] == NatToDecimal(-n);
      } else {
        var d := NatToDecimal(n);
        assert r == d && IsDigit(r[0]);
      }
  }

  // ---------------------------------------------------------------------
  // Array.prototype.join and String.prototype.split, one-character separator

  /** `parts.join(sep)`: the empty array joins to the empty text. */
  function Join(parts: seq<string>, sep: char): string {
    if parts == [] then ""
    else if |parts| == 1 then parts[0]
    else parts[0] + [sep] + Join(parts[1..], sep)
  }

  /** `s.split(sep)`: always at least one part, the empty text gives `[""]`. */
  function Split(s: string, sep: char): (r: seq<string>)
    ensures |r| >= 1
  {
    if s == [] then [""]
    else
      var rest := Split(s[1..], sep);
      if s[0] == sep then [""] + rest else [[s[0]] + rest[0]] + rest[1..]
  }

  lemma {:induction false} SplitWithoutSeparator(s: string, sep: char)
    requires sep !in s
    ensures Split(s, sep) == [s]
  {
    if s != [] {
      SplitWithoutSeparator(s[1..], sep);
      assert [s[0]] + s[1..] == s;
    }
  }

  lemma {:induction false} SplitAfterFirstPart(a: string, b: string, sep: char)
    requires sep !in a
    ensures Split(a + [sep] + b, sep) == [a] + Split(b, sep)
  {
    var s := a + [sep] + b;
    if a == [] {
      assert s[0] == sep && s[1..] == b;
    } else {
      assert s[1..] == a[1..] + [sep] + b;
      SplitAfterFirstPart(a[1..], b, sep);
      assert [a[0]] + a[1..] == a;
    }
  }

  /** Splitting a joined text gives the parts back, when no part holds the
      separator. */
  lemma {:induction false} SplitJoin(parts: seq<string>, sep: char)
    requires |parts| >= 1
    requires forall i :: 0 <= i < |parts| ==> sep !in parts[i]
    ensures Split(Join(parts, sep), sep) == parts
  {
    if |parts| == 1 {
      SplitWithoutSeparator(parts[0], sep);
    } else {
      SplitJoin(parts[1..], sep);
      SplitAfterFirstPart(parts[0], Join(parts[1..], sep), sep);
    }
  }

  /** Joining the parts of a split gives the text back. */
  lemma {:induction false} JoinSplit(s: string, sep: char)
    ensures Join(Split(s, sep), sep) == s
  {
    if s != [] {
      JoinSplit(s[1..], sep);
      var rest := Split(s[1..], sep);
      if s[0] == sep {
        assert ([""] + rest)[1..] == rest;
      } else {
        var parts := [[s[0]] + rest[0]] + rest[1..];
        if |rest| == 1 {
          assert Join(parts, sep) == [s[0]] + rest[0];
        } else {
          assert parts[1..] == rest[1..];
          assert Join(rest, sep) == rest[0] + [sep] + Join(rest[1..], sep);
        }
        assert [s[0]] + s[1..] == s;
      }
    }
  }

  /** A character outside every part and different from the separator does
      not occur in the joined text. */
  lemma {:induction false} JoinAvoids(parts: seq<string>, sep: char, ch: char)
    requires ch != sep
    requires forall i :: 0 <= i < |parts| ==> ch !in parts[i]
    ensures ch !in Join(parts, sep)
  {
    if |parts| > 1 {
      JoinAvoids(parts[1..], sep, ch);
    }
  }

  // ---------------------------------------------------------------------
  // Array.prototype.filter, findIndex and find

  /** `r` is `s` with some elements left out, the rest kept in order. */
  ghost predicate IsSubsequence<T>(r: seq<T>, s: seq<T>) {
    if s == [] then r == []
    else IsSubsequence(r, s[1..]) || (r != [] && r[0] == s[0] && IsSubsequence(r[1..], s[1..]))
  }

  /** `s.filter(p)`: the elements satisfying `p`, each occurrence kept. */
  function Filter<T>(s: seq<T>, p: T -> bool): (r: seq<T>)
    ensures |r| <= |s|
    ensures forall i :: 0 <= i < |r| ==> r[i] in s && p(r[i])
    ensures forall i :: 0 <= i < |s| && p(s[i]) ==> s[i] in r
  {
    if s == [] then [] else (if p(s[0]) then [s[0]] else []) + Filter(s[1..], p)
  }

  /** `r` is exactly what `s.filter(p)` keeps: elements of `s` satisfying `p`,
      every such element as often as it occurs in `s`, in the order of `s`. */
  ghost predicate SelectedFrom<T>(r: seq<T>, s: seq<T>, p: T -> bool) {
    (forall i :: 0 <= i < |r| ==> r[i] in s && p(r[i])) &&
    (forall i :: 0 <= i < |s| && p(s[i]) ==> s[i] in r) &&
    (forall i :: 0 <= i < |s| && p(s[i]) ==> multiset(r)[s[i]] == multiset(s)[s[i]]) &&
    IsSubsequence(r, s)
  }

  lemma FilterSelects<T>(s: seq<T>, p: T -> bool)
    ensures SelectedFrom(Filter(s, p), s, p)
  {
    FilterIsSubsequence(s, p);
    forall i | 0 <= i < |s| && p(s[i])
      ensures multiset(Filter(s, p))[s[i]] == multiset(s)[s[i]]
    {
      FilterCounts(s, p, s[i]);
    }
  }

  /** Each element satisfying `p` is kept as often as it occurs; no other is. */
  lemma {:induction false} FilterCounts<T>(s: seq<T>, p: T -> bool, x: T)
    ensures multiset(Filter(s, p))[x] == if p(x) then multiset(s)[x] else 0
  {
    if s != [] {
      FilterCounts(s[1..], p, x);
      assert s == [s[0]] + s[1..];
      assert multiset(s) == multiset{s[0]} + multiset(s[1..]);
    }
  }

  lemma {:induction false} FilterIsSubsequence<T>(s: seq<T>, p: T -> bool)
    ensures IsSubsequence(Filter(s, p), s)
  {
    if s != [] {
      FilterIsSubsequence(s[1..], p);
      if p(s[0]) {
        var r := Filter(s, p);
        assert r != [] && r[0] == s[0] && r[1..] == Filter(s[1..], p);
      } else {
        assert Filter(s, p) == [] + Filter(s[1..], p) == Filter(s[1..], p);
      }
    }
  }

  /** Filtering distributes over concatenation; with the one-element case this
      pins `Filter` down as the order-preserving selection. */
  lemma {:induction false} FilterConcat<T>(a: seq<T>, b: seq<T>, p: T -> bool)
    ensures Filter(a + b, p) == Filter(a, p) + Filter(b, p)
  {
    if a != [] {
      assert (a + b)[1..] == a[1..] + b;
      FilterConcat(a[1..], b, p);
    } else {
      assert a + b == b;
    }
  }

  /** `s.findIndex(p)`: the first index satisfying `p`, or -1. */
  function FindIndex<T>(s: seq<T>, p: T -> bool): (r: int)
    ensures -1 <= r < |s|
    ensures r >= 0 ==> p(s[r]) && forall j :: 0 <= j < r ==> !p(s[j])
    ensures r == -1 <==> forall j :: 0 <= j < |s| ==> !p(s[j])
  {
    if s == [] then -1
    else if p(s[0]) then 0
    else
      var k := FindIndex(s[1..], p);
      if k == -1 then -1 else k + 1
  }

  /** `s.find(p)`: the first element satisfying `p`, or undefined. */
  function Find<T>(s: seq<T>, p: T -> bool): (r: Option<T>)
    ensures r.None? <==> forall j :: 0 <= j < |s| ==> !p(s[j])
    ensures r.Some? ==>
      exists i :: 0 <= i < |s| && s[i] == r.value && p(s[i]) && forall j :: 0 <= j < i ==> !p(s[j])
  {
    var k := FindIndex(s, p);
    if k < 0 then None else Some(s[k])
  }
}
