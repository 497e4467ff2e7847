/**
  The Python string operations the archive splitter relies on, stated over
  `seq<char>`: `str.strip()`, `str.rstrip('\n')`, splitting on a set of
  separator characters (`re.split(r'[/.-]', ...)` and `str.split('-')`),
  `str.find`, `int()` on decimal text and `str()` of a non-negative integer.

  `int()` and `isdigit()` are restricted to ASCII decimal digits. `strip()`
  removes Python's own `str.isspace()` set of code points; `int()` skips the
  same set around its digits except the separators U+001C..U+001F, which
  make it fail.
*/
module PythonText {

  datatype Option<T> = None | Some(value: T)

  /** `d.get(k, [])` on a dictionary of lists. */
  function GetOrEmpty<K, V>(m: map<K, seq<V>>, k: K): seq<V> {
    if k in m then m[k] else []
  }

  /** `c.isspace()` in Python 3: the code points whose bidirectional class is
      WS, B or S, or whose category is Zs. */
  predicate IsSpace(c: char) {
    || c == ' '
    || ('\U{9}' <= c <= '\U{D}')
    || ('\U{1C}' <= c <= '\U{1F}')
    || c == '\U{85}' || c == '\U{A0}' || c == '\U{1680}'
    || ('\U{2000}' <= c <= '\U{200A}')
    || c == '\U{2028}' || c == '\U{2029}' || c == '\U{202F}'
    || c == '\U{205F}' || c == '\U{3000}'
  }

  predicate IsDigit(c: char) {
    '0' <= c <= '9'
  }

  predicate AllDigits(s: string) {
    forall i :: 0 <= i < |s| ==> IsDigit(s[i])
  }

  /** No character of `s` is one of `cs`. */
  predicate NoneIn(s: string, cs: set<char>) {
    forall i :: 0 <= i < |s| ==> s[i] !in cs
  }

  // ---------------------------------------------------------------------
  // strip, rstrip

  /** `s.lstrip()`. */
  function LStrip(s: string): (r: string)
    ensures |r| <= |s|
  {
    if s != [] && IsSpace(s[0]) then LStrip(s[1..]) else s
  }

  /** `s.rstrip()`. */
  function RStrip(s: string): (r: string)
    ensures |r| <= |s|
  {
    if s != [] && IsSpace(s[|s| - 1]) then RStrip(s[..|s| - 1]) else s
  }

  /** `s.strip()`. */
  function Strip(s: string): string {
    RStrip(LStrip(s))
  }

  /** `s.rstrip('\n')`. */
  function RStripNewlines(s: string): (r: string)
    ensures |r| <= |s|
  {
    if s != [] && s[|s| - 1] == '\n' then RStripNewlines(s[..|s| - 1]) else s
  }

  /** `lstrip()` removes the longest all-whitespace prefix: what it keeps is
      a suffix that does not start with whitespace. */
  lemma {:induction false} LStripRemovesLeadingSpace(s: string)
    ensures var r := LStrip(s);
      && r == s[|s| - |r|..]
      && (forall i :: 0 <= i < |s| - |r| ==> IsSpace(s[i]))
      && (r == [] || !IsSpace(r[0]))
    decreases |s|
  {
    if s != [] && IsSpace(s[0]) {
      LStripRemovesLeadingSpace(s[1..]);
    }
  }

  /** `rstrip()` removes the longest all-whitespace suffix. */
  lemma {:induction false} RStripRemovesTrailingSpace(s: string)
    ensures var r := RStrip(s);
      && r == s[..|r|]
      && (forall i :: |r| <= i < |s| ==> IsSpace(s[i]))
      && (r == [] || !IsSpace(r[|r| - 1]))
    decreases |s|
  {
    if s != [] && IsSpace(s[|s| - 1]) {
      RStripRemovesTrailingSpace(s[..|s| - 1]);
    }
  }

  /** `strip()` leaves text that neither starts nor ends with whitespace. */
  lemma StripTrims(s: string)
    ensures var r := Strip(s); r == [] || (!IsSpace(r[0]) && !IsSpace(r[|r| - 1]))
  {
    var l := LStrip(s);
    LStripRemovesLeadingSpace(s);
    RStripRemovesTrailingSpace(l);
    var r := RStrip(l);
    if r != [] {
      assert r[0] == l[0];
    }
  }

  /** Text without whitespace is its own `strip()`. */
  lemma {:induction false} StripWithoutSpace(s: string)
    requires forall i :: 0 <= i < |s| ==> !IsSpace(s[i])
    ensures Strip(s) == s
  {
    assert s == [] || !IsSpace(s[|s| - 1]);
  }

  /** `rstrip('\n')` removes the trailing line feeds and nothing else. */
  lemma {:induction false} RStripNewlinesRemovesFeeds(s: string)
    ensures var r := RStripNewlines(s);
      && r == s[..|r|]
      && (forall i :: |r| <= i < |s| ==> s[i] == '\n')
      && (r == [] || r[|r| - 1] != '\n')
    decreases |s|
  {
    if s != [] && s[|s| - 1] == '\n' {
      RStripNewlinesRemovesFeeds(s[..|s| - 1]);
    }
  }

  /** `rstrip('\n')` of text behind a prefix that does not end in a line
      feed only touches the text behind it. */
  lemma {:induction false} RStripNewlinesAppend(a: string, b: string)
    requires a != [] && a[|a| - 1] != '\n'
    ensures RStripNewlines(a + b) == a + RStripNewlines(b)
    decreases |b|
  {
    if b == [] {
      assert a + b == a;
    } else {
      assert (a + b)[|a + b| - 1] == b[|b| - 1];
      if b[|b| - 1] == '\n' {
        assert (a + b)[..|a + b| - 1] == a + b[..|b| - 1];
        RStripNewlinesAppend(a, b[..|b| - 1]);
      }
    }
  }

  // ---------------------------------------------------------------------
  // find

  /** `s.find(c)`, with `None` for Python's -1. */
  function IndexOf(s: string, c: char): (r: Option<nat>)
    ensures r.Some? ==> r.value < |s|
  {
    if s == [] then None
    else if s[0] == c then Some(0)
    else match IndexOf(s[1..], c)
      case None => None
      case Some(k) => Some(k + 1)
  }

  /** `find` gives the first occurrence, and -1 only when there is none. */
  lemma {:induction false} IndexOfFirst(s: string, c: char)
    ensures IndexOf(s, c).Some? ==>
      var k := IndexOf(s, c).value;
      s[k] == c && forall j :: 0 <= j < k ==> s[j] != c
    ensures IndexOf(s, c).None? ==> forall j :: 0 <= j < |s| ==> s[j] != c
    decreases |s|
  {
    if s != [] && s[0] != c {
      IndexOfFirst(s[1..], c);
    }
  }

  // ---------------------------------------------------------------------
  // split and join

  /** The characters of `s` that are separators, in order. */
  function SeparatorsIn(s: string, seps: set<char>): seq<char> {
    if s == [] then []
    else (if s[0] in seps then [s[0]] else []) + SeparatorsIn(s[1..], seps)
  }

  /** Splitting `s` at every character of `seps`, keeping empty fields, as
      `re.split` with a one-character class and `str.split(sep)` do. */
  function Split(s: string, seps: set<char>): (parts: seq<string>)
    ensures |parts| == |SeparatorsIn(s, seps)| + 1
    ensures forall i :: 0 <= i < |parts| ==> NoneIn(parts[i], seps)
  {
    if s == [] then [""]
    else
      var rest := Split(s[1..], seps);
      if s[0] in seps then [""] + rest
      else [[s[0]] + rest[0]] + rest[1..]
  }

  /** `sep.join(parts)`. */
  function Join(parts: seq<string>, sep: char): string
    requires |parts| >= 1
  {
    if |parts| == 1 then parts[0]
    else parts[0] + [sep] + Join(parts[1..], sep)
  }

  lemma {:induction false} SplitWithoutSeparator(p: string, seps: set<char>)
    requires NoneIn(p, seps)
    ensures Split(p, seps) == [p]
    decreases |p|
  {
    if p != [] {
      assert p[0] !in seps;
      assert NoneIn(p[1..], seps);
      SplitWithoutSeparator(p[1..], seps);
      assert [p[0]] + p[1..] == p;
    }
  }

  lemma {:induction false} SplitAfterField(p: string, c: char, t: string, seps: set<char>)
    requires NoneIn(p, seps) && c in seps
    ensures Split(p + [c] + t, seps) == [p] + Split(t, seps)
    decreases |p|
  {
    if p == [] {
      assert p + [c] + t == [c] + t;
      assert ([c] + t)[1..] == t;
    } else {
      SplitAfterField(p[1..], c, t, seps);
      assert (p + [c] + t)[1..] == p[1..] + [c] + t;
      assert [p[0]] + p[1..] == p;
    }
  }

  /** Joining fields that hold no separator and splitting again gives back the fields. */
  lemma {:induction false} JoinSplit(parts: seq<string>, c: char, seps: set<char>)
    requires |parts| >= 1 && c in seps
    requires forall i :: 0 <= i < |parts| ==> NoneIn(parts[i], seps)
    ensures Split(Join(parts, c), seps) == parts
    decreases |parts|
  {
    if |parts| == 1 {
      SplitWithoutSeparator(parts[0], seps);
    } else {
      JoinSplit(parts[1..], c, seps);
      SplitAfterField(parts[0], c, Join(parts[1..], c), seps);
    }
  }

  /** Joining digit strings gives digits and separators only. */
  lemma {:induction false} JoinDigits(parts: seq<string>, c: char)
    requires |parts| >= 1 && forall k :: 0 <= k < |parts| ==> AllDigits(parts[k])
    ensures forall i :: 0 <= i < |Join(parts, c)| ==> IsDigit(Join(parts, c)[i]) || Join(parts, c)[i] == c
    decreases |parts|
  {
    if |parts| > 1 {
      JoinDigits(parts[1..], c);
      var j := Join(parts, c);
      forall i | 0 <= i < |j| ensures IsDigit(j[i]) || j[i] == c {
        if i < |parts[0]| {
          assert j[i] == parts[0][i];
        } else if i > |parts[0]| {
          assert j[i] == Join(parts[1..], c)[i - |parts[0]| - 1];
        }
      }
    }
  }

  /** Splitting at one separator and joining with it gives back the input. */
  lemma {:induction false} SplitJoin(s: string, c: char)
    ensures Join(Split(s, {c}), c) == s
    decreases |s|
  {
    if s != [] {
      var rest := Split(s[1..], {c});
      SplitJoin(s[1..], c);
      if s[0] == c {
        assert ([""] + rest)[1..] == rest;
      } else if |rest| > 1 {
        assert ([[s[0]] + rest[0]] + rest[1..])[1..] == rest[1..];
      }
    }
  }

  // ---------------------------------------------------------------------
  // decimal numbers: int() and str()

  function Pow10(n: nat): (p: nat)
    ensures p >= 1
  {
    if n == 0 then 1 else 10 * Pow10(n - 1)
  }

  function DigitValue(c: char): nat
    requires IsDigit(c)
  {
    c as int - '0' as int
  }

  function DigitChar(d: nat): (c: char)
    requires d < 10
    ensures IsDigit(c) && DigitValue(c) == d
  {
    ('0' as int + d) as char
  }

  /** The value of a string of decimal digits, most significant first. */
  function DigitsValue(s: string): (v: nat)
    requires AllDigits(s)
    ensures v < Pow10(|s|)
  {
    if s == [] then 0
    else
      var hi := DigitsValue(s[..|s| - 1]);
      assert hi * 10 <= (Pow10(|s| - 1) - 1) * 10;
      hi * 10 + DigitValue(s[|s| - 1])
  }

  /** `str(n)` for a non-negative integer: decimal digits, no leading zero. */
  function NatToString(n: nat): (s: string)
    ensures |s| >= 1 && AllDigits(s)
    ensures |s| == 1 || s[0] != '0'
    decreases n
  {
    if n < 10 then [DigitChar(n)] else NatToString(n / 10) + [DigitChar(n % 10)]
  }

  /** The information separators U+001C..U+001F: whitespace to `str.isspace()`
      and `strip()`, but not to `int()`, which rejects them. */
  const InfoSeparators: set<char> := {'\U{1C}', '\U{1D}', '\U{1E}', '\U{1F}'}

  /** Python's `int(s)` on text made of decimal digits with optional
      surrounding whitespace; `None` where Python raises `ValueError`.
      Digits are never whitespace, so the text is whitespace, digits,
      whitespace exactly when its `strip()` is all digits; `int()` then
      still fails if the whitespace holds an information separator. */
  function PyInt(s: string): (r: Option<nat>)
    ensures r.Some? <==> Strip(s) != [] && AllDigits(Strip(s)) && NoneIn(s, InfoSeparators)
  {
    var t := Strip(s);
    if t != [] && AllDigits(t) && NoneIn(s, InfoSeparators) then Some(DigitsValue(t)) else None
  }

  lemma {:induction false} DigitsValueAppend(a: string, b: string)
    requires AllDigits(a) && AllDigits(b)
    ensures AllDigits(a + b)
    ensures DigitsValue(a + b) == DigitsValue(a) * Pow10(|b|) + DigitsValue(b)
    decreases |b|
  {
    assert AllDigits(a + b) by {
      forall i | 0 <= i < |a + b| ensures IsDigit((a + b)[i]) {
        if i < |a| { assert (a + b)[i] == a[i]; } else { assert (a + b)[i] == b[i - |a|]; }
      }
    }
    if b == [] {
      assert a + b == a;
    } else {
      var b' := b[..|b| - 1];
      assert (a + b)[..|a + b| - 1] == a + b';
      assert (a + b)[|a + b| - 1] == b[|b| - 1];
      DigitsValueAppend(a, b');
      ShiftDecimal(DigitsValue(a), Pow10(|b'|), DigitsValue(b'), DigitValue(b[|b| - 1]));
    }
  }

  lemma ShiftDecimal(x: nat, p: nat, y: nat, d: nat)
    ensures (x * p + y) * 10 + d == x * (10 * p) + (y * 10 + d)
  {
  }

  /** Reading back the decimal text of `n` gives `n`. */
  lemma {:induction false} NatToStringValue(n: nat)
    ensures DigitsValue(NatToString(n)) == n
    decreases n
  {
    if n >= 10 {
      NatToStringValue(n / 10);
      var s := NatToString(n);
      assert s[..|s| - 1] == NatToString(n / 10);
    }
  }

  /** A digit string without a leading zero is at least 10^(length - 1). */
  lemma {:induction false} LeadingDigitBound(s: string)
    requires AllDigits(s) && |s| >= 1 && s[0] != '0'
    ensures DigitsValue(s) >= Pow10(|s| - 1)
    decreases |s|
  {
    if |s| > 1 {
      LeadingDigitBound(s[..|s| - 1]);
    }
  }

  /** Writing out the value of a canonical digit string gives back the string. */
  lemma {:induction false} ValueNatToString(s: string)
    requires AllDigits(s) && |s| >= 1
    requires |s| == 1 || s[0] != '0'
    ensures NatToString(DigitsValue(s)) == s
    decreases |s|
  {
    if |s| > 1 {
      var init := s[..|s| - 1];
      LeadingDigitBound(init);
      ValueNatToString(init);
      var v := DigitsValue(s);
      assert v / 10 == DigitsValue(init) && v % 10 == DigitValue(s[|s| - 1]);
    }
  }

  /** `str` is injective on non-negative integers. */
  lemma NatToStringInjective(m: nat, n: nat)
    requires NatToString(m) == NatToString(n)
    ensures m == n
  {
    NatToStringValue(m);
    NatToStringValue(n);
  }

  /** `int(str(n)) == n`. */
  lemma PyIntOfNatToString(n: nat)
    ensures PyInt(NatToString(n)) == Some(n)
  {
    PyIntOfDigits(NatToString(n));
    NatToStringValue(n);
  }

  /** `int()` of bare digits is their value. */
  lemma PyIntOfDigits(t: string)
    requires t != [] && AllDigits(t)
    ensures PyInt(t) == Some(DigitsValue(t))
  {
    StripWithoutSpace(t);
    assert NoneIn(t, InfoSeparators) by {
      forall i | 0 <= i < |t| ensures t[i] !in InfoSeparators {
        assert IsDigit(t[i]);
      }
    }
  }
}
