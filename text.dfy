/** The string operations the pipeline relies on: Python's `str.strip()`,
    zero-padded decimal formatting (`strftime`'s `%Y`, `%m`, `%d`), `int()` on
    a digit string, `str.split(sep)`, `sep.join(parts)` and `str.replace`. */
module Text {
  import opened Wrappers

  /** The characters Python's `str.isspace()` accepts, which `str.strip()`
      removes from both ends. */
  predicate IsSpace(c: char)
  {
    c == ' ' || ('\t' <= c <= '\r') || ('\U{1C}' <= c <= '\U{1F}')
    || c == '\U{85}' || c == '\U{A0}' || c == '\U{1680}'
    || ('\U{2000}' <= c <= '\U{200A}') || c == '\U{2028}' || c == '\U{2029}'
    || c == '\U{202F}' || c == '\U{205F}' || c == '\U{3000}'
  }

  /** `str.lstrip()`: a suffix of `s`; everything removed is whitespace. */
  function TrimStart(s: string): (r: string)
    ensures |r| <= |s| && r == s[|s| - |r|..]
    ensures forall k :: 0 <= k < |s| - |r| ==> IsSpace(s[k])
    ensures r == [] || !IsSpace(r[0])
  {
    if s != [] && IsSpace(s[0]) then
      var r := TrimStart(s[1..]);
      assert s[1..][|s| - 1 - |r|..] == s[|s| - |r|..];
      assert forall k :: 1 <= k < |s| - |r| ==> s[k] == s[1..][k - 1];
      r
    else s
  }

  /** `str.rstrip()`: a prefix of `s`; everything removed is whitespace. */
  function TrimEnd(s: string): (r: string)
    ensures |r| <= |s| && r == s[..|r|]
    ensures forall k :: |r| <= k < |s| ==> IsSpace(s[k])
    ensures r == [] || !IsSpace(r[|r| - 1])
  {
    if s != [] && IsSpace(s[|s| - 1]) then
      var r := TrimEnd(s[..|s| - 1]);
      assert s[..|s| - 1][..|r|] == s[..|r|];
      assert forall k :: |r| <= k < |s| - 1 ==> s[k] == s[..|s| - 1][k];
      r
    else s
  }

  /** `str.strip()`: the infix `s[i..j]` left after removing the whitespace
      at both ends; it neither starts nor ends with whitespace. */
  function Strip(s: string): (r: string)
    ensures exists i, j ::
              && 0 <= i <= j <= |s| && r == s[i..j]
              && (forall k :: 0 <= k < i ==> IsSpace(s[k]))
              && (forall k :: j <= k < |s| ==> IsSpace(s[k]))
    ensures r == [] || (!IsSpace(r[0]) && !IsSpace(r[|r| - 1]))
  {
    var t := TrimStart(s);
    var r := TrimEnd(t);
    var i := |s| - |t|;
    assert r == s[i..i + |r|];
    r
  }

  lemma {:induction false} TrimStartOfUntrimmed(s: string)
    requires s == [] || !IsSpace(s[0])
    ensures TrimStart(s) == s
  {
  }

  /** Stripping twice is stripping once. */
  lemma StripIdempotent(s: string)
    ensures Strip(Strip(s)) == Strip(s)
  {
    var r := Strip(s);
    TrimStartOfUntrimmed(r);
    if r != [] {
      assert !IsSpace(r[|r| - 1]);
    }
  }

  predicate IsDigit(c: char)
  {
    '0' <= c <= '9'
  }

  function DigitChar(d: int): (c: char)
    requires 0 <= d <= 9
    ensures IsDigit(c) && DigitValue(c) == d
  {
    (('0' as int) + d) as char
  }

  function DigitValue(c: char): (d: nat)
    requires IsDigit(c)
    ensures d <= 9
  {
    (c as int) - ('0' as int)
  }

  predicate AllDigits(s: string)
  {
    forall k :: 0 <= k < |s| ==> IsDigit(s[k])
  }

  /** The value of a decimal digit string, most significant digit first. */
  function DecimalValue(s: string): nat
    requires AllDigits(s)
  {
    if s == [] then 0 else DecimalValue(s[..|s| - 1]) * 10 + DigitValue(s[|s| - 1])
  }

  /** `int(s)` for a string of ASCII digits; anything else raises. */
  function ParseNat(s: string): (r: Option<nat>)
    ensures r.Some? <==> s != [] && AllDigits(s)
  {
    if s != [] && AllDigits(s) then Some(DecimalValue(s)) else None
  }

  /** Two digits, zero-padded: `%m` and `%d`. */
  function Pad2(n: int): (r: string)
    requires 0 <= n < 100
    ensures |r| == 2 && AllDigits(r)
  {
    [DigitChar(n / 10), DigitChar(n % 10)]
  }

  /** Four digits, zero-padded: `%Y` for the years a pandas timestamp holds. */
  function Pad4(n: int): (r: string)
    requires 0 <= n < 10000
    ensures |r| == 4 && AllDigits(r)
  {
    Pad2(n / 100) + Pad2(n % 100)
  }

  /** `int()` reads back the number a padded field was formatted from: the
      zero padding is stripped. */
  lemma Pad2RoundTrip(n: int)
    requires 0 <= n < 100
    ensures ParseNat(Pad2(n)) == Some(n)
  {
    var r := Pad2(n);
    assert r[..1] == [DigitChar(n / 10)];
    assert r[..1][..0] == [];
    assert DecimalValue(r[..1]) == n / 10;
  }

  lemma DecimalAppend2(a: string, b: string)
    requires AllDigits(a) && AllDigits(b) && |b| == 2
    ensures AllDigits(a + b)
    ensures DecimalValue(a + b) == DecimalValue(a) * 100 + DecimalValue(b)
  {
    var ab := a + b;
    var a1 := a + [b[0]];
    assert ab[..|ab| - 1] == a1 && ab[|ab| - 1] == b[1];
    assert a1[..|a1| - 1] == a && a1[|a1| - 1] == b[0];
    assert DecimalValue(a1) == DecimalValue(a) * 10 + DigitValue(b[0]);
    assert DecimalValue(ab) == DecimalValue(a1) * 10 + DigitValue(b[1]);
    assert b[..1] == [b[0]] && b[..1][..0] == [];
    assert DecimalValue(b[..1]) == DigitValue(b[0]);
    assert DecimalValue(b) == DigitValue(b[0]) * 10 + DigitValue(b[1]);
  }

  lemma Pad4RoundTrip(n: int)
    requires 0 <= n < 10000
    ensures ParseNat(Pad4(n)) == Some(n)
  {
    Pad2RoundTrip(n / 100);
    Pad2RoundTrip(n % 100);
    DecimalAppend2(Pad2(n / 100), Pad2(n % 100));
  }

  /** `sep.join(parts)`. */
  function Join(parts: seq<string>, sep: string): (r: string)
  {
    if parts == [] then ""
    else if |parts| == 1 then parts[0]
    else parts[0] + sep + Join(parts[1..], sep)
  }

  /** `s.split(sep)` for a one-character separator: the pieces between
      successive separators, at least one. */
  function Split(s: string, sep: char): (parts: seq<string>)
    ensures |parts| >= 1
    ensures forall k :: 0 <= k < |parts| ==> sep !in parts[k]
  {
    if s == [] then [""]
    else if s[0] == sep then [""] + Split(s[1..], sep)
    else
      var rest := Split(s[1..], sep);
      [[s[0]] + rest[0]] + rest[1..]
  }

  /** Joining the pieces of a split with the separator gives back the string. */
  lemma {:induction false} JoinSplit(s: string, sep: char)
    ensures Join(Split(s, sep), [sep]) == s
  {
    if s != [] {
      JoinSplit(s[1..], sep);
      var rest := Split(s[1..], sep);
      if s[0] == sep {
        assert s == [sep] + s[1..];
      } else if |rest| == 1 {
        assert s == [s[0]] + s[1..];
      } else {
        assert rest == [rest[0]] + rest[1..];
        assert Join(rest, [sep]) == rest[0] + [sep] + Join(rest[1..], [sep]);
        assert s == [s[0]] + s[1..];
      }
    }
  }

  /** A string without the separator splits into itself alone. */
  lemma {:induction false} SplitNoSep(s: string, sep: char)
    requires sep !in s
    ensures Split(s, sep) == [s]
  {
    if s != [] {
      assert s[0] != sep;
      assert sep !in s[1..];
      SplitNoSep(s[1..], sep);
      assert [s[0]] + s[1..] == s;
    }
  }

  /** Splitting `a + sep + b`, where neither side holds the separator, gives
      exactly the two sides. */
  lemma {:induction false} SplitPair(a: string, b: string, sep: char)
    requires sep !in a && sep !in b
    ensures Split(a + [sep] + b, sep) == [a, b]
  {
    if a == [] {
      assert a + [sep] + b == [sep] + b;
      assert ([sep] + b)[1..] == b;
      SplitNoSep(b, sep);
    } else {
      assert (a + [sep] + b)[1..] == a[1..] + [sep] + b;
      assert sep !in a[1..];
      SplitPair(a[1..], b, sep);
      assert [a[0]] + a[1..] == a;
    }
  }

  /** `s.replace(old, new)` for single characters: every occurrence of
      `from` becomes `to`, every other character stays where it is. */
  function Replace(s: string, from: char, to: char): (r: string)
    ensures |r| == |s|
    ensures forall k :: 0 <= k < |s| ==> r[k] == (if s[k] == from then to else s[k])
  {
    seq(|s|, k requires 0 <= k < |s| => if s[k] == from then to else s[k])
  }

  lemma ReplaceConcat(a: string, b: string, from: char, to: char)
    ensures Replace(a + b, from, to) == Replace(a, from, to) + Replace(b, from, to)
  {
    assert forall k :: 0 <= k < |a + b| ==>
      Replace(a + b, from, to)[k] == (Replace(a, from, to) + Replace(b, from, to))[k];
  }

  /** Splitting on one character and joining with another replaces the
      first by the second. */
  lemma {:induction false} JoinSplitReplace(s: string, sep: char, glue: char)
    ensures Join(Split(s, sep), [glue]) == Replace(s, sep, glue)
  {
    if s != [] {
      var rest := Split(s[1..], sep);
      JoinSplitReplace(s[1..], sep, glue);
      ReplaceFirst(s, sep, glue);
      if s[0] == sep {
        assert ([""] + rest)[1..] == rest;
        assert Join([""] + rest, [glue]) == "" + [glue] + Join(rest, [glue]);
      } else {
        JoinPrepend([s[0]], rest, [glue]);
      }
    }
  }

  lemma ReplaceFirst(s: string, from: char, to: char)
    requires s != []
    ensures Replace(s, from, to) == [if s[0] == from then to else s[0]] + Replace(s[1..], from, to)
  {
    assert s == [s[0]] + s[1..];
    ReplaceConcat([s[0]], s[1..], from, to);
  }

  /** Text put in front of the first piece comes out in front of the join. */
  lemma JoinPrepend(x: string, parts: seq<string>, sep: string)
    requires parts != []
    ensures Join([x + parts[0]] + parts[1..], sep) == x + Join(parts, sep)
  {
    var ps := [x + parts[0]] + parts[1..];
    if |parts| > 1 {
      assert ps[1..] == parts[1..];
      assert Join(ps, sep) == x + parts[0] + sep + Join(parts[1..], sep);
    }
  }

  /** A replacement that does not touch the separator can be done piece by
      piece before joining. */
  lemma {:induction false} ReplaceJoin(parts: seq<string>, sep: string, from: char, to: char)
    requires from !in sep
    ensures Replace(Join(parts, sep), from, to) == Join(seq(|parts|, i requires 0 <= i < |parts| => Replace(parts[i], from, to)), sep)
  {
    var rs := seq(|parts|, i requires 0 <= i < |parts| => Replace(parts[i], from, to));
    if |parts| > 1 {
      ReplaceJoin(parts[1..], sep, from, to);
      ReplaceConcat(parts[0] + sep, Join(parts[1..], sep), from, to);
      ReplaceConcat(parts[0], sep, from, to);
      ReplaceUntouched(sep, from, to);
      assert rs[1..] == seq(|parts[1..]|, i requires 0 <= i < |parts[1..]| => Replace(parts[1..][i], from, to));
    }
  }

  lemma ReplaceUntouched(s: string, from: char, to: char)
    requires from !in s
    ensures Replace(s, from, to) == s
  {
  }

  /** After replacing `from` by something else, no `from` is left. */
  lemma ReplaceRemoves(s: string, from: char, to: char)
    requires from != to
    ensures from !in Replace(s, from, to)
  {
    var r := Replace(s, from, to);
    forall k | 0 <= k < |r| ensures r[k] != from { }
  }
}
