/** The Python string builtins the core relies on: `str.lower`, `str.endswith`,
    `str.replace`, the `in` operator on strings, and `int()` applied to a string
    together with its inverse `str()` on integers. */
module PyStr {
  import opened Values

  // ---------------------------------------------------------------------------
  // lower / endswith / in

  /** `str.lower()` on one character; only ASCII letters are folded. */
  function LowerChar(c: char): char
  {
    if 'A' <= c <= 'Z' then (c as int + 32) as char else c
  }

  /** `s.lower()`: every capital becomes the small letter at the same place in
      the alphabet, every other character is kept, and no capital is left. */
  function Lower(s: string): (r: string)
    ensures |r| == |s|
    ensures forall i :: 0 <= i < |s| && 'A' <= s[i] <= 'Z' ==>
              'a' <= r[i] <= 'z' && r[i] as int - 'a' as int == s[i] as int - 'A' as int
    ensures forall i :: 0 <= i < |s| && !('A' <= s[i] <= 'Z') ==> r[i] == s[i]
    ensures forall i :: 0 <= i < |r| ==> !('A' <= r[i] <= 'Z')
  {
    seq(|s|, i requires 0 <= i < |s| => LowerChar(s[i]))
  }

  /** A string without capitals is its own lower-case form. */
  lemma LowerUnchanged(s: string)
    requires forall i :: 0 <= i < |s| ==> !('A' <= s[i] <= 'Z')
    ensures Lower(s) == s
  {
  }

  /** `s.endswith(suffix)`. */
  predicate EndsWith(s: string, suffix: string)
  {
    |suffix| <= |s| && s[|s| - |suffix|..] == suffix
  }

  /** `q in s` for two strings: `q` occurs in `s` as a contiguous substring. */
  predicate Occurs(s: string, q: string)
  {
    exists i | 0 <= i <= |s| :: OccursAt(s, q, i)
  }

  /** `q` occurs in `s` starting at index `i`. */
  predicate OccursAt(s: string, q: string, i: int)
  {
    0 <= i && i + |q| <= |s| && s[i..i + |q|] == q
  }

  /** No character of `a` appears in `b`. */
  predicate Disjoint(a: string, b: string)
  {
    forall c :: c in a ==> c !in b
  }

  // ---------------------------------------------------------------------------
  // str.replace

  /** `s.replace(pat, rep)` for a non-empty `pat`: scanning from the left, every
      occurrence of `pat` that does not overlap an earlier replaced one is
      replaced by `rep`. */
  function Replace(s: string, pat: string, rep: string): string
    requires pat != []
    decreases |s|
  {
    if |s| < |pat| then s
    else if s[..|pat|] == pat then rep + Replace(s[|pat|..], pat, rep)
    else [s[0]] + Replace(s[1..], pat, rep)
  }

  /** Where `pat` does not start the string, its first character is copied. */
  lemma ReplaceSkipFirst(s: string, pat: string, rep: string)
    requires pat != [] && |s| >= |pat| && s[..|pat|] != pat
    ensures Replace(s, pat, rep) == [s[0]] + Replace(s[1..], pat, rep)
  {
  }

  /** A string that does not contain the first character of `pat` is left unchanged. */
  lemma {:induction false} ReplaceWithoutLead(s: string, pat: string, rep: string)
    requires pat != [] && pat[0] !in s
    ensures Replace(s, pat, rep) == s
    decreases |s|
  {
    if |s| >= |pat| {
      assert s[0] in s;
      assert s[..|pat|][0] != pat[0];
      assert forall c :: c in s[1..] ==> c in s;
      ReplaceWithoutLead(s[1..], pat, rep);
      assert [s[0]] + s[1..] == s;
    }
  }

  /** A prefix free of the first character of `pat` is copied through unchanged. */
  lemma {:induction false} ReplacePlainPrefix(a: string, b: string, pat: string, rep: string)
    requires pat != [] && pat[0] !in a
    ensures Replace(a + b, pat, rep) == a + Replace(b, pat, rep)
    decreases |a|
  {
    if a != [] {
      var s := a + b;
      if |s| >= |pat| {
        assert Replace(s, pat, rep) == [a[0]] + Replace(a[1..] + b, pat, rep) by {
          assert a[0] in a;
          assert s[..|pat|][0] == a[0];
          assert s[1..] == a[1..] + b;
        }
        assert Replace(a[1..] + b, pat, rep) == a[1..] + Replace(b, pat, rep) by {
          assert forall c :: c in a[1..] ==> c in a;
          ReplacePlainPrefix(a[1..], b, pat, rep);
        }
        assert [a[0]] + (a[1..] + Replace(b, pat, rep)) == a + Replace(b, pat, rep);
      } else {
        assert Replace(b, pat, rep) == b;
      }
    } else {
      assert a + b == b;
    }
  }

  /** A prefix of `[c] + r` is empty, or starts with `c` and continues with a prefix of `r`. */
  lemma PrefixOfCons(c: char, r: string, w: string)
    ensures w <= [c] + r <==> w == [] || (w[0] == c && w[1..] <= r)
  {
    if w != [] && w[0] == c && w[1..] <= r {
      assert w == [c] + w[1..];
    }
  }

  /** When `rep` is non-empty, a prefix `w` of the result that shares no character
      with `rep` was already a prefix of the input: replacing never creates it. */
  lemma {:induction false} ReplacePrefixFrom(s: string, pat: string, rep: string, w: string)
    requires pat != [] && rep != [] && Disjoint(w, rep)
    ensures w <= Replace(s, pat, rep) ==> w <= s
    decreases |s|
  {
    if w != [] && |s| >= |pat| {
      var r := Replace(s, pat, rep);
      if s[..|pat|] == pat {
        assert r[0] == rep[0];
        assert w[0] in w && rep[0] in rep;
      } else {
        var r' := Replace(s[1..], pat, rep);
        assert r == [s[0]] + r';
        assert forall c :: c in w[1..] ==> c in w;
        ReplacePrefixFrom(s[1..], pat, rep, w[1..]);
        PrefixOfCons(s[0], r', w);
        PrefixOfCons(s[0], s[1..], w);
        assert [s[0]] + s[1..] == s;
      }
    }
  }

  lemma NoOccurrenceInSuffix(s: string, k: nat, q: string)
    requires k <= |s| && !Occurs(s, q)
    ensures !Occurs(s[k..], q)
  {
    forall i | 0 <= i && i + |q| <= |s[k..]|
      ensures !OccursAt(s[k..], q, i)
    {
      assert s[k..][i..i + |q|] == s[k + i..k + i + |q|];
      assert !OccursAt(s, q, k + i);
    }
  }

  /** After `s.replace(pat, rep)` no occurrence of `pat` is left, provided `rep`
      is non-empty and shares no character with `pat`. */
  lemma {:induction false} ReplaceRemovesPattern(s: string, pat: string, rep: string)
    requires pat != [] && rep != [] && Disjoint(pat, rep)
    ensures !Occurs(Replace(s, pat, rep), pat)
    decreases |s|
  {
    if |s| >= |pat| {
      if s[..|pat|] == pat {
        ReplaceRemovesPattern(s[|pat|..], pat, rep);
        NoOccurrenceAfterReplacement(pat, rep, Replace(s[|pat|..], pat, rep));
      } else {
        ReplaceRemovesPattern(s[1..], pat, rep);
        assert !OccursAt(s, pat, 0) by {
          assert s[0..|pat|] == s[..|pat|];
        }
        NoOccurrenceAfterKept(s, pat, rep, pat);
      }
    }
  }

  /** Replacing `pat` by a non-empty `rep` that shares no character with `q`
      cannot create an occurrence of `q`. */
  lemma {:induction false} ReplaceKeepsAbsence(s: string, pat: string, rep: string, q: string)
    requires pat != [] && rep != [] && q != [] && Disjoint(q, rep) && !Occurs(s, q)
    ensures !Occurs(Replace(s, pat, rep), q)
    decreases |s|
  {
    if |s| >= |pat| {
      if s[..|pat|] == pat {
        NoOccurrenceInSuffix(s, |pat|, q);
        ReplaceKeepsAbsence(s[|pat|..], pat, rep, q);
        NoOccurrenceAfterReplacement(q, rep, Replace(s[|pat|..], pat, rep));
      } else {
        NoOccurrenceInSuffix(s, 1, q);
        ReplaceKeepsAbsence(s[1..], pat, rep, q);
        NoOccurrenceAfterKept(s, pat, rep, q);
      }
    }
  }

  /** Putting `rep` in front of a text without `q` creates no `q` when the two
      share no character. */
  lemma NoOccurrenceAfterReplacement(q: string, rep: string, r': string)
    requires q != [] && rep != [] && Disjoint(q, rep) && !Occurs(r', q)
    ensures !Occurs(rep + r', q)
  {
    var r := rep + r';
    forall i | 0 <= i && i + |q| <= |r|
      ensures !OccursAt(r, q, i)
    {
      if i < |rep| {
        assert r[i..i + |q|][0] == rep[i];
        assert rep[i] in rep && q[0] in q;
      } else {
        assert r[i..i + |q|] == r'[i - |rep|..i - |rep| + |q|];
        assert !OccursAt(r', q, i - |rep|);
      }
    }
  }

  /** Copying the first character of `s`, where `q` does not start, in front of
      the replaced rest creates no `q` when the rest has none. */
  lemma NoOccurrenceAfterKept(s: string, pat: string, rep: string, q: string)
    requires pat != [] && rep != [] && q != [] && Disjoint(q, rep)
    requires s != [] && !OccursAt(s, q, 0)
    requires !Occurs(Replace(s[1..], pat, rep), q)
    ensures !Occurs([s[0]] + Replace(s[1..], pat, rep), q)
  {
    var r' := Replace(s[1..], pat, rep);
    var r := [s[0]] + r';
    forall i | 0 <= i && i + |q| <= |r|
      ensures !OccursAt(r, q, i)
    {
      if i == 0 {
        assert forall c :: c in q[1..] ==> c in q;
        ReplacePrefixFrom(s[1..], pat, rep, q[1..]);
        PrefixOfCons(s[0], r', q);
        PrefixOfCons(s[0], s[1..], q);
        assert [s[0]] + s[1..] == s;
      } else {
        assert r[i..i + |q|] == r'[i - 1..i - 1 + |q|];
        assert !OccursAt(r', q, i - 1);
      }
    }
  }


  // ---------------------------------------------------------------------------
  // int() of a string, and str() of an int

  /** The characters CPython's `int()` skips around a number: ASCII whitespace,
      the separators U+001C..U+001F and the Unicode space characters. */
  predicate IsSpace(c: char)
  {
    || c == ' '
    || '\t' <= c <= '\r'
    || '\U{1c}' <= c <= '\U{1f}'
    || c == '\U{85}' || c == '\U{a0}' || c == '\U{1680}'
    || '\U{2000}' <= c <= '\U{200a}'
    || c == '\U{2028}' || c == '\U{2029}' || c == '\U{202f}' || c == '\U{205f}' || c == '\U{3000}'
  }

  function TrimStart(s: string): (r: string)
    ensures |r| <= |s| && r == s[|s| - |r|..] && (r == [] || !IsSpace(r[0]))
    decreases |s|
  {
    if s != [] && IsSpace(s[0]) then TrimStart(s[1..]) else s
  }

  function TrimEnd(s: string): (r: string)
    ensures r <= s && (r == [] || !IsSpace(r[|r| - 1]))
    decreases |s|
  {
    if s != [] && IsSpace(s[|s| - 1]) then TrimEnd(s[..|s| - 1]) else s
  }

  /** `s.strip()`. */
  function Strip(s: string): string
  {
    TrimEnd(TrimStart(s))
  }

  predicate IsDigit(c: char)
  {
    '0' <= c <= '9'
  }

  /** Plain decimal digits only. */
  predicate AllDigits(d: string)
  {
    forall k :: 0 <= k < |d| ==> IsDigit(d[k])
  }

  /** Decimal digits, with single underscores allowed between two digits (PEP 515). */
  predicate WellFormedDigits(t: string)
  {
    && t != []
    && IsDigit(t[0])
    && IsDigit(t[|t| - 1])
    && (forall i :: 0 <= i < |t| ==> IsDigit(t[i]) || t[i] == '_')
    && (forall i :: 0 <= i < |t| - 1 ==> !(t[i] == '_' && t[i + 1] == '_'))
  }

  /** The value of a digit string, underscores ignored. */
  function DigitsValue(t: string): nat
    decreases |t|
  {
    if t == [] then 0
    else if IsDigit(t[|t| - 1]) then DigitsValue(t[..|t| - 1]) * 10 + (t[|t| - 1] as int - '0' as int)
    else DigitsValue(t[..|t| - 1])
  }

  /** `int(s)` for a string `s`; `None` where Python raises `ValueError`. */
  function ParseInt(s: string): Option<int>
  {
    ParseStripped(Strip(s))
  }

  /** `int()` of a string without surrounding whitespace: an optional sign, then digits. */
  function ParseStripped(t: string): Option<int>
  {
    if t == [] then None
    else if t[0] == '-' then
      (match ParseDigits(t[1..])
       case Some(n) => Some(-(n as int))
       case None => None)
    else if t[0] == '+' then
      (match ParseDigits(t[1..])
       case Some(n) => Some(n as int)
       case None => None)
    else
      (match ParseDigits(t)
       case Some(n) => Some(n as int)
       case None => None)
  }

  /** CPython's default limit on the digits of an `int`/`str` conversion
      (`sys.get_int_max_str_digits()`); beyond it both raise `ValueError`. */
  const MaxStrDigits: nat := 4300

  /** The number of digits in a digit string, underscores not counted. */
  function DigitCount(t: string): (n: nat)
    ensures n <= |t|
    decreases |t|
  {
    if t == [] then 0
    else DigitCount(t[..|t| - 1]) + (if IsDigit(t[|t| - 1]) then 1 else 0)
  }

  /** The value of an unsigned digit string, or `None` when it is malformed or
      has more digits than the conversion limit allows. */
  function ParseDigits(b: string): (r: Option<nat>)
    ensures r.Some? <==> WellFormedDigits(b) && DigitCount(b) <= MaxStrDigits
  {
    if WellFormedDigits(b) && DigitCount(b) <= MaxStrDigits then Some(DigitsValue(b)) else None
  }

  function DigitChar(d: nat): (c: char)
    requires d < 10
    ensures IsDigit(c) && c as int - '0' as int == d
  {
    ('0' as int + d) as char
  }

  function NatToString(n: nat): (r: string)
    decreases n
  {
    if n < 10 then [DigitChar(n)] else NatToString(n / 10) + [DigitChar(n % 10)]
  }

  /** `str(i)` for an integer `i` within the conversion limit. */
  function IntToString(i: int): string
  {
    if i < 0 then "-" + NatToString(-i) else NatToString(i)
  }

  /** `str(i)` does not raise: the decimal form of `i` has at most `MaxStrDigits` digits. */
  predicate Printable(i: int)
  {
    |NatToString(if i < 0 then -i else i)| <= MaxStrDigits
  }

  lemma {:induction false} NatToStringDigits(n: nat)
    ensures NatToString(n) != []
    ensures forall k :: 0 <= k < |NatToString(n)| ==> IsDigit(NatToString(n)[k])
    ensures DigitsValue(NatToString(n)) == n
    decreases n
  {
    if n >= 10 {
      NatToStringDigits(n / 10);
      var t := NatToString(n);
      assert t[..|t| - 1] == NatToString(n / 10);
    }
  }

  lemma StripKeepsUnpadded(t: string)
    requires t != [] && !IsSpace(t[0]) && !IsSpace(t[|t| - 1])
    ensures Strip(t) == t
  {
  }

  lemma AllDigitsWellFormed(d: string)
    requires d != [] && forall k :: 0 <= k < |d| ==> IsDigit(d[k])
    ensures WellFormedDigits(d)
  {
  }

  /** In a string of plain digits every character counts towards the limit. */
  lemma {:induction false} AllDigitsCount(d: string)
    requires forall k :: 0 <= k < |d| ==> IsDigit(d[k])
    ensures DigitCount(d) == |d|
    decreases |d|
  {
    if d != [] {
      AllDigitsCount(d[..|d| - 1]);
    }
  }

  /** `int()` rejects a digit string longer than the conversion limit. */
  lemma ParseRejectsOverLimit(d: string)
    requires |d| > MaxStrDigits && forall k :: 0 <= k < |d| ==> IsDigit(d[k])
    ensures ParseInt(d).None?
  {
    AllDigitsCount(d);
    assert IsDigit(d[0]) && IsDigit(d[|d| - 1]);
    ParseUnpadded(d);
    assert ParseDigits(d).None?;
  }

  /** Without surrounding whitespace, `int()` reads the sign and the digits. */
  lemma ParseUnpadded(t: string)
    requires t != [] && !IsSpace(t[0]) && !IsSpace(t[|t| - 1])
    ensures ParseInt(t) == ParseStripped(t)
  {
    StripKeepsUnpadded(t);
  }

  lemma ParseUnsignedDigits(d: string)
    requires d != [] && |d| <= MaxStrDigits && AllDigits(d)
    ensures ParseInt(d) == Some(DigitsValue(d))
  {
    assert ParseInt(d) == ParseStripped(d) by {
      assert IsDigit(d[0]) && IsDigit(d[|d| - 1]);
      ParseUnpadded(d);
    }
    assert ParseStripped(d) == Some(DigitsValue(d) as int) by {
      PlainDigitsParse(d);
      UnsignedStripped(d, DigitsValue(d));
    }
  }

  /** Plain digits within the limit parse to their value. */
  lemma PlainDigitsParse(d: string)
    requires d != [] && |d| <= MaxStrDigits && AllDigits(d)
    ensures ParseDigits(d) == Some(DigitsValue(d))
  {
    AllDigitsWellFormed(d);
    AllDigitsCount(d);
  }

  lemma UnsignedStripped(t: string, n: nat)
    requires t != [] && IsDigit(t[0]) && ParseDigits(t) == Some(n)
    ensures ParseStripped(t) == Some(n as int)
  {
  }

  lemma ParseNegativeDigits(t: string)
    requires 2 <= |t| <= MaxStrDigits + 1 && t[0] == '-' && forall k :: 1 <= k < |t| ==> IsDigit(t[k])
    ensures ParseInt(t) == Some(-(DigitsValue(t[1..]) as int))
  {
    var d := t[1..];
    assert ParseDigits(d) == Some(DigitsValue(d)) by {
      forall k | 0 <= k < |d| ensures IsDigit(d[k]) {
        assert d[k] == t[k + 1];
      }
      AllDigitsWellFormed(d);
      AllDigitsCount(d);
    }
    assert ParseInt(t) == ParseStripped(t) by {
      assert IsDigit(t[|t| - 1]);
      ParseUnpadded(t);
    }
    NegativeStripped(t, DigitsValue(d));
  }

  lemma NegativeStripped(t: string, n: nat)
    requires t != [] && t[0] == '-' && ParseDigits(t[1..]) == Some(n)
    ensures ParseStripped(t) == Some(-(n as int))
  {
  }

  /** `int(str(i)) == i`: parsing undoes printing, for every integer `str` can print. */
  lemma {:induction false} ParseIntOfIntToString(i: int)
    requires Printable(i)
    ensures ParseInt(IntToString(i)) == Some(i)
  {
    var n: nat := if i < 0 then -i else i;
    NatToStringDigits(n);
    if i < 0 {
      var t := IntToString(i);
      assert t[1..] == NatToString(n);
      ParseNegativeDigits(t);
    } else {
      ParseUnsignedDigits(NatToString(n));
    }
  }
}
