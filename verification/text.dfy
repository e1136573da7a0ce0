/** The handful of Python string operations the program relies on, restricted
    to ASCII: `str.isspace`, `str.strip`, `str.lower`, the `in` substring test,
    `s.split("/")[-1]` and `str(n)` for a natural number. */
module Text {

  /** `c.isspace()` for an ASCII character: tab, line feed, vertical tab,
      form feed, carriage return, the four separators 0x1C-0x1F, and space. */
  predicate IsSpace(c: char)
  {
    var n := c as int;
    n == 32 || 9 <= n <= 13 || 28 <= n <= 31
  }

  /** Membership in the regular-expression class `[\w\.\-\/]`, with `\w`
      read as ASCII letters, digits and underscore. */
  predicate IsNameChar(c: char)
  {
    || 'a' <= c <= 'z'
    || 'A' <= c <= 'Z'
    || '0' <= c <= '9'
    || c == '_' || c == '.' || c == '-' || c == '/'
  }

  lemma NameCharIsNotSpace(c: char)
    requires IsNameChar(c)
    ensures !IsSpace(c)
  {
  }

  /** `not s.strip()`: the string holds nothing but whitespace. */
  predicate IsBlank(s: string)
  {
    forall i :: 0 <= i < |s| ==> IsSpace(s[i])
  }

  /** No character of `s` is whitespace. */
  predicate HasNoSpace(s: string)
  {
    forall i :: 0 <= i < |s| ==> !IsSpace(s[i])
  }

  /** One step of `lstrip`: dropping a leading space in front of a
      stripped suffix keeps it a suffix with blank text before it. */
  lemma TrimStartStep(s: string, q: string, r: string)
    requires s != [] && IsSpace(s[0]) && q == s[1..]
    requires |r| <= |q| && r == q[|q| - |r|..] && IsBlank(q[..|q| - |r|])
    ensures r == s[|s| - |r|..] && IsBlank(s[..|s| - |r|])
  {
    var pre := s[..|s| - |r|];
    forall i | 0 <= i < |pre|
      ensures IsSpace(pre[i])
    {
      if i > 0 {
        assert pre[i] == q[..|q| - |r|][i - 1];
      }
    }
  }

  /** One step of `rstrip`: dropping a trailing space behind a stripped
      prefix keeps it a prefix with blank text after it. */
  lemma TrimEndStep(s: string, p: string, r: string)
    requires s != [] && IsSpace(s[|s| - 1]) && p == s[..|s| - 1]
    requires |r| <= |p| && r == p[..|r|] && IsBlank(p[|r|..])
    ensures r == s[..|r|] && IsBlank(s[|r|..])
  {
    var post := s[|r|..];
    forall i | 0 <= i < |post|
      ensures IsSpace(post[i])
    {
      if |r| + i < |s| - 1 {
        assert post[i] == p[|r|..][i];
      } else {
        assert post[i] == s[|s| - 1];
      }
    }
  }

  /** `s.lstrip()`. */
  function TrimStart(s: string): (r: string)
    ensures |r| <= |s| && r == s[|s| - |r|..]
    ensures IsBlank(s[..|s| - |r|])
    ensures r == [] || !IsSpace(r[0])
  {
    if s != [] && IsSpace(s[0]) then
      var r := TrimStart(s[1..]);
      TrimStartStep(s, s[1..], r);
      r
    else
      s
  }

  /** `s.rstrip()`. */
  function TrimEnd(s: string): (r: string)
    ensures |r| <= |s| && r == s[..|r|]
    ensures IsBlank(s[|r|..])
    ensures r == [] || !IsSpace(r[|r| - 1])
  {
    if s != [] && IsSpace(s[|s| - 1]) then
      var r := TrimEnd(s[..|s| - 1]);
      TrimEndStep(s, s[..|s| - 1], r);
      r
    else
      s
  }

  /** `s.strip()`: the slice of `s` left after removing whitespace at both
      ends. */
  function Strip(s: string): (r: string)
    ensures |r| <= |s|
  {
    TrimEnd(TrimStart(s))
  }

  /** `r` is the slice of `s` that starts at `a` and has blank text on
      both sides of it within `s`. */
  predicate BlankAround(s: string, r: string, a: nat)
  {
    a + |r| <= |s| && r == s[a..a + |r|] && IsBlank(s[..a]) && IsBlank(s[a + |r|..])
  }

  /** A prefix `r` of the suffix `t` of `s` that starts at `a`, with blank
      text before `t` and after `r`, is a slice of `s` with blank text
      around it. */
  lemma SliceOfSuffix(s: string, t: string, r: string, a: nat)
    requires a <= |s| && t == s[a..] && IsBlank(s[..a])
    requires |r| <= |t| && r == t[..|r|] && IsBlank(t[|r|..])
    ensures BlankAround(s, r, a)
  {
    assert s[a + |r|..] == t[|r|..];
  }

  /** Stripping keeps a slice of `s`: what lies before it was removed by
      `TrimStart`, what lies after it by `TrimEnd`. */
  lemma StripSlice(s: string, a: nat)
    requires a == |s| - |TrimStart(s)|
    ensures BlankAround(s, Strip(s), a)
  {
    SliceOfSuffix(s, TrimStart(s), Strip(s), a);
  }

  /** The ends of a stripped string: it is empty exactly when `s` is
      blank, it starts and ends with a non-space, and a string without
      whitespace is left untouched. */
  lemma StripEnds(s: string)
    ensures Strip(s) == [] <==> IsBlank(s)
    ensures Strip(s) != [] ==> !IsSpace(Strip(s)[0]) && !IsSpace(Strip(s)[|Strip(s)| - 1])
    ensures HasNoSpace(s) ==> Strip(s) == s
  {
    var t := TrimStart(s);
    var r := TrimEnd(t);
    assert Strip(s) == r;
    assert r == [] <==> IsBlank(s) by {
      if r == [] {
        assert IsBlank(t) by {
          assert t[|r|..] == t;
        }
        assert t == [];
        assert IsBlank(s) by {
          assert s[..|s|] == s;
        }
      } else {
        assert r[0] == t[0] == s[|s| - |t|];
      }
    }
    assert r != [] ==> !IsSpace(r[0]) && !IsSpace(r[|r| - 1]) by {
      if r != [] {
        assert r[0] == t[0];
      }
    }
    assert HasNoSpace(s) ==> r == s by {
      if HasNoSpace(s) && s != [] {
        assert !IsSpace(s[0]);
        assert t == s;
        assert !IsSpace(s[|s| - 1]);
      }
    }
  }

  /** What stripping promises: the result is the slice of `s` between a
      blank prefix and a blank suffix, it is empty exactly when `s` is
      blank, it starts and ends with a non-space, and a string without
      whitespace is left untouched. */
  lemma StripSpec(s: string)
    ensures BlankAround(s, Strip(s), |s| - |TrimStart(s)|)
    ensures Strip(s) == [] <==> IsBlank(s)
    ensures Strip(s) != [] ==> !IsSpace(Strip(s)[0]) && !IsSpace(Strip(s)[|Strip(s)| - 1])
    ensures HasNoSpace(s) ==> Strip(s) == s
  {
    assert BlankAround(s, Strip(s), |s| - |TrimStart(s)|) by {
      StripSlice(s, |s| - |TrimStart(s)|);
    }
    assert Strip(s) == [] <==> IsBlank(s) by {
      StripEnds(s);
    }
    assert Strip(s) != [] ==> !IsSpace(Strip(s)[0]) && !IsSpace(Strip(s)[|Strip(s)| - 1]) by {
      StripEnds(s);
    }
    assert HasNoSpace(s) ==> Strip(s) == s by {
      StripEnds(s);
    }
  }

  function LowerChar(c: char): char
  {
    if 'A' <= c <= 'Z' then (c as int + 32) as char else c
  }

  /** `s.lower()` on ASCII letters; every other character is kept. */
  function Lower(s: string): (r: string)
    ensures |r| == |s|
    ensures forall i :: 0 <= i < |s| ==> r[i] == LowerChar(s[i])
  {
    if s == [] then [] else [LowerChar(s[0])] + Lower(s[1..])
  }

  /** `t` occurs in `s` starting at index `i`. */
  predicate OccursAt(s: string, t: string, i: int)
  {
    0 <= i && i + |t| <= |s| && s[i..i + |t|] == t
  }

  /** The `t in s` substring test, scanning `s` from the left. */
  predicate Contains(s: string, t: string)
    decreases |s|
  {
    (|t| <= |s| && s[..|t|] == t) || (s != [] && Contains(s[1..], t))
  }

  /** The scan agrees with the declarative reading: some index of `s` starts
      an occurrence of `t`. */
  lemma {:induction false} ContainsIffOccurs(s: string, t: string)
    ensures Contains(s, t) <==> exists i :: OccursAt(s, t, i)
    decreases |s|
  {
    if |t| <= |s| && s[..|t|] == t {
      assert OccursAt(s, t, 0);
    } else if s != [] {
      ContainsIffOccurs(s[1..], t);
      if Contains(s[1..], t) {
        var i :| OccursAt(s[1..], t, i);
        assert s[i + 1..i + 1 + |t|] == s[1..][i..i + |t|];
        assert OccursAt(s, t, i + 1);
      }
      if exists i :: OccursAt(s, t, i) {
        var i :| OccursAt(s, t, i);
        assert i != 0;
        assert s[1..][i - 1..i - 1 + |t|] == s[i..i + |t|];
        assert OccursAt(s[1..], t, i - 1);
      }
    }
  }

  /** A string containing `t` contains every prefix of `t`. */
  lemma {:induction false} ContainsPrefix(s: string, t: string, k: nat)
    requires k <= |t| && Contains(s, t)
    ensures Contains(s, t[..k])
    decreases |s|
  {
    if |t| <= |s| && s[..|t|] == t {
      assert s[..k] == t[..k];
    } else {
      ContainsPrefix(s[1..], t, k);
    }
  }

  /** `s.split("/")[-1]`: the text after the last '/', or all of `s` when it
      has none. */
  function LastSegment(s: string): (r: string)
    ensures |r| <= |s| && r == s[|s| - |r|..]
    ensures '/' !in r
    ensures |r| < |s| ==> s[|s| - |r| - 1] == '/'
  {
    if s == [] then []
    else if s[|s| - 1] == '/' then []
    else
      var r := LastSegment(s[..|s| - 1]);
      assert s[..|s| - 1][|s| - 1 - |r|..] == s[|s| - 1 - |r|..|s| - 1];
      r + [s[|s| - 1]]
  }

  function DigitChar(d: nat): char
    requires d < 10
  {
    ('0' as int + d) as char
  }

  /** `str(n)` for a natural number. */
  function Decimal(n: nat): (r: string)
    ensures r != []
  {
    if n < 10 then [DigitChar(n)] else Decimal(n / 10) + [DigitChar(n % 10)]
  }

  predicate IsDigit(c: char)
  {
    '0' <= c <= '9'
  }

  function DigitOf(c: char): nat
    requires IsDigit(c)
  {
    c as int - '0' as int
  }

  /** The number a string of decimal digits denotes, most significant digit
      first. */
  function DigitsValue(s: string): nat
    requires forall i :: 0 <= i < |s| ==> IsDigit(s[i])
  {
    if s == [] then 0 else 10 * DigitsValue(s[..|s| - 1]) + DigitOf(s[|s| - 1])
  }

  /** `str(n)` is the decimal numeral of `n`: digits only, no leading zero,
      and reading it back gives `n`. */
  lemma {:induction false} DecimalDigits(n: nat)
    ensures forall i :: 0 <= i < |Decimal(n)| ==> IsDigit(Decimal(n)[i])
    ensures |Decimal(n)| > 1 ==> Decimal(n)[0] != '0'
    ensures DigitsValue(Decimal(n)) == n
    decreases n
  {
    var d := DigitChar(n % 10);
    assert DigitOf(d) == n % 10;
    if n >= 10 {
      DecimalDigits(n / 10);
      var r := Decimal(n);
      assert r == Decimal(n / 10) + [d];
      assert r[..|r| - 1] == Decimal(n / 10);
    }
  }
}
