/** The handful of Python string operations the core relies on: `strip()`,
    `lower()`, `in`, `re.split` on a character class, `str.join`, `str(n)`,
    `int(s)`, `replace(pat, "")` and `os.path.basename`.  Characters are
    Unicode code points, as in a Python `str`. */
module Text {
  import opened Wrappers

  /** The characters Python's `str.isspace()` accepts, which are the ones
      `str.strip()` removes when called without arguments. */
  predicate IsSpace(c: char) {
    var n := c as int;
    (9 <= n <= 13) || (28 <= n <= 32) || n == 0x85 || n == 0xA0 || n == 0x1680
    || (0x2000 <= n <= 0x200A) || n == 0x2028 || n == 0x2029 || n == 0x202F
    || n == 0x205F || n == 0x3000
  }

  /** `s.lstrip()`: what is left after dropping leading white space. */
  function TrimStart(s: string): string {
    if s != [] && IsSpace(s[0]) then TrimStart(s[1..]) else s
  }

  /** `s.rstrip()`: what is left after dropping trailing white space. */
  function TrimEnd(s: string): string {
    if s != [] && IsSpace(s[|s| - 1]) then TrimEnd(s[..|s| - 1]) else s
  }

  /** `lstrip()` leaves a suffix that does not start with white space, and
      drops only white space. */
  lemma {:induction false} TrimStartSpec(s: string)
    ensures var r := TrimStart(s);
      && |r| <= |s| && r == s[|s| - |r|..]
      && (forall k :: 0 <= k < |s| - |r| ==> IsSpace(s[k]))
      && (r != [] ==> !IsSpace(r[0]))
    decreases |s|
  {
    if s != [] && IsSpace(s[0]) {
      TrimStartSpec(s[1..]);
    }
  }

  /** `rstrip()` leaves a prefix that does not end with white space, and
      drops only white space. */
  lemma {:induction false} TrimEndSpec(s: string)
    ensures var r := TrimEnd(s);
      && |r| <= |s| && r == s[..|r|]
      && (forall k :: |r| <= k < |s| ==> IsSpace(s[k]))
      && (r != [] ==> !IsSpace(r[|r| - 1]))
    decreases |s|
  {
    if s != [] && IsSpace(s[|s| - 1]) {
      TrimEndSpec(s[..|s| - 1]);
    }
  }

  /** `r` is the infix of `s` starting at `i`, and everything of `s` around
      it is white space. */
  predicate InfixAmidSpace(s: string, r: string, i: int) {
    && 0 <= i <= |s| - |r|
    && r == s[i..i + |r|]
    && (forall k :: 0 <= k < i ==> IsSpace(s[k]))
    && (forall k :: i + |r| <= k < |s| ==> IsSpace(s[k]))
  }

  /** Python's `s.strip()`. */
  function Strip(s: string): string {
    TrimStart(TrimEnd(s))
  }

  /** `strip()` leaves the infix of `s` that is left once the white space at
      both ends is gone; it neither starts nor ends with white space. */
  lemma StripSpec(s: string)
    ensures exists i :: InfixAmidSpace(s, Strip(s), i)
    ensures var r := Strip(s); r != [] ==> !IsSpace(r[0]) && !IsSpace(r[|r| - 1])
  {
    var t := TrimEnd(s);
    TrimEndSpec(s);
    TrimStartSpec(t);
    var r := Strip(s);
    assert InfixAmidSpace(s, r, |t| - |r|);
    if r != [] {
      assert r[|r| - 1] == t[|t| - 1];
    }
  }

  /** `str.lower()` restricted to ASCII letters. */
  function LowerChar(c: char): char {
    if 'A' <= c <= 'Z' then (c as int + 32) as char else c
  }

  function Lower(s: string): string {
    seq(|s|, k requires 0 <= k < |s| => LowerChar(s[k]))
  }

  lemma LowerIdempotent(s: string)
    ensures Lower(Lower(s)) == Lower(s)
  {
  }

  /** Lowering keeps white space where it was, so it commutes with `strip()`. */
  lemma {:induction false} TrimStartLower(s: string)
    ensures TrimStart(Lower(s)) == Lower(TrimStart(s))
    decreases |s|
  {
    if s != [] {
      assert Lower(s)[1..] == Lower(s[1..]);
      TrimStartLower(s[1..]);
    }
  }

  lemma {:induction false} TrimEndLower(s: string)
    ensures TrimEnd(Lower(s)) == Lower(TrimEnd(s))
    decreases |s|
  {
    if s != [] {
      assert Lower(s)[..|s| - 1] == Lower(s[..|s| - 1]);
      TrimEndLower(s[..|s| - 1]);
    }
  }

  lemma StripLower(s: string)
    ensures Strip(Lower(s)) == Lower(Strip(s))
  {
    TrimEndLower(s);
    TrimStartLower(TrimEnd(s));
  }

  /** `s.endswith(suffix)`; `suffix <= s` is `s.startswith(suffix)`. */
  predicate EndsWith(s: string, suffix: string) {
    |suffix| <= |s| && s[|s| - |suffix|..] == suffix
  }

  /** Python's `needle in hay` on strings: `needle` occurs at some offset. */
  predicate Contains(hay: string, needle: string) {
    needle <= hay || (hay != [] && Contains(hay[1..], needle))
  }

  /** An occurrence at offset `i` makes `needle in hay` true. */
  lemma {:induction false} ContainsFromOffset(hay: string, needle: string, i: nat)
    requires i <= |hay| && needle <= hay[i..]
    ensures Contains(hay, needle)
    decreases i
  {
    if i > 0 {
      assert hay[1..][i - 1..] == hay[i..];
      ContainsFromOffset(hay[1..], needle, i - 1);
    }
  }

  /** `needle in hay` holds only with an occurrence at some offset. */
  lemma {:induction false} ContainsOffset(hay: string, needle: string) returns (i: nat)
    requires Contains(hay, needle)
    ensures i + |needle| <= |hay| && needle <= hay[i..]
    decreases |hay|
  {
    if needle <= hay {
      i := 0;
    } else {
      var j := ContainsOffset(hay[1..], needle);
      assert hay[1..][j..] == hay[j + 1..];
      i := j + 1;
    }
  }

  /** `needle in hay` holds exactly when `needle` starts at some offset. */
  lemma ContainsAt(hay: string, needle: string)
    ensures Contains(hay, needle) <==> exists i :: 0 <= i <= |hay| - |needle| && needle <= hay[i..]
  {
    if Contains(hay, needle) {
      var i := ContainsOffset(hay, needle);
    }
    if exists i :: 0 <= i <= |hay| - |needle| && needle <= hay[i..] {
      var i :| 0 <= i <= |hay| - |needle| && needle <= hay[i..];
      ContainsFromOffset(hay, needle, i);
    }
  }

  lemma ContainsEmpty(hay: string)
    ensures Contains(hay, "")
  {
  }

  /** `re.split` with a one-character class: the pieces between delimiters,
      one more than there are delimiters, none holding a delimiter. */
  function SplitOn(s: string, delims: set<char>): (parts: seq<string>)
    ensures |parts| >= 1
    ensures forall i, k :: 0 <= i < |parts| && 0 <= k < |parts[i]| ==> parts[i][k] !in delims
    decreases |s|
  {
    if s == [] then [""]
    else
      var rest := SplitOn(s[1..], delims);
      if s[0] in delims then [""] + rest
      else [[s[0]] + rest[0]] + rest[1..]
  }

  /** Text holding no delimiter is one piece, and the text up to the first
      delimiter is the first piece. */
  lemma {:induction false} SplitFirst(a: string, c: char, b: string, delims: set<char>)
    requires forall k :: 0 <= k < |a| ==> a[k] !in delims
    ensures SplitOn(a, delims) == [a]
    ensures c in delims ==> SplitOn(a + [c] + b, delims) == [a] + SplitOn(b, delims)
    decreases |a|
  {
    if a != [] {
      SplitFirst(a[1..], c, b, delims);
      assert (a + [c] + b)[1..] == a[1..] + [c] + b;
      assert [a[0]] + a[1..] == a;
    } else {
      assert a + [c] + b == [c] + b;
      assert ([c] + b)[1..] == b;
    }
  }

  /** `sep.join(parts)`. */
  function JoinWith(parts: seq<string>, sep: string): string {
    if parts == [] then ""
    else if |parts| == 1 then parts[0]
    else parts[0] + sep + JoinWith(parts[1..], sep)
  }

  /** Joining the pieces back with the one delimiter gives the original text. */
  lemma {:induction false} SplitJoin(s: string, d: char)
    ensures JoinWith(SplitOn(s, {d}), [d]) == s
    decreases |s|
  {
    if s != [] {
      var rest := SplitOn(s[1..], {d});
      SplitJoin(s[1..], d);
      if s[0] == d {
        assert SplitOn(s, {d}) == [""] + rest;
        assert ([""] + rest)[1..] == rest;
      } else {
        var parts := [[s[0]] + rest[0]] + rest[1..];
        assert SplitOn(s, {d}) == parts;
        if |rest| > 1 {
          assert parts[1..] == rest[1..];
          assert JoinWith(rest, [d]) == rest[0] + [d] + JoinWith(rest[1..], [d]);
        }
      }
    }
  }

  /** Joining a list whose first string is non-empty gives a non-empty string. */
  lemma {:induction false} JoinNonEmpty(parts: seq<string>, sep: string)
    requires parts != [] && parts[0] != []
    ensures JoinWith(parts, sep) != []
  {
    if |parts| > 1 {
      assert JoinWith(parts, sep)[0] == parts[0][0];
    }
  }

  predicate IsDigit(c: char) {
    '0' <= c <= '9'
  }

  predicate AllDigits(s: string) {
    forall k :: 0 <= k < |s| ==> IsDigit(s[k])
  }

  function DigitChar(d: nat): char
    requires d < 10
  {
    ('0' as int + d) as char
  }

  function DigitValue(c: char): nat
    requires IsDigit(c)
  {
    c as int - '0' as int
  }

  /** `str(n)` for a natural number: its decimal digits. */
  function Decimal(n: nat): (r: string)
    ensures r != [] && AllDigits(r)
  {
    if n < 10 then [DigitChar(n)] else Decimal(n / 10) + [DigitChar(n % 10)]
  }

  /** The value of a run of decimal digits, as `int()` reads it (leading
      zeros allowed). */
  function DigitsValue(ds: string): nat
    requires AllDigits(ds)
  {
    if ds == [] then 0 else DigitsValue(ds[..|ds| - 1]) * 10 + DigitValue(ds[|ds| - 1])
  }

  lemma {:induction false} DecimalRoundTrip(n: nat)
    ensures DigitsValue(Decimal(n)) == n
  {
    if n >= 10 {
      var ds := Decimal(n);
      assert ds[..|ds| - 1] == Decimal(n / 10);
      DecimalRoundTrip(n / 10);
    }
  }

  /** Python's `int(s)` on a string that is already stripped: an optional
      sign and at least one digit, anything else is a `ValueError`. */
  function ParseInt(s: string): Option<int> {
    if s != [] && (s[0] == '+' || s[0] == '-') then
      if s[1..] != [] && AllDigits(s[1..]) then
        var v: int := DigitsValue(s[1..]);
        Some(if s[0] == '-' then -v else v)
      else None
    else if s != [] && AllDigits(s) then Some(DigitsValue(s))
    else None
  }

  lemma ParseDecimal(n: nat)
    ensures ParseInt(Decimal(n)) == Some(n)
  {
    var ds := Decimal(n);
    assert IsDigit(ds[0]);
    DecimalRoundTrip(n);
  }

  /** Python's `s.replace(pat, "")`: every non-overlapping occurrence of
      `pat`, found left to right, is deleted. */
  function RemoveAll(s: string, pat: string): string
    requires pat != []
    decreases |s|
  {
    if |s| < |pat| then s
    else if s[..|pat|] == pat then RemoveAll(s[|pat|..], pat)
    else [s[0]] + RemoveAll(s[1..], pat)
  }

  /** Text in which the pattern's first character never appears is left alone. */
  lemma {:induction false} RemoveAllAbsent(s: string, pat: string)
    requires pat != []
    requires forall k :: 0 <= k < |s| ==> s[k] != pat[0]
    ensures RemoveAll(s, pat) == s
    decreases |s|
  {
    if |s| >= |pat| {
      assert s[..|pat|][0] != pat[0];
      RemoveAllAbsent(s[1..], pat);
      assert [s[0]] + s[1..] == s;
    }
  }

  /** `os.path.basename` with POSIX separators: the part of the path after
      its last '/'. */
  function Basename(path: string): string {
    if path == [] || path[|path| - 1] == '/' then []
    else Basename(path[..|path| - 1]) + [path[|path| - 1]]
  }

  /** The base name is the longest suffix of the path without a '/'. */
  lemma {:induction false} BasenameSpec(path: string)
    ensures var r := Basename(path);
      && |r| <= |path| && r == path[|path| - |r|..]
      && '/' !in r
      && (|r| < |path| ==> path[|path| - |r| - 1] == '/')
    decreases |path|
  {
    if path != [] && path[|path| - 1] != '/' {
      BasenameSpec(path[..|path| - 1]);
    }
  }
}
