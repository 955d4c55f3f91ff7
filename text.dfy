/** The string operations the pipeline leans on, written out as Python
    defines them: `str.split` with a one-character separator, `int()` on a
    string, ASCII lower-casing, `startswith`, the `in` substring test and the
    code-point order Python uses to compare strings (and pandas to sort them). */
module Text {
  import opened Wrappers
  import opened Collections

  // ---------------------------------------------------------------------
  // str.split(sep)
  // ---------------------------------------------------------------------

  /** Python `s.split(sep)` for a one-character separator: the pieces between
      separators, empty pieces included, so there is always at least one. */
  function Split(s: string, sep: char): (pieces: seq<string>)
    ensures |pieces| >= 1
    ensures forall k :: 0 <= k < |pieces| ==> sep !in pieces[k]
    decreases |s|
  {
    if sep !in s then [s]
    else
      var k := Find(s, sep);
      [s[..k]] + Split(s[k + 1..], sep)
  }

  /** Python `sep.join(pieces)`. */
  function Join(pieces: seq<string>, sep: char): (s: string)
    requires |pieces| >= 1
  {
    if |pieces| == 1 then pieces[0] else pieces[0] + [sep] + Join(pieces[1..], sep)
  }

  /** Splitting and re-joining gives back the string. */
  lemma {:induction false} JoinSplit(s: string, sep: char)
    ensures Join(Split(s, sep), sep) == s
    decreases |s|
  {
    if sep in s {
      var k := Find(s, sep);
      var pieces := Split(s, sep);
      assert pieces == [s[..k]] + Split(s[k + 1..], sep);
      assert pieces[1..] == Split(s[k + 1..], sep);
      JoinSplit(s[k + 1..], sep);
      assert s == s[..k] + [sep] + s[k + 1..];
    }
  }

  /** Joining pieces that hold no separator and splitting gives back the pieces. */
  lemma {:induction false} SplitJoin(pieces: seq<string>, sep: char)
    requires |pieces| >= 1
    requires forall k :: 0 <= k < |pieces| ==> sep !in pieces[k]
    ensures Split(Join(pieces, sep), sep) == pieces
    decreases |pieces|
  {
    if |pieces| > 1 {
      var rest := Join(pieces[1..], sep);
      var s := pieces[0] + [sep] + rest;
      assert s[..|pieces[0]|] == pieces[0];
      FindFirst(s, sep, |pieces[0]|);
      assert s[|pieces[0]| + 1..] == rest;
      SplitJoin(pieces[1..], sep);
    }
  }

  /** The position before which `x` does not occur and at which it does is
      the one `Find` returns. */
  lemma {:induction false} FindFirst<T>(s: seq<T>, x: T, k: nat)
    requires k < |s| && s[k] == x && x !in s[..k]
    ensures Find(s, x) == k
  {
    assert k == 0 || s[..k][0] == s[0];
    if k > 0 {
      assert s[1..][..k - 1] == s[..k][1..];
      FindFirst(s[1..], x, k - 1);
    }
  }

  // ---------------------------------------------------------------------
  // int(s) on a string
  // ---------------------------------------------------------------------

  /** The characters Python's `str.isspace()` accepts, which `int()` strips
      from both ends of its argument. */
  predicate IsSpace(c: char) {
    var n := c as int;
    (9 <= n <= 13) || (28 <= n <= 32) || n == 0x85 || n == 0xA0 || n == 0x1680
    || (0x2000 <= n <= 0x200A) || n == 0x2028 || n == 0x2029 || n == 0x202F
    || n == 0x205F || n == 0x3000
  }

  predicate IsDigit(c: char) {
    '0' <= c <= '9'
  }

  function StripLeft(s: string): (t: string)
    ensures |t| <= |s| && t == s[|s| - |t|..]
    ensures t != [] ==> !IsSpace(t[0])
    ensures forall i :: 0 <= i < |s| - |t| ==> IsSpace(s[i])
  {
    if s != [] && IsSpace(s[0]) then StripLeft(s[1..]) else s
  }

  function StripRight(s: string): (t: string)
    ensures |t| <= |s| && t == s[..|t|]
    ensures t != [] ==> !IsSpace(t[|t| - 1])
    ensures forall i :: |t| <= i < |s| ==> IsSpace(s[i])
  {
    if s != [] && IsSpace(s[|s| - 1]) then StripRight(s[..|s| - 1]) else s
  }

  /** Python `s.strip()`. */
  function Strip(s: string): (t: string) {
    StripRight(StripLeft(s))
  }

  /** A decimal literal as `int()` accepts it after the sign: digits, with
      single underscores allowed between two digits. */
  predicate IsDecimal(s: string) {
    && |s| > 0
    && IsDigit(s[0])
    && IsDigit(s[|s| - 1])
    && (forall i :: 0 <= i < |s| ==> IsDigit(s[i]) || s[i] == '_')
    && (forall i :: 0 <= i < |s| - 1 ==> s[i] == '_' ==> IsDigit(s[i + 1]))
  }

  /** The value of a decimal literal; underscores are skipped. */
  function DecimalValue(s: string): nat {
    if s == [] then 0
    else
      var last := s[|s| - 1];
      if IsDigit(last) then DecimalValue(s[..|s| - 1]) * 10 + (last as int - '0' as int)
      else DecimalValue(s[..|s| - 1])
  }

  /** A character `int()` can accept somewhere in its argument. */
  predicate IntChar(c: char) {
    IsDigit(c) || IsSpace(c) || c == '_' || c == '+' || c == '-'
  }

  /** Python `int(s)` with base 10: surrounding white space, an optional
      sign and a decimal literal; anything else raises, here `None`. An empty
      or all-blank string raises, and so does any string holding a character
      other than a digit, white space, an underscore or a sign. */
  function ParseInt(s: string): (r: Option<int>)
    ensures r.Some? && '-' !in s ==> r.value >= 0
    ensures Strip(s) == [] ==> r.None?
    ensures r.Some? ==> forall i :: 0 <= i < |s| ==> IntChar(s[i])
  {
    var u := StripLeft(s);
    var t := StripRight(u);
    assert '-' !in s ==> '-' !in t by { assert t == StripLeft(s)[..|t|]; }
    var r := ParseSigned(t);
    assert r.Some? ==> forall i :: 0 <= i < |s| ==> IntChar(s[i]) by {
      if r.Some? {
        var a := |s| - |u|;
        forall i | 0 <= i < |s|
          ensures IntChar(s[i])
        {
          if a <= i < a + |t| {
            assert s[i] == u[i - a] == t[i - a];
          } else if a + |t| <= i {
            assert s[i] == u[i - a];
          }
        }
      }
    }
    r
  }

  /** A stripped literal: an optional sign, then a decimal literal. */
  function ParseSigned(t: string): (r: Option<int>)
    ensures r.Some? && '-' !in t ==> r.value >= 0
    ensures t == [] ==> r.None?
    ensures r.Some? ==> forall i :: 0 <= i < |t| ==> IntChar(t[i])
  {
    if |t| > 0 && (t[0] == '+' || t[0] == '-') then
      if IsDecimal(t[1..]) then
        var v: int := DecimalValue(t[1..]);
        Some(if t[0] == '-' then -v else v)
      else None
    else if IsDecimal(t) then Some(DecimalValue(t))
    else None
  }

  function DigitChar(d: nat): (c: char)
    requires d < 10
    ensures IsDigit(c)
  {
    ('0' as int + d) as char
  }

  /** Python `str(n)` for a non-negative integer. */
  function NatToString(n: nat): (s: string)
    ensures |s| > 0
    ensures forall i :: 0 <= i < |s| ==> IsDigit(s[i])
  {
    if n < 10 then [DigitChar(n)] else NatToString(n / 10) + [DigitChar(n % 10)]
  }

  lemma {:induction false} DecimalValueOfNatToString(n: nat)
    ensures DecimalValue(NatToString(n)) == n
  {
    if n >= 10 {
      var s := NatToString(n);
      assert s[..|s| - 1] == NatToString(n / 10);
      DecimalValueOfNatToString(n / 10);
    } else {
      assert NatToString(n)[..0] == [];
    }
  }

  /** `int(str(n)) == n`. */
  lemma ParseIntOfNatToString(n: nat)
    ensures ParseInt(NatToString(n)) == Some(n)
  {
    var s := NatToString(n);
    StripOfDigits(s);
    assert ParseInt(s) == ParseSigned(s);
    DecimalParses(s);
    DecimalValueOfNatToString(n);
  }

  lemma DecimalParses(s: string)
    requires IsDecimal(s)
    ensures ParseSigned(s) == Some(DecimalValue(s))
  {
  }

  lemma StripOfDigits(s: string)
    requires |s| > 0
    requires forall i :: 0 <= i < |s| ==> IsDigit(s[i])
    ensures Strip(s) == s
  {
    assert !IsSpace(s[0]);
    assert StripLeft(s) == s;
    assert !IsSpace(s[|s| - 1]);
    assert StripRight(s) == s;
  }

  // ---------------------------------------------------------------------
  // lower(), startswith(), `in`
  // ---------------------------------------------------------------------

  /** Python `str.lower()` on ASCII letters; other characters are kept. */
  function Lower(s: string): (t: string)
    ensures |t| == |s|
    ensures forall i :: 0 <= i < |s| ==> t[i] == LowerChar(s[i])
  {
    seq(|s|, i requires 0 <= i < |s| => LowerChar(s[i]))
  }

  function LowerChar(c: char): char {
    if 'A' <= c <= 'Z' then (c as int - 'A' as int + 'a' as int) as char else c
  }

  /** Python `s.startswith(prefix)`. */
  predicate StartsWith(s: string, prefix: string) {
    |prefix| <= |s| && s[..|prefix|] == prefix
  }

  /** Python `sub in s`. */
  predicate Contains(s: string, sub: string) {
    exists i :: 0 <= i <= |s| - |sub| && OccursAt(s, sub, i)
  }

  predicate OccursAt(s: string, sub: string, i: nat)
    requires i + |sub| <= |s|
  {
    s[i..i + |sub|] == sub
  }

  /** Lower-casing leaves no ASCII capital behind, so doing it twice is
      doing it once, and a string without capitals is left as it is. */
  lemma LowerIdempotent(s: string)
    ensures forall i :: 0 <= i < |s| ==> !('A' <= Lower(s)[i] <= 'Z')
    ensures Lower(Lower(s)) == Lower(s)
    ensures (forall i :: 0 <= i < |s| ==> !('A' <= s[i] <= 'Z')) ==> Lower(s) == s
  {
  }

  /** `s` starts with `prefix` exactly when `s` is `prefix` followed by
      the rest of `s`. */
  lemma StartsWithIsPrefix(s: string, prefix: string)
    ensures StartsWith(s, prefix) <==> |prefix| <= |s| && s == prefix + s[|prefix|..]
  {
    if |prefix| <= |s| && s == prefix + s[|prefix|..] {
      assert s[..|prefix|] == (prefix + s[|prefix|..])[..|prefix|];
    }
    if StartsWith(s, prefix) {
      assert s == s[..|prefix|] + s[|prefix|..];
    }
  }

  /** `sub in s` exactly when `s` splits as some text, `sub`, and more text. */
  lemma ContainsIsInfix(s: string, sub: string)
    ensures Contains(s, sub) <==>
      exists i :: 0 <= i <= |s| - |sub| && s == s[..i] + sub + s[i + |sub|..]
  {
    if Contains(s, sub) {
      var i :| 0 <= i <= |s| - |sub| && OccursAt(s, sub, i);
      assert s == s[..i] + s[i..i + |sub|] + s[i + |sub|..];
    }
    if exists i :: 0 <= i <= |s| - |sub| && s == s[..i] + sub + s[i + |sub|..] {
      var i :| 0 <= i <= |s| - |sub| && s == s[..i] + sub + s[i + |sub|..];
      assert s[i..i + |sub|] == (s[..i] + sub + s[i + |sub|..])[i..i + |sub|];
      assert OccursAt(s, sub, i);
    }
  }

  // ---------------------------------------------------------------------
  // Code-point order of strings
  // ---------------------------------------------------------------------

  /** Python's `a <= b` on strings: the first differing character decides,
      and a proper prefix comes first. */
  predicate StrLe(a: string, b: string)
    decreases |a|
  {
    a == [] || (b != [] && (a[0] < b[0] || (a[0] == b[0] && StrLe(a[1..], b[1..]))))
  }

  predicate StrLt(a: string, b: string) {
    StrLe(a, b) && a != b
  }

  lemma {:induction false} StrLeTotal(a: string, b: string)
    ensures StrLe(a, b) || StrLe(b, a)
    decreases |a|
  {
    if a != [] && b != [] && a[0] == b[0] {
      StrLeTotal(a[1..], b[1..]);
    }
  }

  lemma {:induction false} StrLeAntisymmetric(a: string, b: string)
    requires StrLe(a, b) && StrLe(b, a)
    ensures a == b
    decreases |a|
  {
    if a != [] {
      StrLeAntisymmetric(a[1..], b[1..]);
      assert a == [a[0]] + a[1..] && b == [b[0]] + b[1..];
    }
  }

  lemma {:induction false} StrLeTransitive(a: string, b: string, c: string)
    requires StrLe(a, b) && StrLe(b, c)
    ensures StrLe(a, c)
    decreases |a|
  {
    if a != [] && a[0] == b[0] && b[0] == c[0] {
      StrLeTransitive(a[1..], b[1..], c[1..]);
    }
  }

  lemma {:induction false} StrLeReflexive(a: string)
    ensures StrLe(a, a)
    decreases |a|
  {
    if a != [] {
      StrLeReflexive(a[1..]);
    }
  }
}
