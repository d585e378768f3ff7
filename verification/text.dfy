/** The pieces of Python string handling the ingestion code relies on:
    `str.strip`, `str.lower`, the `in` substring test, `", ".join`,
    decimal digits and `pathlib.PurePath.suffix`. */
module Text {
  import opened Wrappers

  /** The characters `str.strip()` removes (Python's whitespace class). */
  const Whitespace: set<char> := {
    ' ', '\t', '\n', '\r', '\U{0B}', '\U{0C}', '\U{1C}', '\U{1D}', '\U{1E}', '\U{1F}',
    '\U{85}', '\U{A0}', '\U{1680}', '\U{2000}', '\U{2001}', '\U{2002}', '\U{2003}',
    '\U{2004}', '\U{2005}', '\U{2006}', '\U{2007}', '\U{2008}', '\U{2009}', '\U{200A}',
    '\U{2028}', '\U{2029}', '\U{202F}', '\U{205F}', '\U{3000}'
  }

  predicate IsSpace(c: char)
  {
    c in Whitespace
  }

  /** How many whitespace characters `s` starts with. */
  function LeadingSpaces(s: string): (n: nat)
    ensures n <= |s|
    ensures forall k :: 0 <= k < n ==> IsSpace(s[k])
    ensures n == |s| || !IsSpace(s[n])
  {
    if |s| > 0 && IsSpace(s[0]) then 1 + LeadingSpaces(s[1..]) else 0
  }

  /** How many whitespace characters `s` ends with. */
  function TrailingSpaces(s: string): (n: nat)
    ensures n <= |s|
    ensures forall k :: |s| - n <= k < |s| ==> IsSpace(s[k])
    ensures n == |s| || !IsSpace(s[|s| - n - 1])
  {
    if |s| > 0 && IsSpace(s[|s| - 1]) then 1 + TrailingSpaces(s[..|s| - 1]) else 0
  }

  /** `s.strip()`: `s` without its leading and trailing whitespace. */
  function Strip(s: string): string
    decreases |s|
  {
    if |s| > 0 && IsSpace(s[0]) then Strip(s[1..])
    else if |s| > 0 && IsSpace(s[|s| - 1]) then Strip(s[..|s| - 1])
    else s
  }

  /** `r` is `s` cut at `a` and `a + |r|`: everything before the first cut and
      after the second is whitespace, and `r` neither starts nor ends with it. */
  predicate StrippedAt(s: string, a: nat, r: string)
  {
    && a + |r| <= |s|
    && r == s[a..a + |r|]
    && (forall k :: 0 <= k < a ==> IsSpace(s[k]))
    && (forall k :: a + |r| <= k < |s| ==> IsSpace(s[k]))
    && (r == [] || (!IsSpace(r[0]) && !IsSpace(r[|r| - 1])))
  }

  lemma StrippedAtDropFirst(s: string, a: nat, r: string)
    requires |s| > 0 && IsSpace(s[0]) && StrippedAt(s[1..], a, r)
    ensures StrippedAt(s, a + 1, r)
  {
    var t := s[1..];
    forall k | a + 1 + |r| <= k < |s|
      ensures IsSpace(s[k])
    {
      assert s[k] == t[k - 1];
    }
    forall k | 0 <= k < a + 1
      ensures IsSpace(s[k])
    {
      if k > 0 {
        assert s[k] == t[k - 1];
      }
    }
    forall j | a + 1 <= j < a + 1 + |r|
      ensures s[j] == t[j - 1]
    {
    }
    assert s[a + 1..a + 1 + |r|] == t[a..a + |r|];
  }

  lemma StrippedAtDropLast(s: string, r: string)
    requires |s| > 0 && IsSpace(s[|s| - 1]) && StrippedAt(s[..|s| - 1], 0, r)
    ensures StrippedAt(s, 0, r)
  {
    var t := s[..|s| - 1];
    forall k | |r| <= k < |s|
      ensures IsSpace(s[k])
    {
      if k < |t| {
        assert s[k] == t[k];
      }
    }
    assert s[..|r|] == t[..|r|];
  }

  /** Strip cuts `s` at two places: everything before the first cut and after
      the second is whitespace, nothing in between is removed, and what remains
      neither starts nor ends with whitespace. */
  lemma {:induction false} StripSpec(s: string)
    ensures StrippedAt(s, LeadingSpaces(s), Strip(s))
    decreases |s|
  {
    if |s| > 0 && IsSpace(s[0]) {
      StripSpec(s[1..]);
      StrippedAtDropFirst(s, LeadingSpaces(s[1..]), Strip(s[1..]));
    } else if |s| > 0 && IsSpace(s[|s| - 1]) {
      var t := s[..|s| - 1];
      StripSpec(t);
      assert LeadingSpaces(s) == 0 && LeadingSpaces(t) == 0;
      StrippedAtDropLast(s, Strip(t));
    }
  }

  /** A string with no whitespace at either end is its own strip. */
  lemma StripUnchanged(s: string)
    requires s == [] || (!IsSpace(s[0]) && !IsSpace(s[|s| - 1]))
    ensures Strip(s) == s
  {
  }

  /** Case folding of `str.lower()` as far as it can produce an ASCII letter:
      the ASCII capitals, and the Kelvin sign U+212A, which lowers to 'k'. */
  function LowerChar(c: char): (d: char)
  {
    if 'A' <= c <= 'Z' then (c as int + 32) as char
    else if c == '\U{212A}' then 'k'
    else c
  }

  function Lower(s: string): (r: string)
    ensures |r| == |s| && forall i :: 0 <= i < |s| ==> r[i] == LowerChar(s[i])
  {
    seq(|s|, i requires 0 <= i < |s| => LowerChar(s[i]))
  }

  lemma LowerAppend(a: string, b: string)
    ensures Lower(a + b) == Lower(a) + Lower(b)
  {
  }

  predicate StartsWith(s: string, prefix: string)
  {
    |prefix| <= |s| && s[..|prefix|] == prefix
  }

  /** Python's `sub in s` for strings. */
  predicate Contains(s: string, sub: string)
    decreases |s|
  {
    StartsWith(s, sub) || (|s| > 0 && Contains(s[1..], sub))
  }

  /** A prefix that cannot start an occurrence of `sub` neither creates nor hides one. */
  lemma {:induction false} ContainsAfterPrefix(p: string, s: string, sub: string)
    requires sub != [] && forall k :: 0 <= k < |p| ==> p[k] != sub[0]
    ensures Contains(p + s, sub) <==> Contains(s, sub)
    decreases |p|
  {
    if |p| > 0 {
      assert (p + s)[0] == p[0];
      assert !StartsWith(p + s, sub);
      assert (p + s)[1..] == p[1..] + s;
      ContainsAfterPrefix(p[1..], s, sub);
    } else {
      assert p + s == s;
    }
  }

  /** No occurrence fits where no position with room for `sub` starts with its first character. */
  lemma {:induction false} ContainsNoRoom(s: string, sub: string)
    requires sub != [] && forall k :: 0 <= k <= |s| - |sub| ==> s[k] != sub[0]
    ensures !Contains(s, sub)
    decreases |s|
  {
    if |s| > 0 {
      if |sub| <= |s| {
        assert s[0] != sub[0];
      }
      assert forall k :: 0 <= k <= |s[1..]| - |sub| ==> s[1..][k] == s[k + 1];
      ContainsNoRoom(s[1..], sub);
    }
  }

  /** `sep.join(parts)`. */
  function Join(sep: string, parts: seq<string>): (r: string)
  {
    if |parts| == 0 then ""
    else if |parts| == 1 then parts[0]
    else Join(sep, parts[..|parts| - 1]) + sep + parts[|parts| - 1]
  }

  /** With a non-empty separator and non-empty parts, the join is empty exactly when there are no parts. */
  lemma {:induction false} JoinEmpty(sep: string, parts: seq<string>)
    requires sep != [] && forall i :: 0 <= i < |parts| ==> parts[i] != []
    ensures Join(sep, parts) == "" <==> parts == []
  {
  }

  predicate IsDigit(c: char)
  {
    '0' <= c <= '9'
  }

  predicate AllDigits(s: string)
  {
    forall i :: 0 <= i < |s| ==> IsDigit(s[i])
  }

  function DigitValue(c: char): (d: nat)
    requires IsDigit(c)
    ensures d < 10
  {
    c as int - '0' as int
  }

  function DigitChar(d: nat): (c: char)
    requires d < 10
    ensures IsDigit(c) && DigitValue(c) == d
  {
    ('0' as int + d) as char
  }

  /** The value of a run of decimal digits, most significant first. */
  function DigitsValue(s: string): nat
    requires AllDigits(s)
  {
    if |s| == 0 then 0 else DigitsValue(s[..|s| - 1]) * 10 + DigitValue(s[|s| - 1])
  }

  /** `str(n)` for a natural number: the shortest decimal spelling. */
  function NatToString(n: nat): (r: string)
    ensures |r| > 0 && AllDigits(r) && DigitsValue(r) == n
    ensures r[0] != '0' || n == 0
  {
    if n < 10 then [DigitChar(n)] else NatToString(n / 10) + [DigitChar(n % 10)]
  }

  /** The index of the last occurrence of `c` in `s` (`str.rfind`). */
  function LastIndexOf(s: string, c: char): Option<nat>
  {
    if |s| == 0 then None
    else if s[|s| - 1] == c then Some(|s| - 1)
    else LastIndexOf(s[..|s| - 1], c)
  }

  /** LastIndexOf finds an occurrence with none after it, or reports that there is none. */
  lemma {:induction false} LastIndexOfSpec(s: string, c: char)
    ensures var r := LastIndexOf(s, c);
      && (r.Some? ==> r.value < |s| && s[r.value] == c && forall k :: r.value < k < |s| ==> s[k] != c)
      && (r.None? ==> forall k :: 0 <= k < |s| ==> s[k] != c)
  {
    if |s| > 0 && s[|s| - 1] != c {
      LastIndexOfSpec(s[..|s| - 1], c);
    }
  }

  /** The index of the first occurrence of `c` in `s` (`str.find`). */
  function IndexOfChar(s: string, c: char): (r: Option<nat>)
    ensures r.Some? ==> r.value < |s|
  {
    if |s| == 0 then None
    else if s[0] == c then Some(0)
    else match IndexOfChar(s[1..], c)
      case None => None
      case Some(k) => Some(k + 1)
  }

  /** IndexOfChar finds an occurrence with none before it, or reports that there is none. */
  lemma {:induction false} IndexOfCharSpec(s: string, c: char)
    ensures var r := IndexOfChar(s, c);
      && (r.Some? ==> r.value < |s| && s[r.value] == c && forall k :: 0 <= k < r.value ==> s[k] != c)
      && (r.None? ==> forall k :: 0 <= k < |s| ==> s[k] != c)
  {
    if |s| > 0 && s[0] != c {
      IndexOfCharSpec(s[1..], c);
    }
  }

  /** `PurePath(name).suffix`: from the last dot on, unless that dot is the first
      or the last character of the name. */
  function Suffix(name: string): (r: string)
  {
    match LastIndexOf(name, '.')
    case Some(i) => if 0 < i < |name| - 1 then name[i..] else ""
    case None => ""
  }

  /** A non-empty suffix survives a dot-free prefix added to the name. */
  lemma SuffixAfterPrefix(p: string, name: string)
    requires Suffix(name) != "" && forall k :: 0 <= k < |p| ==> p[k] != '.'
    ensures Suffix(p + name) == Suffix(name)
  {
    LastIndexOfSpec(name, '.');
    LastIndexOfSpec(p + name, '.');
    var i := LastIndexOf(name, '.').value;
    var j := LastIndexOf(p + name, '.');
    assert (p + name)[|p| + i] == '.';
    assert j.Some?;
    assert j.value == |p| + i;
    assert (p + name)[|p| + i..] == name[i..];
  }
}
