/** Python string primitives the tools rely on: whitespace classes,
    `strip`, substring search, `str.join`, `str.split` and `str(int)`. */
module Strings {
  import opened Wrappers

  /** The characters for which Python's `str.isspace()` holds; these are
      what `str.strip()` removes and what the regex class `\s` matches. */
  predicate IsSpace(c: char) {
    var n := c as int;
    || (0x09 <= n <= 0x0D)
    || (0x1C <= n <= 0x20)
    || n == 0x85 || n == 0xA0 || n == 0x1680
    || (0x2000 <= n <= 0x200A)
    || n == 0x2028 || n == 0x2029 || n == 0x202F || n == 0x205F || n == 0x3000
  }

  /** The line boundaries recognised by Python's `str.splitlines()`. */
  predicate IsLineBreak(c: char) {
    var n := c as int;
    || (0x0A <= n <= 0x0D)
    || (0x1C <= n <= 0x1E)
    || n == 0x85 || n == 0x2028 || n == 0x2029
  }

  lemma LineBreakIsSpace(c: char)
    ensures IsLineBreak(c) ==> IsSpace(c)
  {
  }

  /** True when `s.strip()` would be empty (Python: `not s.strip()`). */
  predicate IsBlank(s: string) {
    forall i :: 0 <= i < |s| ==> IsSpace(s[i])
  }

  predicate HasNoLineBreak(s: string) {
    forall i :: 0 <= i < |s| ==> !IsLineBreak(s[i])
  }

  /** No whitespace at either end. */
  predicate IsTrimmed(s: string) {
    |s| == 0 || (!IsSpace(s[0]) && !IsSpace(s[|s| - 1]))
  }

  /** Python's `s.lstrip()`. */
  function LStrip(s: string): (r: string)
    ensures |r| <= |s| && r == s[|s| - |r|..]
    ensures IsBlank(s[..|s| - |r|])
    ensures |r| == 0 || !IsSpace(r[0])
  {
    if |s| > 0 && IsSpace(s[0]) then
      var r := LStrip(s[1..]);
      assert s[..|s| - |r|] == [s[0]] + s[1..][..|s[1..]| - |r|];
      r
    else
      s
  }

  /** Python's `s.rstrip()`. */
  function RStrip(s: string): (r: string)
    ensures |r| <= |s| && r == s[..|r|]
    ensures IsBlank(s[|r|..])
    ensures |r| == 0 || !IsSpace(r[|r| - 1])
  {
    if |s| > 0 && IsSpace(s[|s| - 1]) then
      var r := RStrip(s[..|s| - 1]);
      assert s[|r|..] == s[..|s| - 1][|r|..] + [s[|s| - 1]];
      r
    else
      s
  }

  /** Python's `s.strip()`: whitespace removed from both ends. */
  function Strip(s: string): (r: string)
    ensures IsTrimmed(r)
    ensures |r| <= |s|
    ensures r == [] <==> IsBlank(s)
    ensures IsTrimmed(s) ==> r == s
  {
    var l := LStrip(s);
    var r := RStrip(l);
    assert |l| > 0 ==> l[0] == s[|s| - |l|];
    assert |r| > 0 ==> r[0] == l[0];
    assert r == [] ==> s == s[..|s| - |l|] + l[|r|..];
    r
  }

  /** `pat` occurs in `s` starting at index `i`. */
  predicate SubstrAt(s: string, i: int, pat: string) {
    0 <= i && i + |pat| <= |s| && s[i..i + |pat|] == pat
  }

  /** Python's `s.find(pat, start)`: the first occurrence at or after `start`. */
  function IndexFrom(s: string, pat: string, start: nat): (r: Option<nat>)
    ensures r.Some? ==> start <= r.value && SubstrAt(s, r.value, pat)
    ensures r.Some? ==> forall k :: start <= k < r.value ==> !SubstrAt(s, k, pat)
    ensures r.None? ==> forall k :: start <= k ==> !SubstrAt(s, k, pat)
    decreases |s| - start
  {
    if start + |pat| > |s| then None
    else if s[start..start + |pat|] == pat then Some(start)
    else IndexFrom(s, pat, start + 1)
  }

  /** Python's `pat in s`. */
  function Contains(s: string, pat: string): (b: bool)
    ensures b <==> exists i :: SubstrAt(s, i, pat)
  {
    var r := IndexFrom(s, pat, 0);
    assert r.Some? ==> SubstrAt(s, r.value, pat);
    r.Some?
  }

  /** Python's `s.endswith(pat)`. */
  predicate EndsWith(s: string, pat: string) {
    |pat| <= |s| && s[|s| - |pat|..] == pat
  }

  /** Concatenation regroups freely. */
  lemma ConcatAssoc<T>(x: seq<T>, y: seq<T>, z: seq<T>)
    ensures x + (y + z) == (x + y) + z
  {
  }

  /** A non-empty sequence is its head before its tail. */
  lemma HeadTail<T>(xs: seq<T>)
    requires |xs| >= 1
    ensures xs == [xs[0]] + xs[1..]
  {
  }

  /** Moving the last element of a tail out to the end. */
  lemma ConsSnoc<T>(x: T, ys: seq<T>)
    requires |ys| >= 1
    ensures [x] + ys == ([x] + ys[..|ys| - 1]) + [ys[|ys| - 1]]
  {
  }

  /** The middle of a sequence, taken from its tail. */
  lemma TailInit<T>(xs: seq<T>)
    requires |xs| >= 2
    ensures xs[1..][..|xs| - 2] == xs[1..|xs| - 1]
  {
  }

  /** Python's `sep.join(xs)`. */
  function Join(sep: string, xs: seq<string>): string
    decreases |xs|
  {
    if |xs| == 0 then ""
    else if |xs| == 1 then xs[0]
    else xs[0] + sep + Join(sep, xs[1..])
  }

  /** The summed lengths of the pieces. */
  function TotalLength(xs: seq<string>): nat
    decreases |xs|
  {
    if |xs| == 0 then 0 else |xs[0]| + TotalLength(xs[1..])
  }

  /** A join is as long as its pieces plus one separator between each two. */
  lemma {:induction false} JoinLength(sep: string, xs: seq<string>)
    requires |xs| >= 1
    ensures |Join(sep, xs)| == TotalLength(xs) + |sep| * (|xs| - 1)
    decreases |xs|
  {
    if |xs| > 1 {
      JoinLength(sep, xs[1..]);
      assert TotalLength(xs[1..][1..]) == TotalLength(xs[2..]) by {
        assert xs[1..][1..] == xs[2..];
      }
    }
  }

  /** An occurrence inside a prefix is an occurrence in the whole string. */
  lemma SubstrAtPrefix(s: string, m: int, j: int, pat: string)
    requires 0 <= m <= |s|
    requires SubstrAt(s[..m], j, pat)
    ensures SubstrAt(s, j, pat)
  {
    assert s[..m][j..j + |pat|] == s[j..j + |pat|];
  }

  /** The leftmost occurrence at or after `start` is what `IndexFrom` finds. */
  lemma IndexFromIs(s: string, pat: string, start: nat, k: nat)
    requires start <= k && SubstrAt(s, k, pat)
    requires forall j :: start <= j < k ==> !SubstrAt(s, j, pat)
    ensures IndexFrom(s, pat, start) == Some(k)
  {
    var r := IndexFrom(s, pat, start);
    if r.Some? {
      assert !(r.value < k);
      assert !(r.value > k);
    }
  }

  /** Python's `s.split(sep)` for a non-empty separator: the pieces between
      successive leftmost occurrences of `sep`. */
  function Split(s: string, sep: string): (parts: seq<string>)
    requires |sep| > 0
    ensures |parts| >= 1
    ensures parts[0] <= s
    ensures forall k :: 0 <= k && k + |sep| <= |parts[0]| ==> !SubstrAt(parts[0], k, sep)
    ensures |parts| == 1 <==> parts[0] == s
    decreases |s|
  {
    match IndexFrom(s, sep, 0)
    case None => [s]
    case Some(k) =>
      assert forall j :: 0 <= j && SubstrAt(s[..k], j, sep) ==> SubstrAt(s, j, sep) by {
        forall j | 0 <= j && SubstrAt(s[..k], j, sep)
          ensures SubstrAt(s, j, sep)
        {
          SubstrAtPrefix(s, k, j, sep);
        }
      }
      [s[..k]] + Split(s[k + |sep|..], sep)
  }

  /** The first line, as Python's `s.split("\n")[0]` gives it: everything
      before the first newline. */
  function FirstLine(s: string): (r: string)
    ensures r <= s
    ensures '\n' !in r
    ensures r == s || s[|r|] == '\n'
  {
    match IndexFrom(s, "\n", 0)
    case None =>
      forall k | 0 <= k < |s|
        ensures s[k] != '\n'
      {
        assert !SubstrAt(s, k, "\n");
        assert s[k..k + 1] == [s[k]];
      }
      s
    case Some(k) =>
      assert s[k..k + 1] == "\n";
      forall j | 0 <= j < k
        ensures s[..k][j] != '\n'
      {
        assert !SubstrAt(s, j, "\n");
        assert s[j..j + 1] == [s[j]];
      }
      s[..k]
  }

  /** An occurrence of a separator cannot start inside a piece that lacks its first character. */
  lemma NoOccurrenceWithoutHead(x: string, rest: string, sep: string, k: int)
    requires |sep| > 0 && sep[0] !in x
    requires 0 <= k < |x|
    ensures !SubstrAt(x + rest, k, sep)
  {
    assert (x + rest)[k] == x[k];
  }

  /** A piece without a separator is split into itself. */
  lemma SplitNoSeparator(x: string, sep: string)
    requires |sep| > 0 && sep[0] !in x
    ensures Split(x, sep) == [x]
  {
    forall k | 0 <= k
      ensures !SubstrAt(x, k, sep)
    {
      if k < |x| {
        NoOccurrenceWithoutHead(x, "", sep, k);
        assert x + "" == x;
      }
    }
    assert IndexFrom(x, sep, 0).None?;
  }

  /** Splitting stops at the separator right after a piece that lacks its
      first character. */
  lemma SplitCons(x: string, sep: string, rest: string)
    requires |sep| > 0 && sep[0] !in x
    ensures Split(x + sep + rest, sep) == [x] + Split(rest, sep)
  {
    var s := x + sep + rest;
    assert s == x + (sep + rest);
    forall k | 0 <= k < |x|
      ensures !SubstrAt(s, k, sep)
    {
      NoOccurrenceWithoutHead(x, sep + rest, sep, k);
    }
    assert s[|x|..|x| + |sep|] == sep;
    IndexFromIs(s, sep, 0, |x|);
    assert s[..|x|] == x;
    assert s[|x| + |sep|..] == rest;
  }

  /** Joining pieces that do not contain the separator's first character and
      splitting again gives the pieces back. */
  lemma {:induction false} SplitJoin(sep: string, xs: seq<string>)
    requires |sep| > 0 && |xs| >= 1
    requires forall i :: 0 <= i < |xs| ==> sep[0] !in xs[i]
    ensures Split(Join(sep, xs), sep) == xs
    decreases |xs|
  {
    if |xs| == 1 {
      SplitNoSeparator(xs[0], sep);
    } else {
      SplitCons(xs[0], sep, Join(sep, xs[1..]));
      SplitJoin(sep, xs[1..]);
      assert xs == [xs[0]] + xs[1..];
    }
  }

  predicate IsDigit(c: char) {
    '0' <= c <= '9'
  }

  predicate AllDigits(s: string) {
    forall i :: 0 <= i < |s| ==> IsDigit(s[i])
  }

  function DigitChar(d: nat): (c: char)
    requires d < 10
  {
    (48 + d) as char
  }

  /** Python's `str(n)` for a natural number: its decimal digits, no leading zeros. */
  function NatToString(n: nat): (s: string)
    ensures |s| >= 1 && AllDigits(s)
    ensures |s| > 1 ==> s[0] != '0'
    decreases n
  {
    if n < 10 then [DigitChar(n)]
    else NatToString(n / 10) + [DigitChar(n % 10)]
  }

  /** Python's `int(s)` on a string of decimal digits. */
  function ParseNat(s: string): nat
    requires AllDigits(s)
    decreases |s|
  {
    if |s| == 0 then 0
    else ParseNat(s[..|s| - 1]) * 10 + (s[|s| - 1] as int - 48)
  }

  /** Reading back the decimal rendering of `n` gives `n`. */
  lemma {:induction false} ParseNatToString(n: nat)
    ensures ParseNat(NatToString(n)) == n
    decreases n
  {
    var s := NatToString(n);
    if n >= 10 {
      assert s[..|s| - 1] == NatToString(n / 10);
      ParseNatToString(n / 10);
    }
  }

  /** Distinct numbers have distinct decimal renderings. */
  lemma NatToStringInjective(a: nat, b: nat)
    ensures NatToString(a) == NatToString(b) ==> a == b
  {
    ParseNatToString(a);
    ParseNatToString(b);
  }

  /** Python's `str(n)` for any integer. */
  function IntToString(n: int): string
  {
    if n < 0 then "-" + NatToString(-n) else NatToString(n)
  }
}
