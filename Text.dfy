/** The handful of Python `str` operations the help browser relies on, with
    Python's semantics written out: substring test (`in`), `replace`, `count`,
    `strip`/`lstrip`/`rstrip` with a character set, `lower` and `int` on a
    string of decimal digits. */
module Text {

  predicate StartsWith(s: string, p: string) { p <= s }

  predicate EndsWith(s: string, p: string) {
    |p| <= |s| && s[|s| - |p|..] == p
  }

  /** Python's `k in s`: `k` occurs somewhere in `s` (the empty string occurs everywhere). */
  predicate Contains(s: string, k: string)
    decreases |s|
  {
    k <= s || (s != [] && Contains(s[1..], k))
  }

  /** The occurrence-by-position reading of `k in s`. */
  ghost predicate OccursAt(s: string, k: string, i: int) {
    0 <= i && i + |k| <= |s| && s[i..i + |k|] == k
  }

  lemma {:induction false} ContainsIffOccurs(s: string, k: string)
    ensures Contains(s, k) <==> exists i :: OccursAt(s, k, i)
    decreases |s|
  {
    if k <= s {
      assert s[0..|k|] == k;
      assert OccursAt(s, k, 0);
    } else if s != [] {
      ContainsIffOccurs(s[1..], k);
      if exists i :: OccursAt(s[1..], k, i) {
        var i :| OccursAt(s[1..], k, i);
        assert s[i + 1..i + 1 + |k|] == s[1..][i..i + |k|];
        assert OccursAt(s, k, i + 1);
      }
      if exists i :: OccursAt(s, k, i) {
        var i :| OccursAt(s, k, i);
        if i > 0 {
          assert s[1..][i - 1..i - 1 + |k|] == s[i..i + |k|];
          assert OccursAt(s[1..], k, i - 1);
        }
      }
    }
  }

  /** A key whose first character does not appear in the text does not occur in it. */
  lemma {:induction false} AbsentFirstChar(s: string, k: string)
    requires k != [] && k[0] !in s
    ensures !Contains(s, k)
    decreases |s|
  {
    if s != [] {
      AbsentFirstChar(s[1..], k);
    }
  }

  /** Every string contains itself; in particular `x in [.., x, ..]` implies `x in x`. */
  lemma ContainsSelf(k: string)
    ensures Contains(k, k)
  {
  }

  /** Python's `s.replace(k, n)`: every non-overlapping occurrence of `k`,
      scanning left to right, is replaced by `n`. For the empty `k`, Python
      inserts `n` before every character and at the end. */
  function Replace(s: string, k: string, n: string): string
    decreases |s|
  {
    if k == [] then
      if s == [] then n else n + [s[0]] + Replace(s[1..], k, n)
    else if k <= s then n + Replace(s[|k|..], k, n)
    else if s == [] then []
    else [s[0]] + Replace(s[1..], k, n)
  }

  /** Python's `s.count(k)`: non-overlapping occurrences, left to right;
      the empty string is counted `|s| + 1` times. */
  function Count(s: string, k: string): nat
    decreases |s|
  {
    if k == [] then |s| + 1
    else if k <= s then 1 + Count(s[|k|..], k)
    else if s == [] then 0
    else Count(s[1..], k)
  }

  lemma {:induction false} CountPositiveIffContains(s: string, k: string)
    ensures Count(s, k) > 0 <==> Contains(s, k)
    decreases |s|
  {
    if k != [] && !(k <= s) && s != [] {
      CountPositiveIffContains(s[1..], k);
    }
  }

  /** Replacing grows the text by the length difference once per counted occurrence. */
  lemma {:induction false} ReplaceLength(s: string, k: string, n: string)
    ensures |Replace(s, k, n)| == |s| + Count(s, k) * (|n| - |k|)
    decreases |s|
  {
    var d := |n| - |k|;
    if k == [] {
      if s != [] {
        ReplaceLength(s[1..], k, n);
        var c := Count(s[1..], k);
        assert |Replace(s, k, n)| == |n| + 1 + |Replace(s[1..], k, n)|;
        MulSucc(c, d);
      }
    } else if k <= s {
      ReplaceLength(s[|k|..], k, n);
      var c := Count(s[|k|..], k);
      assert |Replace(s, k, n)| == |n| + |Replace(s[|k|..], k, n)|;
      MulSucc(c, d);
    } else if s != [] {
      ReplaceLength(s[1..], k, n);
    }
  }

  lemma MulSucc(c: int, d: int)
    ensures (c + 1) * d == c * d + d
  {
  }

  /** A key that does not occur leaves the text unchanged. */
  lemma {:induction false} ReplaceAbsent(s: string, k: string, n: string)
    requires !Contains(s, k)
    ensures Replace(s, k, n) == s
    decreases |s|
  {
    if s != [] {
      ReplaceAbsent(s[1..], k, n);
    }
  }

  /** Replacing a key by itself changes nothing, the empty key included. */
  lemma {:induction false} ReplaceSelf(s: string, k: string)
    ensures Replace(s, k, k) == s
    decreases |s|
  {
    if k == [] {
      if s != [] { ReplaceSelf(s[1..], k); }
    } else if k <= s {
      ReplaceSelf(s[|k|..], k);
      assert s == k + s[|k|..];
    } else if s != [] {
      ReplaceSelf(s[1..], k);
      assert s == [s[0]] + s[1..];
    }
  }

  /** Python's `s.lstrip(cs)`: drop the longest prefix made of characters in `cs`. */
  function LStrip(s: string, cs: set<char>): (r: string)
    ensures |r| <= |s|
    ensures r != [] ==> r[0] !in cs
    decreases |s|
  {
    if s != [] && s[0] in cs then LStrip(s[1..], cs) else s
  }

  /** What `lstrip` keeps is a suffix of the text. */
  lemma {:induction false} LStripSuffix(s: string, cs: set<char>)
    ensures LStrip(s, cs) == s[|s| - |LStrip(s, cs)|..]
    decreases |s|
  {
    if s != [] && s[0] in cs {
      LStripSuffix(s[1..], cs);
    }
  }

  /** Everything `lstrip` removes is in `cs`. */
  lemma {:induction false} LStripRemoves(s: string, cs: set<char>)
    ensures forall i :: 0 <= i < |s| - |LStrip(s, cs)| ==> s[i] in cs
    decreases |s|
  {
    if s != [] && s[0] in cs {
      LStripRemoves(s[1..], cs);
      forall i | 1 <= i < |s| - |LStrip(s, cs)| ensures s[i] in cs {
        assert s[i] == s[1..][i - 1];
      }
    }
  }

  /** Python's `s.rstrip(cs)`: drop the longest suffix made of characters in `cs`. */
  function RStrip(s: string, cs: set<char>): (r: string)
    ensures |r| <= |s|
    ensures r != [] ==> r[|r| - 1] !in cs
    decreases |s|
  {
    if s != [] && s[|s| - 1] in cs then RStrip(s[..|s| - 1], cs) else s
  }

  /** What `rstrip` keeps is a prefix of the text. */
  lemma {:induction false} RStripPrefix(s: string, cs: set<char>)
    ensures RStrip(s, cs) == s[..|RStrip(s, cs)|]
    decreases |s|
  {
    if s != [] && s[|s| - 1] in cs {
      RStripPrefix(s[..|s| - 1], cs);
    }
  }

  /** Everything `rstrip` removes is in `cs`. */
  lemma {:induction false} RStripRemoves(s: string, cs: set<char>)
    ensures forall i :: |RStrip(s, cs)| <= i < |s| ==> s[i] in cs
    decreases |s|
  {
    if s != [] && s[|s| - 1] in cs {
      RStripRemoves(s[..|s| - 1], cs);
    }
  }

  /** Python's `s.strip(cs)`: strip both ends. */
  function StripChars(s: string, cs: set<char>): string {
    RStrip(LStrip(s, cs), cs)
  }

  ghost predicate SliceAt(s: string, r: string, i: int) {
    0 <= i && i + |r| <= |s| && r == s[i..i + |r|]
  }

  /** The two-sided strip keeps a contiguous middle slice whose ends are not in `cs`
      and removes only characters of `cs`. */
  lemma StripCharsSlice(s: string, cs: set<char>)
    ensures var r := StripChars(s, cs);
      (r != [] ==> r[0] !in cs && r[|r| - 1] !in cs) &&
      exists i :: SliceAt(s, r, i)
        && (forall j :: 0 <= j < i ==> s[j] in cs)
        && (forall j :: i + |r| <= j < |s| ==> s[j] in cs)
  {
    var l := LStrip(s, cs);
    var r := RStrip(l, cs);
    var i := |s| - |l|;
    LStripSuffix(s, cs);
    RStripPrefix(l, cs);
    LStripRemoves(s, cs);
    RStripRemoves(l, cs);
    assert r == s[i..i + |r|];
    forall j | i + |r| <= j < |s| ensures s[j] in cs {
      assert s[j] == l[j - i];
    }
    assert SliceAt(s, r, i);
  }

  /** A text whose ends are not in `cs` is left as it is by the two-sided strip. */
  lemma StripCharsKeeps(s: string, cs: set<char>)
    requires s != [] ==> s[0] !in cs && s[|s| - 1] !in cs
    ensures StripChars(s, cs) == s
  {
    assert LStrip(s, cs) == s;
  }

  /** Stripping a character set and then a larger one is the same as stripping
      the larger one: `s.rstrip(a).rstrip(b) == s.rstrip(b)` when `a <= b`. */
  lemma {:induction false} RStripAbsorbed(s: string, a: set<char>, b: set<char>)
    requires a <= b
    ensures RStrip(RStrip(s, a), b) == RStrip(s, b)
    decreases |s|
  {
    if s != [] && s[|s| - 1] in a {
      RStripAbsorbed(s[..|s| - 1], a, b);
    }
  }

  /** The characters Python's `str.isspace` accepts: the ASCII controls tab to
      carriage return and file to unit separator, the space, and the Unicode
      spaces and line separators. */
  predicate IsSpace(c: char) {
    '\t' <= c <= '\r' || '\U{001C}' <= c <= ' ' || c == '\U{0085}' || c == '\U{00A0}' || c == '\U{1680}' ||
    '\U{2000}' <= c <= '\U{200A}' || c == '\U{2028}' || c == '\U{2029}' || c == '\U{202F}' || c == '\U{205F}' ||
    c == '\U{3000}'
  }

  /** The set `strip()` with no argument removes. */
  const Whitespace: set<char> := set c: char | IsSpace(c)

  /** Python's `s.strip()`. */
  function Strip(s: string): string {
    StripChars(s, Whitespace)
  }

  predicate IsUpper(c: char) { 'A' <= c <= 'Z' }

  /** An ASCII capital letter becomes its small letter, 32 code points further on. */
  function LowerChar(c: char): (d: char)
    ensures !IsUpper(d)
    ensures IsUpper(c) ==> d as int == c as int + 32
    ensures !IsUpper(c) ==> d == c
  {
    if IsUpper(c) then (c as int + 32) as char else c
  }

  /** Python's `s.lower()`, on ASCII letters. */
  function Lower(s: string): (r: string)
    ensures |r| == |s|
    ensures forall i :: 0 <= i < |s| ==> r[i] == LowerChar(s[i])
    decreases |s|
  {
    if s == [] then []
    else [LowerChar(s[0])] + Lower(s[1..])
  }

  /** Lower-casing text with no capital letters changes nothing. */
  lemma LowerKeeps(s: string)
    requires forall i :: 0 <= i < |s| ==> !IsUpper(s[i])
    ensures Lower(s) == s
  {
  }

  predicate IsDigit(c: char) { '0' <= c <= '9' }

  /** What `int()` accepts here: a non-empty string of ASCII decimal digits. */
  predicate IsDigits(s: string) {
    s != [] && forall i :: 0 <= i < |s| ==> IsDigit(s[i])
  }

  /** The value `int()` gives a string of decimal digits. */
  function DigitsValue(s: string): nat
    decreases |s|
  {
    if s == [] then 0
    else 10 * DigitsValue(s[..|s| - 1]) + (s[|s| - 1] as int - '0' as int) % 10
  }

  /** Decimal notation of `n`, as Python's `str(n)` and `f"{n}"` print it. */
  function Decimal(n: nat): (r: string)
    ensures IsDigits(r)
    ensures |r| > 1 ==> r[0] != '0'
    decreases n
  {
    if n < 10 then [('0' as int + n) as char]
    else Decimal(n / 10) + [('0' as int + n % 10) as char]
  }

  /** `int(str(n)) == n`. */
  lemma {:induction false} DecimalRoundTrip(n: nat)
    ensures DigitsValue(Decimal(n)) == n
    decreases n
  {
    var r := Decimal(n);
    if n >= 10 {
      DecimalRoundTrip(n / 10);
      assert r[..|r| - 1] == Decimal(n / 10);
    }
  }
}
