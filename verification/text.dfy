/** The few pieces of Python's `str` behaviour the pipeline relies on, over `seq<char>`. */
module Text {

  /** Python's `str.isspace()` for one character: the set `str.strip()` removes. */
  predicate IsSpace(c: char) {
    var n := c as int;
    n == 0x20 || 0x09 <= n <= 0x0D || 0x1C <= n <= 0x1F || n == 0x85 || n == 0xA0
    || n == 0x1680 || 0x2000 <= n <= 0x200A || n == 0x2028 || n == 0x2029
    || n == 0x202F || n == 0x205F || n == 0x3000
  }

  predicate AllSpace(s: string) {
    forall i :: 0 <= i < |s| ==> IsSpace(s[i])
  }

  /** A string with no whitespace at either end. */
  predicate IsStripped(s: string) {
    |s| == 0 || (!IsSpace(s[0]) && !IsSpace(s[|s| - 1]))
  }

  /** Number of whitespace characters at the front of `s`. */
  function LeadingSpace(s: string): (n: nat)
    ensures n <= |s| && AllSpace(s[..n])
    ensures n < |s| ==> !IsSpace(s[n])
  {
    if |s| > 0 && IsSpace(s[0]) then
      var m := LeadingSpace(s[1..]);
      assert s[..1 + m] == [s[0]] + s[1..][..m];
      1 + m
    else 0
  }

  /** Number of whitespace characters at the back of `s`. */
  function TrailingSpace(s: string): (n: nat)
    ensures n <= |s| && AllSpace(s[|s| - n..])
    ensures n < |s| ==> !IsSpace(s[|s| - n - 1])
  {
    if |s| > 0 && IsSpace(s[|s| - 1]) then
      var t := s[..|s| - 1];
      var m := TrailingSpace(t);
      assert s[|s| - (1 + m)..] == t[|t| - m..] + [s[|s| - 1]];
      AllSpaceAppend(t[|t| - m..], s[|s| - 1]);
      assert m < |t| ==> s[|s| - (1 + m) - 1] == t[|t| - m - 1];
      1 + m
    else 0
  }

  lemma AllSpaceAppend(s: string, c: char)
    requires AllSpace(s) && IsSpace(c)
    ensures AllSpace(s + [c])
  {
    assert forall i :: 0 <= i < |s| ==> (s + [c])[i] == s[i];
  }

  /** Python's `s.strip()`: `s` without its leading and trailing whitespace. */
  function Strip(s: string): (r: string)
    ensures IsStripped(r) && |r| <= |s|
  {
    var a := LeadingSpace(s);
    var t := s[a..];
    var b := TrailingSpace(t);
    t[..|t| - b]
  }

  /** What Strip removes is whitespace only: its result is the middle of `s`. */
  lemma StripIsWindowed(s: string)
    ensures StripWindow(s, Strip(s), LeadingSpace(s))
  {
    var a := LeadingSpace(s);
    var t := s[a..];
    var b := TrailingSpace(t);
    assert Strip(s) == t[..|t| - b];
    WindowOfCuts(s, a, t, b, t[..|t| - b]);
  }

  lemma WindowOfCuts(s: string, a: nat, t: string, b: nat, r: string)
    requires a <= |s| && t == s[a..] && b <= |t| && r == t[..|t| - b]
    requires AllSpace(s[..a]) && AllSpace(t[|t| - b..])
    ensures StripWindow(s, r, a)
  {
    assert s[a..a + |r|] == r;
    assert s[a + |r|..] == t[|t| - b..];
  }

  /** `r` sits at offset `a` of `s` with only whitespace around it. */
  predicate StripWindow(s: string, r: string, a: int) {
    0 <= a && a + |r| <= |s| && s[a..a + |r|] == r
    && AllSpace(s[..a]) && AllSpace(s[a + |r|..])
  }

  lemma {:induction false} LeadingSpaceOfConcat(p: string, r: string)
    requires AllSpace(p)
    ensures LeadingSpace(p + r) == |p| + LeadingSpace(r)
    decreases |p|
  {
    if |p| > 0 {
      assert (p + r)[1..] == p[1..] + r;
      LeadingSpaceOfConcat(p[1..], r);
    } else {
      assert p + r == r;
    }
  }

  lemma {:induction false} TrailingSpaceOfConcat(r: string, q: string)
    requires AllSpace(q)
    ensures TrailingSpace(r + q) == TrailingSpace(r) + |q|
    decreases |q|
  {
    if |q| > 0 {
      assert (r + q)[..|r + q| - 1] == r + q[..|q| - 1];
      TrailingSpaceOfConcat(r, q[..|q| - 1]);
    } else {
      assert r + q == r;
    }
  }

  /** Strip has exactly one answer: any whitespace-free core between whitespace runs. */
  lemma {:induction false} StripUnique(p: string, r: string, q: string)
    requires AllSpace(p) && AllSpace(q) && IsStripped(r)
    ensures Strip(p + r + q) == r
  {
    var s := p + r + q;
    assert s == p + (r + q);
    LeadingSpaceOfConcat(p, r + q);
    if |r| == 0 {
      assert r + q == q;
      LeadingSpaceOfConcat(q, "");
      assert q + "" == q;
      assert LeadingSpace(s) == |s|;
    } else {
      assert LeadingSpace(r + q) == 0;
      assert s[|p|..] == r + q;
      TrailingSpaceOfConcat(r, q);
      assert TrailingSpace(r) == 0;
      assert (r + q)[..|r + q| - |q|] == r;
    }
  }

  /** Stripping a stripped string changes nothing, and only stripped strings are fixed points. */
  lemma StrippedIffFixed(s: string)
    ensures IsStripped(s) <==> Strip(s) == s
  {
    if IsStripped(s) {
      StripUnique("", s, "");
      assert "" + s + "" == s;
    }
  }

  lemma StripIdempotent(s: string)
    ensures Strip(Strip(s)) == Strip(s)
  {
    StrippedIffFixed(Strip(s));
  }

  function ToUpperAscii(c: char): char {
    if 'a' <= c <= 'z' then (c as int - 32) as char else c
  }

  /** `s.upper()` restricted to the ASCII letters. */
  function Upper(s: string): (r: string)
    ensures |r| == |s|
    ensures forall i :: 0 <= i < |s| ==> r[i] == ToUpperAscii(s[i])
  {
    seq(|s|, i requires 0 <= i < |s| => ToUpperAscii(s[i]))
  }

  predicate StartsWith(s: string, p: string) {
    |p| <= |s| && s[..|p|] == p
  }

  predicate EndsWith(s: string, p: string) {
    |p| <= |s| && s[|s| - |p|..] == p
  }

  /** `p` occurs in `s` starting at index `i`. */
  predicate OccursAt(s: string, p: string, i: int) {
    0 <= i && i + |p| <= |s| && s[i..i + |p|] == p
  }

  /** Python's `p in s` for strings. */
  predicate Contains(s: string, p: string) {
    exists i | 0 <= i <= |s| - |p| :: OccursAt(s, p, i)
  }

  /** An occurrence inside one part of a string is an occurrence in the whole. */
  lemma ContainsInConcat(a: string, b: string, p: string)
    ensures Contains(b, p) ==> Contains(a + b, p)
    ensures Contains(a, p) ==> Contains(a + b, p)
  {
    if Contains(b, p) {
      var i :| 0 <= i <= |b| - |p| && OccursAt(b, p, i);
      assert (a + b)[|a| + i..|a| + i + |p|] == b[i..i + |p|];
      assert OccursAt(a + b, p, |a| + i);
    }
    if Contains(a, p) {
      var i :| 0 <= i <= |a| - |p| && OccursAt(a, p, i);
      assert (a + b)[i..i + |p|] == a[i..i + |p|];
      assert OccursAt(a + b, p, i);
    }
  }

  /** A pattern with a character that `s` lacks cannot occur in `s`. */
  lemma MissingCharRulesOut(s: string, p: string, k: nat)
    requires k < |p| && p[k] !in s
    ensures !Contains(s, p)
  {
  }

  /** Python's `s.split(sep)` for a one-character separator. */
  function Split(s: string, sep: char): (parts: seq<string>)
    ensures |parts| >= 1
    ensures forall i :: 0 <= i < |parts| ==> sep !in parts[i]
    ensures Join(parts, sep) == s
    decreases |s|
  {
    if |s| == 0 then [""]
    else
      var rest := Split(s[1..], sep);
      if s[0] == sep then
        assert [""] + rest == [""] + rest;
        [""] + rest
      else
        var parts := [[s[0]] + rest[0]] + rest[1..];
        assert parts[1..] == rest[1..];
        assert |rest| == 1 ==> Join(parts, sep) == [s[0]] + rest[0];
        assert |rest| > 1 ==> Join(rest, sep) == rest[0] + [sep] + Join(rest[1..], sep);
        parts
  }

  /** A string without the separator splits into itself alone. */
  lemma {:induction false} SplitWithoutSeparator(x: string, sep: char)
    requires sep !in x
    ensures Split(x, sep) == [x]
    decreases |x|
  {
    if |x| > 0 {
      SplitWithoutSeparator(x[1..], sep);
      assert [x[0]] + x[1..] == x;
    }
  }

  /** Splitting `x + sep + y` peels `x` off the front when `x` holds no separator. */
  lemma {:induction false} SplitAtFirstSeparator(x: string, y: string, sep: char)
    requires sep !in x
    ensures Split(x + [sep] + y, sep) == [x] + Split(y, sep)
    decreases |x|
  {
    var s := x + [sep] + y;
    if |x| == 0 {
      assert s[1..] == y;
    } else {
      assert s[1..] == x[1..] + [sep] + y;
      SplitAtFirstSeparator(x[1..], y, sep);
      assert [x[0]] + x[1..] == x;
    }
  }

  /** `Split` inverts `Join` when no part holds the separator. */
  lemma {:induction false} SplitJoin(parts: seq<string>, sep: char)
    requires |parts| >= 1
    requires forall i :: 0 <= i < |parts| ==> sep !in parts[i]
    ensures Split(Join(parts, sep), sep) == parts
    decreases |parts|
  {
    if |parts| == 1 {
      SplitWithoutSeparator(parts[0], sep);
    } else {
      SplitJoin(parts[1..], sep);
      SplitAtFirstSeparator(parts[0], Join(parts[1..], sep), sep);
      assert [parts[0]] + parts[1..] == parts;
    }
  }

  /** An occurrence of a separator-free pattern in a joined string lies inside one part. */
  lemma {:induction false} ContainsSplitsToPart(parts: seq<string>, sep: char, p: string)
    requires |parts| >= 1 && sep !in p
    requires Contains(Join(parts, sep), p)
    ensures exists j :: 0 <= j < |parts| && Contains(parts[j], p)
    decreases |parts|
  {
    if |parts| > 1 {
      var x := parts[0];
      var rest := Join(parts[1..], sep);
      var s := x + [sep] + rest;
      var i :| 0 <= i <= |s| - |p| && OccursAt(s, p, i);
      assert s[|x|] == sep;
      assert i + |p| <= |x| || i > |x|;
      if i + |p| <= |x| {
        assert x[i..i + |p|] == s[i..i + |p|];
        assert OccursAt(x, p, i);
        assert Contains(parts[0], p);
      } else if i > |x| {
        assert s[|x| + 1..] == rest;
        assert rest[i - |x| - 1..i - |x| - 1 + |p|] == s[|x| + 1..][i - |x| - 1..i - |x| - 1 + |p|];
        assert OccursAt(rest, p, i - |x| - 1);
        ContainsSplitsToPart(parts[1..], sep, p);
        var j :| 0 <= j < |parts[1..]| && Contains(parts[1..][j], p);
        assert parts[j + 1] == parts[1..][j];
      }
    }
  }

  /** Python's `sep.join(parts)`. */
  function Join(parts: seq<string>, sep: char): string
    requires |parts| >= 1
  {
    if |parts| == 1 then parts[0] else parts[0] + [sep] + Join(parts[1..], sep)
  }

  /** Index of the first `c` in `s`. */
  function FirstIndex(s: string, c: char): (i: nat)
    requires c in s
    ensures i < |s| && s[i] == c && c !in s[..i]
  {
    if s[0] == c then 0
    else
      var j := FirstIndex(s[1..], c);
      assert s[..j + 1] == [s[0]] + s[1..][..j];
      j + 1
  }

  /** Python's `s.split(c, 1)[1]`: everything after the first `c`. */
  function AfterFirst(s: string, c: char): (r: string)
    requires c in s
    ensures exists i :: 0 <= i < |s| && s[i] == c && c !in s[..i] && r == s[i + 1..]
  {
    var i := FirstIndex(s, c);
    s[i + 1..]
  }

  /** `AfterFirst` at a known first occurrence. */
  lemma AfterFirstAt(s: string, c: char, i: nat)
    requires i < |s| && s[i] == c && c !in s[..i]
    ensures AfterFirst(s, c) == s[i + 1..]
  {
  }

  /** Python's `s.replace(pat, "")`: occurrences removed left to right, without overlap. */
  function RemoveAll(s: string, pat: string): (r: string)
    requires |pat| > 0
    ensures |r| <= |s|
    ensures !Contains(s, pat) ==> r == s
    decreases |s|
  {
    if |s| < |pat| then
      s
    else if s[..|pat|] == pat then
      assert OccursAt(s, pat, 0);
      RemoveAll(s[|pat|..], pat)
    else
      var rest := RemoveAll(s[1..], pat);
      assert Contains(s[1..], pat) ==> Contains(s, pat) by {
        assert s == [s[0]] + s[1..];
        ContainsInConcat([s[0]], s[1..], pat);
      }
      assert [s[0]] + s[1..] == s;
      [s[0]] + rest
  }

  /** Python's `c * n` for a one-character string: empty when `n` is not positive. */
  function Repeat(c: char, n: int): (r: string)
    ensures |r| == if n > 0 then n else 0
    ensures forall i :: 0 <= i < |r| ==> r[i] == c
    decreases if n > 0 then n else 0
  {
    if n <= 0 then [] else [c] + Repeat(c, n - 1)
  }

  /** Python's slice `s[:k]`, where a negative `k` counts from the end. */
  function PyPrefix(s: string, k: int): (r: string)
    ensures |r| <= |s| && r == s[..|r|]
    ensures k >= 0 ==> |r| == if k < |s| then k else |s|
    ensures k < 0 ==> |r| == if |s| + k > 0 then |s| + k else 0
  {
    if k >= 0 then (if k < |s| then s[..k] else s)
    else if |s| + k > 0 then s[..|s| + k] else []
  }
}
