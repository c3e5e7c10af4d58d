/** The handful of java.lang.String operations the services rely on, with
    Java's semantics: `trim`, `isEmpty` after `trim`, `startsWith`,
    `indexOf`, `lastIndexOf`, `contains`, `split` on a single char,
    and the decimal rendering of an int that `StringBuilder.append(int)`
    and `%d` produce. */
module Strings {

  /** `String.trim()` removes every leading and trailing char at or below U+0020. */
  predicate IsSpace(c: char) {
    c <= ' '
  }

  /** `s.trim().isEmpty()` */
  predicate IsBlank(s: string) {
    forall i :: 0 <= i < |s| ==> IsSpace(s[i])
  }

  function TrimStart(s: string): (r: string)
    ensures |r| <= |s| && r == s[|s| - |r|..]
    ensures IsBlank(s[..|s| - |r|])
    ensures |r| > 0 ==> !IsSpace(r[0])
  {
    if |s| > 0 && IsSpace(s[0]) then TrimStart(s[1..]) else s
  }

  function TrimEnd(s: string): (r: string)
    ensures |r| <= |s| && r == s[..|r|]
    ensures IsBlank(s[|r|..])
    ensures |r| > 0 ==> !IsSpace(r[|r| - 1])
  {
    if |s| > 0 && IsSpace(s[|s| - 1]) then TrimEnd(s[..|s| - 1]) else s
  }

  /** `String.trim()`: `s` less its leading and trailing space chars. */
  function Trim(s: string): (r: string)
    ensures r == "" <==> IsBlank(s)
    ensures |r| > 0 ==> !IsSpace(r[0]) && !IsSpace(r[|r| - 1])
  {
    TrimBlank(s);
    TrimEnd(TrimStart(s))
  }

  lemma TrimBlank(s: string)
    ensures TrimEnd(TrimStart(s)) == "" <==> IsBlank(s)
  {
    var t := TrimStart(s);
    var a := |s| - |t|;
    if TrimEnd(t) == "" {
      assert t[0..] == t;
      assert |t| == 0;
      assert s == s[..a];
    } else {
      assert t[0] == TrimEnd(t)[0];
      assert s[a] == t[0];
    }
  }

  /** What trimming keeps is one contiguous piece of `s`, with nothing but
      space chars before and after it. */
  lemma TrimIsInfix(s: string)
    ensures exists i :: OccursAt(s, Trim(s), i) && IsBlank(s[..i]) && IsBlank(s[i + |Trim(s)|..])
  {
    var t := TrimStart(s);
    var a := |s| - |t|;
    var r := TrimEnd(t);
    assert IsBlank(s[..a]);
    assert IsBlank(t[|r|..]);
    assert t == s[a..];
    assert s[a..a + |r|] == r;
    assert s[a + |r|..] == t[|r|..];
    assert OccursAt(s, r, a) && IsBlank(s[..a]) && IsBlank(s[a + |r|..]);
  }

  predicate StartsWith(s: string, prefix: string) {
    |prefix| <= |s| && s[..|prefix|] == prefix
  }

  predicate EndsWith(s: string, suffix: string) {
    |suffix| <= |s| && s[|s| - |suffix|..] == suffix
  }

  /** `p` occurs in `s` starting at index `i` */
  predicate OccursAt(s: string, p: string, i: int) {
    0 <= i && i + |p| <= |s| && s[i..i + |p|] == p
  }

  /** `s.indexOf(p, k)` for `k <= |s|` */
  function IndexOfFrom(s: string, p: string, k: nat): (r: int)
    requires k <= |s|
    ensures r == -1 || (k <= r && OccursAt(s, p, r))
    ensures r == -1 ==> forall i :: k <= i ==> !OccursAt(s, p, i)
    ensures r != -1 ==> forall i :: k <= i < r ==> !OccursAt(s, p, i)
    decreases |s| - k
  {
    if k + |p| > |s| then -1
    else if s[k..k + |p|] == p then k
    else IndexOfFrom(s, p, k + 1)
  }

  /** `s.indexOf(p)`: the first occurrence, or -1 */
  function IndexOf(s: string, p: string): (r: int)
    ensures r == -1 <==> forall i :: !OccursAt(s, p, i)
    ensures r != -1 ==> OccursAt(s, p, r) && forall i :: 0 <= i < r ==> !OccursAt(s, p, i)
  {
    IndexOfFrom(s, p, 0)
  }

  /** the largest `i <= k` at which `p` occurs, or -1 */
  function LastIndexOfUpTo(s: string, p: string, k: int): (r: int)
    ensures r == -1 || (0 <= r <= k && OccursAt(s, p, r))
    ensures r == -1 ==> forall i :: i <= k ==> !OccursAt(s, p, i)
    ensures r != -1 ==> forall i :: r < i <= k ==> !OccursAt(s, p, i)
    decreases k + 1
  {
    if k < 0 then -1
    else if OccursAt(s, p, k) then k
    else LastIndexOfUpTo(s, p, k - 1)
  }

  /** `s.lastIndexOf(p)`: the last occurrence, or -1 */
  function LastIndexOf(s: string, p: string): (r: int)
    ensures r == -1 <==> forall i :: !OccursAt(s, p, i)
    ensures r != -1 ==> OccursAt(s, p, r) && forall i :: r < i ==> !OccursAt(s, p, i)
  {
    LastIndexOfUpTo(s, p, |s| - |p|)
  }

  /** the first occurrence is the one with none before it */
  lemma IndexOfIs(s: string, p: string, i: int)
    requires OccursAt(s, p, i) && forall j :: 0 <= j < i ==> !OccursAt(s, p, j)
    ensures IndexOf(s, p) == i
  {
  }

  /** the last occurrence is the one with none after it */
  lemma LastIndexOfIs(s: string, p: string, i: int)
    requires OccursAt(s, p, i) && forall j :: i < j ==> !OccursAt(s, p, j)
    ensures LastIndexOf(s, p) == i
  {
  }

  /** `s.contains(p)` */
  predicate Contains(s: string, p: string) {
    IndexOf(s, p) != -1
  }

  lemma ContainsWhenOccurs(s: string, p: string, i: int)
    requires OccursAt(s, p, i)
    ensures Contains(s, p)
  {
  }

  /** A string is a substring of any string that embeds it. */
  lemma {:induction false} ContainsConcat(a: string, p: string, b: string)
    ensures Contains(a + p + b, p)
  {
    assert (a + p + b)[|a|..|a| + |p|] == p;
    ContainsWhenOccurs(a + p + b, p, |a|);
  }

  // ----- decimal rendering -----

  function DigitChar(d: nat): (c: char)
    requires d < 10
    ensures '0' <= c <= '9'
  {
    ('0' as int + d) as char
  }

  predicate IsDigits(s: string) {
    forall i :: 0 <= i < |s| ==> '0' <= s[i] <= '9'
  }

  /** decimal digits of `n`, most significant first, no leading zero */
  function NatToString(n: nat): (r: string)
    ensures |r| >= 1 && IsDigits(r)
    ensures |r| > 1 ==> r[0] != '0'
  {
    if n < 10 then [DigitChar(n)] else NatToString(n / 10) + [DigitChar(n % 10)]
  }

  /** `String.valueOf(int)`: a leading '-' for negative values */
  function IntToString(i: int): (r: string)
    ensures |r| >= 1
    ensures (r[0] == '-') <==> i < 0
  {
    if i < 0 then "-" + NatToString(-i) else NatToString(i)
  }

  function ParseDigits(s: string): nat
    requires IsDigits(s)
  {
    if |s| == 0 then 0 else 10 * ParseDigits(s[..|s| - 1]) + (s[|s| - 1] as int - '0' as int)
  }

  /** the inverse of `IntToString` */
  function ParseInt(s: string): int
  {
    if |s| > 0 && s[0] == '-' && IsDigits(s[1..]) then 0 - ParseDigits(s[1..])
    else if IsDigits(s) then ParseDigits(s)
    else 0
  }

  lemma {:induction false} NatToStringRoundTrip(n: nat)
    ensures ParseDigits(NatToString(n)) == n
  {
    if n >= 10 {
      var r := NatToString(n);
      NatToStringRoundTrip(n / 10);
      assert r[..|r| - 1] == NatToString(n / 10);
    }
  }

  /** Rendering an int and reading it back gives the int: distinct counts
      and indices render as distinct texts. */
  lemma IntToStringRoundTrip(i: int)
    ensures ParseInt(IntToString(i)) == i
  {
    if i < 0 {
      NatToStringRoundTrip(-i);
      assert IntToString(i)[1..] == NatToString(-i);
    } else {
      NatToStringRoundTrip(i);
    }
  }

  // ----- splitting on one separator char -----

  /** every piece between separators, including empty ones, in order */
  function Split(s: string, sep: char): (r: seq<string>)
    ensures |r| >= 1
    ensures forall i :: 0 <= i < |r| ==> sep !in r[i]
    ensures |r| == 1 <==> sep !in s
  {
    if |s| == 0 then [""]
    else
      var rest := Split(s[1..], sep);
      if s[0] == sep then [""] + rest
      else [[s[0]] + rest[0]] + rest[1..]
  }

  /** the pieces glued back with the separator between consecutive ones */
  function Join(parts: seq<string>, sep: string): string
  {
    if |parts| == 0 then ""
    else if |parts| == 1 then parts[0]
    else parts[0] + sep + Join(parts[1..], sep)
  }

  /** Splitting loses nothing: joining the pieces restores the string. */
  lemma {:induction false} SplitJoin(s: string, sep: char)
    ensures Join(Split(s, sep), [sep]) == s
  {
    if |s| > 0 {
      var rest := Split(s[1..], sep);
      SplitJoin(s[1..], sep);
      assert s == [s[0]] + s[1..];
      if s[0] == sep {
        JoinCons("", rest, [sep]);
      } else if |rest| == 1 {
        assert Split(s, sep) == [[s[0]] + rest[0]];
      } else {
        JoinCons(rest[0], rest[1..], [sep]);
        assert rest == [rest[0]] + rest[1..];
        JoinCons([s[0]] + rest[0], rest[1..], [sep]);
      }
    }
  }

  lemma JoinCons(x: string, rest: seq<string>, sep: string)
    requires |rest| >= 1
    ensures Join([x] + rest, sep) == x + sep + Join(rest, sep)
  {
    assert ([x] + rest)[1..] == rest;
  }

  function DropTrailingEmpty(parts: seq<string>): (r: seq<string>)
    ensures |r| <= |parts| && r == parts[..|r|]
    ensures |r| > 0 ==> r[|r| - 1] != ""
    ensures forall i :: |r| <= i < |parts| ==> parts[i] == ""
  {
    if |parts| > 0 && parts[|parts| - 1] == "" then DropTrailingEmpty(parts[..|parts| - 1]) else parts
  }

  /** `s.split(String.valueOf(sep))`: no separator yields the string itself;
      otherwise trailing empty pieces are removed. */
  function JavaSplit(s: string, sep: char): (r: seq<string>)
    ensures forall i :: 0 <= i < |r| ==> sep !in r[i]
  {
    if sep !in s then [s] else DropTrailingEmpty(Split(s, sep))
  }

  /** `n` copies of `c` */
  function Repeat(c: char, n: nat): (r: string)
    ensures |r| == n && forall i :: 0 <= i < n ==> r[i] == c
  {
    if n == 0 then "" else [c] + Repeat(c, n - 1)
  }

  lemma {:induction false} JoinSnoc(p: seq<string>, x: string, sep: string)
    requires |p| >= 1
    ensures Join(p + [x], sep) == Join(p, sep) + sep + x
  {
    if |p| == 1 {
      assert p + [x] == [p[0]] + [x];
      JoinCons(p[0], [x], sep);
    } else {
      assert p + [x] == [p[0]] + (p[1..] + [x]);
      JoinCons(p[0], p[1..] + [x], sep);
      JoinSnoc(p[1..], x, sep);
      assert p == [p[0]] + p[1..];
      JoinCons(p[0], p[1..], sep);
    }
  }

  /** Dropping trailing empty pieces only loses separators at the end of the
      joined string. */
  lemma {:induction false} JoinDropTrailing(parts: seq<string>, sep: char)
    requires |parts| >= 1
    ensures exists k: nat :: Join(parts, [sep]) == Join(DropTrailingEmpty(parts), [sep]) + Repeat(sep, k)
  {
    var n := |parts|;
    if parts[n - 1] != "" {
      assert Join(parts, [sep]) == Join(DropTrailingEmpty(parts), [sep]) + Repeat(sep, 0);
    } else if n == 1 {
      assert Join(parts, [sep]) == Join(DropTrailingEmpty(parts), [sep]) + Repeat(sep, 0);
    } else {
      var p := parts[..n - 1];
      assert parts == p + [""];
      JoinSnoc(p, "", [sep]);
      JoinDropTrailing(p, sep);
      var k: nat :| Join(p, [sep]) == Join(DropTrailingEmpty(p), [sep]) + Repeat(sep, k);
      assert Repeat(sep, k) + [sep] == Repeat(sep, k + 1);
      assert Join(parts, [sep]) == Join(DropTrailingEmpty(parts), [sep]) + Repeat(sep, k + 1);
    }
  }

  /** Java's split loses nothing but separator chars at the end: joining its
      pieces restores the string up to a run of trailing separators, and a
      string without the separator comes back whole. */
  lemma JavaSplitJoin(s: string, sep: char)
    ensures sep !in s ==> JavaSplit(s, sep) == [s]
    ensures exists k: nat :: s == Join(JavaSplit(s, sep), [sep]) + Repeat(sep, k)
    ensures sep in s && |JavaSplit(s, sep)| > 0 ==> JavaSplit(s, sep)[|JavaSplit(s, sep)| - 1] != ""
  {
    SplitJoin(s, sep);
    if sep !in s {
      assert s == Join(JavaSplit(s, sep), [sep]) + Repeat(sep, 0);
    } else {
      JoinDropTrailing(Split(s, sep), sep);
    }
  }
}
