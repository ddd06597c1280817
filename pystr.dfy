/**
 * The Python `str` built-ins that the quiz service uses, on `seq<char>`:
 * `isspace`/`strip`, `join` (with `split` as its inverse), `startswith`,
 * `endswith`, `s[:n]` and `capitalize`, and the ASCII character classes that
 * the service's regular expressions rely on.
 */
module PyStr {

  /** Python's `str.isspace()` on one character: the characters that `strip()` removes. */
  predicate IsSpace(c: char) {
    || ('\t' <= c <= '\r')
    || ('\U{1C}' <= c <= '\U{1F}')
    || c == ' '
    || c == '\U{85}'
    || c == '\U{A0}'
    || c == '\U{1680}'
    || ('\U{2000}' <= c <= '\U{200A}')
    || c == '\U{2028}'
    || c == '\U{2029}'
    || c == '\U{202F}'
    || c == '\U{205F}'
    || c == '\U{3000}'
  }

  predicate AllSpace(s: string) {
    forall i :: 0 <= i < |s| ==> IsSpace(s[i])
  }

  /** True when `s` neither begins nor ends with whitespace. */
  predicate Trimmed(s: string) {
    s == [] || (!IsSpace(s[0]) && !IsSpace(s[|s| - 1]))
  }

  /** The number of leading whitespace characters of `s`: what `lstrip()` drops. */
  function LeadingSpace(s: string): nat
    decreases |s|
  {
    if s != [] && IsSpace(s[0]) then 1 + LeadingSpace(s[1..]) else 0
  }

  /** `s.rstrip()`. */
  function StripRight(s: string): string
    decreases |s|
  {
    if s != [] && IsSpace(s[|s| - 1]) then StripRight(s[..|s| - 1]) else s
  }

  /** `lstrip()` drops the leading whitespace and nothing else. */
  lemma {:induction false} LeadingSpaceSpec(s: string)
    ensures LeadingSpace(s) <= |s| && AllSpace(s[..LeadingSpace(s)])
    ensures LeadingSpace(s) < |s| ==> !IsSpace(s[LeadingSpace(s)])
    decreases |s|
  {
    if s != [] && IsSpace(s[0]) {
      LeadingSpaceSpec(s[1..]);
      var n := LeadingSpace(s[1..]);
      assert s[..1 + n] == [s[0]] + s[1..][..n];
      assert 1 + n < |s| ==> s[1 + n] == s[1..][n];
    }
  }

  /** `rstrip()` drops the trailing whitespace and nothing else. */
  lemma {:induction false} StripRightSpec(s: string)
    ensures |StripRight(s)| <= |s| && StripRight(s) == s[..|StripRight(s)|]
    ensures AllSpace(s[|StripRight(s)|..])
    ensures StripRight(s) != [] ==> !IsSpace(StripRight(s)[|StripRight(s)| - 1])
    decreases |s|
  {
    if s != [] && IsSpace(s[|s| - 1]) {
      StripRightSpec(s[..|s| - 1]);
      var r := StripRight(s[..|s| - 1]);
      assert s[|r|..] == s[..|s| - 1][|r|..] + [s[|s| - 1]];
    }
  }

  /** `s.strip()`: `s` without its leading and trailing whitespace. */
  function Strip(s: string): (r: string)
    ensures Trimmed(r) && |r| <= |s|
    ensures r == [] <==> AllSpace(s)
  {
    LeadingSpaceSpec(s);
    var i := LeadingSpace(s);
    StripRightSpec(s[i..]);
    var r := StripRight(s[i..]);
    assert r == [] ==> s[i..] == s[i..][|r|..];
    assert r == [] ==> s == s[..i] + s[i..];
    r
  }

  /**
   * What `strip()` keeps is the slice of `s` that starts after the leading
   * whitespace and leaves only whitespace after it.
   */
  lemma StripSlice(s: string)
    ensures LeadingSpace(s) + |Strip(s)| <= |s|
    ensures Strip(s) == s[LeadingSpace(s)..LeadingSpace(s) + |Strip(s)|]
    ensures AllSpace(s[LeadingSpace(s) + |Strip(s)|..])
  {
    LeadingSpaceSpec(s);
    var i := LeadingSpace(s);
    var l := s[i..];
    StripRightSpec(l);
    var r := StripRight(l);
    assert Strip(s) == r;
    PrefixOfDrop(s, i, r);
    AllSpaceDrop(s, i, |r|);
  }

  lemma PrefixOfDrop<T>(s: seq<T>, i: nat, r: seq<T>)
    requires i <= |s| && |r| <= |s| - i && r == s[i..][..|r|]
    ensures r == s[i..i + |r|]
  {
  }

  lemma AllSpaceDrop(s: string, i: nat, n: nat)
    requires i + n <= |s| && AllSpace(s[i..][n..])
    ensures AllSpace(s[i + n..])
  {
    assert s[i..][n..] == s[i + n..];
  }

  lemma {:induction false} LeadingSpaceAfterSpace(a: string, t: string)
    requires AllSpace(a)
    requires t == [] || !IsSpace(t[0])
    ensures LeadingSpace(a + t) == |a|
    decreases |a|
  {
    if a != [] {
      assert (a + t)[1..] == a[1..] + t;
      LeadingSpaceAfterSpace(a[1..], t);
    } else {
      assert a + t == t;
    }
  }

  lemma {:induction false} StripRightBeforeSpace(t: string, b: string)
    requires AllSpace(b)
    requires t == [] || !IsSpace(t[|t| - 1])
    ensures StripRight(t + b) == t
    decreases |b|
  {
    if b != [] {
      assert (t + b)[..|t + b| - 1] == t + b[..|b| - 1];
      StripRightBeforeSpace(t, b[..|b| - 1]);
    } else {
      assert t + b == t;
    }
  }

  /** Whitespace around a trimmed string is exactly what `strip()` removes. */
  lemma StripAround(a: string, m: string, b: string)
    requires AllSpace(a) && AllSpace(b) && Trimmed(m)
    ensures Strip(a + m + b) == m
  {
    var s := a + m + b;
    if m == [] {
      assert s == a + b;
      forall k | 0 <= k < |s| ensures IsSpace(s[k]) {
        if k < |a| { assert s[k] == a[k]; } else { assert s[k] == b[k - |a|]; }
      }
    } else {
      assert s == a + (m + b);
      LeadingSpaceAfterSpace(a, m + b);
      assert s[|a|..] == m + b;
      StripRightBeforeSpace(m, b);
    }
  }

  /** A trimmed string is its own `strip()`. */
  lemma StripTrimmed(s: string)
    requires Trimmed(s)
    ensures Strip(s) == s
  {
    assert [] + s + [] == s;
    StripAround([], s, []);
  }

  /** A space after a trimmed string is what `strip()` removes. */
  lemma StripTrailingSpace(t: string)
    requires Trimmed(t)
    ensures Strip(t + " ") == t
  {
    assert [] + t + " " == t + " ";
    StripAround([], t, " ");
  }

  /** `sep.join(parts)` for a one-character separator. */
  function Join(sep: char, parts: seq<string>): string
    decreases |parts|
  {
    if |parts| == 0 then ""
    else if |parts| == 1 then parts[0]
    else parts[0] + [sep] + Join(sep, parts[1..])
  }

  /** `s.split(sep)` for a one-character separator: never empty, `[""]` for `""`. */
  function Split(sep: char, s: string): (r: seq<string>)
    ensures |r| >= 1
    decreases |s|
  {
    if s == [] then [""]
    else
      var rest := Split(sep, s[1..]);
      if s[0] == sep then [""] + rest else [[s[0]] + rest[0]] + rest[1..]
  }

  lemma JoinCons(sep: char, p: string, ps: seq<string>)
    requires ps != []
    ensures Join(sep, [p] + ps) == p + [sep] + Join(sep, ps)
  {
    assert ([p] + ps)[1..] == ps;
  }

  /** Joining the pieces of a split gives back the string. */
  lemma {:induction false} JoinSplit(sep: char, s: string)
    ensures Join(sep, Split(sep, s)) == s
    decreases |s|
  {
    if s != [] {
      var rest := Split(sep, s[1..]);
      JoinSplit(sep, s[1..]);
      HeadTail(s);
      if s[0] == sep {
        JoinCons(sep, "", rest);
        assert "" + [sep] == [sep];
      } else if |rest| > 1 {
        var j := Join(sep, rest[1..]);
        JoinCons(sep, [s[0]] + rest[0], rest[1..]);
        HeadTail(rest);
        JoinCons(sep, rest[0], rest[1..]);
        ConsAppend(s[0], rest[0] + [sep], j);
        ConsAppend(s[0], rest[0], [sep]);
      }
    }
  }

  lemma {:induction false} SplitPiece(sep: char, p: string, t: string)
    requires sep !in p
    ensures Split(sep, p + t) == [p + Split(sep, t)[0]] + Split(sep, t)[1..]
    decreases |p|
  {
    if p != [] {
      assert (p + t)[1..] == p[1..] + t;
      SplitPiece(sep, p[1..], t);
      assert [p[0]] + (p[1..] + Split(sep, t)[0]) == p + Split(sep, t)[0];
    } else {
      assert p + t == t;
      assert p + Split(sep, t)[0] == Split(sep, t)[0];
      assert Split(sep, t) == [Split(sep, t)[0]] + Split(sep, t)[1..];
    }
  }

  /** Splitting a join gives back the parts when no part contains the separator. */
  lemma {:induction false} SplitJoin(sep: char, parts: seq<string>)
    requires |parts| >= 1
    requires forall k :: 0 <= k < |parts| ==> sep !in parts[k]
    ensures Split(sep, Join(sep, parts)) == parts
    decreases |parts|
  {
    if |parts| == 1 {
      SplitPiece(sep, parts[0], "");
      assert parts[0] + "" == parts[0];
    } else {
      var rest := Join(sep, parts[1..]);
      SplitJoin(sep, parts[1..]);
      assert parts[0] + [sep] + rest == parts[0] + ([sep] + rest);
      SplitPiece(sep, parts[0], [sep] + rest);
      assert ([sep] + rest)[1..] == rest;
      assert parts[0] + "" == parts[0];
      assert parts == [parts[0]] + parts[1..];
    }
  }

  /** A slice that starts with element `i` is that element followed by the rest. */
  lemma SliceCons<T>(s: seq<T>, i: nat, e: nat)
    requires i < e <= |s|
    ensures s[i..e] == [s[i]] + s[i + 1..e]
  {
  }

  lemma DropCons<T>(s: seq<T>, i: nat)
    requires i < |s|
    ensures s[i..] == [s[i]] + s[i + 1..]
  {
  }

  lemma HeadTail<T>(s: seq<T>)
    requires s != []
    ensures s == [s[0]] + s[1..]
  {
  }

  lemma AppendSlices<T>(a: seq<T>, b: seq<T>)
    ensures (a + b)[0..|a|] == a && (a + b)[|a|..] == b && (a + b)[|a|..|a| + |b|] == b
    ensures a + [] == a
  {
  }

  lemma DropSlices<T>(s: seq<T>, i: nat, n: nat)
    requires i + n <= |s|
    ensures s[i..][..n] == s[i..i + n] && s[i..][n..] == s[i + n..]
  {
  }

  lemma MiddleSlice<T>(a: seq<T>, b: seq<T>, c: seq<T>, i: nat, j: nat)
    requires |a| <= i <= j <= |a| + |b|
    ensures (a + b + c)[i..j] == b[i - |a|..j - |a|]
  {
  }

  lemma ConsAppend<T>(x: T, a: seq<T>, b: seq<T>)
    ensures [x] + (a + b) == ([x] + a) + b
  {
  }

  /** `p` occurs in `s` at position `i`. */
  predicate MatchAt(s: string, i: nat, p: string) {
    i + |p| <= |s| && s[i..i + |p|] == p
  }

  /** `p not in s`. */
  predicate Free(s: string, p: string) {
    forall i :: 0 <= i <= |s| ==> !MatchAt(s, i, p)
  }

  /** `s.startswith(p)` */
  predicate StartsWith(s: string, p: string) {
    MatchAt(s, 0, p)
  }

  /** `s.endswith(p)` */
  predicate EndsWith(s: string, p: string) {
    |p| <= |s| && s[|s| - |p|..] == p
  }

  /** `s[:n]` for `n >= 0`: the first `n` characters, or all of `s` when it is shorter. */
  function Prefix(s: string, n: nat): (r: string)
    ensures |r| == if |s| <= n then |s| else n
    ensures r == s[..|r|]
  {
    if |s| <= n then s else s[..n]
  }

  predicate IsAsciiUpper(c: char) { 'A' <= c <= 'Z' }
  predicate IsAsciiLower(c: char) { 'a' <= c <= 'z' }

  /** A character of the class `\w` (letters, digits and underscore, ASCII). */
  predicate IsWordChar(c: char) {
    IsAsciiUpper(c) || IsAsciiLower(c) || ('0' <= c <= '9') || c == '_'
  }

  function LowerChar(c: char): char {
    if IsAsciiUpper(c) then (c as int + 32) as char else c
  }

  function UpperChar(c: char): char {
    if IsAsciiLower(c) then (c as int - 32) as char else c
  }

  function Lower(s: string): (r: string)
    ensures |r| == |s|
    ensures forall i :: 0 <= i < |s| ==> r[i] == LowerChar(s[i])
  {
    seq(|s|, i requires 0 <= i < |s| => LowerChar(s[i]))
  }

  /** `s.capitalize()`: the first character upper-cased, the rest lower-cased. */
  function Capitalize(s: string): string {
    if s == [] then "" else [UpperChar(s[0])] + Lower(s[1..])
  }

  /** `t` equals the lower-case word `w` when case is ignored (`re.IGNORECASE`). */
  predicate EqualsIgnoreCase(t: string, w: string) {
    |t| == |w| && forall k :: 0 <= k < |w| ==> LowerChar(t[k]) == w[k]
  }

  predicate LowerWord(w: string) {
    forall k :: 0 <= k < |w| ==> IsAsciiLower(w[k])
  }

  /** Capitalizing any spelling of a lower-case word gives one spelling only. */
  lemma CapitalizeIgnoreCase(t: string, w: string)
    requires LowerWord(w) && w != []
    requires EqualsIgnoreCase(t, w)
    ensures Capitalize(t) == [UpperChar(w[0])] + w[1..]
  {
    assert LowerChar(t[0]) == w[0];
    assert UpperChar(t[0]) == UpperChar(w[0]);
    var tail := Lower(t[1..]);
    forall k | 0 <= k < |w| - 1
      ensures tail[k] == w[1..][k]
    {
      assert LowerChar(t[k + 1]) == w[k + 1];
    }
  }
}
