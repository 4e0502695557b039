/**
  The few operations of Python's `str` that the SQL-script tools rely on:
  `strip`, `startswith`, `endswith`, `in`, `index`, `split`, `join` and the
  single-character form of `replace`.
 */
module PyStr {

  /** The characters `str.strip()` and the regular-expression class `\s` treat as
      white space: those of `str.isspace`, ASCII and Unicode alike. */
  predicate IsSpace(c: char) {
    c == ' ' || '\t' <= c <= '\r' || '\U{1C}' <= c <= '\U{1F}' ||
    c == '\U{85}' || c == '\U{A0}' || c == '\U{1680}' || '\U{2000}' <= c <= '\U{200A}' ||
    c == '\U{2028}' || c == '\U{2029}' || c == '\U{202F}' || c == '\U{205F}' || c == '\U{3000}'
  }

  predicate AllSpace(s: string) {
    forall i :: 0 <= i < |s| ==> IsSpace(s[i])
  }

  /** The first position at or after `i` that is not white space, or `|s|`. */
  function LeadFrom(s: string, i: nat): (n: nat)
    requires i <= |s|
    ensures i <= n <= |s|
    decreases |s| - i
  {
    if i < |s| && IsSpace(s[i]) then LeadFrom(s, i + 1) else i
  }

  /** The number of white-space characters `s` starts with. */
  function LeadCount(s: string): (n: nat)
    ensures n <= |s|
  {
    LeadFrom(s, 0)
  }

  /** The end of `s[a..j]` once its trailing white space is removed. */
  function TrailDownTo(s: string, a: nat, j: nat): (n: nat)
    requires a <= j <= |s|
    ensures a <= n <= j
    decreases j
  {
    if j > a && IsSpace(s[j - 1]) then TrailDownTo(s, a, j - 1) else j
  }

  /** `LeadFrom` skips exactly the white space in front of the first other character. */
  lemma {:induction false} LeadFromSpec(s: string, i: nat)
    requires i <= |s|
    ensures forall k :: i <= k < LeadFrom(s, i) ==> IsSpace(s[k])
    ensures LeadFrom(s, i) == |s| || !IsSpace(s[LeadFrom(s, i)])
    decreases |s| - i
  {
    if i < |s| && IsSpace(s[i]) {
      LeadFromSpec(s, i + 1);
    }
  }

  /** `TrailDownTo` drops exactly the white space after the last other character. */
  lemma {:induction false} TrailDownToSpec(s: string, a: nat, j: nat)
    requires a <= j <= |s|
    ensures forall k :: TrailDownTo(s, a, j) <= k < j ==> IsSpace(s[k])
    ensures TrailDownTo(s, a, j) == a || !IsSpace(s[TrailDownTo(s, a, j) - 1])
    decreases j
  {
    if j > a && IsSpace(s[j - 1]) {
      TrailDownToSpec(s, a, j - 1);
    }
  }

  /** `s.strip()`: `s` without its leading and trailing white space. */
  function Strip(s: string): (r: string)
    ensures |r| <= |s|
  {
    var a := LeadCount(s);
    s[a..TrailDownTo(s, a, |s|)]
  }

  /** `strip` keeps a slice of `s` that neither starts nor ends with white
      space, removes only white space, and is empty exactly when `s` is all
      white space. */
  lemma StripSpec(s: string)
    ensures var a := LeadCount(s); var r := Strip(s);
      a + |r| <= |s| && r == s[a..a + |r|] &&
      (forall i :: 0 <= i < a ==> IsSpace(s[i])) &&
      (forall i :: a + |r| <= i < |s| ==> IsSpace(s[i])) &&
      (r == [] || (!IsSpace(r[0]) && !IsSpace(r[|r| - 1]))) &&
      (r == [] <==> AllSpace(s))
  {
    var a := LeadCount(s);
    LeadFromSpec(s, 0);
    TrailDownToSpec(s, a, |s|);
  }

  /** Stripping a string that has no white space at either end changes nothing. */
  lemma StripNoEdges(s: string)
    requires s == [] || (!IsSpace(s[0]) && !IsSpace(s[|s| - 1]))
    ensures Strip(s) == s
  {
    assert s[0..] == s;
  }

  /** `strip` is idempotent. */
  lemma StripIdempotent(s: string)
    ensures Strip(Strip(s)) == Strip(s)
  {
    StripSpec(s);
    StripNoEdges(Strip(s));
  }

  /** `s.startswith(p)` */
  predicate StartsWith(s: string, p: string) {
    |p| <= |s| && s[..|p|] == p
  }

  /** `s.endswith(p)` */
  predicate EndsWith(s: string, p: string) {
    |p| <= |s| && s[|s| - |p|..] == p
  }

  /** `p` occurs in `s` at position `i`. */
  predicate MatchAt(s: string, p: string, i: nat) {
    i + |p| <= |s| && s[i..i + |p|] == p
  }

  /** `p in s` */
  predicate Contains(s: string, p: string) {
    exists i: nat :: i <= |s| && MatchAt(s, p, i)
  }

  function FindFrom(s: string, p: string, i: nat): (r: nat)
    requires i <= |s|
    requires exists j: nat :: i <= j <= |s| && MatchAt(s, p, j)
    ensures i <= r <= |s| && MatchAt(s, p, r)
    ensures forall j: nat :: i <= j < r ==> !MatchAt(s, p, j)
    decreases |s| - i
  {
    if MatchAt(s, p, i) then i else FindFrom(s, p, i + 1)
  }

  /** `s.index(p)`: the first position at which `p` occurs. */
  function IndexOf(s: string, p: string): (r: nat)
    requires Contains(s, p)
    ensures MatchAt(s, p, r)
    ensures forall j: nat :: j < r ==> !MatchAt(s, p, j)
  {
    FindFrom(s, p, 0)
  }

  lemma SliceOfSlice(s: string, a: nat, b: nat, i: nat, j: nat)
    requires a <= b <= |s| && i <= j <= b - a
    ensures s[a..b][i..j] == s[a + i..a + j]
  {
    var l, r := s[a..b][i..j], s[a + i..a + j];
    forall k | 0 <= k < j - i ensures l[k] == r[k] {
      assert l[k] == s[a + i + k];
    }
  }

  /** A slice of a string that does not contain `p` does not contain `p`. */
  lemma NotContainsSlice(s: string, p: string, a: nat, b: nat)
    requires a <= b <= |s|
    requires !Contains(s, p)
    ensures !Contains(s[a..b], p)
  {
    forall j: nat | j <= b - a ensures !MatchAt(s[a..b], p, j) {
      if j + |p| <= b - a {
        SliceOfSlice(s, a, b, j, j + |p|);
        assert !MatchAt(s, p, a + j);
      }
    }
  }

  /** The text before the first occurrence of a non-empty `p` does not contain `p`. */
  lemma BeforeFirstHasNone(s: string, p: string)
    requires p != [] && Contains(s, p)
    ensures !Contains(s[..IndexOf(s, p)], p)
  {
    var r := IndexOf(s, p);
    forall j: nat | j <= r ensures !MatchAt(s[..r], p, j) {
      if j + |p| <= r {
        assert s[..r][j..j + |p|] == s[j..j + |p|];
        assert !MatchAt(s, p, j);
      }
    }
  }

  /** Every character of `Strip(s)` occurs in `s`. */
  lemma StripChars(s: string, c: char)
    requires c !in s
    ensures c !in Strip(s)
  {
    StripSpec(s);
    var a := LeadCount(s);
    forall k | 0 <= k < |Strip(s)| ensures Strip(s)[k] != c {
      assert Strip(s)[k] == s[a + k];
    }
  }

  /** Stripping a string that has no occurrence of `p` leaves none. */
  lemma StripNotContains(s: string, p: string)
    requires !Contains(s, p)
    ensures !Contains(Strip(s), p)
  {
    StripSpec(s);
    var a := LeadCount(s);
    NotContainsSlice(s, p, a, a + |Strip(s)|);
  }

  /** `s.split(c)` for a one-character separator: the pieces between the
      occurrences of `c`, none of which contains `c`. */
  function Split(s: string, c: char): (parts: seq<string>)
    ensures |parts| >= 1
    ensures forall i :: 0 <= i < |parts| ==> c !in parts[i]
  {
    if s == [] then [""]
    else
      var rest := Split(s[1..], c);
      if s[0] == c then [""] + rest else [[s[0]] + rest[0]] + rest[1..]
  }

  /** `sep.join(parts)` */
  function Join(parts: seq<string>, sep: string): string
  {
    if |parts| == 0 then ""
    else if |parts| == 1 then parts[0]
    else parts[0] + sep + Join(parts[1..], sep)
  }

  /** Splitting and joining back with the same separator gives the input. */
  lemma {:induction false} SplitJoin(s: string, c: char)
    ensures Join(Split(s, c), [c]) == s
  {
    if s != [] {
      var rest := Split(s[1..], c);
      SplitJoin(s[1..], c);
      if s[0] == c {
        assert s == [c] + s[1..];
      } else {
        var parts := [[s[0]] + rest[0]] + rest[1..];
        if |rest| > 1 {
          assert rest == [rest[0]] + rest[1..];
          assert parts[1..] == rest[1..];
        }
        assert s == [s[0]] + s[1..];
      }
    }
  }

  /** Splitting distributes over a separator: `(a + c + b).split(c) == a.split(c) + b.split(c)`. */
  lemma {:induction false} SplitConcat(a: string, b: string, c: char)
    ensures Split(a + [c] + b, c) == Split(a, c) + Split(b, c)
  {
    var s := a + [c] + b;
    if a == [] {
      assert s == [c] + b;
      assert s[1..] == b;
    } else {
      assert s[0] == a[0];
      assert s[1..] == a[1..] + [c] + b;
      SplitConcat(a[1..], b, c);
    }
  }

  /** Joining pieces that do not contain `c` and splitting again gives the pieces. */
  lemma {:induction false} JoinSplit(parts: seq<string>, c: char)
    requires |parts| >= 1
    requires forall i :: 0 <= i < |parts| ==> c !in parts[i]
    ensures Split(Join(parts, [c]), c) == parts
  {
    if |parts| == 1 {
      NoSeparator(parts[0], c);
    } else {
      JoinSplit(parts[1..], c);
      SplitConcat(parts[0], Join(parts[1..], [c]), c);
      NoSeparator(parts[0], c);
      assert parts == [parts[0]] + parts[1..];
    }
  }

  /** A string without `c` splits into itself. */
  lemma {:induction false} NoSeparator(s: string, c: char)
    requires c !in s
    ensures Split(s, c) == [s]
  {
    if s != [] {
      NoSeparator(s[1..], c);
      assert s == [s[0]] + s[1..];
    }
  }

  /** `s.replace(c, r)` for a one-character `c`: every `c` becomes `r`. */
  function ReplaceChar(s: string, c: char, r: string): string
  {
    if s == [] then [] else (if s[0] == c then r else [s[0]]) + ReplaceChar(s[1..], c, r)
  }

  lemma {:induction false} ReplaceCharConcat(a: string, b: string, c: char, r: string)
    ensures ReplaceChar(a + b, c, r) == ReplaceChar(a, c, r) + ReplaceChar(b, c, r)
    decreases |a|
  {
    if a == [] {
      assert a + b == b;
    } else {
      assert (a + b)[0] == a[0];
      assert (a + b)[1..] == a[1..] + b;
      ReplaceCharConcat(a[1..], b, c, r);
    }
  }
}
