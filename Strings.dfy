/** The character and string operations of the .NET base library that the models
    rely on: whitespace, case folding (ASCII only), prefix, suffix and substring
    tests, trimming, joining and splitting on a character, decimal formatting of
    integers, and the "only deletes characters" relation. */
module Strings {

  /** char.IsWhiteSpace: U+0009..U+000D, U+0020, U+0085, U+00A0 and the Unicode
      space, line and paragraph separators. */
  predicate IsWhiteSpace(c: char) {
    c == ' ' || ('\t' <= c <= '\r') || c == '\U{85}' || c == '\U{A0}' || c == '\U{1680}'
    || ('\U{2000}' <= c <= '\U{200A}') || c == '\U{2028}' || c == '\U{2029}'
    || c == '\U{202F}' || c == '\U{205F}' || c == '\U{3000}'
  }

  /** The ASCII decimal digits; `\d` is read as this class. */
  predicate IsDigit(c: char) {
    '0' <= c <= '9'
  }

  predicate AllWhiteSpace(s: string) {
    forall i :: 0 <= i < |s| ==> IsWhiteSpace(s[i])
  }

  predicate IsDigits(s: string) {
    forall i :: 0 <= i < |s| ==> IsDigit(s[i])
  }

  /** Case folding for the case-insensitive comparisons, restricted to ASCII letters. */
  function ToLower(c: char): char {
    if 'A' <= c <= 'Z' then (c as int + 32) as char else c
  }

  function Lower(s: string): string {
    seq(|s|, i requires 0 <= i < |s| => ToLower(s[i]))
  }

  predicate StartsWith(s: string, prefix: string) {
    |prefix| <= |s| && s[..|prefix|] == prefix
  }

  predicate EndsWith(s: string, suffix: string) {
    |suffix| <= |s| && s[|s| - |suffix|..] == suffix
  }

  predicate EndsWithIgnoreCase(s: string, suffix: string) {
    EndsWith(Lower(s), Lower(suffix))
  }

  /** t occurs in s starting at index i. */
  predicate OccursAt(s: string, t: string, i: int) {
    0 <= i && i + |t| <= |s| && s[i..i + |t|] == t
  }

  /** Ordinal substring search: tries the start positions of s from left to right. */
  function Contains(s: string, t: string): bool
    decreases |s|
  {
    StartsWith(s, t) || (s != [] && Contains(s[1..], t))
  }

  function ContainsIgnoreCase(s: string, t: string): bool {
    Contains(Lower(s), Lower(t))
  }

  /** The scan finds t exactly when t occurs somewhere in s. */
  lemma {:induction false} ContainsIff(s: string, t: string)
    ensures Contains(s, t) <==> exists i :: OccursAt(s, t, i)
    decreases |s|
  {
    if StartsWith(s, t) {
      assert s[0..|t|] == s[..|t|];
      assert OccursAt(s, t, 0);
    } else if s == [] {
    } else {
      ContainsIff(s[1..], t);
      if Contains(s[1..], t) {
        var i :| OccursAt(s[1..], t, i);
        OccursShift(s, t, i, 1);
      } else {
        forall i | OccursAt(s, t, i) ensures false {
          if i > 0 {
            OccursUnshift(s, t, i);
          }
        }
      }
    }
  }

  /** An occurrence in a suffix of s is an occurrence in s, d places further on. */
  lemma OccursShift(s: string, t: string, i: int, d: nat)
    requires d <= |s| && OccursAt(s[d..], t, i)
    ensures OccursAt(s, t, i + d)
  {
    assert s[d..][i..i + |t|] == s[i + d..i + d + |t|];
  }

  lemma OccursUnshift(s: string, t: string, i: int)
    requires s != [] && 0 < i && OccursAt(s, t, i)
    ensures OccursAt(s[1..], t, i - 1)
  {
    assert s[1..][i - 1..i - 1 + |t|] == s[i..i + |t|];
  }

  /** The number of whitespace characters s starts with. */
  function LeadingWhiteSpace(s: string): (n: nat)
    ensures n <= |s|
    decreases |s|
  {
    if s != [] && IsWhiteSpace(s[0]) then 1 + LeadingWhiteSpace(s[1..]) else 0
  }

  /** The number of whitespace characters s ends with. */
  function TrailingWhiteSpace(s: string): (n: nat)
    ensures n <= |s|
    decreases |s|
  {
    if s != [] && IsWhiteSpace(s[|s| - 1]) then 1 + TrailingWhiteSpace(s[..|s| - 1]) else 0
  }

  /** The leading run is whitespace and is followed by a character that is not. */
  lemma {:induction false} LeadingRun(s: string)
    ensures forall i :: 0 <= i < LeadingWhiteSpace(s) ==> IsWhiteSpace(s[i])
    ensures LeadingWhiteSpace(s) == |s| || !IsWhiteSpace(s[LeadingWhiteSpace(s)])
    decreases |s|
  {
    if s != [] && IsWhiteSpace(s[0]) {
      LeadingRun(s[1..]);
      assert forall i :: 1 <= i < |s| ==> s[i] == s[1..][i - 1];
    }
  }

  /** The trailing run is whitespace and is preceded by a character that is not. */
  lemma {:induction false} TrailingRun(s: string)
    ensures forall i :: |s| - TrailingWhiteSpace(s) <= i < |s| ==> IsWhiteSpace(s[i])
    ensures TrailingWhiteSpace(s) == |s| || !IsWhiteSpace(s[|s| - 1 - TrailingWhiteSpace(s)])
    decreases |s|
  {
    if s != [] && IsWhiteSpace(s[|s| - 1]) {
      TrailingRun(s[..|s| - 1]);
    }
  }

  lemma {:induction false} LeadingOfWhitePrefix(p: string, x: string)
    requires AllWhiteSpace(p)
    requires x == [] || !IsWhiteSpace(x[0])
    ensures LeadingWhiteSpace(p + x) == |p|
    decreases |p|
  {
    if p != [] {
      assert (p + x)[1..] == p[1..] + x;
      LeadingOfWhitePrefix(p[1..], x);
    }
  }

  lemma {:induction false} TrailingOfWhiteSuffix(x: string, q: string)
    requires AllWhiteSpace(q)
    requires x == [] || !IsWhiteSpace(x[|x| - 1])
    ensures TrailingWhiteSpace(x + q) == |q|
    decreases |q|
  {
    if q != [] {
      assert (x + q)[..|x + q| - 1] == x + q[..|q| - 1];
      TrailingOfWhiteSuffix(x, q[..|q| - 1]);
    }
  }

  predicate IsTrimmed(s: string) {
    s == [] || (!IsWhiteSpace(s[0]) && !IsWhiteSpace(s[|s| - 1]))
  }

  /** string.Trim(): the text between the leading and the trailing whitespace, empty
      when s is all whitespace. */
  function Trim(s: string): (r: string)
    ensures |r| <= |s|
  {
    var a := LeadingWhiteSpace(s);
    if a == |s| then []
    else
      LeadingRun(s);
      TrailingRun(s);
      s[a..|s| - TrailingWhiteSpace(s)]
  }

  /** Trim keeps the piece of s after the leading whitespace; the piece is trimmed,
      empty exactly when s is all whitespace, and s itself when s is trimmed already. */
  lemma TrimShape(s: string)
    ensures IsTrimmed(Trim(s))
    ensures Trim(s) == [] <==> AllWhiteSpace(s)
    ensures IsTrimmed(s) ==> Trim(s) == s
    ensures OccursAt(s, Trim(s), LeadingWhiteSpace(s))
  {
    LeadingRun(s);
    TrailingRun(s);
    if LeadingWhiteSpace(s) < |s| && IsTrimmed(s) {
      assert s[0..|s|] == s;
    }
  }

  /** Trimming a trimmed text surrounded by whitespace gives back the text. */
  lemma TrimPadded(p: string, c: string, q: string)
    requires AllWhiteSpace(p) && AllWhiteSpace(q) && IsTrimmed(c)
    ensures Trim(p + c + q) == c
  {
    if c == [] {
      assert p + c + q == p + q;
      assert AllWhiteSpace(p + q);
      LeadingOfWhitePrefix(p + q, []);
      assert p + q + [] == p + q;
    } else {
      assert p + c + q == p + (c + q);
      LeadingOfWhitePrefix(p, c + q);
      TrailingOfWhiteSuffix(p + c, q);
      assert (p + c + q)[|p|..|p| + |c|] == c;
    }
  }

  /** The parts joined by sep, folded from the left as Aggregate((a, b) => a + sep + b)
      folds them; no parts give the empty string. */
  function Join(sep: char, parts: seq<string>): string
    decreases |parts|
  {
    if parts == [] then ""
    else if |parts| == 1 then parts[0]
    else Join(sep, parts[..|parts| - 1]) + [sep] + parts[|parts| - 1]
  }

  lemma AppendAssoc<T>(p: seq<T>, a: seq<T>, b: seq<T>, c: seq<T>)
    ensures p + a + b + c == p + (a + b + c)
  {
  }

  lemma Regroup<T>(a: seq<T>, b: seq<T>, c: seq<T>, d: seq<T>)
    ensures (a + b) + (c + d) == a + b + c + d
  {
  }

  lemma TakeAll<T>(s: seq<T>)
    ensures s[..|s|] == s
  {
  }

  lemma TakeSnoc<T>(s: seq<T>, n: nat)
    requires 0 < n <= |s|
    ensures s[..n] == s[..n - 1] + [s[n - 1]]
  {
  }

  lemma JoinSnoc(sep: char, parts: seq<string>, p: string)
    requires parts != []
    ensures Join(sep, parts + [p]) == Join(sep, parts) + [sep] + p
  {
    assert (parts + [p])[..|parts|] == parts;
  }

  /** The pieces of s between occurrences of sep (string.Split on one character,
      keeping empty pieces). */
  function Split(s: string, sep: char): (parts: seq<string>)
    ensures |parts| >= 1
    decreases |s|
  {
    if s == [] then [""]
    else
      var rest := Split(s[1..], sep);
      if s[0] == sep then [""] + rest else [[s[0]] + rest[0]] + rest[1..]
  }

  lemma {:induction false} SplitConcat(a: string, b: string, sep: char)
    ensures Split(a + [sep] + b, sep) == Split(a, sep) + Split(b, sep)
    decreases |a|
  {
    if a == [] {
      assert a + [sep] + b == [sep] + b;
      assert ([sep] + b)[1..] == b;
    } else {
      assert (a + [sep] + b)[1..] == a[1..] + [sep] + b;
      SplitConcat(a[1..], b, sep);
    }
  }

  lemma {:induction false} SplitWithoutSeparator(s: string, sep: char)
    requires sep !in s
    ensures Split(s, sep) == [s]
    decreases |s|
  {
    if s != [] {
      SplitWithoutSeparator(s[1..], sep);
      assert [s[0]] + s[1..] == s;
    }
  }

  /** Splitting undoes joining when no part contains the separator. */
  lemma {:induction false} SplitJoin(sep: char, parts: seq<string>)
    requires parts != []
    requires forall p <- parts :: sep !in p
    ensures Split(Join(sep, parts), sep) == parts
    decreases |parts|
  {
    if |parts| == 1 {
      SplitWithoutSeparator(parts[0], sep);
    } else {
      var init, last := parts[..|parts| - 1], parts[|parts| - 1];
      SplitJoin(sep, init);
      SplitConcat(Join(sep, init), last, sep);
      SplitWithoutSeparator(last, sep);
      assert init + [last] == parts;
    }
  }

  lemma {:induction false} JoinLength(sep: char, parts: seq<string>, lengths: seq<nat>)
    requires |parts| == |lengths| && parts != []
    requires forall i :: 0 <= i < |parts| ==> |parts[i]| == lengths[i]
    ensures |Join(sep, parts)| == Sum(lengths) + |parts| - 1
    decreases |parts|
  {
    if |parts| > 1 {
      JoinLength(sep, parts[..|parts| - 1], lengths[..|lengths| - 1]);
      SumSnoc(lengths[..|lengths| - 1], lengths[|lengths| - 1]);
      assert lengths[..|lengths| - 1] + [lengths[|lengths| - 1]] == lengths;
    } else {
      assert lengths == [] + [lengths[0]];
      SumSnoc([], lengths[0]);
    }
  }

  function Sum(xs: seq<nat>): nat
    decreases |xs|
  {
    if xs == [] then 0 else xs[0] + Sum(xs[1..])
  }

  lemma {:induction false} SumSnoc(xs: seq<nat>, x: nat)
    ensures Sum(xs + [x]) == Sum(xs) + x
    decreases |xs|
  {
    if xs != [] {
      assert (xs + [x])[1..] == xs[1..] + [x];
      SumSnoc(xs[1..], x);
    }
  }

  function DigitChar(d: nat): (c: char)
    requires d < 10
    ensures IsDigit(c)
  {
    ('0' as int + d) as char
  }

  /** The decimal digits of n, most significant first, without leading zeros. */
  function NatToString(n: nat): (s: string)
    ensures s != [] && IsDigits(s)
    decreases n
  {
    if n < 10 then [DigitChar(n)] else NatToString(n / 10) + [DigitChar(n % 10)]
  }

  function DecimalValue(s: string): nat
    requires IsDigits(s)
    decreases |s|
  {
    if s == [] then 0 else DecimalValue(s[..|s| - 1]) * 10 + (s[|s| - 1] as int - '0' as int)
  }

  /** An int as string interpolation formats it: a minus sign, then the decimal digits
      (an ASCII '-' and ASCII digits whatever the current culture). */
  function IntToString(n: int): string {
    if n < 0 then "-" + NatToString(-n) else NatToString(n)
  }

  function ParseInt(s: string): int
    requires s != []
    requires if s[0] == '-' then IsDigits(s[1..]) else IsDigits(s)
  {
    if s[0] == '-' then -(DecimalValue(s[1..]) as int) else DecimalValue(s)
  }

  lemma {:induction false} NatToStringRoundTrip(n: nat)
    ensures DecimalValue(NatToString(n)) == n
    decreases n
  {
    if n >= 10 {
      NatToStringRoundTrip(n / 10);
      var s := NatToString(n);
      assert s[..|s| - 1] == NatToString(n / 10);
    }
  }

  /** The formatted integer reads back as the same integer. */
  lemma IntToStringRoundTrip(n: int)
    ensures IntToString(n) != []
    ensures var s := IntToString(n);
      (if s[0] == '-' then IsDigits(s[1..]) else IsDigits(s)) && ParseInt(s) == n
  {
    if n < 0 {
      NatToStringRoundTrip(-n);
      assert IntToString(n)[1..] == NatToString(-n);
    } else {
      NatToStringRoundTrip(n);
      assert NatToString(n)[0] != '-';
    }
  }

  /** a can be obtained from b by deleting characters. */
  ghost predicate IsSubsequence(a: string, b: string)
    decreases |b|
  {
    a == [] || (b != [] && (IsSubsequence(a, b[1..]) || (a[0] == b[0] && IsSubsequence(a[1..], b[1..]))))
  }

  lemma {:induction false} SubsequenceReflexive(a: string)
    ensures IsSubsequence(a, a)
    decreases |a|
  {
    if a != [] {
      SubsequenceReflexive(a[1..]);
    }
  }

  lemma {:induction false} SubsequenceOfSuffix(a: string, b: string, k: nat)
    requires k <= |b| && IsSubsequence(a, b[k..])
    ensures IsSubsequence(a, b)
    decreases k
  {
    if k > 0 {
      assert b[1..][k - 1..] == b[k..];
      SubsequenceOfSuffix(a, b[1..], k - 1);
    }
  }

  lemma {:induction false} SubsequenceTransitive(a: string, b: string, c: string)
    requires IsSubsequence(a, b) && IsSubsequence(b, c)
    ensures IsSubsequence(a, c)
    decreases |c|, |b|, |a|
  {
    if a == [] {
    } else if IsSubsequence(b, c[1..]) {
      SubsequenceTransitive(a, b, c[1..]);
    } else if IsSubsequence(a, b[1..]) {
      SubsequenceTransitive(a, b[1..], c[1..]);
    } else {
      SubsequenceTransitive(a[1..], b[1..], c[1..]);
    }
  }
}
