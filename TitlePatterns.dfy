/** The fixed regular expressions of the commit collector, written out as matchers
    (there is no regex engine here), each with a plain description of the texts it
    matches and lemmas that the matcher accepts exactly those texts:
    - `Merge pull request (dotnet)?\#\d+ from dotnet/merge/release/`, searched for
      anywhere in a title (Regex.IsMatch);
    - `[ ]*\(\#\d+\)` and `\[\d+\.0\] `, deleted wherever they match
      (Regex.Replace), together with the literal release prefixes that
      string.Replace deletes case-insensitively.
    `\d` is read as the ASCII digits. */
module TitlePatterns {
  import opened Strings

  /** Length of the longest prefix of t whose characters all satisfy p. */
  function PrefixRun(t: string, p: char -> bool): (n: nat)
    ensures n <= |t|
    ensures forall k :: 0 <= k < n ==> p(t[k])
    ensures n == |t| || !p(t[n])
    decreases |t|
  {
    if t != [] && p(t[0]) then 1 + PrefixRun(t[1..], p) else 0
  }

  /** The run is the one prefix that satisfies p and is not followed by a character
      that does. */
  lemma PrefixRunExact(t: string, p: char -> bool, n: nat)
    requires n <= |t| && (forall k :: 0 <= k < n ==> p(t[k])) && (n == |t| || !p(t[n]))
    ensures PrefixRun(t, p) == n
  {
  }

  predicate IsSpace(c: char) {
    c == ' '
  }

  function Spaces(n: nat): (s: string)
    ensures |s| == n && forall k :: 0 <= k < n ==> s[k] == ' '
  {
    seq(n, _ => ' ')
  }

  // ---------------------------------------------------------------------------
  // The forbidden title pattern

  const MergePrefix := "Merge pull request "
  const MergeSuffix := " from dotnet/merge/release/"

  /** The pattern matched at the very start of t. The optional group and the digit
      run need no backtracking: "dotnet" cannot start with '#', and the digit run
      must be followed by a space. */
  predicate MergeAt(t: string) {
    StartsWith(t, MergePrefix) && HashAt(AfterOption(t[|MergePrefix|..]))
  }

  /** What is left after the optional group `(dotnet)?`. */
  function AfterOption(u: string): string {
    if StartsWith(u, "dotnet") then u[6..] else u
  }

  /** `\#\d+ from dotnet/merge/release/` matched at the very start of v. */
  predicate HashAt(v: string) {
    v != [] && v[0] == '#' &&
    var n := PrefixRun(v[1..], IsDigit);
    n > 0 && StartsWith(v[1 + n..], MergeSuffix)
  }

  /** Regex.IsMatch: the pattern matches at some position of s. */
  predicate MatchesMergePattern(s: string)
    decreases |s|
  {
    MergeAt(s) || (s != [] && MatchesMergePattern(s[1..]))
  }

  function DotnetOption(viaDotnet: bool): string {
    if viaDotnet then "dotnet" else ""
  }

  function HashText(digits: string): string {
    "#" + (digits + MergeSuffix)
  }

  /** The texts the pattern stands for: with or without "dotnet", and any
      non-empty run of digits. */
  function MergeText(viaDotnet: bool, digits: string): string {
    MergePrefix + (DotnetOption(viaDotnet) + HashText(digits))
  }

  ghost predicate MergeTextAt(t: string) {
    exists viaDotnet, digits :: IsDigits(digits) && digits != [] && StartsWith(t, MergeText(viaDotnet, digits))
  }

  ghost predicate MergeTextOccurs(s: string) {
    exists i :: 0 <= i <= |s| && MergeTextAt(s[i..])
  }

  lemma StartsWithConcat(t: string, a: string, b: string)
    ensures StartsWith(t, a + b) <==> StartsWith(t, a) && StartsWith(t[|a|..], b)
  {
    if StartsWith(t, a) && StartsWith(t[|a|..], b) {
      assert t[..|a + b|] == t[..|a|] + t[|a|..][..|b|];
    }
    if StartsWith(t, a + b) {
      assert t[..|a|] == (a + b)[..|a|];
      assert t[|a|..][..|b|] == (a + b)[|a|..];
    }
  }

  lemma MergeAtSound(t: string)
    requires MergeAt(t)
    ensures MergeTextAt(t)
  {
    var u := t[|MergePrefix|..];
    var b := OptionSound(u);
    var d := HashSound(AfterOption(u));
    StartsWithConcat(u, DotnetOption(b), HashText(d));
    StartsWithConcat(t, MergePrefix, DotnetOption(b) + HashText(d));
    assert StartsWith(t, MergeText(b, d));
  }

  lemma MergeAtComplete(t: string, viaDotnet: bool, digits: string)
    requires IsDigits(digits) && digits != []
    requires StartsWith(t, MergeText(viaDotnet, digits))
    ensures MergeAt(t)
  {
    StartsWithConcat(t, MergePrefix, DotnetOption(viaDotnet) + HashText(digits));
    var u := t[|MergePrefix|..];
    OptionComplete(u, viaDotnet, digits);
    HashComplete(AfterOption(u), digits);
  }

  /** The optional group takes "dotnet" exactly when the text has it. */
  lemma OptionSound(u: string) returns (viaDotnet: bool)
    ensures StartsWith(u, DotnetOption(viaDotnet)) && AfterOption(u) == u[|DotnetOption(viaDotnet)|..]
  {
    viaDotnet := StartsWith(u, "dotnet");
    if !viaDotnet {
      assert u[..0] == [];
    }
  }

  lemma OptionComplete(u: string, viaDotnet: bool, digits: string)
    requires StartsWith(u, DotnetOption(viaDotnet) + HashText(digits))
    ensures StartsWith(AfterOption(u), HashText(digits))
  {
    StartsWithConcat(u, DotnetOption(viaDotnet), HashText(digits));
    if !viaDotnet {
      assert u[0] == HashText(digits)[0] == '#';
      assert !StartsWith(u, "dotnet");
    }
  }

  /** A match of `\#\d+ from dotnet/merge/release/` is '#', digits and the suffix. */
  lemma HashSound(v: string) returns (digits: string)
    requires HashAt(v)
    ensures IsDigits(digits) && digits != [] && StartsWith(v, HashText(digits))
  {
    var n := PrefixRun(v[1..], IsDigit);
    digits := v[1..1 + n];
    assert StartsWith(v[1..], digits);
    assert v[1..][|digits|..] == v[1 + n..];
    StartsWithConcat(v[1..], digits, MergeSuffix);
    StartsWithConcat(v, "#", digits + MergeSuffix);
  }

  lemma HashComplete(v: string, digits: string)
    requires IsDigits(digits) && digits != []
    requires StartsWith(v, HashText(digits))
    ensures HashAt(v)
  {
    StartsWithConcat(v, "#", digits + MergeSuffix);
    StartsWithConcat(v[1..], digits, MergeSuffix);
    DigitRun(v[1..], digits);
    assert v[1..][|digits|..] == v[1 + |digits|..];
  }

  /** The digit run stops at the space that starts the suffix. */
  lemma DigitRun(w: string, digits: string)
    requires IsDigits(digits) && digits != []
    requires StartsWith(w, digits) && StartsWith(w[|digits|..], MergeSuffix)
    ensures PrefixRun(w, IsDigit) == |digits|
  {
    assert w[|digits|..][0] == MergeSuffix[0];
    assert w[|digits|] == ' ';
    PrefixRunExact(w, IsDigit, |digits|);
  }

  lemma {:induction false} MergePatternSound(s: string)
    requires MatchesMergePattern(s)
    ensures MergeTextOccurs(s)
    decreases |s|
  {
    if MergeAt(s) {
      MergeAtSound(s);
      assert s[0..] == s;
    } else {
      MergePatternSound(s[1..]);
      var i :| 0 <= i <= |s[1..]| && MergeTextAt(s[1..][i..]);
      assert s[1..][i..] == s[i + 1..];
    }
  }

  lemma {:induction false} MergePatternComplete(s: string, i: nat)
    requires i <= |s| && MergeTextAt(s[i..])
    ensures MatchesMergePattern(s)
    decreases i
  {
    if i == 0 {
      var b, d :| IsDigits(d) && d != [] && StartsWith(s[0..], MergeText(b, d));
      assert s[0..] == s;
      MergeAtComplete(s, b, d);
    } else {
      assert s[1..][i - 1..] == s[i..];
      MergePatternComplete(s[1..], i - 1);
    }
  }

  /** The matcher accepts exactly the titles that contain one of the pattern's texts. */
  lemma MergePatternIff(s: string)
    ensures MatchesMergePattern(s) <==> MergeTextOccurs(s)
  {
    if MatchesMergePattern(s) {
      MergePatternSound(s);
    }
    if MergeTextOccurs(s) {
      var i :| 0 <= i <= |s| && MergeTextAt(s[i..]);
      MergePatternComplete(s, i);
    }
  }

  // ---------------------------------------------------------------------------
  // The fragments deleted from a title

  /** A fragment deleted from a title wherever it occurs: a literal text compared
      with case folding (string.Replace with InvariantCultureIgnoreCase), the
      pattern `[ ]*\(\#\d+\)` or the pattern `\[\d+\.0\] `. */
  datatype Eraser = Literal(text: string) | PullRequestNumber | VersionTag

  /** Length of the match of e at the very start of t, 0 when there is none (no
      match of these fragments is empty). For both patterns the greedy runs are
      maximal in every match, so no backtracking is needed. */
  function MatchLength(e: Eraser, t: string): (n: nat)
    ensures n <= |t|
  {
    match e
    case Literal(text) =>
      if text != [] && |text| <= |t| && Lower(t[..|text|]) == Lower(text) then |text| else 0
    case PullRequestNumber =>
      var k := PrefixRun(t, IsSpace);
      var u := t[k..];
      if StartsWith(u, "(#") then
        var n := PrefixRun(u[2..], IsDigit);
        if n > 0 && 2 + n < |u| && u[2 + n] == ')' then k + 3 + n else 0
      else 0
    case VersionTag =>
      if t != [] && t[0] == '[' then
        var n := PrefixRun(t[1..], IsDigit);
        if n > 0 && StartsWith(t[1 + n..], ".0] ") then 5 + n else 0
      else 0
  }

  /** The texts `[ ]*\(\#\d+\)` stands for. */
  function PullRequestNumberText(spaces: nat, digits: string): string {
    Spaces(spaces) + "(#" + digits + ")"
  }

  /** With one space, the text is " (#digits)". */
  lemma PullRequestNumberTextOneSpace(digits: string)
    ensures PullRequestNumberText(1, digits) == " (#" + digits + ")"
  {
    assert Spaces(1) == [' '];
  }

  /** The texts `\[\d+\.0\] ` stands for. */
  function VersionTagText(digits: string): string {
    "[" + digits + ".0] "
  }

  lemma PullRequestNumberSound(t: string)
    requires MatchLength(PullRequestNumber, t) > 0
    ensures exists spaces, digits ::
              (IsDigits(digits) && digits != []
               && t[..MatchLength(PullRequestNumber, t)] == PullRequestNumberText(spaces, digits))
  {
    var k := PrefixRun(t, IsSpace);
    var u := t[k..];
    var n := PrefixRun(u[2..], IsDigit);
    assert MatchLength(PullRequestNumber, t) == k + 3 + n;
    SpaceRun(t, k);
    var d := ParenthesizedDigits(u, n);
    PullRequestNumberPieces(t, k, u, d);
  }

  /** The leading run of spaces is Spaces of its length. */
  lemma SpaceRun(t: string, k: nat)
    requires k <= |t| && forall j :: 0 <= j < k ==> IsSpace(t[j])
    ensures t[..k] == Spaces(k)
  {
  }

  /** After "(#", a non-empty run of n digits closed by ')' spells "(#digits)". */
  lemma ParenthesizedDigits(u: string, n: nat) returns (digits: string)
    requires StartsWith(u, "(#") && n == PrefixRun(u[2..], IsDigit)
    requires n > 0 && 2 + n < |u| && u[2 + n] == ')'
    ensures IsDigits(digits) && digits != [] && u[..3 + n] == "(#" + digits + ")"
  {
    digits := u[2..2 + n];
    assert u[..3 + n] == "(#" + digits + ")";
  }

  /** A text made of the spaces and "(#digits)" that follow them. */
  lemma PullRequestNumberPieces(t: string, k: nat, u: string, digits: string)
    requires k <= |t| && u == t[k..] && t[..k] == Spaces(k)
    requires 3 + |digits| <= |u| && u[..3 + |digits|] == "(#" + digits + ")"
    ensures t[..k + 3 + |digits|] == PullRequestNumberText(k, digits)
  {
    assert t[..k + 3 + |digits|] == t[..k] + u[..3 + |digits|];
  }

  lemma PullRequestNumberComplete(t: string, spaces: nat, digits: string)
    requires IsDigits(digits) && digits != []
    requires StartsWith(t, PullRequestNumberText(spaces, digits))
    ensures MatchLength(PullRequestNumber, t) == |PullRequestNumberText(spaces, digits)|
  {
    var w := PullRequestNumberText(spaces, digits);
    var tail := t[|w|..];
    assert t == w + tail;
    assert t[spaces] == '(';
    assert PrefixRun(t, IsSpace) == spaces;
    var u := t[spaces..];
    assert u == "(#" + digits + ")" + tail;
    assert StartsWith(u, "(#");
    assert u[2..] == digits + (")" + tail);
    assert u[2..][|digits|] == ')';
    assert PrefixRun(u[2..], IsDigit) == |digits|;
  }

  lemma VersionTagSound(t: string)
    requires MatchLength(VersionTag, t) > 0
    ensures exists digits ::
              (IsDigits(digits) && digits != [] && t[..MatchLength(VersionTag, t)] == VersionTagText(digits))
  {
    var n := PrefixRun(t[1..], IsDigit);
    var d := t[1..1 + n];
    assert t[1 + n..][..4] == ".0] ";
    assert t[..5 + n] == [t[0]] + d + t[1 + n..][..4];
    assert t[..MatchLength(VersionTag, t)] == VersionTagText(d);
  }

  lemma VersionTagComplete(t: string, digits: string)
    requires IsDigits(digits) && digits != []
    requires StartsWith(t, VersionTagText(digits))
    ensures MatchLength(VersionTag, t) == |VersionTagText(digits)|
  {
    var w := VersionTagText(digits);
    var tail := t[|w|..];
    assert t == w + tail;
    assert t[1..] == digits + (".0] " + tail);
    assert t[1..][|digits|] == '.';
    assert PrefixRun(t[1..], IsDigit) == |digits|;
    assert t[1 + |digits|..] == ".0] " + tail;
  }

  /** Replace(text, "") and Regex.Replace(text, pattern, ""): scans left to right,
      deletes each match and resumes the scan after it. */
  function Erase(s: string, e: Eraser): string
    decreases |s|
  {
    if s == [] then []
    else
      var n := MatchLength(e, s);
      if n > 0 then Erase(s[n..], e) else [s[0]] + Erase(s[1..], e)
  }

  /** Erasing only deletes characters. */
  lemma {:induction false} EraseDeletesOnly(s: string, e: Eraser)
    ensures IsSubsequence(Erase(s, e), s)
    decreases |s|
  {
    if s != [] {
      var n := MatchLength(e, s);
      if n > 0 {
        EraseDeletesOnly(s[n..], e);
        SubsequenceOfSuffix(Erase(s[n..], e), s, n);
      } else {
        EraseDeletesOnly(s[1..], e);
        assert ([s[0]] + Erase(s[1..], e))[1..] == Erase(s[1..], e);
      }
    }
  }

  /** The fragment does not match at position i of s. */
  predicate NoMatchAt(e: Eraser, s: string, i: nat)
  {
    i <= |s| ==> MatchLength(e, s[i..]) == 0
  }

  /** A text in which the fragment matches nowhere is left as it is. */
  lemma {:induction false} EraseWithoutMatch(s: string, e: Eraser)
    requires forall i :: 0 <= i < |s| ==> NoMatchAt(e, s, i)
    ensures Erase(s, e) == s
    decreases |s|
  {
    if s != [] {
      assert NoMatchAt(e, s, 0);
      assert s[0..] == s;
      forall i | 0 <= i < |s[1..]| ensures NoMatchAt(e, s[1..], i) {
        assert NoMatchAt(e, s, i + 1);
        assert s[1..][i..] == s[i + 1..];
      }
      EraseWithoutMatch(s[1..], e);
      EraseStep(s, e);
    }
  }

  /** Text before the first position where the fragment matches is kept as it is. */
  lemma {:induction false} EraseKeepsPrefix(a: string, b: string, e: Eraser)
    requires forall i :: 0 <= i < |a| ==> NoMatchAt(e, a + b, i)
    ensures Erase(a + b, e) == a + Erase(b, e)
    decreases |a|
  {
    if a != [] {
      NoMatchTail(a, b, e);
      EraseKeepsPrefix(a[1..], b, e);
      EraseStep(a + b, e);
      ConsAppend(a, Erase(b, e));
    } else {
      assert a + b == b;
    }
  }

  /** No match in a means none at its start and none in its tail. */
  lemma NoMatchTail(a: string, b: string, e: Eraser)
    requires a != []
    requires forall i :: 0 <= i < |a| ==> NoMatchAt(e, a + b, i)
    ensures MatchLength(e, a + b) == 0 && (a + b)[0] == a[0] && (a + b)[1..] == a[1..] + b
    ensures forall i :: 0 <= i < |a[1..]| ==> NoMatchAt(e, a[1..] + b, i)
  {
    NoMatchHead(a, b, e);
    NoMatchRest(a, b, e);
  }

  lemma NoMatchHead(a: string, b: string, e: Eraser)
    requires a != []
    requires forall i :: 0 <= i < |a| ==> NoMatchAt(e, a + b, i)
    ensures MatchLength(e, a + b) == 0 && (a + b)[0] == a[0] && (a + b)[1..] == a[1..] + b
  {
    assert NoMatchAt(e, a + b, 0);
    assert (a + b)[0..] == a + b;
  }

  lemma NoMatchRest(a: string, b: string, e: Eraser)
    requires a != []
    requires forall i :: 0 <= i < |a| ==> NoMatchAt(e, a + b, i)
    ensures forall i :: 0 <= i < |a[1..]| ==> NoMatchAt(e, a[1..] + b, i)
  {
    forall i | 0 <= i < |a[1..]| ensures NoMatchAt(e, a[1..] + b, i) {
      assert NoMatchAt(e, a + b, i + 1);
      assert (a[1..] + b)[i..] == (a + b)[i + 1..];
    }
  }

  lemma ConsAppend(a: string, q: string)
    requires a != []
    ensures [a[0]] + (a[1..] + q) == a + q
  {
    assert [a[0]] + a[1..] == a;
  }

  /** Where the fragment does not match, the first character is kept. */
  lemma EraseStep(s: string, e: Eraser)
    requires s != [] && MatchLength(e, s) == 0
    ensures Erase(s, e) == [s[0]] + Erase(s[1..], e)
  {
  }

  /** A literal whose first character is not a letter matches only where that
      character occurs, so it leaves a text without that character as it is. */
  lemma EraseLiteralAbsent(s: string, text: string)
    requires text != [] && !('A' <= text[0] <= 'Z') && !('a' <= text[0] <= 'z')
    requires text[0] !in s
    ensures Erase(s, Literal(text)) == s
  {
    forall i | 0 <= i < |s| ensures NoMatchAt(Literal(text), s, i) {
      assert ToLower(s[i]) != ToLower(text[0]);
      if |text| <= |s[i..]| {
        assert Lower(s[i..][..|text|])[0] != Lower(text)[0];
      }
    }
    EraseWithoutMatch(s, Literal(text));
  }

  /** A literal does not match where some character differs from it after case folding. */
  lemma LiteralMismatch(t: string, text: string, j: nat)
    requires |text| <= |t| && j < |text| && ToLower(t[j]) != ToLower(text[j])
    ensures MatchLength(Literal(text), t) == 0
  {
    assert Lower(t[..|text|])[j] != Lower(text)[j];
  }

  /** The same when the text does start with a non-matching occurrence. */
  lemma EraseLiteralPastStart(s: string, text: string)
    requires s != [] && MatchLength(Literal(text), s) == 0
    requires text != [] && !('A' <= text[0] <= 'Z') && !('a' <= text[0] <= 'z')
    requires text[0] !in s[1..]
    ensures Erase(s, Literal(text)) == s
  {
    EraseLiteralAbsent(s[1..], text);
    assert [s[0]] + s[1..] == s;
  }

  /** A title with a '9' at index 9 and a '-' at index 12 does not start with
      "[release/8.0] ", "[release/9.0] " or "[release/8.0-staging] ". */
  lemma ReleasePrefixesMismatch(s: string)
    requires |s| >= 22 && s[9] == '9' && s[12] == '-'
    ensures MatchLength(Literal("[release/8.0] "), s) == 0
    ensures MatchLength(Literal("[release/9.0] "), s) == 0
    ensures MatchLength(Literal("[release/8.0-staging] "), s) == 0
  {
    LiteralMismatch(s, "[release/8.0] ", 9);
    LiteralMismatch(s, "[release/9.0] ", 12);
    LiteralMismatch(s, "[release/8.0-staging] ", 9);
  }

  /** If moreover no '[' follows its first character, those three prefixes delete
      nothing from it. */
  lemma ReleasePrefixesMiss(s: string)
    requires |s| >= 22 && s[9] == '9' && s[12] == '-' && '[' !in s[1..]
    ensures Erase(s, Literal("[release/8.0] ")) == s
    ensures Erase(s, Literal("[release/9.0] ")) == s
    ensures Erase(s, Literal("[release/8.0-staging] ")) == s
  {
    ReleasePrefixesMismatch(s);
    EraseLiteralPastStart(s, "[release/8.0] ");
    EraseLiteralPastStart(s, "[release/9.0] ");
    EraseLiteralPastStart(s, "[release/8.0-staging] ");
  }

  /** A literal starting with a non-letter is deleted from the front of a text that
      holds its first character nowhere else. */
  lemma EraseLiteralAtStart(text: string, rest: string)
    requires text != [] && !('A' <= text[0] <= 'Z') && !('a' <= text[0] <= 'z')
    requires text[0] !in rest
    ensures Erase(text + rest, Literal(text)) == rest
  {
    var s := text + rest;
    assert s[..|text|] == text;
    assert s[|text|..] == rest;
    EraseLiteralAbsent(rest, text);
  }

  /** On "[release/9.0-staging] " followed by a text without '[', the first three
      release prefixes delete nothing and the fourth deletes exactly itself. */
  lemma ReleasePrefixesOnStaging(rest: string)
    requires '[' !in rest
    ensures var s := "[release/9.0-staging] " + rest;
      Erase(s, Literal("[release/8.0] ")) == s &&
      Erase(s, Literal("[release/9.0] ")) == s &&
      Erase(s, Literal("[release/8.0-staging] ")) == s &&
      Erase(s, Literal("[release/9.0-staging] ")) == rest
  {
    StagingShape(rest);
    ReleasePrefixesMiss("[release/9.0-staging] " + rest);
    EraseLiteralAtStart("[release/9.0-staging] ", rest);
  }

  lemma StagingShape(rest: string)
    requires '[' !in rest
    ensures var s := "[release/9.0-staging] " + rest;
      |s| >= 22 && s[9] == '9' && s[12] == '-' && '[' !in s[1..]
  {
    var p := "[release/9.0-staging] ";
    var s := p + rest;
    assert s[1..] == p[1..] + rest;
  }

  /** `\[\d+\.0\] ` needs a '['. */
  lemma EraseVersionTagAbsent(s: string)
    requires '[' !in s
    ensures Erase(s, VersionTag) == s
  {
    forall i | 0 <= i < |s| ensures NoMatchAt(VersionTag, s, i) {
      assert s[i..][0] == s[i];
    }
    EraseWithoutMatch(s, VersionTag);
  }

  /** `[ ]*\(\#\d+\)` cannot start at a character other than ' ' and '('. */
  lemma PullRequestNumberAbsentAt(t: string)
    requires t != [] && t[0] != ' ' && t[0] != '('
    ensures MatchLength(PullRequestNumber, t) == 0
  {
    assert PrefixRun(t, IsSpace) == 0;
    assert t[0..] == t;
  }

  /** A leading space is part of a match exactly when a match starts right after it. */
  lemma PullRequestNumberAfterSpace(t: string)
    requires t != [] && t[0] == ' '
    ensures MatchLength(PullRequestNumber, t) == 0 <==> MatchLength(PullRequestNumber, t[1..]) == 0
  {
    var k := PrefixRun(t[1..], IsSpace);
    assert PrefixRun(t, IsSpace) == 1 + k;
    assert t[1 + k..] == t[1..][k..];
  }
}
