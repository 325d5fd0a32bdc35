/** The commit collector: the first line of each commit message, the ordered rules
    that skip a commit with a reason, the clean-up of the titles that are kept, and
    the loop of Run that sorts the commits of a pull request into the skipped list
    and the Markdown table. The commits and their details, which the tool fetches
    from GitHub, are inputs here. */
module CommitCollector {
  import opened Wrappers
  import opened Strings
  import opened TitlePatterns
  import TableLayout
  import opened MarkdownTable

  const MaestroBot := "dotnet-maestro[bot]"

  const InfraExtensions: seq<string> :=
    ["CMakeLists.txt", ".cmake", ".config", ".csproj", ".editorconfig", ".gitignore", ".ilproj",
     ".json", ".md", ".pp", ".proj", ".props", ".ps1", ".ruleset", ".sln", ".targets", ".txt",
     ".xml", ".yml"]

  const ForbiddenStrings: seq<string> := ["Update dependencies from ", "Merge branch "]

  /** The one forbidden pattern, as the source writes it; MatchesMergePattern is its matcher. */
  const ForbiddenPattern := MergePrefix + @"(dotnet)?\#\d+ from dotnet/merge/release/"

  const StringsToTrim: seq<string> :=
    ["[release/8.0] ", "[release/9.0] ", "[release/8.0-staging] ", "[release/9.0-staging] "]

  /** `[ ]*\(\#\d+\)` and `\[\d+\.0\] `, in this order. */
  const StringPatternsToTrim: seq<Eraser> := [PullRequestNumber, VersionTag]

  // ---------------------------------------------------------------------------
  // The first line of a commit message

  /** string.Split(["\n", "\r\n"]) without options: at each position the separators
      are tried in array order, so '\n' ends a piece and "\r\n" ends one too. */
  function SplitLines(s: string): (parts: seq<string>)
    ensures |parts| >= 1
    decreases |s|
  {
    if s == [] then [""]
    else if s[0] == '\n' then [""] + SplitLines(s[1..])
    else if |s| >= 2 && s[0] == '\r' && s[1] == '\n' then [""] + SplitLines(s[2..])
    else
      var rest := SplitLines(s[1..]);
      [[s[0]] + rest[0]] + rest[1..]
  }

  /** StringSplitOptions.TrimEntries | RemoveEmptyEntries: every piece trimmed, the
      empty ones dropped. */
  function TrimmedEntries(parts: seq<string>): (entries: seq<string>)
    ensures forall j :: 0 <= j < |entries| ==>
              entries[j] != [] && exists k :: 0 <= k < |parts| && entries[j] == Trim(parts[k])
    ensures entries == [] <==> forall k :: 0 <= k < |parts| ==> AllWhiteSpace(parts[k])
    decreases |parts|
  {
    if parts == [] then []
    else
      var t := Trim(parts[0]);
      var rest := TrimmedEntries(parts[1..]);
      TrimShape(parts[0]);
      assert forall k :: 0 <= k < |parts[1..]| ==> parts[1..][k] == parts[k + 1];
      if t == [] then rest else [t] + rest
  }

  /** A single piece gives its trim, unless it is blank and so dropped. */
  lemma TrimmedEntriesOne(p: string)
    ensures TrimmedEntries([p]) == if AllWhiteSpace(p) then [] else [Trim(p)]
  {
    TrimShape(p);
    assert [p][1..] == [];
  }

  /** The entries of consecutive pieces are the entries of each, in order. */
  lemma {:induction false} TrimmedEntriesConcat(a: seq<string>, b: seq<string>)
    ensures TrimmedEntries(a + b) == TrimmedEntries(a) + TrimmedEntries(b)
    decreases |a|
  {
    if a == [] {
      assert a + b == b;
    } else {
      assert (a + b)[0] == a[0];
      assert (a + b)[1..] == a[1..] + b;
      TrimmedEntriesConcat(a[1..], b);
    }
  }

  /** The first entry is the trim of piece k, the first piece that is not blank. */
  lemma {:induction false} FirstEntry(parts: seq<string>) returns (k: nat)
    requires TrimmedEntries(parts) != []
    ensures k < |parts| && TrimmedEntries(parts)[0] == Trim(parts[k])
    ensures forall j :: 0 <= j < k ==> AllWhiteSpace(parts[j])
    decreases |parts|
  {
    if Trim(parts[0]) == [] {
      var rest := parts[1..];
      assert TrimmedEntries(parts) == TrimmedEntries(rest);
      var i := FirstEntry(rest);
      BlankBeforeCons(parts, i);
      k := i + 1;
      assert parts[k] == rest[i];
    } else {
      k := 0;
    }
  }

  lemma BlankBeforeCons(parts: seq<string>, i: nat)
    requires i < |parts| - 1 && Trim(parts[0]) == []
    requires forall j :: 0 <= j < i ==> AllWhiteSpace(parts[1..][j])
    ensures forall j :: 0 <= j < i + 1 ==> AllWhiteSpace(parts[j])
  {
    TrimShape(parts[0]);
    forall j | 0 < j < i + 1 ensures AllWhiteSpace(parts[j]) {
      assert parts[j] == parts[1..][j - 1];
    }
  }

  /** The first entry of the split (First()), None where First() throws because no
      entry is left. */
  function FirstLine(message: string): Option<string> {
    var entries := TrimmedEntries(SplitLines(message));
    if entries == [] then None else Some(entries[0])
  }

  lemma OccursCompose(s: string, p: string, i: int, t: string, j: int)
    requires OccursAt(s, p, i) && OccursAt(p, t, j)
    ensures OccursAt(s, t, i + j)
  {
    assert forall k :: 0 <= k < |t| ==> t[k] == p[j + k] == s[i + j + k];
    assert s[i + j..i + j + |t|] == t;
  }

  lemma OccursNotIn(s: string, t: string, i: int, c: char)
    requires OccursAt(s, t, i) && c !in s
    ensures c !in t
  {
  }

  /** The two ways SplitLines takes a step: after a separator of length d a new
      piece starts; after any other character the first piece grows. */
  lemma SplitLinesAtSeparator(s: string, d: nat)
    requires d == 1 || d == 2
    requires d <= |s| && (if d == 1 then s[0] == '\n' else s[0] == '\r' && s[1] == '\n')
    ensures SplitLines(s) == [""] + SplitLines(s[d..])
    ensures forall k :: 1 <= k < |SplitLines(s)| ==> SplitLines(s)[k] == SplitLines(s[d..])[k - 1]
    ensures forall k :: 0 <= k < |SplitLines(s[d..])| ==> SplitLines(s[d..])[k] == SplitLines(s)[k + 1]
  {
  }

  lemma SplitLinesAtChar(s: string)
    requires s != [] && s[0] != '\n' && !(|s| >= 2 && s[0] == '\r' && s[1] == '\n')
    ensures |SplitLines(s)| == |SplitLines(s[1..])|
    ensures SplitLines(s)[0] == [s[0]] + SplitLines(s[1..])[0]
    ensures forall k :: 1 <= k < |SplitLines(s)| ==> SplitLines(s)[k] == SplitLines(s[1..])[k]
  {
  }

  lemma WhiteSpaceCons(s: string)
    requires s != []
    ensures AllWhiteSpace(s) <==> IsWhiteSpace(s[0]) && AllWhiteSpace(s[1..])
  {
    assert forall i :: 1 <= i < |s| ==> s[i] == s[1..][i - 1];
  }

  /** No piece holds a '\n'. */
  lemma {:induction false} SplitLinesNoNewline(s: string)
    ensures forall k :: 0 <= k < |SplitLines(s)| ==> '\n' !in SplitLines(s)[k]
    decreases |s|
  {
    if s == [] {
    } else if s[0] == '\n' || (|s| >= 2 && s[0] == '\r' && s[1] == '\n') {
      var d := if s[0] == '\n' then 1 else 2;
      SplitLinesAtSeparator(s, d);
      SplitLinesNoNewline(s[d..]);
    } else {
      SplitLinesAtChar(s);
      SplitLinesNoNewline(s[1..]);
    }
  }

  /** Piece k occurs in s where PieceStart says. */
  lemma {:induction false} SplitLinesPiece(s: string, k: nat)
    requires k < |SplitLines(s)|
    ensures OccursAt(s, SplitLines(s)[k], PieceStart(s, k))
    decreases |s|
  {
    if s == [] {
    } else if s[0] == '\n' || (|s| >= 2 && s[0] == '\r' && s[1] == '\n') {
      var d := if s[0] == '\n' then 1 else 2;
      if k > 0 {
        assert |SplitLines(s)| == 1 + |SplitLines(s[d..])|;
        SplitLinesPiece(s[d..], k - 1);
        PieceAfterSeparator(s, d, k);
      }
    } else {
      assert |SplitLines(s)| == |SplitLines(s[1..])|;
      SplitLinesPiece(s[1..], k);
      PieceAfterChar(s, k);
    }
  }

  lemma PieceAfterSeparator(s: string, d: nat, k: nat)
    requires d == 1 || d == 2
    requires d <= |s| && (if d == 1 then s[0] == '\n' else s[0] == '\r' && s[1] == '\n')
    requires 0 < k < |SplitLines(s)|
    requires OccursAt(s[d..], SplitLines(s[d..])[k - 1], PieceStart(s[d..], k - 1))
    ensures OccursAt(s, SplitLines(s)[k], PieceStart(s, k))
  {
    SplitLinesAtSeparator(s, d);
    OccursShift(s, SplitLines(s[d..])[k - 1], PieceStart(s[d..], k - 1), d);
  }

  lemma PieceAfterChar(s: string, k: nat)
    requires s != [] && s[0] != '\n' && !(|s| >= 2 && s[0] == '\r' && s[1] == '\n')
    requires k < |SplitLines(s)|
    requires k < |SplitLines(s[1..])| && OccursAt(s[1..], SplitLines(s[1..])[k], PieceStart(s[1..], k))
    ensures OccursAt(s, SplitLines(s)[k], PieceStart(s, k))
  {
    SplitLinesAtChar(s);
    if k == 0 {
      OccursCons(s, SplitLines(s[1..])[0]);
    } else {
      OccursShift(s, SplitLines(s[1..])[k], PieceStart(s[1..], k), 1);
    }
  }

  lemma OccursCons(s: string, t: string)
    requires s != [] && OccursAt(s[1..], t, 0)
    ensures OccursAt(s, [s[0]] + t, 0)
  {
    assert s[..1 + |t|] == [s[0]] + s[1..][..|t|];
  }

  /** Where piece k of SplitLines(s) starts in s. */
  function PieceStart(s: string, k: nat): nat
    decreases |s|
  {
    if s == [] || k == 0 then 0
    else if s[0] == '\n' then 1 + PieceStart(s[1..], k - 1)
    else if |s| >= 2 && s[0] == '\r' && s[1] == '\n' then 2 + PieceStart(s[2..], k - 1)
    else 1 + PieceStart(s[1..], k)
  }

  /** The pieces are all whitespace exactly when s is, the separators being whitespace. */
  lemma {:induction false} SplitLinesWhiteSpace(s: string)
    ensures AllWhiteSpace(s) <==> forall k :: 0 <= k < |SplitLines(s)| ==> AllWhiteSpace(SplitLines(s)[k])
    decreases |s|
  {
    var parts := SplitLines(s);
    if s == [] {
    } else if s[0] == '\n' || (|s| >= 2 && s[0] == '\r' && s[1] == '\n') {
      var d := if s[0] == '\n' then 1 else 2;
      SplitLinesAtSeparator(s, d);
      SplitLinesWhiteSpace(s[d..]);
      WhiteSpaceCons(s);
      if d == 2 {
        WhiteSpaceCons(s[1..]);
        assert s[1..][1..] == s[2..];
      }
    } else {
      var rest := SplitLines(s[1..]);
      SplitLinesAtChar(s);
      SplitLinesWhiteSpace(s[1..]);
      WhiteSpaceCons(s);
      WhiteSpaceCons(parts[0]);
      assert parts[0][1..] == rest[0];
    }
  }

  lemma {:induction false} SplitLinesSingle(s: string)
    requires '\n' !in s
    ensures SplitLines(s) == [s]
    decreases |s|
  {
    if s != [] {
      assert '\n' !in s[1..];
      SplitLinesSingle(s[1..]);
      assert [s[0]] + s[1..] == s;
    }
  }

  /** The first line is a non-empty, trimmed piece of the message without '\n'; there
      is none exactly when the message is all whitespace. */
  lemma FirstLineShape(message: string)
    ensures FirstLine(message).None? <==> AllWhiteSpace(message)
    ensures FirstLine(message).Some? ==>
              var line := FirstLine(message).value;
              line != [] && IsTrimmed(line) && '\n' !in line && exists i :: OccursAt(message, line, i)
    ensures FirstLine(message).Some? ==>
              exists k :: 0 <= k < |SplitLines(message)| && FirstLine(message).value == Trim(SplitLines(message)[k])
                          && forall j :: 0 <= j < k ==> AllWhiteSpace(SplitLines(message)[j])
  {
    var parts := SplitLines(message);
    SplitLinesWhiteSpace(message);
    if FirstLine(message).Some? {
      var first := FirstEntry(parts);
      var line := FirstLine(message).value;
      SplitLinesNoNewline(message);
      var k :| 0 <= k < |parts| && line == Trim(parts[k]);
      SplitLinesPiece(message, k);
      TrimShape(parts[k]);
      OccursNotIn(parts[k], line, LeadingWhiteSpace(parts[k]), '\n');
      OccursCompose(message, parts[k], PieceStart(message, k), line, LeadingWhiteSpace(parts[k]));
    }
  }

  /** Taking the first line of a first line changes nothing. */
  lemma FirstLineIdempotent(message: string)
    requires FirstLine(message).Some?
    ensures FirstLine(FirstLine(message).value) == FirstLine(message)
  {
    var line := FirstLine(message).value;
    FirstLineShape(message);
    SplitLinesSingle(line);
    TrimShape(line);
  }

  /** A one-line message that is not blank is its own first line, trimmed. */
  lemma FirstLineOfOneLine(message: string)
    requires '\n' !in message && !AllWhiteSpace(message)
    ensures FirstLine(message) == Some(Trim(message))
  {
    SplitLinesSingle(message);
    TrimShape(message);
  }

  // ---------------------------------------------------------------------------
  // The skip rules

  /** The first entry of texts that title contains, in array order. */
  function FirstForbiddenText(title: string, texts: seq<string>): Option<string>
    decreases |texts|
  {
    if texts == [] then None
    else if Contains(title, texts[0]) then Some(texts[0])
    else FirstForbiddenText(title, texts[1..])
  }

  predicate IsInfraFile(fileName: string) {
    exists ext <- InfraExtensions :: EndsWithIgnoreCase(fileName, ext)
  }

  predicate IsTestFile(fileName: string) {
    ContainsIgnoreCase(fileName, "test")
  }

  predicate AllInfraFiles(fileNames: seq<string>) {
    forall f <- fileNames :: IsInfraFile(f)
  }

  predicate AllTestFiles(fileNames: seq<string>) {
    forall f <- fileNames :: IsTestFile(f)
  }

  /** The reason a commit is skipped, None when it is kept: tried in order, the bot
      author, the forbidden texts, the forbidden pattern, only infra files, only test
      files. author is the login of the commit's author, fileNames its changed files. */
  function IsSkippable(title: string, author: string, fileNames: seq<string>): Option<string> {
    if author == MaestroBot then Some("author: maestrobot")
    else match FirstForbiddenText(title, ForbiddenStrings)
      case Some(text) => Some("Skip title text: " + text)
      case None =>
        if MatchesMergePattern(title) then Some("Skip title pattern: " + ForbiddenPattern[..19])
        else if AllInfraFiles(fileNames) then Some("All infra files")
        else if AllTestFiles(fileNames) then Some("All test files")
        else None
  }

  /** The rules, described by what they accept rather than by how they search. */
  datatype SkipRule = BotAuthor | ForbiddenText(text: string) | ForbiddenTitlePattern | InfraFilesOnly | TestFilesOnly

  const SkipRules: seq<SkipRule> :=
    [BotAuthor, ForbiddenText("Update dependencies from "), ForbiddenText("Merge branch "),
     ForbiddenTitlePattern, InfraFilesOnly, TestFilesOnly]

  ghost predicate Fires(rule: SkipRule, title: string, author: string, fileNames: seq<string>) {
    match rule
    case BotAuthor => author == MaestroBot
    case ForbiddenText(text) => exists i :: OccursAt(title, text, i)
    case ForbiddenTitlePattern => MergeTextOccurs(title)
    case InfraFilesOnly => forall f <- fileNames :: exists ext <- InfraExtensions :: EndsWith(Lower(f), Lower(ext))
    case TestFilesOnly => forall f <- fileNames :: exists i :: OccursAt(Lower(f), "test", i)
  }

  function Reason(rule: SkipRule): string {
    match rule
    case BotAuthor => "author: maestrobot"
    case ForbiddenText(text) => "Skip title text: " + text
    case ForbiddenTitlePattern => "Skip title pattern: Merge pull request "
    case InfraFilesOnly => "All infra files"
    case TestFilesOnly => "All test files"
  }

  /** The reason of the first rule that fires. */
  ghost function FirstFired(rules: seq<SkipRule>, title: string, author: string, fileNames: seq<string>): Option<string>
    decreases |rules|
  {
    if rules == [] then None
    else if Fires(rules[0], title, author, fileNames) then Some(Reason(rules[0]))
    else FirstFired(rules[1..], title, author, fileNames)
  }

  /** The first rule that fires gives the reason: it fires, no earlier rule does, and
      with no rule firing there is no reason. */
  lemma {:induction false} FirstFiredIff(rules: seq<SkipRule>, title: string, author: string, fileNames: seq<string>)
    ensures FirstFired(rules, title, author, fileNames).None? <==>
              forall k :: 0 <= k < |rules| ==> !Fires(rules[k], title, author, fileNames)
    ensures FirstFired(rules, title, author, fileNames).Some? ==>
              exists k :: 0 <= k < |rules| && Fires(rules[k], title, author, fileNames)
                && (forall j :: 0 <= j < k ==> !Fires(rules[j], title, author, fileNames))
                && FirstFired(rules, title, author, fileNames).value == Reason(rules[k])
    decreases |rules|
  {
    if rules != [] && !Fires(rules[0], title, author, fileNames) {
      FirstFiredIff(rules[1..], title, author, fileNames);
      assert forall k :: 1 <= k < |rules| ==> rules[k] == rules[1..][k - 1];
      if FirstFired(rules, title, author, fileNames).Some? {
        var k :| 0 <= k < |rules[1..]| && Fires(rules[1..][k], title, author, fileNames)
                 && (forall j :: 0 <= j < k ==> !Fires(rules[1..][j], title, author, fileNames))
                 && FirstFired(rules, title, author, fileNames).value == Reason(rules[1..][k]);
        assert Fires(rules[k + 1], title, author, fileNames);
      }
    } else if rules != [] {
      assert Fires(rules[0], title, author, fileNames);
    }
  }

  lemma ForbiddenTextsFire(title: string)
    ensures FirstForbiddenText(title, ForbiddenStrings) ==
              if exists i :: OccursAt(title, ForbiddenStrings[0], i) then Some(ForbiddenStrings[0])
              else if exists i :: OccursAt(title, ForbiddenStrings[1], i) then Some(ForbiddenStrings[1])
              else None
  {
    ContainsIff(title, ForbiddenStrings[0]);
    ContainsIff(title, ForbiddenStrings[1]);
    assert ForbiddenStrings[1..][1..] == [];
  }

  lemma FileRulesFire(title: string, author: string, fileNames: seq<string>)
    ensures AllInfraFiles(fileNames) == Fires(InfraFilesOnly, title, author, fileNames)
    ensures AllTestFiles(fileNames) == Fires(TestFilesOnly, title, author, fileNames)
  {
    assert Lower("test") == "test";
    forall f <- fileNames ensures IsTestFile(f) == exists i :: OccursAt(Lower(f), "test", i) {
      ContainsIff(Lower(f), "test");
    }
  }

  lemma FirstFiredOfSkipRules(title: string, author: string, fileNames: seq<string>)
    ensures FirstFired(SkipRules, title, author, fileNames) ==
              if Fires(SkipRules[0], title, author, fileNames) then Some(Reason(SkipRules[0]))
              else if Fires(SkipRules[1], title, author, fileNames) then Some(Reason(SkipRules[1]))
              else if Fires(SkipRules[2], title, author, fileNames) then Some(Reason(SkipRules[2]))
              else if Fires(SkipRules[3], title, author, fileNames) then Some(Reason(SkipRules[3]))
              else if Fires(SkipRules[4], title, author, fileNames) then Some(Reason(SkipRules[4]))
              else if Fires(SkipRules[5], title, author, fileNames) then Some(Reason(SkipRules[5]))
              else None
  {
    var rs := SkipRules;
    assert rs[1..][1..][1..][1..][1..][1..] == [];
  }

  /** The reason names the pattern by its first 19 characters, "Merge pull request ". */
  lemma PatternReasonText()
    ensures "Skip title pattern: " + ForbiddenPattern[..19] == Reason(ForbiddenTitlePattern)
  {
    assert |MergePrefix| == 19 && ForbiddenPattern[..19] == MergePrefix;
  }

  /** IsSkippable answers with the first rule that fires. */
  lemma IsSkippableFirstRule(title: string, author: string, fileNames: seq<string>)
    ensures IsSkippable(title, author, fileNames) == FirstFired(SkipRules, title, author, fileNames)
  {
    FirstFiredOfSkipRules(title, author, fileNames);
    if author != MaestroBot {
      ForbiddenTextsFire(title);
      assert Fires(SkipRules[1], title, author, fileNames) == exists i :: OccursAt(title, ForbiddenStrings[0], i);
      assert Fires(SkipRules[2], title, author, fileNames) == exists i :: OccursAt(title, ForbiddenStrings[1], i);
      if FirstForbiddenText(title, ForbiddenStrings).None? {
        MergePatternIff(title);
        if !MatchesMergePattern(title) {
          FileRulesFire(title, author, fileNames);
        } else {
          PatternReasonText();
        }
      }
    }
  }

  /** A commit by the Maestro bot is skipped for that reason, whatever its title and files. */
  lemma BotIsSkipped(title: string, fileNames: seq<string>)
    ensures IsSkippable(title, MaestroBot, fileNames) == Some("author: maestrobot")
  {
  }

  /** A title with both forbidden texts reports the one listed first. */
  lemma BothTextsReportFirst(title: string, author: string, fileNames: seq<string>, i: int, j: int)
    requires author != MaestroBot
    requires OccursAt(title, "Update dependencies from ", i) && OccursAt(title, "Merge branch ", j)
    ensures IsSkippable(title, author, fileNames) == Some("Skip title text: " + "Update dependencies from ")
  {
    FirstTextFires(title, i);
  }

  lemma FirstTextFires(title: string, i: int)
    requires OccursAt(title, "Update dependencies from ", i)
    ensures FirstForbiddenText(title, ForbiddenStrings) == Some("Update dependencies from ")
  {
    ForbiddenTextsFire(title);
    assert OccursAt(title, ForbiddenStrings[0], i);
  }

  /** A title holding one of the pattern's texts, past the earlier rules, is skipped
      with the pattern's first 19 characters as the reason. */
  lemma PatternReason(title: string, author: string, fileNames: seq<string>, at: nat, viaDotnet: bool, digits: string)
    requires author != MaestroBot
    requires forall k, i :: 0 <= k < |ForbiddenStrings| ==> !OccursAt(title, ForbiddenStrings[k], i)
    requires at <= |title| && IsDigits(digits) && digits != []
    requires StartsWith(title[at..], MergeText(viaDotnet, digits))
    ensures IsSkippable(title, author, fileNames) == Some("Skip title pattern: Merge pull request ")
  {
    ForbiddenTextsFire(title);
    assert MergeTextAt(title[at..]);
    MergePatternComplete(title, at);
    PatternReasonText();
  }

  /** A commit that changes no file passes the "only infra files" rule vacuously. */
  lemma NoFilesAreInfraFiles(title: string, author: string)
    requires author != MaestroBot
    requires forall k, i :: 0 <= k < |ForbiddenStrings| ==> !OccursAt(title, ForbiddenStrings[k], i)
    requires !MergeTextOccurs(title)
    ensures IsSkippable(title, author, []) == Some("All infra files")
  {
    IsSkippableFirstRule(title, author, []);
  }

  /** Past the earlier rules, with some file that is not an infra file, the commit is
      skipped as a test commit exactly when every file name contains "test" in any
      case, and kept otherwise. */
  lemma TestRule(title: string, author: string, fileNames: seq<string>, other: nat)
    requires author != MaestroBot
    requires forall k, i :: 0 <= k < |ForbiddenStrings| ==> !OccursAt(title, ForbiddenStrings[k], i)
    requires !MergeTextOccurs(title)
    requires other < |fileNames| && !IsInfraFile(fileNames[other])
    ensures IsSkippable(title, author, fileNames) ==
              if forall f <- fileNames :: exists i :: OccursAt(Lower(f), "test", i)
              then Some("All test files") else None
  {
    IsSkippableFirstRule(title, author, fileNames);
  }

  // ---------------------------------------------------------------------------
  // Cleaning up a title

  function Literals(texts: seq<string>): (es: seq<Eraser>)
    ensures |es| == |texts| && forall k :: 0 <= k < |texts| ==> es[k] == Literal(texts[k])
  {
    seq(|texts|, k requires 0 <= k < |texts| => Literal(texts[k]))
  }

  /** The fragments in the order RemoveTexts deletes them. */
  ghost const TrimErasers: seq<Eraser> := Literals(StringsToTrim) + StringPatternsToTrim

  /** The erasers applied one after the other, the first one first. */
  function EraseAll(s: string, es: seq<Eraser>): string
    decreases |es|
  {
    if es == [] then s else Erase(EraseAll(s, es[..|es| - 1]), es[|es| - 1])
  }

  ghost function CleanTitle(title: string): string {
    EraseAll(title, TrimErasers)
  }

  /** string.Replace with each release prefix, then Regex.Replace with each pattern,
      deleting every match. */
  method RemoveTexts(message: string) returns (r: string)
    ensures r == CleanTitle(message)
    ensures IsSubsequence(r, message)
  {
    ghost var es := TrimErasers;
    r := message;
    for k := 0 to |StringsToTrim|
      invariant r == EraseAll(message, es[..k])
    {
      assert es[..k + 1][..k] == es[..k];
      r := Erase(r, Literal(StringsToTrim[k]));
    }
    for k := 0 to |StringPatternsToTrim|
      invariant r == EraseAll(message, es[..|StringsToTrim| + k])
    {
      assert es[..|StringsToTrim| + k + 1][..|StringsToTrim| + k] == es[..|StringsToTrim| + k];
      r := Erase(r, StringPatternsToTrim[k]);
    }
    assert es[..|es|] == es;
    CleanTitleDeletesOnly(message);
  }

  lemma {:induction false} EraseAllDeletesOnly(s: string, es: seq<Eraser>)
    ensures IsSubsequence(EraseAll(s, es), s)
    decreases |es|
  {
    if es == [] {
      SubsequenceReflexive(s);
    } else {
      var before := EraseAll(s, es[..|es| - 1]);
      EraseAllDeletesOnly(s, es[..|es| - 1]);
      EraseDeletesOnly(before, es[|es| - 1]);
      SubsequenceTransitive(EraseAll(s, es), before, s);
    }
  }

  /** Cleaning a title only deletes characters. */
  lemma CleanTitleDeletesOnly(title: string)
    ensures IsSubsequence(CleanTitle(title), title)
  {
    EraseAllDeletesOnly(title, TrimErasers);
  }

  lemma {:induction false} EraseAllWithoutMatch(s: string, es: seq<Eraser>)
    requires forall k, i :: 0 <= k < |es| && 0 <= i < |s| ==> NoMatchAt(es[k], s, i)
    ensures EraseAll(s, es) == s
    decreases |es|
  {
    if es != [] {
      EraseAllWithoutMatch(s, es[..|es| - 1]);
      EraseWithoutMatch(s, es[|es| - 1]);
    }
  }

  /** A title in which no release prefix and neither pattern matches anywhere is kept
      as it is. */
  lemma CleanTitleWithoutMatch(title: string)
    requires forall k, i :: 0 <= k < |TrimErasers| && 0 <= i < |title| ==> NoMatchAt(TrimErasers[k], title, i)
    ensures CleanTitle(title) == title
  {
    EraseAllWithoutMatch(title, TrimErasers);
  }

  /** The release prefixes are deleted first, then the pull request numbers, then the
      version tags. */
  lemma CleanTitleSteps(title: string)
    ensures CleanTitle(title) ==
      Erase(Erase(Erase(Erase(Erase(Erase(title,
        Literal(StringsToTrim[0])), Literal(StringsToTrim[1])), Literal(StringsToTrim[2])),
        Literal(StringsToTrim[3])), PullRequestNumber), VersionTag)
  {
    var es := TrimErasers;
    assert es[0] == Literal(StringsToTrim[0]) && es[1] == Literal(StringsToTrim[1]);
    assert es[2] == Literal(StringsToTrim[2]) && es[3] == Literal(StringsToTrim[3]);
    assert es[4] == PullRequestNumber && es[5] == VersionTag;
    assert es[..1][..0] == [];
    assert EraseAll(title, es[..1]) == Erase(title, es[0]);
    assert es[..2][..1] == es[..1];
    assert EraseAll(title, es[..2]) == Erase(EraseAll(title, es[..1]), es[1]);
    assert es[..3][..2] == es[..2];
    assert EraseAll(title, es[..3]) == Erase(EraseAll(title, es[..2]), es[2]);
    assert es[..4][..3] == es[..3];
    assert EraseAll(title, es[..4]) == Erase(EraseAll(title, es[..3]), es[3]);
    assert es[..5][..4] == es[..4];
    assert EraseAll(title, es[..5]) == Erase(EraseAll(title, es[..4]), es[4]);
    assert es[..6][..5] == es[..5];
    assert es[..6] == es;
  }

  /** A title made of the "[release/9.0-staging] " prefix, a text c and a pull
      request number " (#digits)" is cleaned to c, provided c holds no '[' and no '('
      and does not end with a space. */
  lemma CleanBackportTitle(c: string, digits: string)
    requires '[' !in c && '(' !in c && (c == [] || c[|c| - 1] != ' ')
    requires IsDigits(digits) && digits != []
    ensures CleanTitle(StringsToTrim[3] + c + (" (#" + digits + ")")) == c
  {
    var n := " (#" + digits + ")";
    var s := StringsToTrim[3] + c + n;
    CleanTitleSteps(s);
    ReleasePrefixTexts();
    NoBracketInNumber(c, digits);
    assert s == StringsToTrim[3] + (c + n);
    ReleasePrefixesOnStaging(c + n);
    PullRequestNumberAtEnd(c, digits);
    EraseVersionTagAbsent(c);
  }

  /** The literal texts of the four release prefixes. */
  lemma ReleasePrefixTexts()
    ensures StringsToTrim[0] == "[release/8.0] " && StringsToTrim[1] == "[release/9.0] "
    ensures StringsToTrim[2] == "[release/8.0-staging] " && StringsToTrim[3] == "[release/9.0-staging] "
  {
  }

  lemma NoBracketInNumber(c: string, digits: string)
    requires '[' !in c && IsDigits(digits)
    ensures '[' !in c + (" (#" + digits + ")")
  {
    var n := " (#" + digits + ")";
    assert forall i :: 3 <= i < |n| - 1 ==> n[i] == digits[i - 3];
  }

  lemma PullRequestNumberAtEnd(c: string, digits: string)
    requires '(' !in c && (c == [] || c[|c| - 1] != ' ')
    requires IsDigits(digits) && digits != []
    ensures Erase(c + (" (#" + digits + ")"), PullRequestNumber) == c
  {
    var n := " (#" + digits + ")";
    forall i | 0 <= i < |c| ensures NoMatchAt(PullRequestNumber, c + n, i) {
      NoPullRequestNumberWithin(c, n, i);
    }
    EraseKeepsPrefix(c, n, PullRequestNumber);
    PullRequestNumberTextOneSpace(digits);
    PullRequestNumberComplete(n, 1, digits);
    assert n[|n|..] == [];
  }

  lemma {:induction false} NoPullRequestNumberWithin(c: string, n: string, i: nat)
    requires '(' !in c && (c == [] || c[|c| - 1] != ' ')
    requires i < |c|
    ensures MatchLength(PullRequestNumber, (c + n)[i..]) == 0
    decreases |c| - i
  {
    var t := (c + n)[i..];
    assert t[0] == c[i];
    if c[i] == ' ' {
      NoPullRequestNumberWithin(c, n, i + 1);
      assert t[1..] == (c + n)[i + 1..];
      PullRequestNumberAfterSpace(t);
    } else {
      PullRequestNumberAbsentAt(t);
    }
  }

  /** "[release/9.0-staging] Fix bug (#123)" is cleaned to "Fix bug". */
  lemma CleanTitleExample()
    ensures CleanTitle("[release/9.0-staging] Fix bug (#123)") == "Fix bug"
  {
    assert "[release/9.0-staging] Fix bug (#123)" == StringsToTrim[3] + "Fix bug" + (" (#" + "123" + ")");
    CleanBackportTitle("Fix bug", "123");
  }

  // ---------------------------------------------------------------------------
  // Run: sorting the commits of a pull request

  /** A commit of the pull request as listed by the pull request API: its sha, its
      message, its API url and the GitHub account of its author, None when GitHub
      could not link the author to an account. */
  datatype PullRequestCommit = PullRequestCommit(sha: string, message: string, url: string, author: Option<string>)

  /** The commit as the repository API returns it: the author's account and the
      names of the changed files. */
  datatype CommitDetail = CommitDetail(author: Option<string>, fileNames: seq<string>)

  /** A listed commit together with the detail Run fetches for it by its sha. */
  datatype FetchedCommit = FetchedCommit(commit: PullRequestCommit, detail: CommitDetail)

  /** What makes Run throw: a message with no non-blank line (First() of an empty
      sequence), a commit detail without an author (IsSkippable reads its login), a
      kept commit whose listed author is missing (the row reads its login). */
  datatype RunError = NoMessageLine(sha: string) | NoDetailAuthor(sha: string) | NoCommitAuthor(sha: string)

  /** What Run does with one commit: a (reason, title) pair for the skipped list,
      or a row of the table. */
  datatype Outcome = Skipped(reason: string, title: string) | Included(row: seq<string>)

  /** The two rendered tables Run writes to the console. */
  datatype Report = Report(table: string, skippedTable: string)

  const CommitTableHeader: seq<string> := ["PR", "Author/Approvers", "Comments", "Validation status"]
  const SkippedTableHeader: seq<string> := ["Reason", "Title"]

  /** The row of a kept commit: the cleaned title linked to the commit's url, the
      author, and empty Comments and Validation status cells. */
  function CommitRow(title: string, url: string, login: string): seq<string> {
    ["[" + title + "](" + url + ")", login, "", ""]
  }

  /** One iteration of the loop of Run, in the order the source takes its steps. */
  ghost function Classify(c: FetchedCommit): Result<Outcome, RunError> {
    match FirstLine(c.commit.message)
    case None => Failure(NoMessageLine(c.commit.sha))
    case Some(line) =>
      match c.detail.author
      case None => Failure(NoDetailAuthor(c.commit.sha))
      case Some(detailLogin) =>
        match IsSkippable(line, detailLogin, c.detail.fileNames)
        case Some(reason) => Success(Skipped(reason, line))
        case None =>
          match c.commit.author
          case None => Failure(NoCommitAuthor(c.commit.sha))
          case Some(login) => Success(Included(CommitRow(CleanTitle(line), c.commit.url, login)))
  }

  /** The outcome of every commit, each on its own. */
  ghost function Classified(cs: seq<FetchedCommit>): (rs: seq<Result<Outcome, RunError>>)
    ensures |rs| == |cs| && forall i :: 0 <= i < |cs| ==> rs[i] == Classify(cs[i])
  {
    seq(|cs|, i requires 0 <= i < |cs| => Classify(cs[i]))
  }

  /** The whole loop: the outcomes in commit order, or the error of the first commit
      that throws. */
  ghost function Triage(cs: seq<FetchedCommit>): Result<seq<Outcome>, RunError> {
    AllOrFirstError(Classified(cs))
  }

  /** The rows of the commit table, in order. */
  function Rows(os: seq<Outcome>): seq<seq<string>>
    decreases |os|
  {
    if os == [] then []
    else
      var last := os[|os| - 1];
      Rows(os[..|os| - 1]) + (if last.Included? then [last.row] else [])
  }

  /** The (reason, title) rows of the skipped table, in order. */
  function Skips(os: seq<Outcome>): seq<seq<string>>
    decreases |os|
  {
    if os == [] then []
    else
      var last := os[|os| - 1];
      Skips(os[..|os| - 1]) + (if last.Skipped? then [[last.reason, last.title]] else [])
  }

  /** A table with a header always has a column, so it always renders. */
  lemma HeaderedTableRenders(header: seq<string>, rows: seq<seq<string>>, nl: string)
    requires header != []
    ensures TableLayout.Render(header, rows, nl).Success?
    ensures |TableLayout.Lines(header, rows).value| == |rows| + 2
  {
    TableLayout.RenderFailsIff(header, rows, nl);
  }

  /** What Run produces: both tables, or the first error. */
  ghost function Collect(cs: seq<FetchedCommit>, nl: string): Result<Report, RunError> {
    match Triage(cs)
    case Failure(e) => Failure(e)
    case Success(os) =>
      HeaderedTableRenders(CommitTableHeader, Rows(os), nl);
      HeaderedTableRenders(SkippedTableHeader, Skips(os), nl);
      Success(Report(TableLayout.Render(CommitTableHeader, Rows(os), nl).value, TableLayout.Render(SkippedTableHeader, Skips(os), nl).value))
  }

  /** The loop of Run over the commits and the details fetched for them, then the
      skipped table built from the list of skipped pairs. */
  method Run(commits: seq<FetchedCommit>, nl: string) returns (r: Result<Report, RunError>)
    ensures r == Collect(commits, nl)
  {
    var skipped: seq<(string, string)> := [];
    var table := new MarkdownTableBuilder();
    table := table.WithHeader(CommitTableHeader);
    ghost var outcomes: seq<Outcome> := [];
    for k := 0 to |commits|
      invariant Triage(commits[..k]) == Success(outcomes)
      invariant table.header == CommitTableHeader && table.rows == Rows(outcomes)
      invariant SkipRows(skipped) == Skips(outcomes)
    {
      var c := commits[k];
      var firstMessageLine := FirstLine(c.commit.message);
      if firstMessageLine.None? {
        RunStopsAt(commits, k, NoMessageLine(c.commit.sha), nl);
        return Failure(NoMessageLine(c.commit.sha));
      }
      if c.detail.author.None? {
        RunStopsAt(commits, k, NoDetailAuthor(c.commit.sha), nl);
        return Failure(NoDetailAuthor(c.commit.sha));
      }
      var reason := IsSkippable(firstMessageLine.value, c.detail.author.value, c.detail.fileNames);
      if reason.Some? {
        SkipRowsSnoc(skipped, (reason.value, firstMessageLine.value));
        skipped := skipped + [(reason.value, firstMessageLine.value)];
        TriageStep(commits, k);
        OutcomesSnoc(outcomes, Skipped(reason.value, firstMessageLine.value));
        outcomes := outcomes + [Skipped(reason.value, firstMessageLine.value)];
      } else {
        if c.commit.author.None? {
          RunStopsAt(commits, k, NoCommitAuthor(c.commit.sha), nl);
          return Failure(NoCommitAuthor(c.commit.sha));
        }
        var title := RemoveTexts(firstMessageLine.value);
        var row := CommitRow(title, c.commit.url, c.commit.author.value);
        var _ := table.WithRow(row);
        TriageStep(commits, k);
        OutcomesSnoc(outcomes, Included(row));
        outcomes := outcomes + [Included(row)];
      }
    }
    assert commits[..|commits|] == commits;
    var text := table.ToString(nl);
    var skippedTable := new MarkdownTableBuilder();
    skippedTable := skippedTable.WithHeader(SkippedTableHeader);
    for k := 0 to |skipped|
      invariant fresh(skippedTable)
      invariant skippedTable.header == SkippedTableHeader && skippedTable.rows == SkipRows(skipped[..k])
    {
      TakeSnoc(skipped, k + 1);
      SkipRowsSnoc(skipped[..k], skipped[k]);
      skippedTable := skippedTable.WithRow([skipped[k].0, skipped[k].1]);
    }
    assert skipped[..|skipped|] == skipped;
    var skippedText := skippedTable.ToString(nl);
    CollectSucceeds(commits, outcomes, nl);
    r := Success(Report(text.value, skippedText.value));
  }

  /** The list of skipped pairs as rows of the skipped table. */
  function SkipRows(pairs: seq<(string, string)>): (rows: seq<seq<string>>)
    ensures |rows| == |pairs|
    ensures forall k :: 0 <= k < |pairs| ==> rows[k] == [pairs[k].0, pairs[k].1]
  {
    seq(|pairs|, k requires 0 <= k < |pairs| => [pairs[k].0, pairs[k].1])
  }

  lemma SkipRowsSnoc(pairs: seq<(string, string)>, p: (string, string))
    ensures SkipRows(pairs + [p]) == SkipRows(pairs) + [[p.0, p.1]]
  {
  }

  lemma OutcomesSnoc(os: seq<Outcome>, o: Outcome)
    ensures Rows(os + [o]) == Rows(os) + (if o.Included? then [o.row] else [])
    ensures Skips(os + [o]) == Skips(os) + (if o.Skipped? then [[o.reason, o.title]] else [])
  {
    assert (os + [o])[..|os|] == os;
  }

  /** One more commit: the run so far, then that commit's outcome. */
  lemma TriageStep(cs: seq<FetchedCommit>, k: nat)
    requires k < |cs|
    ensures Triage(cs[..k + 1]) ==
      match Triage(cs[..k])
      case Failure(e) => Failure(e)
      case Success(os) =>
        match Classify(cs[k])
        case Failure(e) => Failure(e)
        case Success(o) => Success(os + [o])
  {
    var rs := Classified(cs[..k + 1]);
    assert rs[..k] == Classified(cs[..k]);
  }

  /** The first commit that throws decides the result. */
  lemma RunStopsAt(cs: seq<FetchedCommit>, k: nat, e: RunError, nl: string)
    requires k < |cs| && Triage(cs[..k]).Success? && Classify(cs[k]) == Failure(e)
    ensures Collect(cs, nl) == Failure(e)
  {
    TriageStep(cs, k);
    TriagePrefixFailure(cs, k + 1);
  }

  lemma CollectSucceeds(cs: seq<FetchedCommit>, os: seq<Outcome>, nl: string)
    requires Triage(cs) == Success(os)
    ensures TableLayout.Render(CommitTableHeader, Rows(os), nl).Success?
    ensures TableLayout.Render(SkippedTableHeader, Skips(os), nl).Success?
    ensures Collect(cs, nl) == Success(Report(TableLayout.Render(CommitTableHeader, Rows(os), nl).value,
                                             TableLayout.Render(SkippedTableHeader, Skips(os), nl).value))
  {
    HeaderedTableRenders(CommitTableHeader, Rows(os), nl);
    HeaderedTableRenders(SkippedTableHeader, Skips(os), nl);
  }

  /** Once a prefix of the commits throws, the whole run throws the same error. */
  lemma TriagePrefixFailure(cs: seq<FetchedCommit>, k: nat)
    requires k <= |cs| && Triage(cs[..k]).Failure?
    ensures Triage(cs) == Triage(cs[..k])
  {
    assert Classified(cs)[..k] == Classified(cs[..k]);
    AllOrFirstErrorPrefix(Classified(cs), k);
  }

  // ---------------------------------------------------------------------------
  // Properties of Run

  /** The run succeeds exactly when no commit throws, and then it has one outcome
      per commit, in commit order. */
  lemma TriageOutcomes(cs: seq<FetchedCommit>)
    ensures Triage(cs).Success? <==> forall i :: 0 <= i < |cs| ==> Classify(cs[i]).Success?
    ensures Triage(cs).Success? ==>
      |Triage(cs).value| == |cs| && forall i :: 0 <= i < |cs| ==> Classify(cs[i]) == Success(Triage(cs).value[i])
  {
    AllOrFirstErrorSuccess(Classified(cs));
  }

  /** A failing run reports the error of the first commit that throws. */
  lemma TriageFirstError(cs: seq<FetchedCommit>)
    requires Triage(cs).Failure?
    ensures exists i :: 0 <= i < |cs| && Classify(cs[i]) == Failure(Triage(cs).error) &&
                        (forall j :: 0 <= j < i ==> Classify(cs[j]).Success?)
  {
    AllOrFirstErrorFailure(Classified(cs));
  }

  /** Every outcome lands in exactly one of the two tables. */
  lemma {:induction false} RowsAndSkipsPartition(os: seq<Outcome>)
    ensures |Rows(os)| + |Skips(os)| == |os|
    decreases |os|
  {
    if os != [] {
      RowsAndSkipsPartition(os[..|os| - 1]);
    }
  }

  /** A skipped commit carries the reason of the first skip rule that fires on it,
      with its first message line as written; a kept commit fires no rule and its
      row links its cleaned first line, which only deletes characters. */
  lemma ClassifyMeaning(c: FetchedCommit)
    requires Classify(c).Success?
    ensures FirstLine(c.commit.message).Some? && c.detail.author.Some?
    ensures var line, login := FirstLine(c.commit.message).value, c.detail.author.value;
      match Classify(c).value
      case Skipped(reason, title) =>
        title == line && Some(reason) == FirstFired(SkipRules, line, login, c.detail.fileNames)
      case Included(row) =>
        FirstFired(SkipRules, line, login, c.detail.fileNames) == None &&
        c.commit.author.Some? && row == CommitRow(CleanTitle(line), c.commit.url, c.commit.author.value) &&
        IsSubsequence(CleanTitle(line), line)
  {
    var line, login := FirstLine(c.commit.message).value, c.detail.author.value;
    IsSkippableFirstRule(line, login, c.detail.fileNames);
    CleanTitleDeletesOnly(line);
  }
}

