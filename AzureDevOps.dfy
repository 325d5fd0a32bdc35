/** The Azure DevOps communicator up to the point where it sends a request: the
    query url it builds from an api path and the arguments, and the way each Get*
    operation fills in its options' argument dictionary and chooses its api path.
    The HTTP call, the JSON decoding and the authorization header are not part of
    this model; each Get* operation returns the request it would send. */
module AzureDevOps {
  import opened Wrappers
  import opened Strings

  const AzureDevOpsUrl := "https://dev.azure.com"

  // ---------------------------------------------------------------------------
  // The argument dictionary

  /** A Dictionary<string, string> in enumeration order. Keys are added at the end
      and overwritten in place, and nothing is ever removed, so enumeration order is
      insertion order. */
  type Arguments = seq<(string, string)>

  predicate DistinctKeys(args: Arguments) {
    forall i, j :: 0 <= i < j < |args| ==> args[i].0 != args[j].0
  }

  function Keys(args: Arguments): (ks: seq<string>)
    ensures |ks| == |args| && forall i :: 0 <= i < |args| ==> ks[i] == args[i].0
  {
    seq(|args|, i requires 0 <= i < |args| => args[i].0)
  }

  /** The value stored under key, if any. */
  function Lookup(args: Arguments, key: string): Option<string>
    decreases |args|
  {
    if args == [] then None
    else if args[0].0 == key then Some(args[0].1)
    else Lookup(args[1..], key)
  }

  /** arguments[key] = value: overwrites the entry of key where it stands, or adds
      a new entry after all others. */
  function Assign(args: Arguments, key: string, value: string): (r: Arguments)
    decreases |args|
  {
    if args == [] then [(key, value)]
    else if args[0].0 == key then [(key, value)] + args[1..]
    else [args[0]] + Assign(args[1..], key, value)
  }

  /** After the assignment, key holds value and every other key holds what it held. */
  lemma {:induction false} LookupAssign(args: Arguments, key: string, value: string, other: string)
    ensures Lookup(Assign(args, key, value), other) == if other == key then Some(value) else Lookup(args, other)
    decreases |args|
  {
    if args != [] && args[0].0 != key {
      LookupAssign(args[1..], key, value, other);
      assert Assign(args, key, value)[1..] == Assign(args[1..], key, value);
    }
  }

  /** The keys keep their order; a new key goes last. */
  lemma {:induction false} AssignKeys(args: Arguments, key: string, value: string)
    ensures Keys(Assign(args, key, value)) == if key in Keys(args) then Keys(args) else Keys(args) + [key]
    decreases |args|
  {
    if args == [] {
    } else if args[0].0 == key {
      assert Keys(args)[0] == key;
      KeysCons((key, value), args[1..]);
      KeysCons(args[0], args[1..]);
      assert args == [args[0]] + args[1..];
    } else {
      var rest := Assign(args[1..], key, value);
      AssignKeys(args[1..], key, value);
      KeysCons(args[0], args[1..]);
      KeysCons(args[0], rest);
      assert args == [args[0]] + args[1..];
      assert key in Keys(args) <==> key in Keys(args[1..]);
    }
  }

  lemma KeysCons(x: (string, string), rest: Arguments)
    ensures Keys([x] + rest) == [x.0] + Keys(rest)
  {
  }

  /** A dictionary stays a dictionary: no key occurs twice. */
  lemma AssignKeepsDistinct(args: Arguments, key: string, value: string)
    requires DistinctKeys(args)
    ensures DistinctKeys(Assign(args, key, value))
  {
    AssignKeys(args, key, value);
    var r := Assign(args, key, value);
    assert forall i :: 0 <= i < |r| ==> r[i].0 == Keys(r)[i];
    assert forall i :: 0 <= i < |args| ==> args[i].0 == Keys(args)[i];
  }

  // ---------------------------------------------------------------------------
  // The query url

  /** "key=value". */
  function Pair(arg: (string, string)): string {
    arg.0 + "=" + arg.1
  }

  function Pairs(args: Arguments): (ps: seq<string>)
    ensures |ps| == |args| && forall i :: 0 <= i < |args| ==> ps[i] == Pair(args[i])
  {
    seq(|args|, i requires 0 <= i < |args| => Pair(args[i]))
  }

  /** Nothing without arguments; otherwise '?' and the "key=value" pairs separated by
      '&', in enumeration order. */
  function QueryString(args: Arguments): string {
    if args == [] then "" else "?" + Join('&', Pairs(args))
  }

  /** When no key and no value holds '&', the pairs are what lies between the '&' of
      the query string after its '?'; when moreover no key holds '=', each pair gives
      back its key and value at its first '='. */
  lemma QueryStringRoundTrip(args: Arguments)
    requires args != []
    requires forall i :: 0 <= i < |args| ==> '&' !in args[i].0 && '&' !in args[i].1
    ensures var q := QueryString(args);
      q[0] == '?' && Split(q[1..], '&') == Pairs(args)
    ensures forall i :: 0 <= i < |args| && '=' !in args[i].0 ==>
      var p := Pairs(args)[i];
      var at := |args[i].0|;
      p[at] == '=' && '=' !in p[..at] && p[..at] == args[i].0 && p[at + 1..] == args[i].1
  {
    var ps := Pairs(args);
    forall p <- ps ensures '&' !in p {
      var i :| 0 <= i < |ps| && ps[i] == p;
      assert p == args[i].0 + "=" + args[i].1;
    }
    SplitJoin('&', ps);
    assert QueryString(args)[1..] == Join('&', ps);
  }

  lemma {:induction false} JoinedPairsSnoc(args: Arguments, k: nat)
    requires 0 < k < |args|
    ensures QueryString(args[..k + 1]) == QueryString(args[..k]) + "&" + args[k].0 + "=" + args[k].1
  {
    var ps := Pairs(args[..k]);
    assert Pairs(args[..k + 1]) == ps + [Pair(args[k])];
    JoinSnoc('&', ps, Pair(args[k]));
  }

  // ---------------------------------------------------------------------------
  // The communicator

  /** What the constructor and the Get* operations throw. */
  datatype ArgumentError = NullOrEmpty(paramName: string) | OutOfRange(paramName: string)

  /** An api path and the arguments ExecuteAsync would send it with. */
  datatype Query = Query(api: string, arguments: Arguments)

  datatype Communicator = Communicator(organization: string, project: string, personalAccessToken: string)
  {
    /** The url for api before any argument. */
    function BaseUrl(api: string): string {
      AzureDevOpsUrl + "/" + organization + "/" + project + "/_apis/" + api
    }

    /** The url CallAsync requests for q. */
    function RequestUrl(q: Query): string {
      BaseUrl(q.api) + QueryString(q.arguments)
    }

    /** The arguments appended one by one, the first after '?' and every later one
        after '&'. */
    method GetQueryUrl(api: string, arguments: Arguments) returns (url: string)
      ensures url == BaseUrl(api) + QueryString(arguments)
      ensures arguments == [] ==> url == AzureDevOpsUrl + "/" + organization + "/" + project + "/_apis/" + api
    {
      var joinedArguments := "";
      var first := true;
      for k := 0 to |arguments|
        invariant first <==> k == 0
        invariant joinedArguments == QueryString(arguments[..k])
      {
        var (key, value) := arguments[k];
        var separator := "&";
        if first {
          separator := "?";
          first := false;
          assert Pairs(arguments[..1]) == [Pair(arguments[0])];
        } else {
          JoinedPairsSnoc(arguments, k);
        }
        joinedArguments := joinedArguments + separator + key + "=" + value;
      }
      assert arguments[..|arguments|] == arguments;
      url := AzureDevOpsUrl + "/" + organization + "/" + project + "/_apis/" + api + joinedArguments;
    }

    /** Adds "name" when the options name a definition. */
    method GetBuildDefinitions(options: BuildDefinitionOptions) returns (q: Query)
      modifies options
      ensures options.buildDefinitionName == old(options.buildDefinitionName)
      ensures options.arguments == BuildDefinitionArguments(old(options.buildDefinitionName), old(options.arguments))
      ensures q == Query("build/definitions", options.arguments)
    {
      if !IsNullOrWhiteSpace(options.buildDefinitionName) {
        options.arguments := Assign(options.arguments, "name", options.buildDefinitionName.value);
      }
      q := Query("build/definitions", options.arguments);
    }

    method GetBuilds(options: BuildOptions) returns (q: Query)
      ensures q == Query(BuildsApi(options.buildId), options.arguments)
    {
      var api := if options.buildId.Some? then "build/builds/" + IntToString(options.buildId.value) else "build/builds";
      q := Query(api, options.arguments);
    }

    method GetPipelines(options: PipelineOptions) returns (q: Query)
      ensures q == Query(PipelinesApi(options.pipelineId), options.arguments)
    {
      var api := if options.pipelineId.Some? then "pipelines/" + IntToString(options.pipelineId.value) else "pipelines";
      q := Query(api, options.arguments);
    }

    /** Always asks for the branch BranchName; asks for Top commits only when Top is
        positive. */
    method GetCommits(options: CommitOptions) returns (q: Query)
      modifies options
      ensures options.repo == old(options.repo) && options.branchName == old(options.branchName)
      ensures options.top == old(options.top)
      ensures options.arguments == CommitArguments(old(options.branchName), old(options.top), old(options.arguments))
      ensures q == Query("git/repositories/" + options.repo + "/commits", options.arguments)
    {
      options.arguments := Assign(options.arguments, VersionTypeKey, "branch");
      options.arguments := Assign(options.arguments, VersionKey, options.branchName);
      if options.top > 0 {
        options.arguments := Assign(options.arguments, TopKey, IntToString(options.top));
      }
      q := Query("git/repositories/" + options.repo + "/commits", options.arguments);
    }

    /** Checks Repo, TargetBranch and Status in this order, then normalises the
        target branch in the options and stores it and the status as arguments. */
    method GetPullRequests(options: PullRequestOptions) returns (r: Result<Query, ArgumentError>)
      modifies options
      ensures r == PullRequests(old(options.repo), old(options.targetBranch), old(options.status), old(options.arguments))
      ensures options.repo == old(options.repo) && options.status == old(options.status)
      ensures r.Failure? ==> options.targetBranch == old(options.targetBranch) && options.arguments == old(options.arguments)
      ensures r.Success? ==> options.targetBranch == NormalizeBranch(old(options.targetBranch)) &&
                             options.arguments == r.value.arguments
    {
      if options.repo == [] {
        return Failure(NullOrEmpty("options.Repo"));
      }
      if options.targetBranch == [] {
        return Failure(NullOrEmpty("options.TargetBranch"));
      }
      if !IsDefinedStatus(options.status) {
        return Failure(OutOfRange("PullRequestOptions.Status"));
      }
      var prefix := BranchPrefix;
      if !StartsWith(options.targetBranch, prefix) {
        options.targetBranch := prefix + options.targetBranch;
      }
      options.arguments := Assign(options.arguments, TargetRefNameKey, options.targetBranch);
      var str := StatusNames[options.status];
      options.arguments := Assign(options.arguments, StatusKey, [ToLower(str[0])] + str[1..]);
      r := Success(Query("git/repositories/" + options.repo + "/pullrequests", options.arguments));
    }
  }

  /** The constructor's checks, in order; the token, the HTTP client and the JSON
      options it sets up are not part of this model. */
  function NewCommunicator(organization: string, project: string, personalAccessToken: string): (r: Result<Communicator, ArgumentError>)
    ensures r.Success? <==> organization != [] && project != [] && personalAccessToken != []
    ensures r.Success? ==> r.value == Communicator(organization, project, personalAccessToken)
    ensures r.Failure? ==> r.error == NullOrEmpty(
      if organization == [] then "organization" else if project == [] then "project" else "personalAccessToken")
  {
    if organization == [] then Failure(NullOrEmpty("organization"))
    else if project == [] then Failure(NullOrEmpty("project"))
    else if personalAccessToken == [] then Failure(NullOrEmpty("personalAccessToken"))
    else Success(Communicator(organization, project, personalAccessToken))
  }

  // ---------------------------------------------------------------------------
  // Options

  class BuildDefinitionOptions {
    var buildDefinitionName: Option<string>
    var arguments: Arguments

    constructor ()
      ensures buildDefinitionName == None && arguments == []
    {
      buildDefinitionName := None;
      arguments := [];
    }
  }

  class BuildOptions {
    var buildId: Option<int>
    var arguments: Arguments

    constructor ()
      ensures buildId == None && arguments == []
    {
      buildId := None;
      arguments := [];
    }
  }

  class PipelineOptions {
    var pipelineId: Option<int>
    var arguments: Arguments

    constructor ()
      ensures pipelineId == None && arguments == []
    {
      pipelineId := None;
      arguments := [];
    }
  }

  class CommitOptions {
    var repo: string
    var branchName: string
    var top: int
    var arguments: Arguments

    constructor ()
      ensures repo == [] && branchName == [] && top == -1 && arguments == []
    {
      repo := [];
      branchName := [];
      top := -1;
      arguments := [];
    }
  }

  /** The pull request status is an enum value: an int that names one of
      StatusNames when defined, and any other int when cast from one. */
  class PullRequestOptions {
    var repo: string
    var targetBranch: string
    var status: int
    var arguments: Arguments

    constructor ()
      ensures repo == [] && targetBranch == [] && status == Completed && arguments == []
    {
      repo := [];
      targetBranch := [];
      status := Completed;
      arguments := [];
    }
  }

  // ---------------------------------------------------------------------------
  // What the Get* operations compute

  /** string.IsNullOrWhiteSpace. */
  predicate IsNullOrWhiteSpace(s: Option<string>) {
    s.None? || AllWhiteSpace(s.value)
  }

  /** The arguments of GetBuildDefinitions: "name" set to the definition name when
      there is one that is not blank, and every other key as it was. */
  function BuildDefinitionArguments(name: Option<string>, args: Arguments): (r: Arguments)
    ensures Lookup(r, "name") == if IsNullOrWhiteSpace(name) then Lookup(args, "name") else name
    ensures forall key :: key != "name" ==> Lookup(r, key) == Lookup(args, key)
    ensures IsNullOrWhiteSpace(name) ==> r == args
  {
    if IsNullOrWhiteSpace(name) then args
    else
      LookupAssignAll(args, "name", name.value);
      Assign(args, "name", name.value)
  }

  lemma LookupAssignAll(args: Arguments, key: string, value: string)
    ensures forall other :: Lookup(Assign(args, key, value), other) == if other == key then Some(value) else Lookup(args, other)
  {
    forall other {
      LookupAssign(args, key, value, other);
    }
  }

  function BuildsApi(id: Option<int>): string {
    if id.Some? then "build/builds/" + IntToString(id.value) else "build/builds"
  }

  function PipelinesApi(id: Option<int>): string {
    if id.Some? then "pipelines/" + IntToString(id.value) else "pipelines"
  }

  /** The build id can be read back from the api path of GetBuilds. */
  lemma BuildsApiRoundTrip(id: Option<int>)
    ensures var api := BuildsApi(id);
      |api| >= 12 && api[..12] == "build/builds" &&
      (id.None? <==> |api| == 12) &&
      (id.Some? ==> api[12] == '/' && api[13..] != [] && ParseableInt(api[13..]) && ParseInt(api[13..]) == id.value)
  {
    if id.Some? {
      var api := BuildsApi(id);
      assert api == "build/builds/" + IntToString(id.value);
      assert api[13..] == IntToString(id.value);
      IntToStringRoundTrip(id.value);
    }
  }

  /** The pipeline id can be read back from the api path of GetPipelines. */
  lemma PipelinesApiRoundTrip(id: Option<int>)
    ensures var api := PipelinesApi(id);
      |api| >= 9 && api[..9] == "pipelines" &&
      (id.None? <==> |api| == 9) &&
      (id.Some? ==> api[9] == '/' && api[10..] != [] && ParseableInt(api[10..]) && ParseInt(api[10..]) == id.value)
  {
    if id.Some? {
      var api := PipelinesApi(id);
      assert api == "pipelines/" + IntToString(id.value);
      assert api[10..] == IntToString(id.value);
      IntToStringRoundTrip(id.value);
    }
  }

  predicate ParseableInt(s: string) {
    s != [] && if s[0] == '-' then IsDigits(s[1..]) else IsDigits(s)
  }

  const VersionTypeKey := "searchCriteria.itemVersion.versionType"
  const VersionKey := "searchCriteria.itemVersion.version"
  const TopKey := "searchCriteria.$top"

  /** The arguments of GetCommits: version type "branch", version the branch name,
      "$top" only for a positive Top, every other key as it was. */
  function CommitArguments(branchName: string, top: int, args: Arguments): (r: Arguments)
  {
    var a := Assign(Assign(args, VersionTypeKey, "branch"), VersionKey, branchName);
    if top > 0 then Assign(a, TopKey, IntToString(top)) else a
  }

  lemma CommitArgumentsLookup(branchName: string, top: int, args: Arguments, key: string)
    ensures var r := CommitArguments(branchName, top, args);
      Lookup(r, VersionTypeKey) == Some("branch") &&
      Lookup(r, VersionKey) == Some(branchName) &&
      Lookup(r, TopKey) == (if top > 0 then Some(IntToString(top)) else Lookup(args, TopKey)) &&
      (key != VersionTypeKey && key != VersionKey && key != TopKey ==> Lookup(r, key) == Lookup(args, key))
  {
    var a1 := Assign(args, VersionTypeKey, "branch");
    var a2 := Assign(a1, VersionKey, branchName);
    LookupAssignAll(args, VersionTypeKey, "branch");
    LookupAssignAll(a1, VersionKey, branchName);
    if top > 0 {
      LookupAssignAll(a2, TopKey, IntToString(top));
    }
  }

  /** With the default Top of -1, GetCommits adds no "$top" to a dictionary that has
      none. */
  lemma DefaultTopLeavesTopAbsent(branchName: string, args: Arguments)
    requires Lookup(args, TopKey) == None
    ensures Lookup(CommitArguments(branchName, -1, args), TopKey) == None
  {
    CommitArgumentsLookup(branchName, -1, args, TopKey);
  }

  const BranchPrefix := "refs/heads/"

  /** The target branch as a full ref name. */
  function NormalizeBranch(b: string): string {
    if StartsWith(b, BranchPrefix) then b else BranchPrefix + b
  }

  /** The normalised branch is a ref name, it equals the branch exactly when the
      branch already was one, and normalising twice is normalising once. */
  lemma NormalizeBranchProperties(b: string)
    ensures StartsWith(NormalizeBranch(b), BranchPrefix)
    ensures NormalizeBranch(b) == b <==> StartsWith(b, BranchPrefix)
    ensures NormalizeBranch(NormalizeBranch(b)) == NormalizeBranch(b)
    ensures !StartsWith(b, BranchPrefix) ==> NormalizeBranch(b)[|BranchPrefix|..] == b
  {
    var r := NormalizeBranch(b);
    if !StartsWith(b, BranchPrefix) {
      assert r[..|BranchPrefix|] == BranchPrefix;
      assert r[|BranchPrefix|..] == b;
      assert |r| == |BranchPrefix| + |b|;
    }
  }

  const Abandoned := 0
  const Active := 1
  const All := 2
  const Completed := 3
  const NotSet := 4

  /** The names of PullRequestStatus, by value. */
  const StatusNames: seq<string> := ["Abandoned", "Active", "All", "Completed", "NotSet"]

  /** Enum.IsDefined. */
  predicate IsDefinedStatus(status: int) {
    0 <= status < |StatusNames|
  }

  /** The status name with only its first character lower-cased. */
  function StatusArgument(status: int): (r: string)
    requires IsDefinedStatus(status)
    ensures |r| == |StatusNames[status]| && r[0] == ToLower(StatusNames[status][0])
    ensures r[1..] == StatusNames[status][1..]
  {
    var str := StatusNames[status];
    [ToLower(str[0])] + str[1..]
  }

  const TargetRefNameKey := "searchCriteria.targetRefName"
  const StatusKey := "searchCriteria.status"

  /** The request of GetPullRequests, or the first check it fails, in the order it
      makes them. */
  function PullRequests(repo: string, targetBranch: string, status: int, args: Arguments): (r: Result<Query, ArgumentError>)
    ensures r.Success? <==> repo != [] && targetBranch != [] && IsDefinedStatus(status)
    ensures r.Failure? ==>
      r.error == (if repo == [] then NullOrEmpty("options.Repo")
                  else if targetBranch == [] then NullOrEmpty("options.TargetBranch")
                  else OutOfRange("PullRequestOptions.Status"))
    ensures r.Success? ==> r.value.api == "git/repositories/" + repo + "/pullrequests" &&
                           r.value.arguments == PullRequestArguments(targetBranch, status, args)
  {
    if repo == [] then Failure(NullOrEmpty("options.Repo"))
    else if targetBranch == [] then Failure(NullOrEmpty("options.TargetBranch"))
    else if !IsDefinedStatus(status) then Failure(OutOfRange("PullRequestOptions.Status"))
    else Success(Query("git/repositories/" + repo + "/pullrequests", PullRequestArguments(targetBranch, status, args)))
  }

  /** The arguments of GetPullRequests: the normalised target branch and the status
      argument, every other key as it was. */
  function PullRequestArguments(targetBranch: string, status: int, args: Arguments): Arguments
  {
    if IsDefinedStatus(status) then
      Assign(Assign(args, TargetRefNameKey, NormalizeBranch(targetBranch)), StatusKey, StatusArgument(status))
    else args
  }

  lemma PullRequestArgumentsLookup(targetBranch: string, status: int, args: Arguments, key: string)
    requires IsDefinedStatus(status)
    ensures var r := PullRequestArguments(targetBranch, status, args);
      Lookup(r, TargetRefNameKey) == Some(NormalizeBranch(targetBranch)) &&
      Lookup(r, StatusKey) == Some(StatusArgument(status)) &&
      (key != TargetRefNameKey && key != StatusKey ==> Lookup(r, key) == Lookup(args, key))
  {
    var a1 := Assign(args, TargetRefNameKey, NormalizeBranch(targetBranch));
    LookupAssignAll(args, TargetRefNameKey, NormalizeBranch(targetBranch));
    LookupAssignAll(a1, StatusKey, StatusArgument(status));
  }

  /** The five status arguments, Completed becoming "completed". */
  lemma StatusArgumentValues()
    ensures StatusArgument(Abandoned) == "abandoned"
    ensures StatusArgument(Active) == "active"
    ensures StatusArgument(All) == "all"
    ensures StatusArgument(Completed) == "completed"
    ensures StatusArgument(NotSet) == "notSet"
  {
  }
}
