/** The filesystem half of the policy: manifest checks, compilation, the overlap check, and `why`. */
module Policy {
  import opened Wrappers
  import opened Sequences
  import opened Paths

  datatype Origin = Manifest(key: string) | Provider(name: string) | Baseline

  datatype Rule = Rule(value: string, origin: Origin)

  datatype Filesystem = Filesystem(allow: seq<string>, read: seq<string>, deny: seq<string>)

  datatype CompiledPolicy = CompiledPolicy(allow: seq<Rule>, read: seq<Rule>, deny: seq<Rule>)

  datatype CapabilityPlan = CapabilityPlan(allow: seq<string>, read: seq<string>, deny: seq<string>)

  datatype Op = Read | Write | ReadWrite

  datatype Explanation = Explanation(allowed: bool, origin: Option<Origin>)

  datatype ConfigError = InvalidPath(field: string, value: string) | UselessDeny(path: string)

  datatype Overlap = DenyOverlapsAllow(deny: string, allow: string)

  /** What a platform adds to every policy: its baseline denials and the keeper's own system grants. */
  datatype Platform = Platform(
    dataDir: string, sensitive: seq<string>, systemRead: seq<string>, systemReadWrite: seq<string>)

  const DEVCROFT_DATA_DIR: string := "~/.local/share/devcroft"

  const SENSITIVE_PATHS: seq<string> := ["~/.ssh", "~/.aws", "~/.config/gcloud", "~/.kube"]

  const LINUX := Platform(DEVCROFT_DATA_DIR, SENSITIVE_PATHS,
    [
      "/lib", "/lib64", "/lib/x86_64-linux-gnu", "/lib/aarch64-linux-gnu",
      "/usr/lib", "/usr/lib64", "/usr/lib/x86_64-linux-gnu", "/usr/lib/aarch64-linux-gnu",
      "/etc/ld.so.cache", "/dev/urandom"
    ],
    ["/dev/pts", "/dev/ptmx", "/dev/null"])

  const MACOS := Platform(DEVCROFT_DATA_DIR, SENSITIVE_PATHS,
    ["/usr/lib", "/System/Library", "/private/var/db/dyld", "/var/db/dyld", "/dev/urandom"],
    ["/dev"])

  // ----- Manifest checks -----

  predicate InvalidEntry(value: string) {
    value == "" || '\0' in value || HasTraversal(value)
  }

  function FirstInvalid(values: seq<string>): Option<string> {
    if values == [] then None else if InvalidEntry(values[0]) then Some(values[0]) else FirstInvalid(values[1..])
  }

  /** Whether one of the grants covers the path. */
  predicate Covered(path: string, grants: seq<string>) {
    exists i :: 0 <= i < |grants| && IsWithin(path, grants[i])
  }

  function FirstUncovered(denies: seq<string>, grants: seq<string>): Option<string> {
    if denies == [] then None
    else if !Covered(denies[0], grants) then Some(denies[0])
    else FirstUncovered(denies[1..], grants)
  }

  function FilesystemVerdict(fs: Filesystem): Result<(), ConfigError> {
    var badAllow, badRead, badDeny := FirstInvalid(fs.allow), FirstInvalid(fs.read), FirstInvalid(fs.deny);
    var useless := FirstUncovered(fs.deny, fs.allow + fs.read);
    if badAllow.Some? then Err(InvalidPath("allow", badAllow.value))
    else if badRead.Some? then Err(InvalidPath("read", badRead.value))
    else if badDeny.Some? then Err(InvalidPath("deny", badDeny.value))
    else if useless.Some? then Err(UselessDeny(useless.value))
    else Ok(())
  }

  method CheckFilesystem(fs: Filesystem) returns (r: Result<(), ConfigError>)
    ensures r == FilesystemVerdict(fs)
  {
    var fields := [("allow", fs.allow), ("read", fs.read), ("deny", fs.deny)];
    for f := 0 to |fields|
      invariant f >= 1 ==> FirstInvalid(fs.allow).None?
      invariant f >= 2 ==> FirstInvalid(fs.read).None?
      invariant f >= 3 ==> FirstInvalid(fs.deny).None?
    {
      var (field, values) := fields[f];
      assert values[0..] == values;
      for i := 0 to |values|
        invariant FirstInvalid(values[i..]) == FirstInvalid(values)
      {
        assert values[i..][1..] == values[i + 1..];
        if InvalidEntry(values[i]) {
          return Err(InvalidPath(field, values[i]));
        }
      }
    }
    var granted := fs.allow + fs.read;
    assert fs.deny[0..] == fs.deny;
    for i := 0 to |fs.deny|
      invariant FirstUncovered(fs.deny[i..], granted) == FirstUncovered(fs.deny, granted)
    {
      assert fs.deny[i..][1..] == fs.deny[i + 1..];
      if !Covered(fs.deny[i], granted) {
        return Err(UselessDeny(fs.deny[i]));
      }
    }
    r := Ok(());
  }

  lemma {:induction false} FirstInvalidMeaning(values: seq<string>)
    ensures FirstInvalid(values).None? <==> forall v <- values :: !InvalidEntry(v)
  {
    if values != [] {
      FirstInvalidMeaning(values[1..]);
      FrontAndRest(values);
    }
  }

  lemma {:induction false} FirstUncoveredMeaning(denies: seq<string>, grants: seq<string>)
    ensures FirstUncovered(denies, grants).None? <==> forall d :: d in denies ==> Covered(d, grants)
  {
    if denies != [] {
      FirstUncoveredMeaning(denies[1..], grants);
      assert denies == [denies[0]] + denies[1..];
    }
  }

  /** An entry that names something: not empty, without a NUL, and without two dots between its slashes. */
  ghost predicate IsClean(value: string) {
    value != "" && '\0' !in value && !IsSegment(value, "..")
  }

  /** A manifest is accepted exactly when every entry is clean and every deny lies within some grant. */
  lemma AcceptedIff(fs: Filesystem)
    ensures FilesystemVerdict(fs).Ok?
       <==> && (forall value <- fs.allow + fs.read + fs.deny :: IsClean(value))
            && forall deny <- fs.deny :: exists grant <- fs.allow + fs.read :: IsWithin(deny, grant)
  {
    FirstInvalidMeaning(fs.allow);
    FirstInvalidMeaning(fs.read);
    FirstInvalidMeaning(fs.deny);
    FirstUncoveredMeaning(fs.deny, fs.allow + fs.read);
    forall value: string ensures IsClean(value) <==> !InvalidEntry(value) {
      TraversalIff(value);
    }
    assert forall v :: v in fs.allow + fs.read + fs.deny <==> v in fs.allow || v in fs.read || v in fs.deny;
    forall deny: string ensures Covered(deny, fs.allow + fs.read) <==> IsInSome(deny, fs.allow + fs.read) {
      CoveredIsInSome(deny, fs.allow + fs.read);
    }
  }

  /** The first entry that is not clean. */
  ghost predicate IsFirstUnclean(values: seq<string>, value: string) {
    exists k :: 0 <= k < |values| && values[k] == value && !IsClean(value) && AreClean(values[..k])
  }

  ghost predicate AreClean(values: seq<string>) {
    forall v <- values :: IsClean(v)
  }

  lemma CleanIff(value: string)
    ensures IsClean(value) <==> !InvalidEntry(value)
  {
    TraversalIff(value);
  }

  lemma {:induction false} FirstInvalidIs(values: seq<string>)
    ensures match FirstInvalid(values)
            case None => AreClean(values)
            case Some(value) => IsFirstUnclean(values, value)
  {
    if values != [] {
      CleanIff(values[0]);
      FrontAndRest(values);
      if InvalidEntry(values[0]) {
        assert values[..0] == [];
      } else {
        FirstInvalidIs(values[1..]);
        if FirstInvalid(values).Some? {
          var k :| 0 <= k < |values[1..]| && values[1..][k] == FirstInvalid(values).value && AreClean(values[1..][..k]);
          assert values[..k + 1] == [values[0]] + values[1..][..k];
          assert values[k + 1] == values[1..][k];
        }
      }
    }
  }

  /** The first deny that lies within no grant. */
  ghost predicate IsFirstUseless(denies: seq<string>, grants: seq<string>, path: string) {
    exists k :: 0 <= k < |denies| && denies[k] == path && !Covered(path, grants)
                && forall j :: 0 <= j < k ==> Covered(denies[j], grants)
  }

  lemma {:induction false} FirstUncoveredIs(denies: seq<string>, grants: seq<string>)
    ensures FirstUncovered(denies, grants).Some? ==>
              IsFirstUseless(denies, grants, FirstUncovered(denies, grants).value)
  {
    if denies != [] && Covered(denies[0], grants) {
      FirstUncoveredIs(denies[1..], grants);
      if FirstUncovered(denies, grants).Some? {
        var path := FirstUncovered(denies, grants).value;
        var k :| 0 <= k < |denies[1..]| && denies[1..][k] == path && !Covered(path, grants)
                 && forall j :: 0 <= j < k ==> Covered(denies[1..][j], grants);
        assert denies[k + 1] == path;
        assert forall j :: 1 <= j < k + 1 ==> denies[j] == denies[1..][j - 1];
      }
    }
  }

  /** What a refused manifest is told: its first unclean entry, field by field, or then its first useless deny. */
  lemma RefusalNamesFirst(fs: Filesystem)
    ensures match FilesystemVerdict(fs)
            case Err(InvalidPath(field, value)) =>
              || (field == "allow" && IsFirstUnclean(fs.allow, value))
              || (field == "read" && AreClean(fs.allow) && IsFirstUnclean(fs.read, value))
              || (field == "deny" && AreClean(fs.allow) && AreClean(fs.read) && IsFirstUnclean(fs.deny, value))
            case Err(UselessDeny(path)) =>
              && AreClean(fs.allow) && AreClean(fs.read) && AreClean(fs.deny)
              && IsFirstUseless(fs.deny, fs.allow + fs.read, path)
            case Ok(_) => true
  {
    FirstInvalidIs(fs.allow);
    FirstInvalidIs(fs.read);
    FirstInvalidIs(fs.deny);
    FirstUncoveredIs(fs.deny, fs.allow + fs.read);
  }

  ghost predicate IsInSome(path: string, grants: seq<string>) {
    exists grant <- grants :: IsWithin(path, grant)
  }

  lemma CoveredIsInSome(path: string, grants: seq<string>)
    ensures Covered(path, grants) <==> IsInSome(path, grants)
  {
    if IsInSome(path, grants) {
      var grant :| grant in grants && IsWithin(path, grant);
      var i :| 0 <= i < |grants| && grants[i] == grant;
    }
  }

  // ----- Compilation -----

  function Rules(values: seq<string>, origin: Origin): seq<Rule> {
    if values == [] then [] else [Rule(values[0], origin)] + Rules(values[1..], origin)
  }

  /** The credential directories no manifest grant covers. */
  function Ungranted(sensitive: seq<string>, grants: seq<string>): seq<string> {
    if sensitive == [] then []
    else (if Covered(sensitive[0], grants) then [] else [sensitive[0]]) + Ungranted(sensitive[1..], grants)
  }

  function Compiled(host: Platform, fs: Filesystem): CompiledPolicy {
    CompiledPolicy(
      Rules(fs.allow, Manifest("filesystem.allow")) + Rules(host.systemReadWrite, Baseline),
      Rules(fs.read, Manifest("filesystem.read")) + Rules(host.systemRead, Baseline),
      Rules(fs.deny, Manifest("filesystem.deny"))
        + [Rule(host.dataDir, Baseline)]
        + Rules(Ungranted(host.sensitive, fs.allow + fs.read), Baseline))
  }

  method Compile(host: Platform, fs: Filesystem) returns (compiled: CompiledPolicy)
    ensures compiled == Compiled(host, fs)
  {
    var allow := Rules(fs.allow, Manifest("filesystem.allow"));
    var read := Rules(fs.read, Manifest("filesystem.read"));
    var deny := Rules(fs.deny, Manifest("filesystem.deny"));
    deny := deny + [Rule(host.dataDir, Baseline)];
    deny := DenyUngranted(deny, host.sensitive, fs.allow + fs.read);
    read := read + Rules(host.systemRead, Baseline);
    allow := allow + Rules(host.systemReadWrite, Baseline);
    compiled := CompiledPolicy(allow, read, deny);
  }

  lemma UngrantedStep(deny: seq<Rule>, sensitive: seq<string>, granted: seq<string>)
    requires sensitive != []
    ensures deny + Rules(Ungranted(sensitive, granted), Baseline)
         == (if Covered(sensitive[0], granted) then deny else deny + [Rule(sensitive[0], Baseline)])
            + Rules(Ungranted(sensitive[1..], granted), Baseline)
  {
    var path, later := sensitive[0], Ungranted(sensitive[1..], granted);
    NothingInFront(later);
    DropFront([path], later);
    Regroup(deny, [Rule(path, Baseline)], Rules(later, Baseline));
  }

  /** The loop over the credential directories. */
  method DenyUngranted(before: seq<Rule>, sensitive: seq<string>, granted: seq<string>) returns (deny: seq<Rule>)
    ensures deny == before + Rules(Ungranted(sensitive, granted), Baseline)
  {
    deny := before;
    assert sensitive[0..] == sensitive;
    for i := 0 to |sensitive|
      invariant deny + Rules(Ungranted(sensitive[i..], granted), Baseline)
             == before + Rules(Ungranted(sensitive, granted), Baseline)
    {
      var path := sensitive[i];
      assert sensitive[i..][1..] == sensitive[i + 1..];
      UngrantedStep(deny, sensitive[i..], granted);
      if !Covered(path, granted) {
        deny := deny + [Rule(path, Baseline)];
      }
    }
  }

  function WithKeeperExeGrant(compiled: CompiledPolicy, exeDir: string): CompiledPolicy {
    compiled.(read := compiled.read + [Rule(exeDir, Baseline)])
  }

  function WithProviderGrants(compiled: CompiledPolicy, provider: string, grants: seq<string>): CompiledPolicy {
    compiled.(read := compiled.read + Rules(grants, Provider(provider)))
  }

  function Values(rules: seq<Rule>): seq<string> {
    if rules == [] then [] else [rules[0].value] + Values(rules[1..])
  }

  function ToCapabilityPlan(compiled: CompiledPolicy): CapabilityPlan {
    CapabilityPlan(Values(compiled.allow), Values(compiled.read), Values(compiled.deny))
  }

  // ----- The overlap check -----

  function FirstCovering(path: string, grants: seq<string>): Option<string> {
    if grants == [] then None
    else if IsWithin(path, grants[0]) then Some(grants[0])
    else FirstCovering(path, grants[1..])
  }

  function FirstOverlap(denies: seq<string>, grants: seq<string>): Result<(), Overlap> {
    if denies == [] then Ok(())
    else if FirstCovering(denies[0], grants).Some? then
      Err(DenyOverlapsAllow(denies[0], FirstCovering(denies[0], grants).value))
    else FirstOverlap(denies[1..], grants)
  }

  function OverlapVerdict(plan: CapabilityPlan): Result<(), Overlap> {
    FirstOverlap(plan.deny, plan.allow + plan.read)
  }

  method CheckNoDenyOverlapsAllow(plan: CapabilityPlan) returns (r: Result<(), Overlap>)
    ensures r == OverlapVerdict(plan)
  {
    var grants := plan.allow + plan.read;
    assert plan.deny[0..] == plan.deny && grants[0..] == grants;
    for i := 0 to |plan.deny|
      invariant FirstOverlap(plan.deny[i..], grants) == FirstOverlap(plan.deny, grants)
    {
      var deny := plan.deny[i];
      assert plan.deny[i..][1..] == plan.deny[i + 1..];
      for j := 0 to |grants|
        invariant FirstCovering(deny, grants[j..]) == FirstCovering(deny, grants)
      {
        assert grants[j..][1..] == grants[j + 1..];
        if IsWithin(deny, grants[j]) {
          return Err(DenyOverlapsAllow(deny, grants[j]));
        }
      }
    }
    r := Ok(());
  }

  // ----- Why -----

  function Matching(rules: seq<Rule>, path: string): Option<Rule> {
    if rules == [] then None else if IsWithin(path, rules[0].value) then Some(rules[0]) else Matching(rules[1..], path)
  }

  function WhyPath(compiled: CompiledPolicy, path: string, op: Op): Explanation {
    var denied := Matching(compiled.deny, path);
    if denied.Some? then Explanation(false, Some(denied.value.origin))
    else
      var allow :=
        if op.Write? || op.ReadWrite? then Matching(compiled.allow, path)
        else
          var first := Matching(compiled.allow, path);
          if first.Some? then first else Matching(compiled.read, path);
      if allow.Some? then Explanation(true, Some(allow.value.origin)) else Explanation(false, None)
  }

  // ----- What the backend enforces: grants add up, and nothing is ever taken away -----

  /** The paths that grant something for `op`. */
  function GrantsFor(plan: CapabilityPlan, op: Op): seq<string> {
    if op.Read? then plan.allow + plan.read else plan.allow
  }

  predicate Granted(plan: CapabilityPlan, path: string, op: Op) {
    Covered(path, GrantsFor(plan, op))
  }

  // ----- Proofs -----

  lemma {:induction false} MatchingIsCovered(rules: seq<Rule>, path: string)
    ensures Matching(rules, path).Some? <==> Covered(path, Values(rules))
    ensures Matching(rules, path).Some? ==>
              Matching(rules, path).value in rules && IsWithin(path, Matching(rules, path).value.value)
  {
    if rules != [] {
      MatchingIsCovered(rules[1..], path);
      CoveredCons(path, rules[0].value, Values(rules[1..]));
    }
  }

  lemma CoveredCons(path: string, first: string, rest: seq<string>)
    ensures Covered(path, [first] + rest) <==> IsWithin(path, first) || Covered(path, rest)
  {
    var all := [first] + rest;
    if IsWithin(path, first) {
      assert all[0] == first;
    } else if Covered(path, rest) {
      var i :| 0 <= i < |rest| && IsWithin(path, rest[i]);
      assert all[i + 1] == rest[i];
    }
  }

  lemma CoveredConcat(path: string, a: seq<string>, b: seq<string>)
    ensures Covered(path, a + b) <==> Covered(path, a) || Covered(path, b)
  {
    var all := a + b;
    if Covered(path, a) {
      var i :| 0 <= i < |a| && IsWithin(path, a[i]);
      assert all[i] == a[i];
    } else if Covered(path, b) {
      var i :| 0 <= i < |b| && IsWithin(path, b[i]);
      assert all[|a| + i] == b[i];
    }
  }

  lemma {:induction false} FirstCoveringIsCovered(path: string, grants: seq<string>)
    ensures FirstCovering(path, grants).Some? <==> Covered(path, grants)
    ensures FirstCovering(path, grants).Some? ==> IsWithin(path, FirstCovering(path, grants).value)
  {
    if grants != [] {
      FirstCoveringIsCovered(path, grants[1..]);
      CoveredCons(path, grants[0], grants[1..]);
      assert grants == [grants[0]] + grants[1..];
    }
  }

  /** The overlap check passes exactly when no deny falls inside a grant. */
  lemma {:induction false} OverlapMeaning(denies: seq<string>, grants: seq<string>)
    ensures FirstOverlap(denies, grants).Ok? <==> forall d :: d in denies ==> !Covered(d, grants)
  {
    if denies != [] {
      OverlapMeaning(denies[1..], grants);
      FirstCoveringIsCovered(denies[0], grants);
      assert denies == [denies[0]] + denies[1..];
    }
  }

  lemma {:induction false} FirstCoveringIs(path: string, grants: seq<string>) returns (k: nat)
    ensures FirstCovering(path, grants).Some? ==>
              && k < |grants| && grants[k] == FirstCovering(path, grants).value && IsWithin(path, grants[k])
              && forall j :: 0 <= j < k ==> !IsWithin(path, grants[j])
  {
    k := 0;
    if grants != [] && !IsWithin(path, grants[0]) {
      var j := FirstCoveringIs(path, grants[1..]);
      k := j + 1;
      assert forall i :: 1 <= i < |grants| ==> grants[i] == grants[1..][i - 1];
    }
  }

  /** The overlap reported is that of the first deny that any grant covers, with the first grant that covers it. */
  lemma {:induction false} OverlapNamesFirst(denies: seq<string>, grants: seq<string>) returns (i: nat, k: nat)
    ensures FirstOverlap(denies, grants).Err? ==>
              && i < |denies| && k < |grants|
              && FirstOverlap(denies, grants) == Err(DenyOverlapsAllow(denies[i], grants[k]))
              && IsWithin(denies[i], grants[k]) && (forall j :: 0 <= j < k ==> !IsWithin(denies[i], grants[j]))
              && forall j :: 0 <= j < i ==> !Covered(denies[j], grants)
  {
    i, k := 0, 0;
    if denies != [] {
      FirstCoveringIsCovered(denies[0], grants);
      if FirstCovering(denies[0], grants).Some? {
        k := FirstCoveringIs(denies[0], grants);
      } else {
        i, k := OverlapNamesFirst(denies[1..], grants);
        assert forall j :: 1 <= j < |denies| ==> denies[j] == denies[1..][j - 1];
        i := i + 1;
      }
    }
  }

  /** A grant for `op` over `path` that lies strictly inside some deny. */
  ghost predicate NestedGrant(plan: CapabilityPlan, path: string, op: Op) {
    exists g, d :: g in GrantsFor(plan, op) && d in plan.deny && IsWithin(path, g) && StrictlyWithin(g, d)
  }

  /** The first of these rules to cover the path, and where it comes from. */
  ghost predicate IsFirstCover(rules: seq<Rule>, path: string, k: nat, origin: Origin) {
    && k < |rules| && IsWithin(path, rules[k].value) && rules[k].origin == origin
    && forall j :: 0 <= j < k ==> !IsWithin(path, rules[j].value)
  }

  lemma {:induction false} MatchingIsFirst(rules: seq<Rule>, path: string) returns (k: nat)
    ensures Matching(rules, path).Some? ==> IsFirstCover(rules, path, k, Matching(rules, path).value.origin)
  {
    k := 0;
    if rules != [] && !IsWithin(path, rules[0].value) {
      var j := MatchingIsFirst(rules[1..], path);
      k := j + 1;
      assert forall i :: 1 <= i < |rules| ==> rules[i] == rules[1..][i - 1];
    }
  }

  /** The rules that can grant an operation, in the order in which they are asked. */
  function RulesFor(compiled: CompiledPolicy, op: Op): seq<Rule> {
    if op.Read? then compiled.allow + compiled.read else compiled.allow
  }

  lemma {:induction false} MatchingConcat(a: seq<Rule>, b: seq<Rule>, path: string)
    ensures Matching(a + b, path) == if Matching(a, path).Some? then Matching(a, path) else Matching(b, path)
  {
    if a == [] {
      assert a + b == b;
    } else {
      MatchingConcat(a[1..], b, path);
      assert (a + b)[1..] == a[1..] + b;
    }
  }

  lemma {:induction false} NoMatch(rules: seq<Rule>, path: string)
    ensures Matching(rules, path).None? <==> forall j :: 0 <= j < |rules| ==> !IsWithin(path, rules[j].value)
  {
    if rules != [] {
      NoMatch(rules[1..], path);
      assert forall i :: 1 <= i < |rules| ==> rules[i] == rules[1..][i - 1];
    }
  }

  /**
   * The origin `why` names is that of the first deny covering the path, if any covers it, and otherwise that of the
   * first grant for the operation, the read-write grants before the read-only ones; it names none when none covers.
   */
  lemma WhyNamesFirst(compiled: CompiledPolicy, path: string, op: Op)
    ensures var why := WhyPath(compiled, path, op);
            match why.origin
            case None =>
              && !why.allowed
              && forall rule <- compiled.deny + RulesFor(compiled, op) :: !IsWithin(path, rule.value)
            case Some(origin) =>
              exists k: nat ::
                if why.allowed then
                  && IsFirstCover(RulesFor(compiled, op), path, k, origin)
                  && forall rule <- compiled.deny :: !IsWithin(path, rule.value)
                else IsFirstCover(compiled.deny, path, k, origin)
  {
    NoMatch(compiled.deny, path);
    NoMatch(RulesFor(compiled, op), path);
    MatchingConcat(compiled.allow, compiled.read, path);
    var d := MatchingIsFirst(compiled.deny, path);
    var g := MatchingIsFirst(RulesFor(compiled, op), path);
  }

  /** `why` says what the rules say: a deny wins, and otherwise a grant is needed. */
  lemma WhyIsRules(compiled: CompiledPolicy, path: string, op: Op)
    ensures var plan := ToCapabilityPlan(compiled);
            WhyPath(compiled, path, op).allowed <==> !Covered(path, plan.deny) && Granted(plan, path, op)
    ensures WhyPath(compiled, path, op).origin.None?
       <==> !Covered(path, ToCapabilityPlan(compiled).deny) && !Granted(ToCapabilityPlan(compiled), path, op)
  {
    MatchingIsCovered(compiled.deny, path);
    MatchingIsCovered(compiled.allow, path);
    MatchingIsCovered(compiled.read, path);
    CoveredConcat(path, Values(compiled.allow), Values(compiled.read));
  }

  /**
   * Once the overlap check has passed, `why` and the enforced grants give different verdicts on exactly the
   * paths that a grant strictly inside a deny covers; there `why` denies what is granted.
   */
  lemma WhyVersusGrants(compiled: CompiledPolicy, path: string, op: Op)
    requires OverlapVerdict(ToCapabilityPlan(compiled)).Ok?
    ensures var plan := ToCapabilityPlan(compiled);
            && (WhyPath(compiled, path, op).allowed ==> Granted(plan, path, op))
            && (WhyPath(compiled, path, op).allowed != Granted(plan, path, op) <==> NestedGrant(plan, path, op))
  {
    var plan := ToCapabilityPlan(compiled);
    WhyIsRules(compiled, path, op);
    OverlapMeaning(plan.deny, plan.allow + plan.read);
    if Covered(path, plan.deny) && Granted(plan, path, op) {
      var i :| 0 <= i < |plan.deny| && IsWithin(path, plan.deny[i]);
      var grants := GrantsFor(plan, op);
      var j :| 0 <= j < |grants| && IsWithin(path, grants[j]);
      WithinIsForest(path, plan.deny[i], grants[j]);
      assert grants[j] == (plan.allow + plan.read)[j];
      assert !Covered(plan.deny[i], plan.allow + plan.read);
      assert StrictlyWithin(grants[j], plan.deny[i]);
    }
    if NestedGrant(plan, path, op) {
      var g, d :| g in GrantsFor(plan, op) && d in plan.deny && IsWithin(path, g) && StrictlyWithin(g, d);
      WithinIsOrder(path, g, d);
    }
  }

  /** No grant lies strictly inside a deny. */
  ghost predicate NoNestedGrants(plan: CapabilityPlan) {
    forall g, d :: g in plan.allow + plan.read && d in plan.deny ==> !StrictlyWithin(g, d)
  }

  /** `why` and the enforced grants give one verdict. */
  predicate Agrees(compiled: CompiledPolicy, path: string, op: Op) {
    WhyPath(compiled, path, op).allowed == Granted(ToCapabilityPlan(compiled), path, op)
  }

  lemma AgreesWithout(compiled: CompiledPolicy, path: string, op: Op)
    requires OverlapVerdict(ToCapabilityPlan(compiled)).Ok? && NoNestedGrants(ToCapabilityPlan(compiled))
    ensures Agrees(compiled, path, op)
  {
    var plan := ToCapabilityPlan(compiled);
    WhyVersusGrants(compiled, path, op);
    assert forall g :: g in GrantsFor(plan, op) ==> g in plan.allow + plan.read;
  }

  lemma DisagreesOnNested(compiled: CompiledPolicy, g: string, d: string)
    requires OverlapVerdict(ToCapabilityPlan(compiled)).Ok?
    requires var plan := ToCapabilityPlan(compiled);
             g in plan.allow + plan.read && d in plan.deny && StrictlyWithin(g, d)
    ensures !Agrees(compiled, g, Read)
  {
    WithinIsOrder(g, g, g);
    assert g in GrantsFor(ToCapabilityPlan(compiled), Read);
    assert NestedGrant(ToCapabilityPlan(compiled), g, Read);
    WhyVersusGrants(compiled, g, Read);
  }

  /** They agree on every path and operation exactly when no grant lies strictly inside a deny. */
  lemma WhyAgreesEverywhere(compiled: CompiledPolicy)
    requires OverlapVerdict(ToCapabilityPlan(compiled)).Ok?
    ensures (forall path, op :: Agrees(compiled, path, op)) <==> NoNestedGrants(ToCapabilityPlan(compiled))
  {
    var plan := ToCapabilityPlan(compiled);
    forall path, op | NoNestedGrants(plan) ensures Agrees(compiled, path, op) {
      AgreesWithout(compiled, path, op);
    }
    forall g, d | g in plan.allow + plan.read && d in plan.deny && StrictlyWithin(g, d)
      ensures !Agrees(compiled, g, Read)
    {
      DisagreesOnNested(compiled, g, d);
    }
  }

  // ----- Which manifests compile to an enforceable policy -----

  /** The policy `up` enforces: the compiled manifest plus the keeper's own and the provider's read grants. */
  function FinalPlan(host: Platform, fs: Filesystem, exeDir: string, provider: string, grants: seq<string>)
    : CapabilityPlan
  {
    ToCapabilityPlan(WithProviderGrants(WithKeeperExeGrant(Compiled(host, fs), exeDir), provider, grants))
  }

  lemma {:induction false} ValuesOfRules(values: seq<string>, origin: Origin)
    ensures Values(Rules(values, origin)) == values
  {
    if values != [] {
      ValuesOfRules(values[1..], origin);
      assert Rules(values, origin)[1..] == Rules(values[1..], origin);
    }
  }

  lemma {:induction false} ValuesConcat(a: seq<Rule>, b: seq<Rule>)
    ensures Values(a + b) == Values(a) + Values(b)
  {
    if a == [] {
      assert a + b == b;
    } else {
      assert (a + b)[1..] == a[1..] + b;
      ValuesConcat(a[1..], b);
    }
  }

  lemma PlanOfManifest(host: Platform, fs: Filesystem, exeDir: string, provider: string, grants: seq<string>)
    ensures var plan := FinalPlan(host, fs, exeDir, provider, grants);
            && plan.allow == fs.allow + host.systemReadWrite
            && plan.read == fs.read + host.systemRead + ([exeDir] + grants)
            && plan.deny == fs.deny + BaselineDenials(host, fs)
  {
    ValuesOfRules(fs.allow, Manifest("filesystem.allow"));
    ValuesOfRules(host.systemReadWrite, Baseline);
    ValuesConcat(Rules(fs.allow, Manifest("filesystem.allow")), Rules(host.systemReadWrite, Baseline));
    ReadValues(host, fs, exeDir, provider, grants);
    var ungranted := Ungranted(host.sensitive, fs.allow + fs.read);
    ValuesOfRules(fs.deny, Manifest("filesystem.deny"));
    ValuesOfRules(ungranted, Baseline);
    var deny := Rules(fs.deny, Manifest("filesystem.deny"));
    ValuesConcat(deny, [Rule(host.dataDir, Baseline)]);
    ValuesConcat(deny + [Rule(host.dataDir, Baseline)], Rules(ungranted, Baseline));
    assert Values([Rule(host.dataDir, Baseline)]) == [host.dataDir];
    Regroup(fs.deny, [host.dataDir], ungranted);
  }

  lemma ReadValues(host: Platform, fs: Filesystem, exeDir: string, provider: string, grants: seq<string>)
    ensures FinalPlan(host, fs, exeDir, provider, grants).read == fs.read + host.systemRead + ([exeDir] + grants)
  {
    ValuesOfRules(fs.read, Manifest("filesystem.read"));
    ValuesOfRules(host.systemRead, Baseline);
    ValuesOfRules(grants, Provider(provider));
    var read, system := Rules(fs.read, Manifest("filesystem.read")), Rules(host.systemRead, Baseline);
    ValuesConcat(read, system);
    ValuesConcat(read + system, [Rule(exeDir, Baseline)]);
    ValuesConcat(read + system + [Rule(exeDir, Baseline)], Rules(grants, Provider(provider)));
    assert Values([Rule(exeDir, Baseline)]) == [exeDir];
    assert fs.read + host.systemRead + [exeDir] + grants == fs.read + host.systemRead + ([exeDir] + grants);
  }

  lemma {:induction false} UngrantedMeaning(sensitive: seq<string>, grants: seq<string>)
    ensures forall s :: s in Ungranted(sensitive, grants) <==> s in sensitive && !Covered(s, grants)
  {
    if sensitive != [] {
      UngrantedMeaning(sensitive[1..], grants);
      assert sensitive == [sensitive[0]] + sensitive[1..];
    }
  }

  lemma {:induction false} RulesMeaning(values: seq<string>, origin: Origin)
    ensures forall rule :: rule in Rules(values, origin) <==> rule.value in values && rule.origin == origin
  {
    if values != [] {
      RulesMeaning(values[1..], origin);
      FrontAndRest(values);
    }
  }

  /**
   * Every rule of the compiled policy and where it comes from: the manifest's own entries under their fields, and as
   * baseline the system grants, the data dir, and the credential directories that no grant of the manifest covers.
   */
  lemma CompiledMeaning(host: Platform, fs: Filesystem, rule: Rule)
    ensures rule in Compiled(host, fs).allow
       <==> || (rule.value in fs.allow && rule.origin == Manifest("filesystem.allow"))
            || (rule.value in host.systemReadWrite && rule.origin == Baseline)
    ensures rule in Compiled(host, fs).read
       <==> || (rule.value in fs.read && rule.origin == Manifest("filesystem.read"))
            || (rule.value in host.systemRead && rule.origin == Baseline)
    ensures rule in Compiled(host, fs).deny
       <==> || (rule.value in fs.deny && rule.origin == Manifest("filesystem.deny"))
            || (rule.origin == Baseline
                && (rule.value == host.dataDir
                    || (rule.value in host.sensitive && !Covered(rule.value, fs.allow + fs.read))))
  {
    AllowMeaning(host, fs, rule);
    RulesMeaning(fs.read, Manifest("filesystem.read"));
    RulesMeaning(host.systemRead, Baseline);
    DenyMeaning(host, fs, rule);
  }

  /** The keeper's own grant is baseline, and those of a provider are its. */
  lemma ExtraGrantsAreNamed(compiled: CompiledPolicy, exeDir: string, provider: string, grants: seq<string>, rule: Rule)
    ensures var final := WithProviderGrants(WithKeeperExeGrant(compiled, exeDir), provider, grants);
            && final.allow == compiled.allow && final.deny == compiled.deny
            && (rule in final.read
                <==> || rule in compiled.read || rule == Rule(exeDir, Baseline)
                     || (rule.value in grants && rule.origin == Provider(provider)))
  {
    RulesMeaning(grants, Provider(provider));
  }

  lemma AllowMeaning(host: Platform, fs: Filesystem, rule: Rule)
    ensures rule in Compiled(host, fs).allow
       <==> || (rule.value in fs.allow && rule.origin == Manifest("filesystem.allow"))
            || (rule.value in host.systemReadWrite && rule.origin == Baseline)
  {
    RulesMeaning(fs.allow, Manifest("filesystem.allow"));
    RulesMeaning(host.systemReadWrite, Baseline);
  }

  lemma DenyMeaning(host: Platform, fs: Filesystem, rule: Rule)
    ensures rule in Compiled(host, fs).deny
       <==> || (rule.value in fs.deny && rule.origin == Manifest("filesystem.deny"))
            || (rule.origin == Baseline
                && (rule.value == host.dataDir
                    || (rule.value in host.sensitive && !Covered(rule.value, fs.allow + fs.read))))
  {
    RulesMeaning(fs.deny, Manifest("filesystem.deny"));
    RulesMeaning(Ungranted(host.sensitive, fs.allow + fs.read), Baseline);
    UngrantedMeaning(host.sensitive, fs.allow + fs.read);
  }

  predicate AllRootedAt(root: Root, paths: seq<string>) {
    forall s :: s in paths ==> RootAndRest(s).0 == root
  }

  /** System grants are absolute paths, baseline denials are in the home directory. */
  predicate WellRooted(host: Platform) {
    && AllRootedAt(Home, [host.dataDir] + host.sensitive)
    && AllRootedAt(Absolute, host.systemRead)
    && AllRootedAt(Absolute, host.systemReadWrite)
  }

  lemma StartsAtRoot(paths: seq<string>)
    requires forall s :: s in paths ==> s != "" && s[0] == '/'
    ensures AllRootedAt(Absolute, paths)
  {
    forall s | s in paths ensures RootAndRest(s).0 == Absolute {
      RootPrefixes(s);
    }
  }

  lemma StartsAtHome(paths: seq<string>)
    requires forall s :: s in paths ==> |s| >= 2 && s[0] == '~' && s[1] == '/'
    ensures AllRootedAt(Home, paths)
  {
    forall s | s in paths ensures RootAndRest(s).0 == Home {
      RootPrefixes(s);
    }
  }

  lemma BaselineIsHome()
    ensures AllRootedAt(Home, [DEVCROFT_DATA_DIR] + SENSITIVE_PATHS)
  {
    StartsAtHome([DEVCROFT_DATA_DIR] + SENSITIVE_PATHS);
  }

  lemma LinuxIsAbsolute()
    ensures AllRootedAt(Absolute, LINUX.systemRead) && AllRootedAt(Absolute, LINUX.systemReadWrite)
  {
    StartsAtRoot(LINUX.systemRead);
    StartsAtRoot(LINUX.systemReadWrite);
  }

  lemma MacosIsAbsolute()
    ensures AllRootedAt(Absolute, MACOS.systemRead) && AllRootedAt(Absolute, MACOS.systemReadWrite)
  {
    StartsAtRoot(MACOS.systemRead);
    StartsAtRoot(MACOS.systemReadWrite);
  }

  lemma PlatformsAreWellRooted(host: Platform)
    requires host == LINUX || host == MACOS
    ensures WellRooted(host)
  {
    BaselineIsHome();
    if host == LINUX {
      LinuxIsAbsolute();
    } else {
      MacosIsAbsolute();
    }
  }

  lemma OtherRootNeverCovers(path: string, grants: seq<string>)
    requires forall g :: g in grants ==> RootAndRest(g).0 != RootAndRest(path).0
    ensures !Covered(path, grants)
  {
  }

  /** The denials every policy on this platform makes, whatever the manifest denies. */
  function BaselineDenials(host: Platform, fs: Filesystem): seq<string> {
    [host.dataDir] + Ungranted(host.sensitive, fs.allow + fs.read)
  }

  lemma CoveredByPlan(path: string, host: Platform, fs: Filesystem, extra: seq<string>)
    ensures Covered(path, (fs.allow + host.systemReadWrite) + (fs.read + host.systemRead + extra))
       <==> || Covered(path, fs.allow + fs.read) || Covered(path, extra)
            || Covered(path, host.systemReadWrite) || Covered(path, host.systemRead)
  {
    CoveredConcat(path, fs.allow + host.systemReadWrite, fs.read + host.systemRead + extra);
    CoveredConcat(path, fs.allow, host.systemReadWrite);
    CoveredConcat(path, fs.read + host.systemRead, extra);
    CoveredConcat(path, fs.read, host.systemRead);
    CoveredConcat(path, fs.allow, fs.read);
  }

  /** No system grant covers a baseline denial. */
  lemma SystemNeverTrips(host: Platform, fs: Filesystem, d: string)
    requires WellRooted(host) && d in BaselineDenials(host, fs)
    ensures !Covered(d, host.systemReadWrite) && !Covered(d, host.systemRead)
    ensures d == host.dataDir || !Covered(d, fs.allow + fs.read)
  {
    UngrantedMeaning(host.sensitive, fs.allow + fs.read);
    OtherRootNeverCovers(d, host.systemReadWrite);
    OtherRootNeverCovers(d, host.systemRead);
  }

  /** A deny of the manifest's own lies within one of its grants, or the checks would have refused it. */
  lemma OwnDenyIsCovered(host: Platform, fs: Filesystem, extra: seq<string>, d: string)
    requires FilesystemVerdict(fs).Ok? && d in fs.deny
    ensures Covered(d, (fs.allow + host.systemReadWrite) + (fs.read + host.systemRead + extra))
  {
    FirstUncoveredMeaning(fs.deny, fs.allow + fs.read);
    CoveredByPlan(d, host, fs, extra);
  }

  lemma BaselineDenyIsCovered(host: Platform, fs: Filesystem, extra: seq<string>, d: string)
    requires WellRooted(host) && d in BaselineDenials(host, fs)
    ensures Covered(d, (fs.allow + host.systemReadWrite) + (fs.read + host.systemRead + extra))
       <==> (d == host.dataDir && Covered(d, fs.allow + fs.read)) || Covered(d, extra)
  {
    SystemNeverTrips(host, fs, d);
    CoveredByPlan(d, host, fs, extra);
  }

  lemma NothingCovered(own: seq<string>, baseline: seq<string>, all: string -> bool, granted: string -> bool,
                       extra: string -> bool)
    requires forall d :: d in own ==> all(d)
    requires baseline != []
    requires forall d :: d in baseline ==> (all(d) <==> (d == baseline[0] && granted(d)) || extra(d))
    ensures (forall d :: d in own + baseline ==> !all(d))
       <==> own == [] && !granted(baseline[0]) && forall d :: d in baseline ==> !extra(d)
  {
    assert own != [] ==> own[0] in own + baseline;
    assert baseline[0] in own + baseline;
  }

  lemma PlanIsEnforceable(host: Platform, fs: Filesystem, extra: seq<string>, plan: CapabilityPlan)
    requires WellRooted(host) && FilesystemVerdict(fs).Ok?
    requires plan.allow == fs.allow + host.systemReadWrite && plan.read == fs.read + host.systemRead + extra
    requires plan.deny == fs.deny + BaselineDenials(host, fs)
    ensures OverlapVerdict(plan).Ok?
       <==> && fs.deny == []
            && !Covered(host.dataDir, fs.allow + fs.read)
            && forall d :: d in BaselineDenials(host, fs) ==> !Covered(d, extra)
  {
    var all := plan.allow + plan.read;
    OverlapMeaning(plan.deny, all);
    forall d | d in fs.deny ensures Covered(d, all) {
      OwnDenyIsCovered(host, fs, extra, d);
    }
    forall d | d in BaselineDenials(host, fs)
      ensures Covered(d, all) <==> (d == host.dataDir && Covered(d, fs.allow + fs.read)) || Covered(d, extra)
    {
      BaselineDenyIsCovered(host, fs, extra, d);
    }
    NothingCovered(fs.deny, BaselineDenials(host, fs), d => Covered(d, all), d => Covered(d, fs.allow + fs.read),
                   d => Covered(d, extra));
  }

  /**
   * A manifest that the checks accept compiles to an enforceable policy exactly when it denies nothing of its
   * own, none of its grants covers the data dir, and no keeper or provider grant covers a baseline denial.
   */
  lemma AcceptedManifestIsEnforceable(host: Platform, fs: Filesystem, exeDir: string, provider: string,
                                      grants: seq<string>)
    requires WellRooted(host) && FilesystemVerdict(fs).Ok?
    ensures OverlapVerdict(FinalPlan(host, fs, exeDir, provider, grants)).Ok?
       <==> && fs.deny == []
            && !Covered(host.dataDir, fs.allow + fs.read)
            && forall d :: d in BaselineDenials(host, fs) ==> !Covered(d, [exeDir] + grants)
  {
    PlanOfManifest(host, fs, exeDir, provider, grants);
    PlanIsEnforceable(host, fs, [exeDir] + grants, FinalPlan(host, fs, exeDir, provider, grants));
  }

  /** With absolute keeper and provider paths, which is what both are, they can never trip the check. */
  lemma AbsoluteGrantsNeverTrip(host: Platform, fs: Filesystem, exeDir: string, provider: string, grants: seq<string>)
    requires host == LINUX || host == MACOS
    requires FilesystemVerdict(fs).Ok?
    requires AllRootedAt(Absolute, [exeDir] + grants)
    ensures OverlapVerdict(FinalPlan(host, fs, exeDir, provider, grants)).Ok?
       <==> fs.deny == [] && !Covered(host.dataDir, fs.allow + fs.read)
  {
    PlatformsAreWellRooted(host);
    AbsoluteGrantsOnRooted(host, fs, exeDir, provider, grants);
  }

  lemma AbsoluteGrantsOnRooted(host: Platform, fs: Filesystem, exeDir: string, provider: string, grants: seq<string>)
    requires WellRooted(host) && FilesystemVerdict(fs).Ok?
    requires AllRootedAt(Absolute, [exeDir] + grants)
    ensures OverlapVerdict(FinalPlan(host, fs, exeDir, provider, grants)).Ok?
       <==> fs.deny == [] && !Covered(host.dataDir, fs.allow + fs.read)
  {
    AcceptedManifestIsEnforceable(host, fs, exeDir, provider, grants);
    UngrantedMeaning(host.sensitive, fs.allow + fs.read);
    forall d | d in BaselineDenials(host, fs) ensures !Covered(d, [exeDir] + grants) {
      OtherRootNeverCovers(d, [exeDir] + grants);
    }
  }

  // ----- Where `why` is wrong -----

  /**
   * A grant strictly inside a baseline denial compiles, passes the overlap check and is enforced,
   * while `why` reports it denied.
   */
  lemma WhyDeniesNestedGrant(host: Platform, fs: Filesystem, exeDir: string, provider: string, grants: seq<string>,
                             g: string, d: string)
    requires OverlapVerdict(FinalPlan(host, fs, exeDir, provider, grants)).Ok?
    requires g in fs.allow && d in BaselineDenials(host, fs) && StrictlyWithin(g, d)
    ensures var compiled := WithProviderGrants(WithKeeperExeGrant(Compiled(host, fs), exeDir), provider, grants);
            && !WhyPath(compiled, g, ReadWrite).allowed
            && Granted(ToCapabilityPlan(compiled), g, ReadWrite)
  {
    var compiled := WithProviderGrants(WithKeeperExeGrant(Compiled(host, fs), exeDir), provider, grants);
    PlanOfManifest(host, fs, exeDir, provider, grants);
    WithinIsOrder(g, g, g);
    assert NestedGrant(ToCapabilityPlan(compiled), g, ReadWrite);
    WhyVersusGrants(compiled, g, ReadWrite);
  }

  const SSH_DIR: string := "~/.ssh"
  const SSH_CONFIG: string := SSH_DIR + "/" + "config"
  const EXE_DIR: string := "/usr/bin"

  lemma JoinedName(dir: string, name: string)
    requires dir != "" && name != "" && name != "." && '/' !in name
    ensures Components(dir + "/" + name) == Region(Components(dir).root, Components(dir).components + [name])
  {
    JoinedComponents(dir, name);
    OneComponent(name);
    assert DropDots([name]) == [name];
  }

  lemma JoinedStartsAlike(dir: string, more: string)
    requires dir != "" && Components(dir).components != []
    ensures Components(dir + "/" + more).components != []
    ensures Components(dir + "/" + more).components[0] == Components(dir).components[0]
  {
    JoinedComponents(dir, more);
  }

  lemma HomeIsRoot()
    ensures Components("~") == Region(Home, [])
  {
    assert SplitSlash("") == [""];
    assert DropDots([""]) == [];
  }

  lemma ChildOfHome(name: string)
    requires name != "" && name != "." && '/' !in name
    ensures Components("~" + "/" + name) == Region(Home, [name])
  {
    HomeIsRoot();
    JoinedName("~", name);
  }

  /** The directory, and the file in it. */
  lemma SshRegions()
    ensures Components(SSH_DIR) == Region(Home, [".ssh"])
    ensures Components(SSH_CONFIG) == Region(Home, [".ssh", "config"])
  {
    assert SSH_DIR == "~" + "/" + ".ssh";
    ChildOfHome(".ssh");
    JoinedName(SSH_DIR, "config");
  }

  lemma LocalDir()
    ensures Components("~/.local") == Region(Home, [".local"])
  {
    assert "~/.local" == "~" + "/" + ".local";
    ChildOfHome(".local");
  }

  lemma DataDirIsLocal()
    ensures DEVCROFT_DATA_DIR == "~/.local" + "/" + "share/devcroft"
  {
  }

  lemma DataDirIsElsewhere()
    ensures Components(DEVCROFT_DATA_DIR).components != []
    ensures Components(DEVCROFT_DATA_DIR).components[0] == ".local"
  {
    LocalDir();
    DataDirIsLocal();
    JoinedStartsAlike("~/.local", "share/devcroft");
  }

  lemma FileInDir(file: string, dir: string, elsewhere: string)
    requires Components(dir) == Region(Home, [".ssh"]) && Components(file) == Region(Home, [".ssh", "config"])
    requires Components(elsewhere).components != [] && Components(elsewhere).components[0] == ".local"
    ensures StrictlyWithin(file, dir)
    ensures !IsWithin(dir, file) && !IsWithin(elsewhere, file)
    ensures !HasTraversal(file)
  {
    var c := Components(elsewhere).components;
    assert |c| >= 2 ==> c[..2][0] == ".local";
  }

  lemma OneAllowIsAccepted(file: string)
    requires file != "" && '\0' !in file && !HasTraversal(file)
    ensures FilesystemVerdict(Filesystem([file], [], [])).Ok?
  {
    assert [file][1..] == [] && [file][0] == file;
    assert FirstInvalid([file][1..]) == None;
    assert FirstInvalid([file]) == None;
  }

  lemma NotCoveredByOne(path: string, file: string)
    requires !IsWithin(path, file)
    ensures !Covered(path, [file] + [])
  {
  }

  /** A manifest that allows one file, inside a credential directory and away from the data dir. */
  lemma OneNestedAllow(host: Platform, file: string, dir: string, exeDir: string, provider: string)
    requires WellRooted(host) && AllRootedAt(Absolute, [exeDir])
    requires dir in host.sensitive && StrictlyWithin(file, dir)
    requires !IsWithin(host.dataDir, file)
    requires file != "" && '\0' !in file && !HasTraversal(file)
    ensures var fs := Filesystem([file], [], []);
            var compiled := WithProviderGrants(WithKeeperExeGrant(Compiled(host, fs), exeDir), provider, []);
            && FilesystemVerdict(fs).Ok?
            && OverlapVerdict(ToCapabilityPlan(compiled)).Ok?
            && !WhyPath(compiled, file, ReadWrite).allowed
            && Granted(ToCapabilityPlan(compiled), file, ReadWrite)
  {
    var fs := Filesystem([file], [], []);
    OneAllowIsAccepted(file);
    NotCoveredByOne(host.dataDir, file);
    NotCoveredByOne(dir, file);
    AbsoluteGrantsOnRooted(host, fs, exeDir, provider, []);
    UngrantedMeaning(host.sensitive, fs.allow + fs.read);
    WhyDeniesNestedGrant(host, fs, exeDir, provider, [], file, dir);
  }

  lemma SshConfigIsText()
    ensures SSH_CONFIG != "" && '\0' !in SSH_CONFIG
  {
  }

  lemma SshConfigIsNested()
    ensures StrictlyWithin(SSH_CONFIG, SSH_DIR) && !IsWithin(LINUX.dataDir, SSH_CONFIG)
    ensures !HasTraversal(SSH_CONFIG)
  {
    SshRegions();
    DataDirIsElsewhere();
    FileInDir(SSH_CONFIG, SSH_DIR, LINUX.dataDir);
  }

  lemma LinuxIsWellRooted()
    ensures WellRooted(LINUX) && AllRootedAt(Absolute, [EXE_DIR]) && SSH_DIR in LINUX.sensitive
  {
    PlatformsAreWellRooted(LINUX);
    StartsAtRoot([EXE_DIR]);
    assert LINUX.sensitive[0] == SSH_DIR;
  }

  /** The smallest such manifest allows one file of `~/.ssh` and nothing else. */
  lemma WhyDeniesAllowedSshConfig()
    ensures var fs := Filesystem([SSH_CONFIG], [], []);
            var compiled := WithProviderGrants(WithKeeperExeGrant(Compiled(LINUX, fs), EXE_DIR), "nix", []);
            && FilesystemVerdict(fs).Ok?
            && OverlapVerdict(ToCapabilityPlan(compiled)).Ok?
            && !WhyPath(compiled, SSH_CONFIG, ReadWrite).allowed
            && Granted(ToCapabilityPlan(compiled), SSH_CONFIG, ReadWrite)
  {
    SshConfigIsNested();
    SshConfigIsText();
    LinuxIsWellRooted();
    OneNestedAllow(LINUX, SSH_CONFIG, SSH_DIR, EXE_DIR, "nix");
  }
}
