module GrantLimits {
  // Exactly which conditions of `NoGrantExceedsGiver` can be dropped for which grants, and the same
  // check used when a member is added to a group.

  import opened Options
  import opened Permissions
  import opened Scope
  import opened Grants

  const NO_GRANT := GrantRow(None, None, None, None, OrgRead, None, None, None, None, None, None, None)

  /** A directory in which `held` is everything the user "giver" has. */
  function OneGrant(held: GrantRow, repositories: map<string, set<Repository>>): Directory {
    Directory({held.(userId := Some("giver"))}, {}, repositories)
  }

  const GIVER := Principal.User("giver")

  lemma GiverHasOneGrant(held: GrantRow, repositories: map<string, set<Repository>>, required: Permission, resource: Resource)
    requires IsSet(held.orgId) && IsSet(resource.orgId) && held.groupId.None?
    requires PermissionImplied(held.permission, required)
    ensures Authorize(OneGrant(held, repositories), GIVER, None, required, resource).Allowed? <==> ScopeMatches(held, resource)
  {
    var dir := OneGrant(held, repositories);
    var row := held.(userId := Some("giver"));
    assert ScopeMatches(row, resource) <==> ScopeMatches(held, resource);
    if ScopeMatches(held, resource) {
      assert row in GrantsForUser(dir, "giver", resource.orgId);
      assert GrantAllows(row, required, resource);
    } else {
      assert forall g :: g in GrantsForUser(dir, "giver", resource.orgId) ==> g == row;
    }
  }

  lemma ValidatedOne(dir: Directory, orgId: string, grant: TokenGrant)
    requires !grant.permission.SystemAdmin?
    requires forall repo :: repo in Targets(dir, orgId, grant) ==>
               Authorize(dir, GIVER, None, grant.permission, ResourceForGrant(grant, orgId, repo)).Allowed?
    ensures ValidateAssignable(dir, GIVER, orgId, [grant], false).None?
  {
    assert [grant][1..] == [];
    assert forall repo :: repo in Targets(dir, orgId, grant) ==>
        CanGrant(dir, GIVER, grant.permission, ResourceForGrant(grant, orgId, repo));
  }

  lemma PatternAllowsItself(pattern: Nullable)
    ensures PatternAllows(pattern, pattern)
  {
    if IsSet(pattern) {
      MatchesItself(pattern.value);
    }
  }

  /** Giver, giver's grant and repositories, and a request the new row allows and the giver may not make. */
  ghost predicate Exceeds(
    held: GrantRow, repositories: map<string, set<Repository>>, grant: TokenGrant, orgId: string, resource: Resource)
  {
    var dir := OneGrant(held, repositories);
    && ValidateAssignable(dir, GIVER, orgId, [grant], false).None?
    && SoundPatterns(GrantsForPrincipal(dir, GIVER, Some(orgId)))
    && GrantAllows(RowOf(grant, orgId), grant.permission, resource)
    && !Authorize(dir, GIVER, None, grant.permission, resource).Allowed?
  }

  /** A row the giver holds, a repository it is checked on, and a resource only the new row matches. */
  lemma ExceedsBy(
    held: GrantRow, repositories: map<string, set<Repository>>, grant: TokenGrant, orgId: string,
    repo: Option<Repository>, resource: Resource)
    requires IsSet(held.orgId) && held.groupId.None? && held.permission == grant.permission && !grant.permission.SystemAdmin?
    requires SoundPatterns({held}) && IsSet(resource.orgId) && IsSet(ResourceForGrant(grant, orgId, repo).orgId)
    requires Targets(OneGrant(held, repositories), orgId, grant) == {repo}
    requires ScopeMatches(held, ResourceForGrant(grant, orgId, repo))
    requires !ScopeMatches(held, resource) && ScopeMatches(RowOf(grant, orgId), resource)
    ensures Exceeds(held, repositories, grant, orgId, resource)
  {
    ImpliedSelf(grant.permission);
    GiverHasOneGrant(held, repositories, grant.permission, resource);
    GiverHasOneGrant(held, repositories, grant.permission, ResourceForGrant(grant, orgId, repo));
    ValidatedOne(OneGrant(held, repositories), orgId, grant);
    OneGrantIsSound(held, repositories, orgId);
  }

  lemma OneGrantIsSound(held: GrantRow, repositories: map<string, set<Repository>>, orgId: string)
    requires SoundPatterns({held}) && held.groupId.None?
    ensures SoundPatterns(GrantsForPrincipal(OneGrant(held, repositories), GIVER, Some(orgId)))
  {
    assert held in {held};
  }

  /** A request shaped like the grant, with what it leaves open given by `open`. */
  function ShapedLike(grant: TokenGrant, orgId: string, open: Resource): Resource {
    open.(orgId := Some(orgId), policy := grant.policy,
          repositoryName := if IsSet(grant.repository) then grant.repository else open.repositoryName,
          packageName := if IsSet(grant.package) then grant.package else open.packageName,
          artifactRef := if IsSet(grant.artifact) then grant.artifact else open.artifactRef,
          tokenTarget := if IsSet(grant.tokenTarget) then grant.tokenTarget else open.tokenTarget,
          tokenId := grant.tokenId)
  }

  lemma ShapeFits(grant: TokenGrant, orgId: string, open: Resource)
    requires orgId != "" && !grant.permission.SystemAdmin?
    ensures ScopeMatches(RowOf(grant, orgId), ShapedLike(grant, orgId, open))
  {
    PatternAllowsItself(grant.repository);
    PatternAllowsItself(grant.package);
    PatternAllowsItself(grant.artifact);
  }

  const ANYTHING := Resource(OrgType, None, Some("r2"), Some("repository"), Some("package"), Some("artifact"), None, Some("self"), None, false)

  /** A token grant without a target is checked only as "org", yet the stored row matches "self" too. */
  lemma UnnamedTargetExceeds(grant: TokenGrant, orgId: string) returns (held: GrantRow, resource: Resource)
    requires orgId != "" && !TargetNamed(grant)
    ensures Exceeds(held, map[], grant, orgId, resource)
    ensures Named(grant.permission, resource) && InCheckedRepository(OneGrant(held, map[]), orgId, grant, resource)
  {
    held := NO_GRANT.(orgId := Some(orgId), permission := grant.permission, tokenTarget := Some("org"));
    resource := ShapedLike(grant, orgId, ANYTHING);
    ShapeFits(grant, orgId, ANYTHING);
    assert Targets(OneGrant(held, map[]), orgId, grant) == {None};
    ExceedsBy(held, map[], grant, orgId, None, resource);
  }

  /** Without a package (or artifact) the grant is checked as "*", which no request without a name matches. */
  lemma UnnamedResourceExceeds(grant: TokenGrant, orgId: string) returns (held: GrantRow, resource: Resource)
    requires orgId != "" && !NamesItsOwn(grant)
    ensures Exceeds(held, map[], grant, orgId, resource)
    ensures InCheckedRepository(OneGrant(held, map[]), orgId, grant, resource)
  {
    var open := ANYTHING.(packageName := None, artifactRef := None);
    held := NO_GRANT.(orgId := Some(orgId), permission := grant.permission);
    held := if FamilyOf(grant.permission).Package? then held.(packagePattern := Some("*")) else held.(artifactPattern := Some("*"));
    resource := ShapedLike(grant, orgId, open);
    ShapeFits(grant, orgId, open);
    assert Targets(OneGrant(held, map[]), orgId, grant) == {None};
    ExceedsBy(held, map[], grant, orgId, None, resource);
  }

  /** The grant is about repositories by pattern. */
  predicate NamesRepositories(grant: TokenGrant) {
    UsesRepository(FamilyOf(grant.permission)) && IsSet(grant.repository)
  }

  /**
   The check is made against the repositories that exist when it runs: one of the same name, created
   later, may lie beyond a giver whose grant is for the first by its id.
   */
  lemma LaterRepositoryExceeds(grant: TokenGrant, orgId: string)
    returns (held: GrantRow, repositories: map<string, set<Repository>>, resource: Resource)
    requires orgId != "" && NamesRepositories(grant)
    ensures Exceeds(held, repositories, grant, orgId, resource) && Named(grant.permission, resource)
  {
    var existing := Repository("r1", grant.repository.value, "");
    repositories := map[orgId := {existing}];
    held := NO_GRANT.(orgId := Some(orgId), permission := grant.permission, repositoryId := Some("r1"));
    resource := ShapedLike(grant, orgId, ANYTHING);
    ShapeFits(grant, orgId, ANYTHING);
    OnlyTarget(held, grant, orgId, existing);
    ExceedsBy(held, repositories, grant, orgId, Some(existing), resource);
  }

  lemma OnlyTarget(held: GrantRow, grant: TokenGrant, orgId: string, existing: Repository)
    requires IsSet(grant.repository) && existing.name == grant.repository.value
    ensures Targets(OneGrant(held, map[orgId := {existing}]), orgId, grant) == {Some(existing)}
  {
    var dir := OneGrant(held, map[orgId := {existing}]);
    MatchesItself(existing.name);
    var matching := set repo | repo in RepositoriesOf(dir, orgId) && ScopeMayTargetRepo(grant.repository.value, repo) :: Some(repo);
    assert existing in RepositoriesOf(dir, orgId) && Some(existing) in matching;
    assert matching == {Some(existing)};
  }

  /**
   Handing out this one grant never gives away more than the giver has, whoever the giver is and
   whatever other grants are stored; asked, if so chosen, of named resources only, and of
   repositories that exist at the check only.
   */
  ghost predicate NeverExceeds(grant: TokenGrant, orgId: string, named: bool, checked: bool) {
    forall dir, giver, required, resource ::
      && ValidateAssignable(dir, giver, orgId, [grant], false).None?
      && SoundPatterns(GrantsForPrincipal(dir, giver, Some(orgId)))
      && (named ==> Named(required, resource))
      && (checked ==> InCheckedRepository(dir, orgId, grant, resource))
      && GrantAllows(RowOf(grant, orgId), required, resource)
      ==> Authorize(dir, giver, None, required, resource).Allowed?
  }

  /**
   A grant never exceeds its giver exactly when a token permission names its target, packages and
   artifacts are named by the grant or else by every request, and the grant is not about
   repositories by pattern or else the request is for one that existed.
   */
  lemma NeverExceedsIff(grant: TokenGrant, orgId: string, named: bool, checked: bool)
    requires orgId != ""
    ensures NeverExceeds(grant, orgId, named, checked) <==>
            TargetNamed(grant) && (named || NamesItsOwn(grant)) && (checked || !NamesRepositories(grant))
  {
    if !TargetNamed(grant) {
      var held, resource := UnnamedTargetExceeds(grant, orgId);
    } else if !named && !NamesItsOwn(grant) {
      var held, resource := UnnamedResourceExceeds(grant, orgId);
    } else if !checked && NamesRepositories(grant) {
      var held, repositories, resource := LaterRepositoryExceeds(grant, orgId);
    } else {
      forall dir, giver, required, resource |
        && ValidateAssignable(dir, giver, orgId, [grant], false).None?
        && SoundPatterns(GrantsForPrincipal(dir, giver, Some(orgId)))
        && (named ==> Named(required, resource))
        && (checked ==> InCheckedRepository(dir, orgId, grant, resource))
        && GrantAllows(RowOf(grant, orgId), required, resource)
        ensures Authorize(dir, giver, None, required, resource).Allowed?
      {
        NoGrantExceedsGiver(dir, giver, orgId, [grant], false, grant, required, resource);
      }
    }
  }

  // ----- handing out exactly what one has -----

  /** Nothing is restricted that requests of this family do not carry. */
  predicate RestrictsItsFamilyOnly(grant: TokenGrant) {
    var family := FamilyOf(grant.permission);
    && !family.System? && !family.User?
    && (IsSet(grant.repository) ==> UsesRepository(family))
    && (IsSet(grant.package) ==> family.Package?)
    && (IsSet(grant.artifact) ==> family.Artifact?)
    && (IsSet(grant.policy) && grant.policy != Some("*") ==> family.Policy?)
    && (IsSet(grant.tokenTarget) ==> family.Token?)
    && (IsSet(grant.tokenId) ==> family.Token?)
  }

  /** The check looks at a repository under a name the pattern matches, or at the pattern itself. */
  predicate NamedAsMeant(grant: TokenGrant, target: Option<Repository>) {
    IsSet(grant.repository) ==>
      match target
      case Some(repo) => repo.name != "" && PatternMatches(grant.repository.value, repo.name)
      case None => !FamilyOf(grant.permission).Policy?
  }

  lemma CoversItselfIff(grant: TokenGrant, orgId: string, target: Option<Repository>)
    requires orgId != ""
    ensures ScopeMatches(RowOf(grant, orgId), ResourceForGrant(grant, orgId, target)) <==>
            RestrictsItsFamilyOnly(grant) && NamedAsMeant(grant, target)
  {
    CheckedAs(grant, orgId, target);
    PatternAllowsItself(grant.repository);
    PatternAllowsItself(grant.package);
    PatternAllowsItself(grant.artifact);
  }

  lemma ValidatedOneIff(dir: Directory, orgId: string, grant: TokenGrant)
    requires !grant.permission.SystemAdmin?
    ensures ValidateAssignable(dir, GIVER, orgId, [grant], false).None? <==>
            forall target :: target in Targets(dir, orgId, grant) ==>
              Authorize(dir, GIVER, None, grant.permission, ResourceForGrant(grant, orgId, target)).Allowed?
  {
    assert [grant][1..] == [];
    assert forall target :: CanGrant(dir, GIVER, grant.permission, ResourceForGrant(grant, orgId, target)) <==>
        Authorize(dir, GIVER, None, grant.permission, ResourceForGrant(grant, orgId, target)).Allowed?;
  }

  /**
   Somebody who holds exactly a grant can hand it out exactly when it restricts nothing its requests do
   not carry, and every repository it is checked on is meant by name, not by its mount path only.
   */
  lemma HolderGivesOwnIff(grant: TokenGrant, orgId: string, repositories: map<string, set<Repository>>)
    requires orgId != "" && !grant.permission.SystemAdmin?
    ensures var dir := OneGrant(RowOf(grant, orgId), repositories);
            ValidateAssignable(dir, GIVER, orgId, [grant], false).None? <==>
            && RestrictsItsFamilyOnly(grant)
            && forall target :: target in Targets(dir, orgId, grant) ==> NamedAsMeant(grant, target)
  {
    var held := RowOf(grant, orgId);
    var dir := OneGrant(held, repositories);
    ImpliedSelf(grant.permission);
    ValidatedOneIff(dir, orgId, grant);
    forall target | target in Targets(dir, orgId, grant)
      ensures Authorize(dir, GIVER, None, grant.permission, ResourceForGrant(grant, orgId, target)).Allowed? <==>
              RestrictsItsFamilyOnly(grant) && NamedAsMeant(grant, target)
    {
      CheckedAs(grant, orgId, target);
      CoversItselfIff(grant, orgId, target);
      if IsSet(ResourceForGrant(grant, orgId, target).orgId) {
        GiverHasOneGrant(held, repositories, grant.permission, ResourceForGrant(grant, orgId, target));
      } else {
        UserAllowedIff(dir, "giver", None, grant.permission, ResourceForGrant(grant, orgId, target));
      }
    }
    var some :| some in Targets(dir, orgId, grant);
  }

  // ----- patterns with an inner star -----

  /** A name the inner pattern reaches and the unsound outer one does not. */
  lemma EscapingName(held: string) returns (given: string, name: string)
    requires !StarOnlyLast(held)
    ensures given != "" && name != ""
    ensures PatternMatches(held, given) && PatternMatches(given, name) && !PatternMatches(held, name)
  {
    given := Stem(held);
    name := if given == "*" then "a" else if given == "/*" then "/a" else ShortestMatch(given);
    StemStays(held);
  }

  lemma StemStays(held: string)
    requires EndsWith(held, "*")
    ensures held == Stem(held) + if EndsWith(held, "/*") then "/*" else "*"
  {
  }

  /** Which of the three patterns of a grant. */
  datatype Field = RepositoryField | PackageField | ArtifactField

  /** A request for this permission is matched against this pattern as the grant asks for it, not repository by repository. */
  predicate Carries(field: Field, permission: Permission) {
    var family := FamilyOf(permission);
    match field
    case RepositoryField => family.Repo? || family.Package? || family.Artifact?
    case PackageField => family.Package?
    case ArtifactField => family.Artifact?
  }

  function HeldFor(field: Field, permission: Permission, orgId: string, pattern: string): GrantRow {
    var held := NO_GRANT.(orgId := Some(orgId), permission := permission);
    match field
    case RepositoryField => held.(repositoryPattern := Some(pattern))
    case PackageField => held.(packagePattern := Some(pattern))
    case ArtifactField => held.(artifactPattern := Some(pattern))
  }

  function GivenFor(field: Field, permission: Permission, pattern: string): TokenGrant {
    var grant := TokenGrant(permission, None, None, None, None, None, None);
    match field
    case RepositoryField => grant.(repository := Some(pattern))
    case PackageField => grant.(package := Some(pattern))
    case ArtifactField => grant.(artifact := Some(pattern))
  }

  function NamedFor(field: Field, orgId: string, name: string): Resource {
    var resource := ANYTHING.(orgId := Some(orgId));
    match field
    case RepositoryField => resource.(repositoryName := Some(name))
    case PackageField => resource.(packageName := Some(name))
    case ArtifactField => resource.(artifactRef := Some(name))
  }

  lemma HeldMatches(field: Field, permission: Permission, orgId: string, pattern: string, name: string)
    requires Carries(field, permission) && orgId != "" && pattern != "" && name != ""
    ensures ScopeMatches(HeldFor(field, permission, orgId, pattern), NamedFor(field, orgId, name)) <==> PatternMatches(pattern, name)
  {
  }

  lemma HeldCovers(field: Field, permission: Permission, orgId: string, pattern: string, given: string)
    requires Carries(field, permission) && orgId != "" && pattern != "" && given != "" && PatternMatches(pattern, given)
    ensures ScopeMatches(HeldFor(field, permission, orgId, pattern), ResourceForGrant(GivenFor(field, permission, given), orgId, None))
  {
    var resource := ResourceForGrant(GivenFor(field, permission, given), orgId, None);
    assert !permission.SystemAdmin? && resource.orgId == Some(orgId);
    match field
    case RepositoryField => assert resource.repositoryName == Some(given);
    case PackageField => assert resource.packageName == Some(given);
    case ArtifactField => assert resource.artifactRef == Some(given);
  }

  lemma GivenMatches(field: Field, permission: Permission, orgId: string, given: string, name: string)
    requires Carries(field, permission) && orgId != "" && given != "" && name != "" && PatternMatches(given, name)
    ensures ScopeMatches(RowOf(GivenFor(field, permission, given), orgId), NamedFor(field, orgId, name))
  {
  }

  /** All conditions of `NoGrantExceedsGiver` hold but soundness, and the receiver may do what the giver may not. */
  ghost predicate GoesBeyond(held: GrantRow, grant: TokenGrant, orgId: string, required: Permission, resource: Resource) {
    var dir := OneGrant(held, map[]);
    && ValidateAssignable(dir, GIVER, orgId, [grant], false).None? && TargetNamed(grant)
    && Named(required, resource) && InCheckedRepository(dir, orgId, grant, resource)
    && GrantAllows(RowOf(grant, orgId), required, resource)
    && !Authorize(dir, GIVER, None, required, resource).Allowed?
  }

  lemma HolderGives(field: Field, permission: Permission, orgId: string, pattern: string, given: string)
    requires Carries(field, permission) && orgId != "" && pattern != "" && given != "" && PatternMatches(pattern, given)
    ensures ValidateAssignable(OneGrant(HeldFor(field, permission, orgId, pattern), map[]), GIVER, orgId, [GivenFor(field, permission, given)], false).None?
    ensures Targets(OneGrant(HeldFor(field, permission, orgId, pattern), map[]), orgId, GivenFor(field, permission, given)) == {None}
  {
    var held, grant := HeldFor(field, permission, orgId, pattern), GivenFor(field, permission, given);
    var dir := OneGrant(held, map[]);
    HeldCovers(field, permission, orgId, pattern, given);
    ImpliedSelf(permission);
    GiverHasOneGrant(held, map[], permission, ResourceForGrant(grant, orgId, None));
    assert Targets(dir, orgId, grant) == {None};
    ValidatedOne(dir, orgId, grant);
  }

  lemma HolderMayNot(field: Field, permission: Permission, orgId: string, pattern: string, name: string)
    requires Carries(field, permission) && orgId != "" && pattern != "" && name != "" && !PatternMatches(pattern, name)
    ensures !Authorize(OneGrant(HeldFor(field, permission, orgId, pattern), map[]), GIVER, None, permission, NamedFor(field, orgId, name)).Allowed?
  {
    HeldMatches(field, permission, orgId, pattern, name);
    ImpliedSelf(permission);
    GiverHasOneGrant(HeldFor(field, permission, orgId, pattern), map[], permission, NamedFor(field, orgId, name));
  }

  /** Whoever holds a pattern whose literal part ends in a star can hand out more than they have. */
  lemma UnsoundPatternExceeds(field: Field, permission: Permission, pattern: string, orgId: string) returns (grant: TokenGrant, resource: Resource)
    requires Carries(field, permission) && orgId != "" && !StarOnlyLast(pattern)
    ensures GoesBeyond(HeldFor(field, permission, orgId, pattern), grant, orgId, permission, resource)
  {
    var given, name := EscapingName(pattern);
    grant, resource := GivenFor(field, permission, given), NamedFor(field, orgId, name);
    HolderGives(field, permission, orgId, pattern, given);
    HolderMayNot(field, permission, orgId, pattern, name);
    BeyondBy(field, permission, orgId, HeldFor(field, permission, orgId, pattern), given, name);
  }

  lemma BeyondBy(field: Field, permission: Permission, orgId: string, held: GrantRow, given: string, name: string)
    requires Carries(field, permission) && orgId != "" && given != "" && name != "" && PatternMatches(given, name)
    requires ValidateAssignable(OneGrant(held, map[]), GIVER, orgId, [GivenFor(field, permission, given)], false).None?
    requires Targets(OneGrant(held, map[]), orgId, GivenFor(field, permission, given)) == {None}
    requires !Authorize(OneGrant(held, map[]), GIVER, None, permission, NamedFor(field, orgId, name)).Allowed?
    ensures GoesBeyond(held, GivenFor(field, permission, given), orgId, permission, NamedFor(field, orgId, name))
  {
    GivenMatches(field, permission, orgId, given, name);
    ImpliedSelf(permission);
  }

  /** A repository, package or artifact pattern lets its holder hand out nothing beyond it exactly when it is sound. */
  lemma PatternIsSafeIff(field: Field, permission: Permission, pattern: string, orgId: string)
    requires orgId != "" && Carries(field, permission)
    ensures (forall grant, required, resource ::
               !GoesBeyond(HeldFor(field, permission, orgId, pattern), grant, orgId, required, resource)) <==> StarOnlyLast(pattern)
  {
    var held := HeldFor(field, permission, orgId, pattern);
    if !StarOnlyLast(pattern) {
      var grant, resource := UnsoundPatternExceeds(field, permission, pattern, orgId);
    } else {
      forall grant, required, resource
        ensures !GoesBeyond(held, grant, orgId, required, resource)
      {
        SafePattern(field, permission, pattern, orgId, grant, required, resource);
      }
    }
  }

  lemma HeldIsSound(field: Field, permission: Permission, orgId: string, pattern: string)
    requires StarOnlyLast(pattern)
    ensures SoundPatterns({HeldFor(field, permission, orgId, pattern)})
  {
  }

  lemma SafePattern(
    field: Field, permission: Permission, pattern: string, orgId: string, grant: TokenGrant, required: Permission, resource: Resource)
    requires StarOnlyLast(pattern)
    ensures !GoesBeyond(HeldFor(field, permission, orgId, pattern), grant, orgId, required, resource)
  {
    var dir := OneGrant(HeldFor(field, permission, orgId, pattern), map[]);
    HeldIsSound(field, permission, orgId, pattern);
    OneGrantIsSound(HeldFor(field, permission, orgId, pattern), map[], orgId);
    if && ValidateAssignable(dir, GIVER, orgId, [grant], false).None? && TargetNamed(grant)
       && Named(required, resource) && InCheckedRepository(dir, orgId, grant, resource)
       && GrantAllows(RowOf(grant, orgId), required, resource)
    {
      NoGrantExceedsGiver(dir, GIVER, orgId, [grant], false, grant, required, resource);
    }
  }

  // ----- adding a member to a group -----

  function OnlyIfSet(t: Nullable): Nullable {
    if IsSet(t) then t else None
  }

  /** A stored grant as a requested one; a restriction to one repository id is lost on the way. */
  function ToTokenGrant(row: GrantRow): TokenGrant {
    TokenGrant(row.permission, OnlyIfSet(row.repositoryPattern), OnlyIfSet(row.packagePattern), OnlyIfSet(row.artifactPattern),
               OnlyIfSet(row.policy), OnlyIfSet(row.tokenTarget), OnlyIfSet(row.targetTokenId))
  }

  function GrantsForGroup(dir: Directory, orgId: string, groupId: string): set<GrantRow> {
    set g | g in dir.grants && g.orgId == Some(orgId) && g.groupId == Some(groupId)
  }

  datatype AddResult = Added | GroupNotFound | UserNotMember | GrantEscalation

  /**
   `addGroupMember`. The group and its grants are read, in the order `rows`, and the grants validated
   in `dir`, before the transaction opens; the membership is looked up inside it.
   */
  ghost function AddGroupMember(
    dir: Directory, principal: Principal, orgId: string, groupId: string,
    groupExists: bool, isOrgMember: bool, rows: seq<GrantRow>): AddResult
    requires forall row :: row in rows <==> row in GrantsForGroup(dir, orgId, groupId)
  {
    if !groupExists then GroupNotFound
    else if rows != [] && ValidateAssignable(dir, principal, orgId, Requested(rows), true).Some? then GrantEscalation
    else if !isOrgMember then UserNotMember
    else Added
  }

  function Requested(rows: seq<GrantRow>): (grants: seq<TokenGrant>)
    ensures |grants| == |rows| && forall i :: 0 <= i < |rows| ==> grants[i] == ToTokenGrant(rows[i])
  {
    seq(|rows|, i requires 0 <= i < |rows| => ToTokenGrant(rows[i]))
  }

  lemma EachRequested(rows: seq<GrantRow>, fine: TokenGrant -> bool)
    ensures (forall grant :: grant in Requested(rows) ==> fine(grant)) <==> forall row :: row in rows ==> fine(ToTokenGrant(row))
  {
    forall row | row in rows
      ensures ToTokenGrant(row) in Requested(rows)
    {
      var i :| 0 <= i < |rows| && rows[i] == row;
      assert Requested(rows)[i] == ToTokenGrant(row);
    }
    forall grant | grant in Requested(rows)
      ensures exists row :: row in rows && grant == ToTokenGrant(row)
    {
      var i :| 0 <= i < |Requested(rows)| && Requested(rows)[i] == grant;
      assert rows[i] in rows;
    }
  }

  lemma RowsCouldBeGiven(dir: Directory, principal: Principal, orgId: string, rows: seq<GrantRow>)
    requires principal.User?
    ensures ValidateAssignable(dir, principal, orgId, Requested(rows), true).None? <==>
            forall row :: row in rows ==> ValidateGrant(dir, principal, orgId, ToTokenGrant(row), true).None?
  {
    ValidatedEach(dir, principal, orgId, Requested(rows), true);
    EachRequested(rows, grant => ValidateGrant(dir, principal, orgId, grant, true).None?);
  }

  /** A member is added exactly when the group exists, the user is in the organization, and the group's every row could be given. */
  lemma AddedIff(
    dir: Directory, principal: Principal, orgId: string, groupId: string,
    groupExists: bool, isOrgMember: bool, rows: seq<GrantRow>)
    requires forall row :: row in rows <==> row in GrantsForGroup(dir, orgId, groupId)
    ensures AddGroupMember(dir, principal, orgId, groupId, groupExists, isOrgMember, rows).Added? <==>
            && groupExists && isOrgMember
            && forall row :: row in dir.grants && row.orgId == Some(orgId) && row.groupId == Some(groupId) ==>
                 principal.User? && ValidateGrant(dir, principal, orgId, ToTokenGrant(row), true).None?
  {
    assert forall row :: row in rows <==> row in dir.grants && row.orgId == Some(orgId) && row.groupId == Some(groupId);
    assert rows != [] ==> rows[0] in rows;
    if principal.User? {
      RowsCouldBeGiven(dir, principal, orgId, rows);
    }
  }

  /** Whoever adds a member to a group could already do everything that the grants the check read allow. */
  lemma AddingMemberNeverEscalates(
    dir: Directory, principal: Principal, orgId: string, groupId: string, isOrgMember: bool, rows: seq<GrantRow>,
    row: GrantRow, required: Permission, resource: Resource)
    requires forall r :: r in rows <==> r in GrantsForGroup(dir, orgId, groupId)
    requires AddGroupMember(dir, principal, orgId, groupId, true, isOrgMember, rows).Added? && row in rows
    requires SoundPatterns(GrantsForPrincipal(dir, principal, Some(orgId))) && (FamilyOf(row.permission).Token? ==> IsSet(row.tokenTarget))
    requires Named(required, resource) && InCheckedRepository(dir, orgId, ToTokenGrant(row), resource)
    requires GrantAllows(row, required, resource)
    ensures Authorize(dir, principal, None, required, resource).Allowed?
  {
    var i :| 0 <= i < |rows| && rows[i] == row;
    assert Requested(rows)[i] in Requested(rows);
    NoGrantExceedsGiver(dir, principal, orgId, Requested(rows), true, ToTokenGrant(row), required, resource);
  }

  /**
   What the group is granted between the check and the insert is not checked: for every such grant, an
   addition after which the new member may do what the one who added them may not, then or before.
   */
  lemma LaterGroupGrantEscapes(row: GrantRow, orgId: string, groupId: string, required: Permission, resource: Resource)
    returns (before: Directory, after: Directory, actor: Principal, member: Principal)
    requires row.orgId == Some(orgId) && row.groupId == Some(groupId) && row.userId.None?
    requires GrantAllows(row, required, resource)
    ensures GrantsForGroup(before, orgId, groupId) == {}
    ensures AddGroupMember(before, actor, orgId, groupId, true, true, []).Added?
    ensures member.User? && after.grants == before.grants + {row} && after.repositories == before.repositories
    ensures after.groupMembers == before.groupMembers + {GroupMember(orgId, groupId, member.userId)}
    ensures Authorize(after, member, None, required, resource).Allowed?
    ensures !Authorize(before, actor, None, required, resource).Allowed?
    ensures !Authorize(after, actor, None, required, resource).Allowed?
  {
    actor, member := Principal.User("actor"), Principal.User("member");
    before := Directory({}, {}, map[]);
    after := Directory({row}, {GroupMember(orgId, groupId, "member")}, map[]);
    OrgOf(row, required, resource);
    assert row in GrantsForUser(after, "member", resource.orgId);
    UserMay(after, "member", required, resource);
    assert GrantsForUser(before, "actor", resource.orgId) == {};
    UserMay(before, "actor", required, resource);
    assert GrantsForUser(after, "actor", resource.orgId) == {};
    UserMay(after, "actor", required, resource);
  }

  lemma OrgOf(row: GrantRow, required: Permission, resource: Resource)
    requires GrantAllows(row, required, resource) && row.orgId.Some?
    ensures resource.orgId == row.orgId && IsSet(resource.orgId)
  {
  }

  lemma UserMay(dir: Directory, userId: string, required: Permission, resource: Resource)
    ensures Authorize(dir, Principal.User(userId), None, required, resource).Allowed? <==>
            exists g :: g in GrantsForUser(dir, userId, resource.orgId) && GrantAllows(g, required, resource)
  {
  }
}
