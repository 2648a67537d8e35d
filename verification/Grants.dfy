module Grants {
  // Permission grants: what a stored grant allows, how a request is authorized, and the check that
  // nobody hands out a grant beyond their own access. Optional text follows the code's truthiness:
  // an absent and an empty value both mean "not set".

  import opened Options
  import opened Permissions
  import opened Scope

  type Nullable = Option<string>

  predicate IsSet(t: Nullable) {
    t.Some? && t.value != ""
  }

  datatype GrantRow = GrantRow(
    orgId: Nullable,
    userId: Nullable,
    groupId: Nullable,
    tokenId: Nullable,
    permission: Permission,
    repositoryId: Nullable,
    repositoryPattern: Nullable,
    packagePattern: Nullable,
    artifactPattern: Nullable,
    policy: Nullable,
    tokenTarget: Nullable,
    targetTokenId: Nullable)

  datatype Resource = Resource(
    kind: ResourceType,
    orgId: Nullable,
    repositoryId: Nullable,
    repositoryName: Nullable,
    packageName: Nullable,
    artifactRef: Nullable,
    policy: Nullable,
    tokenTarget: Nullable,
    tokenId: Nullable,
    isPublic: bool)

  // ----- what one grant allows -----

  predicate PatternAllows(pattern: Nullable, name: Nullable) {
    IsSet(pattern) ==> IsSet(name) && PatternMatches(pattern.value, name.value)
  }

  predicate ScopeMatches(grant: GrantRow, resource: Resource) {
    if grant.permission.SystemAdmin? then
      && grant.orgId.None? && grant.repositoryId.None? && grant.repositoryPattern.None?
      && grant.packagePattern.None? && grant.artifactPattern.None? && grant.policy.None?
      && grant.tokenTarget.None? && grant.targetTokenId.None?
    else
      && IsSet(grant.orgId) && grant.orgId == resource.orgId
      && (IsSet(grant.repositoryId) ==> grant.repositoryId == resource.repositoryId)
      && PatternAllows(grant.repositoryPattern, resource.repositoryName)
      && PatternAllows(grant.packagePattern, resource.packageName)
      && PatternAllows(grant.artifactPattern, resource.artifactRef)
      && (IsSet(grant.policy) && grant.policy != Some("*") ==> grant.policy == resource.policy)
      && (IsSet(grant.tokenTarget) ==> grant.tokenTarget == resource.tokenTarget)
      && (IsSet(grant.targetTokenId) ==> grant.targetTokenId == resource.tokenId)
  }

  ghost predicate GrantAllows(grant: GrantRow, required: Permission, resource: Resource) {
    PermissionImplied(grant.permission, required) && ScopeMatches(grant, resource)
  }

  predicate Blank(t: Nullable) {
    t == None || t == Some("")
  }

  /** An administrator's row allows everything when nothing at all restricts it, and nothing otherwise. */
  lemma AdminRowAllowsIff(g: GrantRow, required: Permission, resource: Resource)
    requires g.permission.SystemAdmin?
    ensures GrantAllows(g, required, resource) <==>
            g == GrantRow(None, g.userId, g.groupId, g.tokenId, SystemAdmin, None, None, None, None, None, None, None)
  {
    ImpliedSelf(required);
  }

  /** Any other row allows what its permission implies, in its own organization, where none of its restrictions says otherwise. */
  lemma RowAllowsIff(g: GrantRow, required: Permission, resource: Resource)
    requires !g.permission.SystemAdmin?
    ensures GrantAllows(g, required, resource) <==>
            && Listed(g.permission, required)
            && !Blank(g.orgId) && g.orgId == resource.orgId
            && (Blank(g.repositoryId) || g.repositoryId == resource.repositoryId)
            && (Blank(g.repositoryPattern)
                || (!Blank(resource.repositoryName) && PatternMatches(g.repositoryPattern.value, resource.repositoryName.value)))
            && (Blank(g.packagePattern)
                || (!Blank(resource.packageName) && PatternMatches(g.packagePattern.value, resource.packageName.value)))
            && (Blank(g.artifactPattern)
                || (!Blank(resource.artifactRef) && PatternMatches(g.artifactPattern.value, resource.artifactRef.value)))
            && (Blank(g.policy) || g.policy == Some("*") || g.policy == resource.policy)
            && (Blank(g.tokenTarget) || g.tokenTarget == resource.tokenTarget)
            && (Blank(g.targetTokenId) || g.targetTokenId == resource.tokenId)
  {
    ImpliedIff(g.permission, required);
  }

  ghost predicate GrantsAllow(grants: set<GrantRow>, required: Permission, resource: Resource) {
    exists grant :: grant in grants && GrantAllows(grant, required, resource)
  }

  // ----- authorization -----

  datatype GroupMember = GroupMember(orgId: string, groupId: string, userId: string)

  /** The stored grants, group memberships and repositories authorization reads. */
  datatype Directory = Directory(
    grants: set<GrantRow>,
    groupMembers: set<GroupMember>,
    repositories: map<string, set<Repository>>)

  datatype Access = Access(kind: string, name: string, actions: set<string>)

  datatype Principal =
    | Anonymous
    | User(userId: string)
    | ApiToken(tokenId: string, orgId: string, ownerUserId: Nullable)
    | RegistryToken(access: set<Access>)

  datatype Decision = Allowed | Unauthenticated | CrossOrg | InsufficientScope

  function GrantsForUser(dir: Directory, userId: string, orgId: Nullable): set<GrantRow> {
    var direct := set g | g in dir.grants && g.userId == Some(userId)
                          && (IsSet(orgId) ==> g.orgId == orgId || g.orgId.None?);
    if !IsSet(orgId) then direct
    else
      direct + set g | g in dir.grants && g.groupId.Some? && g.orgId == orgId
                       && GroupMember(orgId.value, g.groupId.value, userId) in dir.groupMembers
  }

  function GrantsForPrincipal(dir: Directory, principal: Principal, orgId: Nullable): set<GrantRow> {
    match principal
    case User(userId) => GrantsForUser(dir, userId, orgId)
    case ApiToken(tokenId, _, _) => set g | g in dir.grants && g.tokenId == Some(tokenId)
    case _ => {}
  }

  function ActionName(action: Action): string {
    match action
    case Read => "read"
    case Write => "write"
    case Delete => "delete"
    case Admin => "admin"
  }

  ghost function Can(
    principal: Principal, action: Option<Action>, permission: Permission, resource: Resource, grants: set<GrantRow>)
    : Decision
  {
    match principal
    case Anonymous =>
      if && (permission.RepositoryRead? || permission.PackageRead? || permission.ArtifactRead?)
         && resource.isPublic
         && (resource.kind.RepositoryType? || resource.kind.PackageType? || resource.kind.ArtifactType?)
      then Allowed
      else Unauthenticated
    case RegistryToken(access) =>
      if && action.Some?
         && IsSet(resource.repositoryName)
         && exists a :: a in access && a.kind == "repository" && a.name == resource.repositoryName.value
                        && (ActionName(action.value) in a.actions || "*" in a.actions)
      then Allowed
      else InsufficientScope
    case ApiToken(_, orgId, _) =>
      if IsSet(resource.orgId) && orgId != resource.orgId.value then CrossOrg
      else if GrantsAllow(grants, permission, resource) then Allowed
      else InsufficientScope
    case User(_) =>
      if GrantsAllow(grants, permission, resource) then Allowed else InsufficientScope
  }

  /** `authorizePermission`, and `authorize` when an action is given. */
  ghost function Authorize(
    dir: Directory, principal: Principal, action: Option<Action>, permission: Permission, resource: Resource): Decision
  {
    var decision := Can(principal, action, permission, resource, GrantsForPrincipal(dir, principal, resource.orgId));
    if !decision.Allowed? || !principal.ApiToken? || !IsSet(principal.ownerUserId) then decision
    else
      var owner := Principal.User(principal.ownerUserId.value);
      if Can(owner, action, permission, resource, GrantsForPrincipal(dir, owner, resource.orgId)).Allowed?
      then decision
      else InsufficientScope
  }

  /** A row is the user's own, or that of a group of the request's organization the user is a member of. */
  predicate ReachesUser(dir: Directory, g: GrantRow, userId: string, resource: Resource) {
    || g.userId == Some(userId)
    || (g.groupId.Some? && IsSet(resource.orgId) && g.orgId == resource.orgId
        && GroupMember(resource.orgId.value, g.groupId.value, userId) in dir.groupMembers)
  }

  /** A row that allows a request is for the request's organization, or an administrator's for all. */
  lemma AllowingRowIsOfOrg(g: GrantRow, required: Permission, resource: Resource)
    requires GrantAllows(g, required, resource)
    ensures g.orgId == resource.orgId || g.orgId.None?
  {
  }

  /** A user may act exactly when some stored row that is theirs, directly or through a group, allows it. */
  lemma UserAllowedIff(
    dir: Directory, userId: string, action: Option<Action>, permission: Permission, resource: Resource)
    ensures Authorize(dir, Principal.User(userId), action, permission, resource) ==
            if exists g :: g in dir.grants && ReachesUser(dir, g, userId, resource) && GrantAllows(g, permission, resource)
            then Allowed else InsufficientScope
  {
    var held := GrantsForUser(dir, userId, resource.orgId);
    forall g | g in dir.grants && GrantAllows(g, permission, resource)
      ensures g in held <==> ReachesUser(dir, g, userId, resource)
    {
      AllowingRowIsOfOrg(g, permission, resource);
    }
  }

  /** Somebody unknown may read what is public, and nothing else. */
  lemma AnonymousAllowedIff(dir: Directory, action: Option<Action>, permission: Permission, resource: Resource)
    ensures Authorize(dir, Anonymous, action, permission, resource) ==
            if permission in {RepositoryRead, PackageRead, ArtifactRead} && resource.isPublic
               && resource.kind in {RepositoryType, PackageType, ArtifactType}
            then Allowed else Unauthenticated
  {
  }

  /** The words a registry token's access list allows an action by. */
  function Words(action: Action): set<string> {
    match action
    case Read => {"read", "*"}
    case Write => {"write", "*"}
    case Delete => {"delete", "*"}
    case Admin => {"admin", "*"}
  }

  /** A registry token may do what its own list says on a named repository; stored rows play no part. */
  lemma RegistryTokenAllowedIff(
    dir: Directory, access: set<Access>, action: Option<Action>, permission: Permission, resource: Resource)
    ensures Authorize(dir, RegistryToken(access), action, permission, resource) ==
            if action.Some? && IsSet(resource.repositoryName)
               && exists a :: a in access && a.kind == "repository" && a.name == resource.repositoryName.value
                              && a.actions * Words(action.value) != {}
            then Allowed else InsufficientScope
  {
    if action.Some? {
      assert forall a: Access, word :: word in a.actions * Words(action.value) ==>
          word == ActionName(action.value) || word == "*";
      assert forall a: Access :: ActionName(action.value) in a.actions || "*" in a.actions ==>
          ActionName(action.value) in a.actions * Words(action.value) || "*" in a.actions * Words(action.value);
    }
  }

  /** A token may act exactly when it stays in its organization and both its own grants and, if it has an owner, the owner's allow it. */
  lemma TokenAllowedIff(
    dir: Directory, token: Principal, action: Option<Action>, permission: Permission, resource: Resource)
    requires token.ApiToken?
    ensures Authorize(dir, token, action, permission, resource).Allowed? <==>
            && (IsSet(resource.orgId) ==> resource.orgId.value == token.orgId)
            && (exists g :: g in dir.grants && g.tokenId == Some(token.tokenId) && GrantAllows(g, permission, resource))
            && (IsSet(token.ownerUserId) ==>
                  exists g :: && g in dir.grants && ReachesUser(dir, g, token.ownerUserId.value, resource)
                              && GrantAllows(g, permission, resource))
    ensures Authorize(dir, token, action, permission, resource).CrossOrg? <==>
            IsSet(resource.orgId) && resource.orgId.value != token.orgId
    ensures !Authorize(dir, token, action, permission, resource).Unauthenticated?
  {
    var own := GrantsForPrincipal(dir, token, resource.orgId);
    assert forall g :: g in own <==> g in dir.grants && g.tokenId == Some(token.tokenId);
    if IsSet(token.ownerUserId) {
      UserAllowedIff(dir, token.ownerUserId.value, action, permission, resource);
    }
  }

  // ----- handing out grants -----

  /** A grant as a caller asks for it, before it becomes a row. */
  datatype TokenGrant = TokenGrant(
    permission: Permission,
    repository: Nullable,
    package: Nullable,
    artifact: Nullable,
    policy: Nullable,
    tokenTarget: Nullable,
    tokenId: Nullable)

  function OrElse(t: Nullable, default: string): Nullable {
    if t.Some? then t else Some(default)
  }

  const NO_RESOURCE := Resource(SystemType, None, None, None, None, None, None, None, None, false)

  function ResourceForGrant(grant: TokenGrant, orgId: string, repo: Option<Repository>): Resource {
    var id := if repo.Some? then Some(repo.value.id) else None;
    var name := if repo.Some? then Some(repo.value.name) else None;
    var nameOrPattern := if repo.Some? then Some(repo.value.name) else grant.repository;
    var org := NO_RESOURCE.(orgId := Some(orgId));
    match FamilyOf(grant.permission)
    case System => NO_RESOURCE
    case User => NO_RESOURCE
    case Token => org.(kind := TokenType, tokenTarget := OrElse(grant.tokenTarget, "org"), tokenId := grant.tokenId)
    case Policy => org.(kind := PolicyType, repositoryId := id, repositoryName := name, policy := grant.policy)
    case Repo => org.(kind := RepositoryType, repositoryId := id, repositoryName := nameOrPattern)
    case Package =>
      org.(kind := PackageType, repositoryId := id, repositoryName := nameOrPattern, packageName := OrElse(grant.package, "*"))
    case Artifact =>
      org.(kind := ArtifactType, repositoryId := id, repositoryName := nameOrPattern, artifactRef := OrElse(grant.artifact, "*"))
    case _ => org.(kind := OrgType)
  }

  function KindOf(family: Family): ResourceType {
    match family
    case Repo => RepositoryType
    case Package => PackageType
    case Artifact => ArtifactType
    case Policy => PolicyType
    case Token => TokenType
    case System | User => SystemType
    case _ => OrgType
  }

  /** What a grant is checked as: its organization's resource of its family's kind, carrying what the grant is restricted to. */
  lemma CheckedAs(grant: TokenGrant, orgId: string, repo: Option<Repository>)
    ensures var r, family := ResourceForGrant(grant, orgId, repo), FamilyOf(grant.permission);
            && r.kind == KindOf(family)
            && r.orgId == (if family.System? || family.User? then None else Some(orgId))
            && r.policy == (if family.Policy? then grant.policy else None)
            && r.tokenId == (if family.Token? then grant.tokenId else None)
            && r.tokenTarget == (if !family.Token? then None else if grant.tokenTarget.Some? then grant.tokenTarget else Some("org"))
            && r.packageName == (if !family.Package? then None else if grant.package.Some? then grant.package else Some("*"))
            && r.artifactRef == (if !family.Artifact? then None else if grant.artifact.Some? then grant.artifact else Some("*"))
            && (family.Repo? || family.Package? || family.Artifact? || family.Policy? ==>
                  match repo
                  case Some(found) => r.repositoryId == Some(found.id) && r.repositoryName == Some(found.name)
                  case None => r.repositoryId == None && r.repositoryName == if family.Policy? then None else grant.repository)
            && (!(family.Repo? || family.Package? || family.Artifact? || family.Policy?) ==>
                  r.repositoryId == None && r.repositoryName == None)
  {
  }

  datatype Refusal = LoginRequired | SystemAdminRefused | BeyondAccess(permission: Permission)

  function RepositoriesOf(dir: Directory, orgId: string): set<Repository> {
    if orgId in dir.repositories then dir.repositories[orgId] else {}
  }

  /** The repositories a grant is checked against: those its pattern may target, or none in particular. */
  function Targets(dir: Directory, orgId: string, grant: TokenGrant): (targets: set<Option<Repository>>)
    ensures targets != {}
  {
    if !IsSet(grant.repository) then {None}
    else
      var matching := set repo | repo in RepositoriesOf(dir, orgId) && ScopeMayTargetRepo(grant.repository.value, repo) :: Some(repo);
      if matching == {} then {None} else matching
  }

  ghost predicate CanGrant(dir: Directory, principal: Principal, permission: Permission, resource: Resource) {
    principal.User? && Authorize(dir, principal, None, permission, resource).Allowed?
  }

  ghost function ValidateGrant(
    dir: Directory, principal: Principal, orgId: string, grant: TokenGrant, allowSystemAdmin: bool): Option<Refusal>
  {
    if grant.permission.SystemAdmin? && !allowSystemAdmin then Some(SystemAdminRefused)
    else if forall repo :: repo in Targets(dir, orgId, grant) ==>
                             CanGrant(dir, principal, grant.permission, ResourceForGrant(grant, orgId, repo))
    then None
    else Some(BeyondAccess(grant.permission))
  }

  /** `validateAssignablePermissionGrants`: the first refusal, or none. */
  ghost function ValidateAssignable(
    dir: Directory, principal: Principal, orgId: string, grants: seq<TokenGrant>, allowSystemAdmin: bool): Option<Refusal>
    decreases |grants|
  {
    if !principal.User? then Some(LoginRequired)
    else if grants == [] then None
    else
      var first := ValidateGrant(dir, principal, orgId, grants[0], allowSystemAdmin);
      if first.Some? then first else ValidateAssignable(dir, principal, orgId, grants[1..], allowSystemAdmin)
  }

  lemma {:induction false} ValidatedEach(
    dir: Directory, principal: Principal, orgId: string, grants: seq<TokenGrant>, allowSystemAdmin: bool)
    requires principal.User?
    ensures ValidateAssignable(dir, principal, orgId, grants, allowSystemAdmin).None? <==>
            forall g :: g in grants ==> ValidateGrant(dir, principal, orgId, g, allowSystemAdmin).None?
    decreases |grants|
  {
    if grants != [] {
      assert grants[0] in grants;
      assert forall g :: g in grants <==> g == grants[0] || g in grants[1..];
      ValidatedEach(dir, principal, orgId, grants[1..], allowSystemAdmin);
    }
  }

  /** The row a handed-out grant is stored as, for whichever subject receives it. */
  function RowOf(grant: TokenGrant, orgId: string): GrantRow {
    GrantRow(Some(orgId), None, None, None, grant.permission, None, grant.repository, grant.package, grant.artifact,
             grant.policy, grant.tokenTarget, grant.tokenId)
  }

  // ----- no grant exceeds its giver -----

  predicate UsesRepository(family: Family) {
    family.Policy? || family.Repo? || family.Package? || family.Artifact?
  }

  /** The resource carries the name its permission is about. */
  predicate Named(required: Permission, resource: Resource) {
    && (FamilyOf(required).Package? ==> IsSet(resource.packageName))
    && (FamilyOf(required).Artifact? ==> IsSet(resource.artifactRef))
  }

  /**
   The resource lies in a repository that exists now; or the grant's pattern targets no existing
   repository, so that it was checked as a pattern and not repository by repository.
   */
  predicate InCheckedRepository(dir: Directory, orgId: string, grant: TokenGrant, resource: Resource) {
    UsesRepository(FamilyOf(grant.permission)) && IsSet(grant.repository) ==>
      || Targets(dir, orgId, grant) == {None}
      || exists repo :: repo in RepositoriesOf(dir, orgId)
                        && resource.repositoryId == Some(repo.id) && resource.repositoryName == Some(repo.name)
  }

  /** The grant itself says which packages or artifacts it is about. */
  predicate NamesItsOwn(grant: TokenGrant) {
    && (FamilyOf(grant.permission).Package? ==> grant.package.Some?)
    && (FamilyOf(grant.permission).Artifact? ==> grant.artifact.Some?)
  }

  /** No pattern among these grants has a literal part ending in a star. */
  predicate SoundPatterns(grants: set<GrantRow>) {
    forall g :: g in grants ==>
      && (IsSet(g.repositoryPattern) ==> StarOnlyLast(g.repositoryPattern.value))
      && (IsSet(g.packagePattern) ==> StarOnlyLast(g.packagePattern.value))
      && (IsSet(g.artifactPattern) ==> StarOnlyLast(g.artifactPattern.value))
  }

  /** A token permission says whose tokens it is about. */
  predicate TargetNamed(grant: TokenGrant) {
    FamilyOf(grant.permission).Token? ==> grant.tokenTarget.Some?
  }

  lemma PatternCarriesOver(held: Nullable, given: Nullable, name: Nullable)
    requires IsSet(held) ==> StarOnlyLast(held.value)
    requires PatternAllows(held, given) && PatternAllows(given, name)
    ensures PatternAllows(held, name)
  {
    if IsSet(held) {
      MatchContains(held.value, given.value, name.value);
    }
  }

  /** The repository part of a scope carries over from the checked resource. */
  ghost predicate SameRepository(grant: TokenGrant, repo: Option<Repository>, resource: Resource) {
    UsesRepository(FamilyOf(grant.permission)) && repo.Some? ==>
      resource.repositoryId == Some(repo.value.id) && resource.repositoryName == Some(repo.value.name)
  }

  lemma RepositoryCarriesOver(
    held: GrantRow, grant: TokenGrant, orgId: string, repo: Option<Repository>, resource: Resource)
    requires UsesRepository(FamilyOf(grant.permission)) && !held.permission.SystemAdmin?
    requires SoundPatterns({held}) && SameRepository(grant, repo, resource)
    requires ScopeMatches(held, ResourceForGrant(grant, orgId, repo)) && ScopeMatches(RowOf(grant, orgId), resource)
    ensures PatternAllows(held.repositoryPattern, resource.repositoryName)
  {
    assert held in {held};
    if repo.None? {
      PatternCarriesOver(held.repositoryPattern, grant.repository, resource.repositoryName);
    }
  }

  lemma PackageCarriesOver(
    held: GrantRow, grant: TokenGrant, orgId: string, repo: Option<Repository>, resource: Resource)
    requires FamilyOf(grant.permission).Package? && !held.permission.SystemAdmin?
    requires SoundPatterns({held}) && (grant.package.Some? || IsSet(resource.packageName))
    requires ScopeMatches(held, ResourceForGrant(grant, orgId, repo)) && ScopeMatches(RowOf(grant, orgId), resource)
    ensures PatternAllows(held.packagePattern, resource.packageName)
  {
    assert held in {held};
    PatternCarriesOver(held.packagePattern, ResourceForGrant(grant, orgId, repo).packageName, resource.packageName);
  }

  lemma ArtifactCarriesOver(
    held: GrantRow, grant: TokenGrant, orgId: string, repo: Option<Repository>, resource: Resource)
    requires FamilyOf(grant.permission).Artifact? && !held.permission.SystemAdmin?
    requires SoundPatterns({held}) && (grant.artifact.Some? || IsSet(resource.artifactRef))
    requires ScopeMatches(held, ResourceForGrant(grant, orgId, repo)) && ScopeMatches(RowOf(grant, orgId), resource)
    ensures PatternAllows(held.artifactPattern, resource.artifactRef)
  {
    assert held in {held};
    PatternCarriesOver(held.artifactPattern, ResourceForGrant(grant, orgId, repo).artifactRef, resource.artifactRef);
  }

  /** What is not a pattern is compared for equality, on the check and on the request. */
  lemma OthersCarryOver(held: GrantRow, grant: TokenGrant, orgId: string, repo: Option<Repository>, resource: Resource)
    requires !held.permission.SystemAdmin? && TargetNamed(grant) && SameRepository(grant, repo, resource)
    requires ScopeMatches(held, ResourceForGrant(grant, orgId, repo)) && ScopeMatches(RowOf(grant, orgId), resource)
    ensures IsSet(held.orgId) && held.orgId == resource.orgId
    ensures IsSet(held.repositoryId) ==> held.repositoryId == resource.repositoryId
    ensures IsSet(held.policy) && held.policy != Some("*") ==> held.policy == resource.policy
    ensures IsSet(held.tokenTarget) ==> held.tokenTarget == resource.tokenTarget
    ensures IsSet(held.targetTokenId) ==> held.targetTokenId == resource.tokenId
  {
  }

  /** A giver's grant that covers the checked resource covers every resource the new row matches. */
  lemma HeldCoversGiven(held: GrantRow, grant: TokenGrant, orgId: string, repo: Option<Repository>, resource: Resource)
    requires !held.permission.SystemAdmin?
    requires SoundPatterns({held}) && TargetNamed(grant)
    requires ScopeMatches(held, ResourceForGrant(grant, orgId, repo))
    requires ScopeMatches(RowOf(grant, orgId), resource)
    requires FamilyOf(grant.permission).Package? ==> grant.package.Some? || IsSet(resource.packageName)
    requires FamilyOf(grant.permission).Artifact? ==> grant.artifact.Some? || IsSet(resource.artifactRef)
    requires SameRepository(grant, repo, resource)
    ensures ScopeMatches(held, resource)
  {
    var family := FamilyOf(grant.permission);
    OthersCarryOver(held, grant, orgId, repo, resource);
    if UsesRepository(family) {
      RepositoryCarriesOver(held, grant, orgId, repo, resource);
    }
    if family.Package? {
      PackageCarriesOver(held, grant, orgId, repo, resource);
    } else if family.Artifact? {
      ArtifactCarriesOver(held, grant, orgId, repo, resource);
    }
  }

  /** The repository whose check speaks for the resource. */
  lemma CheckedTarget(dir: Directory, orgId: string, grant: TokenGrant, resource: Resource) returns (repo: Option<Repository>)
    requires ScopeMatches(RowOf(grant, orgId), resource)
    requires InCheckedRepository(dir, orgId, grant, resource)
    ensures repo in Targets(dir, orgId, grant)
    ensures SameRepository(grant, repo, resource)
  {
    if UsesRepository(FamilyOf(grant.permission)) && IsSet(grant.repository) && Targets(dir, orgId, grant) != {None} {
      var r :| r in RepositoriesOf(dir, orgId)
               && resource.repositoryId == Some(r.id) && resource.repositoryName == Some(r.name);
      assert ScopeMayTargetRepo(grant.repository.value, r);
      repo := Some(r);
    } else {
      repo :| repo in Targets(dir, orgId, grant);
    }
  }

  /**
   No grant exceeds its giver. Whatever the handed-out rows allow in a checked repository, the giver
   was already allowed, when the giver's own patterns are sound, a token grant names its target, and
   a package or artifact is named by the grant or the request.
   */
  lemma NoGrantExceedsGiver(
    dir: Directory, giver: Principal, orgId: string, grants: seq<TokenGrant>, allowSystemAdmin: bool,
    grant: TokenGrant, required: Permission, resource: Resource)
    requires ValidateAssignable(dir, giver, orgId, grants, allowSystemAdmin).None? && grant in grants
    requires SoundPatterns(GrantsForPrincipal(dir, giver, Some(orgId))) && TargetNamed(grant)
    requires (NamesItsOwn(grant) || Named(required, resource)) && InCheckedRepository(dir, orgId, grant, resource)
    requires GrantAllows(RowOf(grant, orgId), required, resource)
    ensures Authorize(dir, giver, None, required, resource).Allowed?
  {
    var repo := CheckedTarget(dir, orgId, grant, resource);
    var held := BehindTheCheck(dir, giver, orgId, grants, allowSystemAdmin, grant, repo);
    HeldAllows(held, grant, orgId, repo, required, resource);
  }

  /** A check that passed rests on some grant of the giver. */
  lemma BehindTheCheck(
    dir: Directory, giver: Principal, orgId: string, grants: seq<TokenGrant>, allowSystemAdmin: bool,
    grant: TokenGrant, repo: Option<Repository>) returns (held: GrantRow)
    requires ValidateAssignable(dir, giver, orgId, grants, allowSystemAdmin).None? && grant in grants
    requires repo in Targets(dir, orgId, grant)
    ensures giver.User? && held in dir.grants && held in GrantsForUser(dir, giver.userId, Some(orgId))
    ensures GrantAllows(held, grant.permission, ResourceForGrant(grant, orgId, repo))
  {
    ValidatedEach(dir, giver, orgId, grants, allowSystemAdmin);
    var checked := ResourceForGrant(grant, orgId, repo);
    assert CanGrant(dir, giver, grant.permission, checked);
    held := GrantBehind(dir, giver, grant.permission, checked);
    FromOneOrg(dir, giver.userId, held, orgId, checked);
  }

  lemma GrantBehind(dir: Directory, giver: Principal, permission: Permission, checked: Resource) returns (held: GrantRow)
    requires CanGrant(dir, giver, permission, checked)
    ensures held in GrantsForUser(dir, giver.userId, checked.orgId) && GrantAllows(held, permission, checked)
  {
    held :| held in GrantsForUser(dir, giver.userId, checked.orgId) && GrantAllows(held, permission, checked);
  }

  /** The grants looked at without an organization are among those looked at with one, when they allow anything at all. */
  lemma FromOneOrg(dir: Directory, userId: string, held: GrantRow, orgId: string, checked: Resource)
    requires checked.orgId == Some(orgId) || !IsSet(checked.orgId)
    requires held in GrantsForUser(dir, userId, checked.orgId) && ScopeMatches(held, checked)
    ensures held in dir.grants && held in GrantsForUser(dir, userId, Some(orgId))
  {
  }

  /** The giver's grant behind the check allows what the new row allows. */
  lemma HeldAllows(
    held: GrantRow, grant: TokenGrant, orgId: string, repo: Option<Repository>, required: Permission, resource: Resource)
    requires SoundPatterns({held}) && TargetNamed(grant) && SameRepository(grant, repo, resource)
    requires GrantAllows(held, grant.permission, ResourceForGrant(grant, orgId, repo))
    requires GrantAllows(RowOf(grant, orgId), required, resource) && (NamesItsOwn(grant) || Named(required, resource))
    ensures GrantAllows(held, required, resource)
  {
    ImpliedVia(held.permission, grant.permission, required);
    if Named(required, resource) {
      FamilyNamed(grant.permission, required, resource);
    }
    if grant.permission.SystemAdmin? {
      OnlyAdminImpliesAdmin(held.permission);
    }
    if !held.permission.SystemAdmin? {
      HeldCoversGiven(held, grant, orgId, repo, resource);
    }
  }

  lemma FamilyNamed(granted: Permission, required: Permission, resource: Resource)
    requires PermissionImplied(granted, required) && Named(required, resource)
    ensures FamilyOf(granted).Package? ==> IsSet(resource.packageName)
    ensures FamilyOf(granted).Artifact? ==> IsSet(resource.artifactRef)
  {
    ImpliedFamily(granted, required);
  }
}
