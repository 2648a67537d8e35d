/** The permission keys, what each one implies directly, and the permission an action needs. */
module Permissions {
  import opened ImplicationGraph

  datatype Permission =
    | SystemAdmin
    | OrgRead | OrgUpdate | OrgDelete | OrgMemberRead | OrgMemberManage
    | UserRead | UserCreate | UserUpdate | UserDeactivate | UserResetPassword
    | GroupRead | GroupCreate | GroupUpdate | GroupDelete | GroupMemberManage | GroupPermissionManage
    | PermissionRead | PermissionGrant
    | RepositoryRead | RepositoryCreate | RepositoryUpdate | RepositoryWrite | RepositoryDelete
    | RepositoryPermissionManage
    | PackageRead | PackageWrite | PackageDelete
    | ArtifactRead | ArtifactWrite | ArtifactDelete
    | PolicyRead | PolicyWrite | PolicyDelete
    | TokenRead | TokenCreate | TokenRotate | TokenRevoke

  /** The first segment of a key, which is all the code ever tests of it. */
  datatype Family = System | Org | User | Group | PermissionFamily | Repo | Package | Artifact | Policy | Token

  function FamilyOf(p: Permission): Family {
    match p
    case SystemAdmin => System
    case OrgRead | OrgUpdate | OrgDelete | OrgMemberRead | OrgMemberManage => Org
    case UserRead | UserCreate | UserUpdate | UserDeactivate | UserResetPassword => User
    case GroupRead | GroupCreate | GroupUpdate | GroupDelete | GroupMemberManage | GroupPermissionManage => Group
    case PermissionRead | PermissionGrant => PermissionFamily
    case RepositoryRead | RepositoryCreate | RepositoryUpdate | RepositoryWrite | RepositoryDelete
       | RepositoryPermissionManage => Repo
    case PackageRead | PackageWrite | PackageDelete => Package
    case ArtifactRead | ArtifactWrite | ArtifactDelete => Artifact
    case PolicyRead | PolicyWrite | PolicyDelete => Policy
    case TokenRead | TokenCreate | TokenRotate | TokenRevoke => Token
  }

  function DirectlyImplied(p: Permission): seq<Permission> {
    match p
    case OrgMemberManage => [OrgMemberRead]
    case GroupCreate | GroupUpdate | GroupDelete | GroupMemberManage => [GroupRead]
    case PermissionGrant => [PermissionRead]
    case UserCreate | UserUpdate | UserDeactivate | UserResetPassword => [UserRead]
    case RepositoryCreate | RepositoryUpdate | RepositoryPermissionManage => [RepositoryRead]
    case RepositoryWrite => [RepositoryRead, PackageWrite, ArtifactWrite]
    case RepositoryDelete => [RepositoryRead, PackageDelete, ArtifactDelete]
    case RepositoryRead => [PackageRead, ArtifactRead]
    case PackageWrite | PackageDelete => [PackageRead]
    case ArtifactWrite | ArtifactDelete => [ArtifactRead]
    case PolicyWrite | PolicyDelete => [PolicyRead]
    case TokenRotate | TokenRevoke => [TokenRead]
    case _ => []
  }

  const DIRECT_IMPLICATIONS: Graph<Permission> := map p: Permission | DirectlyImplied(p) != [] :: DirectlyImplied(p)

  ghost predicate PermissionImplied(granted: Permission, required: Permission) {
    Implies(DIRECT_IMPLICATIONS, SystemAdmin, granted, required)
  }

  method PermissionImplies(granted: Permission, required: Permission) returns (r: bool)
    ensures r <==> PermissionImplied(granted, required)
  {
    r := Decide(DIRECT_IMPLICATIONS, SystemAdmin, granted, required);
  }

  /** Which families a permission of a family can reach: only repository permissions cross over. */
  predicate MayImplyFamily(from: Family, to: Family) {
    from == to || (from.Repo? && (to.Package? || to.Artifact?))
  }

  lemma DirectStaysInFamily(p: Permission, q: Permission)
    requires q in Direct(DIRECT_IMPLICATIONS, p)
    ensures MayImplyFamily(FamilyOf(p), FamilyOf(q))
  {
    var i :| 0 <= i < |DirectlyImplied(p)| && DirectlyImplied(p)[i] == q;
    ListedStaysInFamily(p, i);
  }

  lemma ListedStaysInFamily(p: Permission, i: nat)
    requires i < |DirectlyImplied(p)|
    ensures MayImplyFamily(FamilyOf(p), FamilyOf(DirectlyImplied(p)[i]))
  {
    assert i == 0 || i == 1 || i == 2;
  }

  lemma {:induction false} PathStaysInFamily(path: seq<Permission>, p: Permission, q: Permission)
    requires PathFromTo(DIRECT_IMPLICATIONS, path, p, q)
    ensures MayImplyFamily(FamilyOf(p), FamilyOf(q))
    decreases |path|
  {
    if |path| > 1 {
      var rest := path[1..];
      assert path[1] in Direct(DIRECT_IMPLICATIONS, path[0]);
      DirectStaysInFamily(path[0], path[1]);
      forall i | 0 <= i < |rest| - 1
        ensures rest[i + 1] in Direct(DIRECT_IMPLICATIONS, rest[i])
      {
        assert path[i + 2] in Direct(DIRECT_IMPLICATIONS, path[i + 1]);
      }
      PathStaysInFamily(rest, path[1], q);
    }
  }

  /** Short of system.admin, a permission implies only its own family (a repository one also packages and artifacts). */
  lemma ImpliedFamily(p: Permission, q: Permission)
    requires PermissionImplied(p, q)
    ensures p.SystemAdmin? || MayImplyFamily(FamilyOf(p), FamilyOf(q))
  {
    if Reaches(DIRECT_IMPLICATIONS, p, q) {
      var path :| PathFromTo(DIRECT_IMPLICATIONS, path, p, q);
      PathStaysInFamily(path, p, q);
    } else {
      var path :| PathFromTo(DIRECT_IMPLICATIONS, path, p, SystemAdmin);
      PathStaysInFamily(path, p, SystemAdmin);
    }
  }

  lemma ImpliedVia(p: Permission, q: Permission, r: Permission)
    requires PermissionImplied(p, q) && PermissionImplied(q, r)
    ensures PermissionImplied(p, r)
  {
    ImpliesIsPreorder(DIRECT_IMPLICATIONS, SystemAdmin, p, q, r);
  }

  lemma ImpliedSelf(p: Permission)
    ensures PermissionImplied(p, p)
    ensures PermissionImplied(SystemAdmin, p)
  {
    ImpliesIsPreorder(DIRECT_IMPLICATIONS, SystemAdmin, p, p, p);
  }

  /** Nothing but system.admin itself implies system.admin. */
  lemma OnlyAdminImpliesAdmin(p: Permission)
    requires PermissionImplied(p, SystemAdmin)
    ensures p.SystemAdmin?
  {
    ImpliedFamily(p, SystemAdmin);
  }

  // ----- the whole relation -----

  /** Some permission, short of the administrator's, implies another: every chain written out. */
  predicate Above(granted: Permission, required: Permission) {
    match required
    case OrgMemberRead => granted.OrgMemberManage?
    case GroupRead => granted.GroupCreate? || granted.GroupUpdate? || granted.GroupDelete? || granted.GroupMemberManage?
    case PermissionRead => granted.PermissionGrant?
    case UserRead => granted.UserCreate? || granted.UserUpdate? || granted.UserDeactivate? || granted.UserResetPassword?
    case RepositoryRead => ChangesRepositories(granted)
    case PackageRead => ChangesRepositories(granted) || granted.RepositoryRead? || granted.PackageWrite? || granted.PackageDelete?
    case ArtifactRead =>
      ChangesRepositories(granted) || granted.RepositoryRead? || granted.ArtifactWrite? || granted.ArtifactDelete?
    case PackageWrite | ArtifactWrite => granted.RepositoryWrite?
    case PackageDelete | ArtifactDelete => granted.RepositoryDelete?
    case PolicyRead => granted.PolicyWrite? || granted.PolicyDelete?
    case TokenRead => granted.TokenRotate? || granted.TokenRevoke?
    case _ => false
  }

  predicate ChangesRepositories(p: Permission) {
    || p.RepositoryCreate? || p.RepositoryUpdate? || p.RepositoryWrite? || p.RepositoryDelete?
    || p.RepositoryPermissionManage?
  }

  predicate Listed(granted: Permission, required: Permission) {
    granted == required || granted.SystemAdmin? || Above(granted, required)
  }

  /** One step of the table, on the list and off it. */
  lemma DirectIffStep(p: Permission, q: Permission)
    ensures q in Direct(DIRECT_IMPLICATIONS, p) <==> q in DirectlyImplied(p)
  {
  }

  lemma DirectIsAbove(p: Permission, i: nat)
    requires i < |DirectlyImplied(p)|
    ensures Above(p, DirectlyImplied(p)[i])
  {
    assert i == 0 || i == 1 || i == 2;
  }

  lemma AboveTwice(p: Permission, q: Permission, r: Permission)
    requires Above(p, q) && Above(q, r)
    ensures Above(p, r)
  {
  }

  /** What is below something that a permission implies directly is below that permission. */
  lemma ListedStep(p: Permission, i: nat, r: Permission)
    requires i < |DirectlyImplied(p)| && Listed(DirectlyImplied(p)[i], r)
    ensures Listed(p, r)
  {
    DirectIsAbove(p, i);
    if Above(DirectlyImplied(p)[i], r) {
      AboveTwice(p, DirectlyImplied(p)[i], r);
    }
  }

  lemma {:induction false} PathIsListed(path: seq<Permission>, p: Permission, q: Permission)
    requires PathFromTo(DIRECT_IMPLICATIONS, path, p, q)
    ensures Listed(p, q)
    decreases |path|
  {
    if |path| > 1 {
      var rest := path[1..];
      assert path[1] in Direct(DIRECT_IMPLICATIONS, path[0]);
      DirectIffStep(p, path[1]);
      var i :| 0 <= i < |DirectlyImplied(p)| && DirectlyImplied(p)[i] == path[1];
      forall k | 0 <= k < |rest| - 1
        ensures rest[k + 1] in Direct(DIRECT_IMPLICATIONS, rest[k])
      {
        assert path[k + 2] in Direct(DIRECT_IMPLICATIONS, path[k + 1]);
      }
      PathIsListed(rest, path[1], q);
      ListedStep(p, i, q);
    }
  }

  lemma ChangesReadRepositories(p: Permission)
    requires ChangesRepositories(p)
    ensures RepositoryRead in DirectlyImplied(p)
  {
    assert DirectlyImplied(p)[0] == RepositoryRead;
  }

  lemma AboveDirectlyOrVia(p: Permission, q: Permission)
    requires Above(p, q)
    ensures q in DirectlyImplied(p) || (ChangesRepositories(p) && (q.PackageRead? || q.ArtifactRead?))
  {
    if !(ChangesRepositories(p) && (q.PackageRead? || q.ArtifactRead?)) {
      var implied := DirectlyImplied(p);
      assert implied[0] == q || (|implied| == 2 && implied[1] == q) || (|implied| == 3 && (implied[1] == q || implied[2] == q));
    }
  }

  /** A permission above another implies it directly, or through reading repositories. */
  lemma AboveIsImplied(p: Permission, q: Permission)
    requires Above(p, q)
    ensures PermissionImplied(p, q)
  {
    AboveDirectlyOrVia(p, q);
    if q in DirectlyImplied(p) {
      DirectIffStep(p, q);
      ReachesChild(DIRECT_IMPLICATIONS, p, q);
    } else {
      ChangesReadRepositories(p);
      DirectIffStep(p, RepositoryRead);
      DirectIffStep(RepositoryRead, q);
      ReachesChild(DIRECT_IMPLICATIONS, p, RepositoryRead);
      ReachesChild(DIRECT_IMPLICATIONS, RepositoryRead, q);
      ReachesVia(DIRECT_IMPLICATIONS, p, RepositoryRead, q);
    }
  }

  lemma ImpliedIsListed(granted: Permission, required: Permission)
    requires PermissionImplied(granted, required)
    ensures Listed(granted, required)
  {
    if Reaches(DIRECT_IMPLICATIONS, granted, required) {
      var path :| PathFromTo(DIRECT_IMPLICATIONS, path, granted, required);
      PathIsListed(path, granted, required);
    } else {
      OnlyAdminImpliesAdmin(granted);
    }
  }

  lemma ListedIsImplied(granted: Permission, required: Permission)
    requires Listed(granted, required)
    ensures PermissionImplied(granted, required)
  {
    if granted == required || granted.SystemAdmin? {
      ImpliedSelf(required);
    } else {
      AboveIsImplied(granted, required);
    }
  }

  /** The closure of the table, written out without a search. */
  lemma ImpliedIff(granted: Permission, required: Permission)
    ensures PermissionImplied(granted, required) <==> Listed(granted, required)
  {
    if PermissionImplied(granted, required) {
      ImpliedIsListed(granted, required);
    }
    if Listed(granted, required) {
      ListedIsImplied(granted, required);
    }
  }

  datatype Action = Read | Write | Delete | Admin

  datatype ResourceType = OrgType | RepositoryType | PackageType | ArtifactType | PolicyType | TokenType | SystemType

  function PermissionForAction(action: Action, resource: ResourceType): Permission {
    match resource
    case SystemType => SystemAdmin
    case TokenType =>
      (match action case Read => TokenRead case Write => TokenRotate case Delete => TokenRevoke case Admin => TokenCreate)
    case OrgType =>
      (match action case Read => OrgRead case Delete => OrgDelete case _ => OrgUpdate)
    case RepositoryType =>
      (match action case Read => RepositoryRead case Write => RepositoryWrite case Delete => RepositoryDelete
       case Admin => RepositoryPermissionManage)
    case PolicyType =>
      (match action case Read => PolicyRead case Delete => PolicyDelete case _ => PolicyWrite)
    case PackageType =>
      (match action case Read => PackageRead case Delete => PackageDelete case _ => PackageWrite)
    case ArtifactType =>
      (match action case Read => ArtifactRead case Delete => ArtifactDelete case _ => ArtifactWrite)
  }

  /** Whoever may write or delete content may also read it. */
  lemma StrongerActionsImplyRead(action: Action, resource: ResourceType)
    requires action.Write? || action.Delete?
    requires !resource.OrgType?
    ensures PermissionImplied(PermissionForAction(action, resource), PermissionForAction(Read, resource))
  {
    var p := PermissionForAction(action, resource);
    var read := PermissionForAction(Read, resource);
    if resource.SystemType? {
      ImpliedSelf(p);
    } else {
      assert read in Direct(DIRECT_IMPLICATIONS, p);
      ReachesChild(DIRECT_IMPLICATIONS, p, read);
    }
  }

  function FamilyFor(resource: ResourceType): Family {
    match resource
    case OrgType => Org
    case RepositoryType => Repo
    case PackageType => Package
    case ArtifactType => Artifact
    case PolicyType => Policy
    case TokenType => Token
    case SystemType => System
  }

  /** An action asks for a permission of its resource's own family. */
  lemma ActionsKeepFamily(action: Action, resource: ResourceType)
    ensures FamilyOf(PermissionForAction(action, resource)) == FamilyFor(resource)
  {
  }

  /**
   Which action's permission covers which other action's, on one resource: reading is covered by
   writing and deleting, and on repositories by administering; nothing covers deleting; administering
   is the same as writing but for repositories and tokens. Organizations separate them all.
   */
  lemma ActionCoversIff(a: Action, b: Action, resource: ResourceType)
    requires !resource.SystemType?
    ensures PermissionImplied(PermissionForAction(a, resource), PermissionForAction(b, resource)) <==>
            || a == b
            || (b.Read? && !resource.OrgType? && (a.Write? || a.Delete? || (a.Admin? && !resource.TokenType?)))
            || (a != Read && a != Delete && b != Read && b != Delete && !resource.RepositoryType? && !resource.TokenType?)
  {
    ImpliedIff(PermissionForAction(a, resource), PermissionForAction(b, resource));
  }
}
