/**
 What a user may do, row by row: org memberships, group memberships and direct grants; and which of
 these rows outlive the things they refer to.
 */
module AccessRows {
  import opened Options

  type Id = nat

  /** The optional text columns of a grant. */
  datatype Detail = Detail(
    repositoryPattern: Option<string>, packagePattern: Option<string>, artifactPattern: Option<string>,
    policy: Option<string>, tokenTarget: Option<string>)

  datatype Grant = Grant(
    org: Option<Id>, permission: string, repo: Option<Id>, detail: Detail, token: Option<Id>,
    grantedBy: Option<Id>, source: Option<string>)

  /** The unique index on a user's grants: absent text counts as empty; who granted it and from where do not count. */
  datatype Scope = Scope(org: Option<Id>, permission: string, repo: Option<Id>, texts: seq<string>, token: Option<Id>)

  function Coalesce(text: Option<string>): string {
    if text.None? then "" else text.value
  }

  function ScopeOf(g: Grant): Scope {
    var d := g.detail;
    Scope(g.org, g.permission, g.repo,
          [Coalesce(d.repositoryPattern), Coalesce(d.packagePattern), Coalesce(d.artifactPattern),
           Coalesce(d.policy), Coalesce(d.tokenTarget)], g.token)
  }

  predicate Blank(text: Option<string>) {
    text == None || text == Some("")
  }

  predicate SameText(a: Option<string>, b: Option<string>) {
    a == b || (Blank(a) && Blank(b))
  }

  /** Two grants collide under the index exactly when they differ in nothing but who granted them, from where, and empty for absent text. */
  lemma SameScopeIff(g: Grant, h: Grant)
    ensures ScopeOf(g) == ScopeOf(h) <==>
            && g.org == h.org && g.permission == h.permission && g.repo == h.repo && g.token == h.token
            && SameText(g.detail.repositoryPattern, h.detail.repositoryPattern)
            && SameText(g.detail.packagePattern, h.detail.packagePattern)
            && SameText(g.detail.artifactPattern, h.detail.artifactPattern)
            && SameText(g.detail.policy, h.detail.policy)
            && SameText(g.detail.tokenTarget, h.detail.tokenTarget)
  {
    assert forall i :: 0 <= i < 5 ==> (ScopeOf(g) == ScopeOf(h) ==> ScopeOf(g).texts[i] == ScopeOf(h).texts[i]);
  }

  /** A group membership row; the group is its key. */
  datatype GroupRow = GroupRow(org: Id, source: string, provider: Option<string>, externalKey: Option<string>)

  /** All rows of one user, each table under its unique key. A deactivation snapshot holds the same. */
  datatype Access = Access(orgs: set<Id>, groups: map<Id, GroupRow>, grants: map<Scope, Grant>)

  const NONE := Access({}, map[], map[])

  /** What the rows point at. Groups, repositories and tokens belong to an organization. */
  datatype Referents = Referents(users: set<Id>, orgs: set<Id>, groups: map<Id, Id>, repos: map<Id, Id>, tokens: map<Id, Id>)

  predicate Owned(owners: map<Id, Id>, orgs: set<Id>) {
    forall x :: x in owners ==> owners[x] in orgs
  }

  predicate Coherent(r: Referents) {
    Owned(r.groups, r.orgs) && Owned(r.repos, r.orgs) && Owned(r.tokens, r.orgs)
  }

  // ----- rows and foreign keys -----

  predicate Points(id: Option<Id>, among: set<Id>) {
    id.None? || id.value in among
  }

  predicate GroupStands(r: Referents, group: Id, row: GroupRow) {
    group in r.groups && r.groups[group] == row.org
  }

  predicate GrantStands(r: Referents, g: Grant) {
    Points(g.org, r.orgs) && Points(g.repo, r.repos.Keys) && Points(g.token, r.tokens.Keys)
  }

  /** Every row a group membership names a group of an organization the user belongs to; keys are right. */
  predicate Closed(a: Access) {
    && (forall g :: g in a.groups ==> a.groups[g].org in a.orgs)
    && forall k :: k in a.grants ==> k == ScopeOf(a.grants[k])
  }

  /** Every foreign key of every row has a target. */
  predicate Fits(r: Referents, a: Access) {
    && a.orgs <= r.orgs
    && (forall g :: g in a.groups ==> GroupStands(r, g, a.groups[g]))
    && forall k :: k in a.grants ==> GrantStands(r, a.grants[k]) && Points(a.grants[k].grantedBy, r.users)
  }

  // ----- what survives -----

  /** A granter that is gone becomes null. */
  function Regranted(r: Referents, g: Grant): Grant {
    g.(grantedBy := if g.grantedBy.Some? && g.grantedBy.value in r.users then g.grantedBy else None)
  }

  function SurvivingGroups(r: Referents, groups: map<Id, GroupRow>): map<Id, GroupRow> {
    map g | g in groups && GroupStands(r, g, groups[g]) :: groups[g]
  }

  function SurvivingGrants(r: Referents, grants: map<Scope, Grant>): map<Scope, Grant> {
    map k | k in grants && GrantStands(r, grants[k]) :: Regranted(r, grants[k])
  }

  /** The rows whose referents exist: what cascading deletes leave, and what reactivation puts back. */
  function Surviving(r: Referents, a: Access): Access {
    Access(a.orgs * r.orgs, SurvivingGroups(r, a.groups), SurvivingGrants(r, a.grants))
  }

  /** Inserting rows with ON CONFLICT DO NOTHING: rows that are there stay. */
  function Merged(current: Access, added: Access): Access {
    Access(current.orgs + added.orgs, added.groups + current.groups, added.grants + current.grants)
  }

  lemma SurvivingFits(r: Referents, a: Access)
    requires Coherent(r) && Closed(a)
    ensures Fits(r, Surviving(r, a)) && Closed(Surviving(r, a))
  {
    var s := Surviving(r, a);
    forall g | g in s.groups
      ensures s.groups[g].org in s.orgs && GroupStands(r, g, s.groups[g])
    {
      assert GroupStands(r, g, a.groups[g]);
    }
    forall k | k in s.grants
      ensures k == ScopeOf(s.grants[k]) && GrantStands(r, s.grants[k]) && Points(s.grants[k].grantedBy, r.users)
    {
      assert k == ScopeOf(a.grants[k]);
    }
  }

  /** While all referents exist nothing is lost. */
  lemma AllSurvive(r: Referents, a: Access)
    requires Fits(r, a)
    ensures Surviving(r, a) == a
  {
    var s := Surviving(r, a);
    assert s.orgs == a.orgs;
    assert s.groups == a.groups;
    forall k | k in a.grants
      ensures k in s.grants && s.grants[k] == a.grants[k]
    {
      assert GrantStands(r, a.grants[k]);
    }
    assert s.grants == a.grants;
  }

  lemma MergeWithNone(a: Access)
    ensures Merged(NONE, a) == a
  {
    assert NONE.orgs + a.orgs == a.orgs && a.groups + NONE.groups == a.groups && a.grants + NONE.grants == a.grants;
  }

  // ----- leaving an organization -----

  /** What `removeOrgMember` leaves. */
  function WithoutOrg(a: Access, org: Id): Access {
    Access(a.orgs - {org},
           map g | g in a.groups && a.groups[g].org != org :: a.groups[g],
           map k | k in a.grants && a.grants[k].org != Some(org) :: a.grants[k])
  }
}
