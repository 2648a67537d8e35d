/** Deactivating and reactivating users: the snapshot taken, the rows deleted, and the rows put back. */
module AccessUsers {
  import opened Options
  import opened AccessRows

  /** The tables. `active` has a row per user; `rows` splits the three access tables by user. */
  datatype Tables = Tables(active: map<Id, bool>, refs: Referents, rows: map<Id, Access>, snapshots: map<Id, Access>)

  const EMPTY := Tables(map[], Referents({}, {}, map[], map[], map[]), map[], map[])

  function RowsOf(t: Tables, user: Id): Access {
    if user in t.rows then t.rows[user] else NONE
  }

  // ----- the operations on the whole state -----

  function Deactivated(t: Tables, user: Id): Tables
    requires user in t.active
  {
    t.(active := t.active[user := false],
       snapshots := if user in t.snapshots then t.snapshots else t.snapshots[user := RowsOf(t, user)],
       rows := t.rows[user := NONE])
  }

  function Reactivated(t: Tables, user: Id): Tables
    requires user in t.active
  {
    var on := t.(active := t.active[user := true]);
    if user !in t.snapshots then on
    else
      on.(rows := t.rows[user := Merged(RowsOf(t, user), Surviving(t.refs, t.snapshots[user]))],
          snapshots := t.snapshots - {user})
  }

  /** `setUserActive`; an unknown user changes nothing. */
  function Switched(t: Tables, user: Id, on: bool): Tables {
    if user !in t.active then t else if on then Reactivated(t, user) else Deactivated(t, user)
  }

  function Changed(t: Tables, user: Id, a: Access): Tables {
    t.(rows := t.rows[user := a])
  }

  function MemberAdded(t: Tables, org: Id, user: Id): Tables {
    var a := RowsOf(t, user);
    if org !in t.refs.orgs || user !in t.active then t else Changed(t, user, a.(orgs := a.orgs + {org}))
  }

  function MemberRemoved(t: Tables, org: Id, user: Id): Tables {
    if user !in t.rows then t else Changed(t, user, WithoutOrg(t.rows[user], org))
  }

  datatype AddResult = Added | GroupNotFound | UserNotMember | GrantEscalation

  /** `dominates` is the verdict on the group's grants against the acting principal's. */
  function AddVerdict(t: Tables, org: Id, group: Id, user: Id, dominates: bool): AddResult {
    if group !in t.refs.groups || t.refs.groups[group] != org then GroupNotFound
    else if !dominates then GrantEscalation
    else if org !in RowsOf(t, user).orgs then UserNotMember
    else Added
  }

  function GroupMemberAdded(t: Tables, org: Id, group: Id, user: Id, dominates: bool): Tables {
    var a := RowsOf(t, user);
    if !AddVerdict(t, org, group, user, dominates).Added? || group in a.groups then t
    else Changed(t, user, a.(groups := a.groups[group := GroupRow(org, "local", None, None)]))
  }

  function GroupMemberRemoved(t: Tables, org: Id, group: Id, user: Id): Tables {
    var a := RowsOf(t, user);
    if user in t.rows && group in a.groups && a.groups[group].org == org then
      Changed(t, user, a.(groups := a.groups - {group}))
    else t
  }

  // ----- the store -----

  class AccessStore {
    var tables: Tables

    constructor ()
      ensures tables == EMPTY
    {
      tables := EMPTY;
    }

    /** Insert-only: a snapshot that is there is kept. */
    method SnapshotAccess(user: Id)
      modifies this
      ensures tables == old(tables).(snapshots :=
                if user in old(tables).snapshots then old(tables).snapshots
                else old(tables).snapshots[user := RowsOf(old(tables), user)])
    {
      var seen := RowsOf(tables, user);
      if user !in tables.snapshots {
        tables := tables.(snapshots := tables.snapshots[user := seen]);
      }
    }

    method RestoreAccess(user: Id)
      modifies this
      ensures tables == if user !in old(tables).snapshots then old(tables)
                        else old(tables).(rows := old(tables).rows[user := Merged(RowsOf(old(tables), user),
                                                    Surviving(old(tables).refs, old(tables).snapshots[user]))],
                                          snapshots := old(tables).snapshots - {user})
    {
      if user !in tables.snapshots {
        return;
      }
      var snapshot := tables.snapshots[user];
      tables := tables.(snapshots := tables.snapshots - {user});
      var refs := tables.refs;
      var orgs := snapshot.orgs * refs.orgs;
      var current := RowsOf(tables, user);
      ghost var start, first := tables, current;
      current := current.(orgs := current.orgs + orgs);
      tables := Changed(tables, user, current);
      var groups := SurvivingGroups(refs, snapshot.groups);
      ChangedTwice(start, user, current, current.(groups := groups + current.groups));
      current := current.(groups := groups + current.groups);
      tables := Changed(tables, user, current);
      var grants := SurvivingGrants(refs, snapshot.grants);
      ChangedTwice(start, user, current, current.(grants := grants + current.grants));
      current := current.(grants := grants + current.grants);
      tables := Changed(tables, user, current);
      assert current == Merged(first, Surviving(refs, snapshot));
    }

    method SetUserActive(user: Id, on: bool) returns (found: bool)
      modifies this
      ensures found <==> user in old(tables).active
      ensures tables == Switched(old(tables), user, on)
      ensures found ==> tables.active == old(tables).active[user := on] && tables.refs == old(tables).refs
      ensures found && !on ==>
                && RowsOf(tables, user) == NONE && user in tables.snapshots
                && tables.snapshots[user] ==
                   if user in old(tables).snapshots then old(tables).snapshots[user] else RowsOf(old(tables), user)
      ensures found && on ==> user !in tables.snapshots
      ensures found && on && user !in old(tables).snapshots ==> RowsOf(tables, user) == RowsOf(old(tables), user)
      ensures forall other :: other != user ==>
                && RowsOf(tables, other) == RowsOf(old(tables), other)
                && (other in tables.snapshots <==> other in old(tables).snapshots)
      ensures !found ==> tables == old(tables)
    {
      if user !in tables.active {
        return false;
      }
      tables := tables.(active := tables.active[user := on]);
      if on {
        RestoreAccess(user);
      } else {
        SnapshotAccess(user);
        var current := RowsOf(tables, user);
        tables := Changed(tables, user, current.(groups := map[]));
        current := tables.rows[user];
        tables := Changed(tables, user, current.(orgs := {}));
        current := tables.rows[user];
        tables := Changed(tables, user, current.(grants := map[]));
      }
      return true;
    }

    method AddOrgMember(org: Id, user: Id)
      modifies this
      ensures tables == MemberAdded(old(tables), org, user)
      ensures var before, after := RowsOf(old(tables), user), RowsOf(tables, user);
              && (forall o :: o in after.orgs <==>
                    o in before.orgs || (o == org && org in old(tables).refs.orgs && user in old(tables).active))
              && after.groups == before.groups && after.grants == before.grants
      ensures forall other :: other != user ==> RowsOf(tables, other) == RowsOf(old(tables), other)
      ensures tables.active == old(tables).active && tables.snapshots == old(tables).snapshots && tables.refs == old(tables).refs
    {
      var current := RowsOf(tables, user);
      if org in tables.refs.orgs && user in tables.active {
        tables := Changed(tables, user, current.(orgs := current.orgs + {org}));
      }
    }

    method RemoveOrgMember(org: Id, user: Id)
      modifies this
      ensures tables == MemberRemoved(old(tables), org, user)
      ensures var before, after := RowsOf(old(tables), user), RowsOf(tables, user);
              && (forall o :: o in after.orgs <==> o in before.orgs && o != org)
              && (forall g :: g in after.groups <==> g in before.groups && before.groups[g].org != org)
              && (forall k :: k in after.grants <==> k in before.grants && before.grants[k].org != Some(org))
              && (forall g :: g in after.groups ==> after.groups[g] == before.groups[g])
              && (forall k :: k in after.grants ==> after.grants[k] == before.grants[k])
      ensures forall other :: other != user ==> RowsOf(tables, other) == RowsOf(old(tables), other)
      ensures tables.active == old(tables).active && tables.snapshots == old(tables).snapshots && tables.refs == old(tables).refs
    {
      if user !in tables.rows {
        return;
      }
      var a := tables.rows[user];
      var groups := map g | g in a.groups && a.groups[g].org != org :: a.groups[g];
      var grants := map k | k in a.grants && a.grants[k].org != Some(org) :: a.grants[k];
      tables := Changed(tables, user, a.(groups := groups));
      tables := Changed(tables, user, tables.rows[user].(grants := grants));
      tables := Changed(tables, user, tables.rows[user].(orgs := a.orgs - {org}));
    }

    method AddGroupMember(org: Id, group: Id, user: Id, dominates: bool) returns (r: AddResult)
      modifies this
      ensures r == AddVerdict(old(tables), org, group, user, dominates)
      ensures tables == GroupMemberAdded(old(tables), org, group, user, dominates)
      ensures r.GroupNotFound? <==> group !in old(tables).refs.groups || old(tables).refs.groups[group] != org
      ensures r.GrantEscalation? <==> !r.GroupNotFound? && !dominates
      ensures r.UserNotMember? <==> !r.GroupNotFound? && dominates && org !in RowsOf(old(tables), user).orgs
      ensures var before, after := RowsOf(old(tables), user), RowsOf(tables, user);
              && (forall g :: g in after.groups <==> g in before.groups || (g == group && r.Added?))
              && (forall g :: g in before.groups ==> after.groups[g] == before.groups[g])
              && (r.Added? && group !in before.groups ==> after.groups[group] == GroupRow(org, "local", None, None))
              && after.orgs == before.orgs && after.grants == before.grants
      ensures forall other :: other != user ==> RowsOf(tables, other) == RowsOf(old(tables), other)
    {
      if group !in tables.refs.groups || tables.refs.groups[group] != org {
        return GroupNotFound;
      }
      if !dominates {
        return GrantEscalation;
      }
      var current := RowsOf(tables, user);
      if org !in current.orgs {
        return UserNotMember;
      }
      if group !in current.groups {
        tables := Changed(tables, user, current.(groups := current.groups[group := GroupRow(org, "local", None, None)]));
      }
      return Added;
    }

    method RemoveGroupMember(org: Id, group: Id, user: Id)
      modifies this
      ensures tables == GroupMemberRemoved(old(tables), org, group, user)
      ensures var before, after := RowsOf(old(tables), user), RowsOf(tables, user);
              user in old(tables).rows ==>
                && (forall g :: g in after.groups <==> g in before.groups && !(g == group && before.groups[g].org == org))
                && (forall g :: g in after.groups ==> after.groups[g] == before.groups[g])
                && after.orgs == before.orgs && after.grants == before.grants
      ensures forall other :: other != user ==> RowsOf(tables, other) == RowsOf(old(tables), other)
    {
      var a := RowsOf(tables, user);
      if user in tables.rows && group in a.groups && a.groups[group].org == org {
        tables := Changed(tables, user, a.(groups := a.groups - {group}));
      }
    }
  }

  lemma ChangedTwice(t: Tables, user: Id, a: Access, b: Access)
    ensures Changed(Changed(t, user, a), user, b) == Changed(t, user, b)
  {
    assert t.rows[user := a][user := b] == t.rows[user := b];
  }

  // ----- everything else that happens to the tables -----

  datatype Event =
    | SetActive(user: Id, on: bool)
    | AddMember(org: Id, user: Id)
    | RemoveMember(org: Id, user: Id)
    | AddToGroup(org: Id, group: Id, user: Id, dominates: bool)
    | RemoveFromGroup(org: Id, group: Id, user: Id)
    | GrantTo(user: Id, grant: Grant)
    | RevokeFrom(user: Id, scopes: set<Scope>)
    | CreateUser(user: Id)
    | CreateOrg(org: Id)
    | CreateGroup(group: Id, org: Id)
    | CreateRepo(repo: Id, org: Id)
    | CreateToken(token: Id, org: Id)
    | DeleteUser(user: Id)
    | DeleteOrg(org: Id)
    | DeleteGroup(group: Id)
    | DeleteRepo(repo: Id)
    | DeleteToken(token: Id)

  /** The other writes; a row with no target, or one that is there already, is not inserted. */
  function Granted(t: Tables, user: Id, g: Grant): Tables {
    var a := RowsOf(t, user);
    if user in t.active && GrantStands(t.refs, g) && Points(g.grantedBy, t.refs.users) && ScopeOf(g) !in a.grants then
      Changed(t, user, a.(grants := a.grants[ScopeOf(g) := g]))
    else t
  }

  function Revoked(t: Tables, user: Id, scopes: set<Scope>): Tables {
    var a := RowsOf(t, user);
    if user !in t.rows then t else Changed(t, user, a.(grants := a.grants - scopes))
  }

  function UserCreated(t: Tables, user: Id): Tables {
    if user in t.active then t
    else Changed(t.(refs := t.refs.(users := t.refs.users + {user}), active := t.active[user := true]), user, NONE)
  }

  function Remaining(owners: map<Id, Id>, org: Id): map<Id, Id> {
    map x | x in owners && owners[x] != org :: owners[x]
  }

  /** Deleting referents: the foreign keys cascade, and a lost granter becomes null. */
  function Cascaded(t: Tables, refs: Referents): Tables {
    t.(refs := refs, rows := map u | u in t.rows :: Surviving(refs, t.rows[u]))
  }

  /** Creation of something new, or deletion of something with all that hangs on it. */
  function NextRefs(r: Referents, e: Event): Referents {
    match e
    case CreateOrg(o) => r.(orgs := r.orgs + {o})
    case CreateGroup(g, o) => if o in r.orgs && g !in r.groups then r.(groups := r.groups[g := o]) else r
    case CreateRepo(p, o) => if o in r.orgs && p !in r.repos then r.(repos := r.repos[p := o]) else r
    case CreateToken(k, o) => if o in r.orgs && k !in r.tokens then r.(tokens := r.tokens[k := o]) else r
    case DeleteUser(u) => r.(users := r.users - {u})
    case DeleteOrg(o) =>
      r.(orgs := r.orgs - {o}, groups := Remaining(r.groups, o), repos := Remaining(r.repos, o),
         tokens := Remaining(r.tokens, o))
    case DeleteGroup(g) => r.(groups := r.groups - {g})
    case DeleteRepo(p) => r.(repos := r.repos - {p})
    case DeleteToken(k) => r.(tokens := r.tokens - {k})
    case _ => r
  }

  function Apply(t: Tables, e: Event): Tables {
    match e
    case SetActive(user, on) => Switched(t, user, on)
    case AddMember(org, user) => MemberAdded(t, org, user)
    case RemoveMember(org, user) => MemberRemoved(t, org, user)
    case AddToGroup(org, group, user, dominates) => GroupMemberAdded(t, org, group, user, dominates)
    case RemoveFromGroup(org, group, user) => GroupMemberRemoved(t, org, group, user)
    case GrantTo(user, grant) => Granted(t, user, grant)
    case RevokeFrom(user, scopes) => Revoked(t, user, scopes)
    case CreateUser(user) => UserCreated(t, user)
    case DeleteUser(user) =>
      Cascaded(t.(active := t.active - {user}, rows := t.rows - {user}, snapshots := t.snapshots - {user}), NextRefs(t.refs, e))
    case _ => Cascaded(t, NextRefs(t.refs, e))
  }

  // ----- what each event does, row by row -----

  /** Users and organizations come and go with their own events only. */
  lemma OwnersAfter(t: Tables, e: Event)
    requires t.refs.users == t.active.Keys
    ensures forall u :: u in Apply(t, e).refs.users <==> (u in t.refs.users || e == CreateUser(u)) && e != DeleteUser(u)
    ensures forall o :: o in Apply(t, e).refs.orgs <==> (o in t.refs.orgs || e == CreateOrg(o)) && e != DeleteOrg(o)
  {
  }

  /** What belongs to an organization is created in one that exists, never moves, and goes alone or with it. */
  ghost predicate OwnedAfter(before: map<Id, Id>, after: map<Id, Id>, created: map<Id, Id>, orgs: set<Id>, deleted: set<Id>, org: set<Id>) {
    && (forall x :: x in after <==>
                      if x in before then x !in deleted && before[x] !in org else x in created && created[x] in orgs)
    && (forall x :: x in after ==> after[x] == if x in before then before[x] else created[x])
  }

  function DeletedOrg(e: Event): set<Id> {
    if e.DeleteOrg? then {e.org} else {}
  }

  lemma GroupsAfter(t: Tables, e: Event)
    ensures OwnedAfter(t.refs.groups, Apply(t, e).refs.groups, if e.CreateGroup? then map[e.group := e.org] else map[],
                       t.refs.orgs, if e.DeleteGroup? then {e.group} else {}, DeletedOrg(e))
  {
  }

  lemma ReposAfter(t: Tables, e: Event)
    ensures OwnedAfter(t.refs.repos, Apply(t, e).refs.repos, if e.CreateRepo? then map[e.repo := e.org] else map[],
                       t.refs.orgs, if e.DeleteRepo? then {e.repo} else {}, DeletedOrg(e))
  {
  }

  lemma TokensAfter(t: Tables, e: Event)
    ensures OwnedAfter(t.refs.tokens, Apply(t, e).refs.tokens, if e.CreateToken? then map[e.token := e.org] else map[],
                       t.refs.orgs, if e.DeleteToken? then {e.token} else {}, DeletedOrg(e))
  {
  }

  /** A grant is added under its unique key when everything it names exists and the key is free. */
  lemma GrantedIff(t: Tables, user: Id, g: Grant, k: Scope)
    ensures var before, after := RowsOf(t, user), RowsOf(Apply(t, GrantTo(user, g)), user);
            var inserted := && user in t.active && GrantStands(t.refs, g) && Points(g.grantedBy, t.refs.users)
                            && ScopeOf(g) !in before.grants;
            && after.orgs == before.orgs && after.groups == before.groups
            && (k in after.grants <==> k in before.grants || (inserted && k == ScopeOf(g)))
            && (k in before.grants ==> after.grants[k] == before.grants[k])
            && (inserted ==> after.grants[ScopeOf(g)] == g)
  {
  }

  /** Revoking removes the grants named and nothing else. */
  lemma RevokedIff(t: Tables, user: Id, scopes: set<Scope>, k: Scope)
    ensures var before, after := RowsOf(t, user), RowsOf(Apply(t, RevokeFrom(user, scopes)), user);
            && after.orgs == before.orgs && after.groups == before.groups
            && (k in after.grants <==> k in before.grants && k !in scopes)
            && (k in after.grants ==> after.grants[k] == before.grants[k])
  {
  }

  function Run(t: Tables, events: seq<Event>): Tables
    decreases |events|
  {
    if events == [] then t else Run(Apply(t, events[0]), events[1..])
  }

  // ----- invariants -----

  ghost predicate UsersFit(t: Tables) {
    t.refs.users == t.active.Keys && t.rows.Keys == t.active.Keys && Coherent(t.refs)
  }

  /** Every row's foreign keys have targets; in particular a group membership implies the org membership. */
  ghost predicate RowsFit(t: Tables) {
    forall u :: u in t.rows ==> Fits(t.refs, t.rows[u]) && Closed(t.rows[u])
  }

  /** A snapshot exists only for an inactive user. */
  ghost predicate SnapshotsFit(t: Tables) {
    forall u :: u in t.snapshots ==> u in t.active && !t.active[u] && Closed(t.snapshots[u])
  }

  ghost predicate Inv(t: Tables) {
    UsersFit(t) && RowsFit(t) && SnapshotsFit(t)
  }

  lemma ChangedFits(t: Tables, user: Id, a: Access)
    requires RowsFit(t) && Fits(t.refs, a) && Closed(a)
    ensures RowsFit(Changed(t, user, a))
  {
  }

  lemma ChangedKeepsInv(t: Tables, user: Id, a: Access)
    requires Inv(t) && user in t.rows && Fits(t.refs, a) && Closed(a)
    ensures Inv(Changed(t, user, a))
  {
  }

  lemma RowsKnown(t: Tables, user: Id)
    requires Inv(t) && user in t.rows
    ensures RowsOf(t, user) == t.rows[user] && Fits(t.refs, t.rows[user]) && Closed(t.rows[user])
  {
  }

  lemma DeactivationKeepsInv(t: Tables, user: Id)
    requires Inv(t) && user in t.active
    ensures Inv(Deactivated(t, user))
  {
    var noted := t.(active := t.active[user := false],
                    snapshots := if user in t.snapshots then t.snapshots else t.snapshots[user := t.rows[user]]);
    ChangedKeepsInv(noted, user, NONE);
    assert Deactivated(t, user) == Changed(noted, user, NONE);
  }

  lemma RestoredFits(t: Tables, user: Id)
    requires Inv(t) && user in t.snapshots
    ensures var a := Merged(RowsOf(t, user), Surviving(t.refs, t.snapshots[user])); Fits(t.refs, a) && Closed(a)
  {
    assert user in t.rows;
    SurvivingFits(t.refs, t.snapshots[user]);
  }

  /** Reactivation inserts no row whose foreign keys lack a target, so its transaction cannot fail on one. */
  lemma ReactivationKeepsInv(t: Tables, user: Id)
    requires Inv(t) && user in t.active
    ensures Inv(Reactivated(t, user))
  {
    if user in t.snapshots {
      RestoredFits(t, user);
      var restored := Changed(t, user, Merged(RowsOf(t, user), Surviving(t.refs, t.snapshots[user])));
      ChangedFits(t, user, restored.rows[user]);
      var back := Reactivated(t, user);
      assert back.rows == restored.rows && UsersFit(back) && SnapshotsFit(back);
    }
  }

  lemma SwitchKeepsInv(t: Tables, user: Id, on: bool)
    requires Inv(t)
    ensures Inv(Switched(t, user, on))
  {
    if user in t.active {
      DeactivationKeepsInv(t, user);
      ReactivationKeepsInv(t, user);
    }
  }

  lemma MembersKeepInv(t: Tables, org: Id, user: Id)
    requires Inv(t)
    ensures Inv(MemberAdded(t, org, user)) && Inv(MemberRemoved(t, org, user))
  {
    if user in t.rows {
      RowsKnown(t, user);
      var a := t.rows[user];
      ChangedKeepsInv(t, user, WithoutOrg(a, org));
      if org in t.refs.orgs {
        ChangedKeepsInv(t, user, a.(orgs := a.orgs + {org}));
      }
    }
  }

  lemma GroupAddKeepsInv(t: Tables, org: Id, group: Id, user: Id, dominates: bool)
    requires Inv(t)
    ensures Inv(GroupMemberAdded(t, org, group, user, dominates))
  {
    if AddVerdict(t, org, group, user, dominates).Added? {
      var a, row := RowsOf(t, user), GroupRow(org, "local", None, None);
      RowsKnown(t, user);
      ChangedKeepsInv(t, user, a.(groups := a.groups[group := row]));
    }
  }

  lemma GroupRemoveKeepsInv(t: Tables, org: Id, group: Id, user: Id)
    requires Inv(t)
    ensures Inv(GroupMemberRemoved(t, org, group, user))
  {
    if user in t.rows {
      RowsKnown(t, user);
      var a := t.rows[user];
      ChangedKeepsInv(t, user, a.(groups := a.groups - {group}));
    }
  }

  lemma GrantKeepsInv(t: Tables, user: Id, g: Grant)
    requires Inv(t)
    ensures Inv(Granted(t, user, g))
  {
    if user in t.active && GrantStands(t.refs, g) && Points(g.grantedBy, t.refs.users) {
      RowsKnown(t, user);
      var a := t.rows[user];
      ChangedKeepsInv(t, user, a.(grants := a.grants[ScopeOf(g) := g]));
    }
  }

  lemma RevokeKeepsInv(t: Tables, user: Id, scopes: set<Scope>)
    requires Inv(t)
    ensures Inv(Revoked(t, user, scopes))
  {
    if user in t.rows {
      RowsKnown(t, user);
      var a := t.rows[user];
      ChangedKeepsInv(t, user, a.(grants := a.grants - scopes));
    }
  }

  lemma CascadeKeepsInv(t: Tables, refs: Referents)
    requires t.rows.Keys == t.active.Keys == refs.users && Coherent(refs) && SnapshotsFit(t)
    requires forall u :: u in t.rows ==> Closed(t.rows[u])
    ensures Inv(Cascaded(t, refs))
  {
    forall u | u in t.rows
      ensures Fits(refs, Surviving(refs, t.rows[u])) && Closed(Surviving(refs, t.rows[u]))
    {
      SurvivingFits(refs, t.rows[u]);
    }
    assert Cascaded(t, refs).rows.Keys == t.rows.Keys;
  }

  predicate IsReferentEvent(e: Event) {
    || e.CreateUser? || e.CreateOrg? || e.CreateGroup? || e.CreateRepo? || e.CreateToken?
    || e.DeleteUser? || e.DeleteOrg? || e.DeleteGroup? || e.DeleteRepo? || e.DeleteToken?
  }

  lemma CreationKeepsUsers(t: Tables, user: Id)
    requires UsersFit(t)
    ensures UsersFit(UserCreated(t, user))
  {
    KeysGrow(t.active, user, true);
    KeysGrow(t.rows, user, NONE);
  }

  lemma CreationKeepsRows(t: Tables, user: Id)
    requires RowsFit(t)
    ensures RowsFit(UserCreated(t, user))
  {
    if user !in t.active {
      var wider := t.(refs := t.refs.(users := t.refs.users + {user}), active := t.active[user := true]);
      RowsFitWider(t, wider);
      ChangedFits(wider, user, NONE);
    }
  }

  lemma CreationKeepsSnapshots(t: Tables, user: Id)
    requires SnapshotsFit(t)
    ensures SnapshotsFit(UserCreated(t, user))
  {
  }

  lemma CreationKeepsInv(t: Tables, user: Id)
    requires Inv(t)
    ensures Inv(UserCreated(t, user))
  {
    CreationKeepsUsers(t, user);
    CreationKeepsRows(t, user);
    CreationKeepsSnapshots(t, user);
  }

  lemma KeysGrow<V>(m: map<Id, V>, key: Id, value: V)
    ensures m[key := value].Keys == m.Keys + {key}
  {
  }

  lemma RowsFitWider(t: Tables, wider: Tables)
    requires RowsFit(t) && wider.rows == t.rows
    requires t.refs.users <= wider.refs.users && wider.refs == t.refs.(users := wider.refs.users)
    ensures RowsFit(wider)
  {
    forall u | u in t.rows
      ensures Fits(wider.refs, t.rows[u]) && Closed(t.rows[u])
    {
      FitsWider(t.refs, wider.refs, t.rows[u]);
    }
  }

  lemma FitsWider(narrow: Referents, wide: Referents, a: Access)
    requires Fits(narrow, a) && narrow.users <= wide.users && wide == narrow.(users := wide.users)
    ensures Fits(wide, a)
  {
    forall k | k in a.grants
      ensures GrantStands(wide, a.grants[k]) && Points(a.grants[k].grantedBy, wide.users)
    {
      assert GrantStands(narrow, a.grants[k]);
    }
  }

  lemma DeletionKeepsInv(t: Tables, user: Id)
    requires Inv(t)
    ensures Inv(Apply(t, DeleteUser(user)))
  {
    var gone := t.(active := t.active - {user}, rows := t.rows - {user}, snapshots := t.snapshots - {user});
    var refs := NextRefs(t.refs, DeleteUser(user));
    assert gone.rows.Keys == t.rows.Keys - {user} == gone.active.Keys == refs.users;
    CascadeKeepsInv(gone, refs);
  }

  lemma ReferentsKeepInv(t: Tables, e: Event)
    requires Inv(t) && IsReferentEvent(e)
    ensures Inv(Apply(t, e))
  {
    if e.CreateUser? {
      CreationKeepsInv(t, e.user);
    } else if e.DeleteUser? {
      DeletionKeepsInv(t, e.user);
    } else {
      assert NextRefs(t.refs, e).users == t.refs.users;
      CascadeKeepsInv(t, NextRefs(t.refs, e));
    }
  }

  lemma StepKeepsInv(t: Tables, e: Event)
    requires Inv(t)
    ensures Inv(Apply(t, e))
  {
    match e
    case SetActive(user, on) => SwitchKeepsInv(t, user, on);
    case AddMember(org, user) => MembersKeepInv(t, org, user);
    case RemoveMember(org, user) => MembersKeepInv(t, org, user);
    case AddToGroup(org, group, user, dominates) => GroupAddKeepsInv(t, org, group, user, dominates);
    case RemoveFromGroup(org, group, user) => GroupRemoveKeepsInv(t, org, group, user);
    case GrantTo(user, grant) => GrantKeepsInv(t, user, grant);
    case RevokeFrom(user, scopes) => RevokeKeepsInv(t, user, scopes);
    case _ => ReferentsKeepInv(t, e);
  }

  lemma {:induction false} RunKeepsInv(t: Tables, events: seq<Event>)
    requires Inv(t)
    ensures Inv(Run(t, events))
    decreases |events|
  {
    if events != [] {
      StepKeepsInv(t, events[0]);
      RunKeepsInv(Apply(t, events[0]), events[1..]);
    }
  }

  /** In every reachable state a group membership implies the org membership, and a snapshot an inactive user. */
  lemma ReachableStates(events: seq<Event>, user: Id)
    ensures var t := Run(EMPTY, events);
            && (user in t.snapshots ==> user in t.active && !t.active[user])
            && forall g :: g in RowsOf(t, user).groups ==> RowsOf(t, user).groups[g].org in RowsOf(t, user).orgs
  {
    RunKeepsInv(EMPTY, events);
    var t := Run(EMPTY, events);
    if user in t.rows {
      assert Closed(t.rows[user]);
    }
  }

  // ----- deactivate, and later reactivate -----

  /** The user is neither reactivated nor deleted; anything else may happen, further deactivations included. */
  predicate Spares(e: Event, user: Id) {
    e != SetActive(user, true) && e != DeleteUser(user)
  }

  /** And nobody gives the inactive user anything new. */
  predicate AddsNothing(e: Event, user: Id) {
    !((e.AddMember? || e.AddToGroup? || e.GrantTo?) && e.user == user)
  }

  predicate AllSpare(events: seq<Event>, user: Id) {
    forall i :: 0 <= i < |events| ==> Spares(events[i], user)
  }

  predicate NothingAdded(events: seq<Event>, user: Id) {
    forall i :: 0 <= i < |events| ==> AddsNothing(events[i], user)
  }

  /** The first deactivation's snapshot is kept, through further deactivations and deletions of what it mentions. */
  lemma SnapshotKept(t: Tables, e: Event, user: Id)
    requires user in t.snapshots && Spares(e, user)
    ensures user in Apply(t, e).snapshots && Apply(t, e).snapshots[user] == t.snapshots[user]
  {
  }

  lemma {:induction false} SnapshotPersists(t: Tables, events: seq<Event>, user: Id)
    requires user in t.snapshots && AllSpare(events, user)
    ensures user in Run(t, events).snapshots && Run(t, events).snapshots[user] == t.snapshots[user]
    decreases |events|
  {
    if events != [] {
      assert Spares(events[0], user);
      SnapshotKept(t, events[0], user);
      SnapshotPersists(Apply(t, events[0]), events[1..], user);
    }
  }

  lemma EmptyKept(t: Tables, e: Event, user: Id)
    requires RowsOf(t, user) == NONE && Spares(e, user) && AddsNothing(e, user)
    ensures RowsOf(Apply(t, e), user) == NONE
  {
    if IsReferentEvent(e) {
      EmptyOutlives(t, NextRefs(t.refs, e), user);
    } else if e.RemoveMember? && e.user == user {
      assert WithoutOrg(NONE, e.org) == NONE;
    } else if e.RevokeFrom? && e.user == user {
      assert NONE.grants - e.scopes == map[];
    }
  }

  lemma EmptyOutlives(t: Tables, refs: Referents, user: Id)
    requires RowsOf(t, user) == NONE
    ensures RowsOf(Cascaded(t, refs), user) == NONE
  {
    assert Surviving(refs, NONE) == NONE;
  }

  lemma {:induction false} EmptyPersists(t: Tables, events: seq<Event>, user: Id)
    requires RowsOf(t, user) == NONE
    requires AllSpare(events, user) && NothingAdded(events, user)
    ensures RowsOf(Run(t, events), user) == NONE
    decreases |events|
  {
    if events != [] {
      assert Spares(events[0], user) && AddsNothing(events[0], user);
      EmptyKept(t, events[0], user);
      EmptyPersists(Apply(t, events[0]), events[1..], user);
    }
  }

  /**
   Deactivating an active user, then anything that spares the user, then reactivating: the user's
   rows are those present at that moment and, where they leave room, exactly the rows of the first
   deactivation whose referents still exist. The snapshot is used up.
   */
  lemma ReactivationRestores(t: Tables, user: Id, events: seq<Event>)
    requires Inv(t) && user in t.active && t.active[user] && AllSpare(events, user)
    ensures var later := Run(Switched(t, user, false), events);
            var back := Switched(later, user, true);
            && user in later.active && back.active == later.active[user := true] && user !in back.snapshots
            && RowsOf(back, user) == Merged(RowsOf(later, user), Surviving(later.refs, RowsOf(t, user)))
  {
    var off := Switched(t, user, false);
    SwitchKeepsInv(t, user, false);
    SnapshotPersists(off, events, user);
    RunKeepsInv(off, events);
  }

  /** When nothing was added meanwhile the rows are exactly those that survived. */
  lemma ReactivationIsExact(t: Tables, user: Id, events: seq<Event>)
    requires Inv(t) && user in t.active && t.active[user] && AllSpare(events, user) && NothingAdded(events, user)
    ensures var later := Run(Switched(t, user, false), events);
            RowsOf(Switched(later, user, true), user) == Surviving(later.refs, RowsOf(t, user))
  {
    var off := Switched(t, user, false);
    SwitchKeepsInv(t, user, false);
    EmptyPersists(off, events, user);
    ReactivationRestores(t, user, events);
    MergeWithNone(Surviving(Run(off, events).refs, RowsOf(t, user)));
  }

  /** Switching an active user off and on again changes nothing at all. */
  lemma OffAndOnIsNothing(t: Tables, user: Id)
    requires Inv(t) && user in t.active && t.active[user]
    ensures Switched(Switched(t, user, false), user, true) == t
  {
    RowsKnown(t, user);
    AllSurvive(t.refs, t.rows[user]);
    MergeWithNone(t.rows[user]);
    assert user !in t.snapshots;
    PutBack(t.active, user, false);
    PutBack(t.rows, user, NONE);
    TakenAway(t.snapshots, user, t.rows[user]);
  }

  lemma PutBack<V>(m: map<Id, V>, key: Id, other: V)
    requires key in m
    ensures m[key := other][key := m[key]] == m
  {
  }

  lemma TakenAway<V>(m: map<Id, V>, key: Id, value: V)
    requires key !in m
    ensures m[key := value] - {key} == m
  {
  }

  // ----- what an administrator may not expect -----

  /**
   Removing an inactive user from an organization leaves the snapshot alone, so reactivation makes
   the user a member again, exactly when the snapshot has the organization and it still exists.
   */
  lemma RemovedWhileInactiveReturns(t: Tables, org: Id, user: Id)
    requires Inv(t) && user in t.active && !t.active[user]
    ensures org in RowsOf(Switched(MemberRemoved(t, org, user), user, true), user).orgs <==>
            user in t.snapshots && org in t.snapshots[user].orgs && org in t.refs.orgs
  {
  }
}
