/** The user editor's role checkboxes: the roles currently assigned and the
    list of pending add/remove changes that will be sent on save. A toggle is
    refused for data roles, which follow the personnel level, and whenever it
    would give the user both a governance role and an application-admin role. */
module RoleToggle {
  import opened Optional
  import opened Seqs
  import opened Governance

  /** A Keycloak role; `id` may be absent, and two absent ids compare equal
      (`undefined === undefined`). */
  datatype Role = Role(id: Option<string>, name: string)

  datatype Action = Add | Remove

  datatype RoleChange = RoleChange(role: Role, action: Action)

  datatype State = State(userRoles: seq<Role>, changes: seq<RoleChange>)

  /** Why a toggle was refused; each one is a warning toast in the source. */
  datatype Refusal = DataRole | GovernanceHeld | AppAdminHeld

  /** The state after a toggle, and the refusal if there was one. */
  datatype Outcome = Outcome(state: State, refused: Option<Refusal>)

  /** `userRoles.some((r) => r.id === id)`. */
  predicate Holds(roles: seq<Role>, id: Option<string>) {
    exists i :: 0 <= i < |roles| && roles[i].id == id
  }

  /** Some held role satisfies `p`. */
  predicate HoldsKind(roles: seq<Role>, p: string -> bool) {
    exists i :: 0 <= i < |roles| && p(roles[i].name)
  }

  function RoleId(r: Role): Option<string> {
    r.id
  }

  function ChangeId(c: RoleChange): Option<string> {
    c.role.id
  }

  /** `handleRoleToggle`: unassign a held role or assign a new one, keeping
      at most the latest pending change for it. */
  function Toggle(g: Governance, s: State, role: Role): (r: Outcome)
    ensures r.refused.Some? ==> r.state == s
    ensures r.refused == Some(DataRole) <==> g.isDataRole(role.name)
    ensures r.refused == Some(GovernanceHeld) <==>
      && !g.isDataRole(role.name) && !Holds(s.userRoles, role.id)
      && g.isApplicationAdminRole(role.name) && HoldsKind(s.userRoles, g.isGovernanceRole)
    ensures r.refused == Some(AppAdminHeld) <==>
      && !g.isDataRole(role.name) && !Holds(s.userRoles, role.id)
      && !(g.isApplicationAdminRole(role.name) && HoldsKind(s.userRoles, g.isGovernanceRole))
      && g.isGovernanceRole(role.name) && HoldsKind(s.userRoles, g.isApplicationAdminRole)
    ensures r.refused.None? ==>
      && (Holds(r.state.userRoles, role.id) <==> !Holds(s.userRoles, role.id))
      && (forall id :: id != role.id ==> (Holds(r.state.userRoles, id) <==> Holds(s.userRoles, id)))
      && |r.state.changes| > 0
      && r.state.changes[|r.state.changes| - 1] == RoleChange(role, if Holds(s.userRoles, role.id) then Remove else Add)
  {
    var held := Holds(s.userRoles, role.id);
    if g.isDataRole(role.name) then Outcome(s, Some(DataRole))
    else if !held && g.isApplicationAdminRole(role.name) && HoldsKind(s.userRoles, g.isGovernanceRole) then
      Outcome(s, Some(GovernanceHeld))
    else if !held && g.isGovernanceRole(role.name) && HoldsKind(s.userRoles, g.isApplicationAdminRole) then
      Outcome(s, Some(AppAdminHeld))
    else if held then
      var roles := Filter(s.userRoles, (x: Role) => x.id != role.id);
      var kept := Filter(s.changes, (c: RoleChange) => c.role.id != role.id || c.action != Add);
      HoldsAfterRemove(s.userRoles, role.id);
      Outcome(State(roles, kept + [RoleChange(role, Remove)]), None)
    else
      var kept := Filter(s.changes, (c: RoleChange) => c.role.id != role.id || c.action != Remove);
      HoldsAfterAdd(s.userRoles, role);
      Outcome(State(s.userRoles + [role], kept + [RoleChange(role, Add)]), None)
  }

  lemma HoldsAfterRemove(roles: seq<Role>, id: Option<string>)
    ensures var r := Filter(roles, (x: Role) => x.id != id);
      && !Holds(r, id)
      && forall other :: other != id ==> (Holds(r, other) <==> Holds(roles, other))
  {
    var p := (x: Role) => x.id != id;
    var r := Filter(roles, p);
    forall other ensures Holds(r, other) ==> Holds(roles, other) && other != id {
      if Holds(r, other) {
        var i :| 0 <= i < |r| && r[i].id == other;
        assert r[i] in roles;
      }
    }
    forall other | other != id && Holds(roles, other) ensures Holds(r, other) {
      var i :| 0 <= i < |roles| && roles[i].id == other;
      assert roles[i] in r;
    }
  }

  lemma HoldsAfterAdd(roles: seq<Role>, role: Role)
    ensures forall id :: Holds(roles + [role], id) <==> Holds(roles, id) || id == role.id
  {
    var r := roles + [role];
    assert r[|roles|] == role;
    forall id | Holds(roles, id) ensures Holds(r, id) {
      var i :| 0 <= i < |roles| && roles[i].id == id;
      assert r[i] == roles[i];
    }
  }

  /** The bookkeeping the change list keeps: no id is assigned twice, every id
      has at most one pending change, and that change is an add exactly when
      the role is now assigned. */
  predicate Consistent(s: State) {
    && DistinctBy(s.userRoles, RoleId)
    && DistinctBy(s.changes, ChangeId)
    && forall i :: 0 <= i < |s.changes| ==>
        (s.changes[i].action == Add <==> Holds(s.userRoles, s.changes[i].role.id))
  }

  /** The editor opens consistent: the server's roles, nothing pending. */
  lemma InitialConsistent(roles: seq<Role>)
    requires DistinctBy(roles, RoleId)
    ensures Consistent(State(roles, []))
  {
  }

  /** Every toggle, accepted or refused, keeps the bookkeeping consistent. */
  lemma ToggleConsistent(g: Governance, s: State, role: Role)
    requires Consistent(s)
    ensures Consistent(Toggle(g, s, role).state)
  {
    var r := Toggle(g, s, role);
    if r.refused.None? {
      var held := Holds(s.userRoles, role.id);
      var a := if held then Add else Remove;
      var p := (c: RoleChange) => c.role.id != role.id || c.action != a;
      var kept := Filter(s.changes, p);
      assert r.state.changes == kept + [RoleChange(role, if held then Remove else Add)];
      KeptChanges(s, role.id, a);
      if held {
        var q := (x: Role) => x.id != role.id;
        FilterSubseq(s.userRoles, q);
        SubseqDistinctBy(Filter(s.userRoles, q), s.userRoles, RoleId);
      } else {
        forall i, j | 0 <= i < j < |r.state.userRoles| ensures RoleId(r.state.userRoles[i]) != RoleId(r.state.userRoles[j]) {
          if j == |s.userRoles| {
            assert r.state.userRoles[j] == role;
            assert r.state.userRoles[i] == s.userRoles[i];
          } else {
            assert r.state.userRoles[i] == s.userRoles[i] && r.state.userRoles[j] == s.userRoles[j];
          }
        }
      }
      ChangesAfterToggle(kept, RoleChange(role, if held then Remove else Add));
    }
  }

  /** An accepted toggle leaves the pending changes of every other role as
      they were, in order: only the toggled role's own entries move. */
  lemma ToggleKeepsOtherChanges(g: Governance, s: State, role: Role)
    requires Toggle(g, s, role).refused.None?
    ensures var other := (x: RoleChange) => x.role.id != role.id;
      Filter(Toggle(g, s, role).state.changes, other) == Filter(s.changes, other)
  {
    var other := (x: RoleChange) => x.role.id != role.id;
    var held := Holds(s.userRoles, role.id);
    var a := if held then Add else Remove;
    var p := (c: RoleChange) => c.role.id != role.id || c.action != a;
    var kept := Filter(s.changes, p);
    var c := RoleChange(role, if held then Remove else Add);
    assert Toggle(g, s, role).state.changes == kept + [c];
    FilterConcat(kept, [c], other);
    FilterCons(c, [], other);
    FilterFilter(s.changes, p, other);
  }

  /** From a consistent state, the changes before the new last one are
      exactly the old changes of the other roles: the one pending change the
      toggled role may have is the one the toggle cancels. */
  lemma ToggleReplacesOwnChange(g: Governance, s: State, role: Role)
    requires Consistent(s)
    requires Toggle(g, s, role).refused.None?
    ensures var c := Toggle(g, s, role).state.changes;
      && |c| > 0
      && c[..|c| - 1] == Filter(s.changes, (x: RoleChange) => x.role.id != role.id)
  {
    var other := (x: RoleChange) => x.role.id != role.id;
    var held := Holds(s.userRoles, role.id);
    var a := if held then Add else Remove;
    var p := (c: RoleChange) => c.role.id != role.id || c.action != a;
    var kept := Filter(s.changes, p);
    var c := Toggle(g, s, role).state.changes;
    assert c == kept + [RoleChange(role, if held then Remove else Add)];
    assert c[..|c| - 1] == kept;
    forall i | 0 <= i < |s.changes| ensures p(s.changes[i]) == other(s.changes[i]) {
      if s.changes[i].role.id == role.id {
        assert s.changes[i].action == Add <==> held;
      }
    }
    FilterAgree(s.changes, p, other);
  }

  /** What filtering the old changes leaves: ids still distinct, nothing for
      the toggled id, and the add/assigned link intact for the other ids. */
  lemma KeptChanges(s: State, id: Option<string>, a: Action)
    requires Consistent(s)
    requires a == (if Holds(s.userRoles, id) then Add else Remove)
    ensures var kept := Filter(s.changes, (c: RoleChange) => c.role.id != id || c.action != a);
      && DistinctBy(kept, ChangeId)
      && (forall i :: 0 <= i < |kept| ==> kept[i].role.id != id)
      && (forall i :: 0 <= i < |kept| ==> (kept[i].action == Add <==> Holds(s.userRoles, kept[i].role.id)))
  {
    var p := (c: RoleChange) => c.role.id != id || c.action != a;
    var kept := Filter(s.changes, p);
    FilterSubseq(s.changes, p);
    SubseqDistinctBy(kept, s.changes, ChangeId);
    forall i | 0 <= i < |kept| ensures kept[i].role.id != id && (kept[i].action == Add <==> Holds(s.userRoles, kept[i].role.id)) {
      assert kept[i] in s.changes;
    }
  }

  /** Appending one change with a fresh id keeps the ids distinct. */
  lemma ChangesAfterToggle(kept: seq<RoleChange>, c: RoleChange)
    requires DistinctBy(kept, ChangeId)
    requires forall i :: 0 <= i < |kept| ==> kept[i].role.id != c.role.id
    ensures DistinctBy(kept + [c], ChangeId)
  {
    var r := kept + [c];
    forall i, j | 0 <= i < j < |r| ensures ChangeId(r[i]) != ChangeId(r[j]) {
      assert r[i] == kept[i];
      if j < |kept| {
        assert r[j] == kept[j];
      }
    }
  }

  /** The user never holds a governance and an application-admin role at once. */
  predicate Exclusive(g: Governance, roles: seq<Role>) {
    !(HoldsKind(roles, g.isGovernanceRole) && HoldsKind(roles, g.isApplicationAdminRole))
  }

  /** A toggle keeps the two kinds exclusive unless the toggled role itself
      counts as both, which the two checks cannot catch. */
  lemma ToggleExclusive(g: Governance, s: State, role: Role)
    requires Exclusive(g, s.userRoles)
    requires !(g.isGovernanceRole(role.name) && g.isApplicationAdminRole(role.name))
    ensures Exclusive(g, Toggle(g, s, role).state.userRoles)
  {
    var r := Toggle(g, s, role);
    if r.refused.None? && Holds(s.userRoles, role.id) {
      var q := (x: Role) => x.id != role.id;
      HoldsKindFiltered(s.userRoles, q, g.isGovernanceRole);
      HoldsKindFiltered(s.userRoles, q, g.isApplicationAdminRole);
    } else if r.refused.None? {
      HoldsKindAppend(s.userRoles, role, g.isGovernanceRole);
      HoldsKindAppend(s.userRoles, role, g.isApplicationAdminRole);
    }
  }

  lemma HoldsKindFiltered(roles: seq<Role>, q: Role -> bool, p: string -> bool)
    ensures HoldsKind(Filter(roles, q), p) ==> HoldsKind(roles, p)
  {
    var r := Filter(roles, q);
    if HoldsKind(r, p) {
      var i :| 0 <= i < |r| && p(r[i].name);
      assert r[i] in roles;
    }
  }

  lemma HoldsKindAppend(roles: seq<Role>, role: Role, p: string -> bool)
    ensures HoldsKind(roles + [role], p) <==> HoldsKind(roles, p) || p(role.name)
  {
    var r := roles + [role];
    assert r[|roles|] == role;
    if HoldsKind(r, p) {
      var i :| 0 <= i < |r| && p(r[i].name);
      if i < |roles| {
        assert r[i] == roles[i];
      }
    }
    if HoldsKind(roles, p) {
      var i :| 0 <= i < |roles| && p(roles[i].name);
      assert r[i] == roles[i];
    }
  }

  /** Unassigning and then reassigning a role (or the reverse) restores which
      ids are held. */
  lemma ToggleTwiceRestoresHoldings(g: Governance, s: State, role: Role)
    requires Toggle(g, s, role).refused.None?
    requires Toggle(g, Toggle(g, s, role).state, role).refused.None?
    ensures forall id :: Holds(Toggle(g, Toggle(g, s, role).state, role).state.userRoles, id) <==> Holds(s.userRoles, id)
  {
  }
}
