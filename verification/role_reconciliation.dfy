/**
 * Role reconciliation for `EditRoles`: parse the comma-separated selection,
 * compute the roles to add and to remove, and apply them through the
 * identity store in two phases.
 */
module RoleReconciliation {
  import opened Results

  /** `string.IsNullOrEmpty` on a query parameter that may be missing. */
  predicate IsNullOrEmpty(roles: Option<string>): (b: bool)
    ensures !b <==> roles.Some? && |roles.value| > 0
  {
    roles.None? || roles.value == ""
  }

  /**
   * `Split` with a one-character separator and no options: every separator
   * ends a part, empty parts are kept, and there is always at least one part.
   */
  function Split(s: string, sep: char): (parts: seq<string>)
    ensures |parts| >= 1
    ensures forall i :: 0 <= i < |parts| ==> sep !in parts[i]
  {
    if s == [] then [[]]
    else
      var rest := Split(s[1..], sep);
      if s[0] == sep then [[]] + rest
      else [[s[0]] + rest[0]] + rest[1..]
  }

  /** The parts glued back together with the separator between them. */
  function Join(parts: seq<string>, sep: char): string
    requires |parts| >= 1
  {
    if |parts| == 1 then parts[0] else parts[0] + [sep] + Join(parts[1..], sep)
  }

  /** Joining the parts of a split gives back the string that was split. */
  lemma {:induction false} JoinSplit(s: string, sep: char)
    ensures Join(Split(s, sep), sep) == s
  {
    if s != [] {
      JoinSplit(s[1..], sep);
      var rest := Split(s[1..], sep);
      if s[0] == sep {
        assert ([[]] + rest)[1..] == rest;
      } else if |rest| > 1 {
        var parts := [[s[0]] + rest[0]] + rest[1..];
        assert parts[1..] == rest[1..];
        assert Join(rest, sep) == rest[0] + [sep] + Join(rest[1..], sep);
        assert s == [s[0]] + s[1..];
      }
    }
  }

  /** Splitting a word that is followed by a separator peels that word off. */
  lemma {:induction false} SplitAfterWord(w: string, sep: char, t: string)
    requires sep !in w
    ensures Split(w + [sep] + t, sep) == [w] + Split(t, sep)
  {
    if w == [] {
      assert [] + [sep] + t == [sep] + t;
      assert ([sep] + t)[1..] == t;
    } else {
      assert (w + [sep] + t)[1..] == w[1..] + [sep] + t;
      SplitAfterWord(w[1..], sep, t);
      assert [w[0]] + w[1..] == w;
    }
  }

  /** A word without separators splits into itself alone. */
  lemma {:induction false} SplitWord(w: string, sep: char)
    requires sep !in w
    ensures Split(w, sep) == [w]
  {
    if w != [] {
      SplitWord(w[1..], sep);
      assert [w[0]] + w[1..] == w;
    }
  }

  /** Splitting a join of separator-free parts gives back the parts. */
  lemma {:induction false} SplitJoin(parts: seq<string>, sep: char)
    requires |parts| >= 1
    requires forall i :: 0 <= i < |parts| ==> sep !in parts[i]
    ensures Split(Join(parts, sep), sep) == parts
  {
    if |parts| == 1 {
      SplitWord(parts[0], sep);
    } else {
      SplitJoin(parts[1..], sep);
      SplitAfterWord(parts[0], sep, Join(parts[1..], sep));
      assert [parts[0]] + parts[1..] == parts;
    }
  }

  /** The selected roles: the distinct parts of the comma-separated list. */
  function SelectedRoles(roles: string): (selected: set<string>)
    ensures selected != {}
    ensures forall r :: r in selected ==> ',' !in r
  {
    var parts := Split(roles, ',');
    var selected := set r | r in parts;
    assert parts[0] in selected;
    selected
  }

  /** `selectedRoles.Except(userRoles)`: LINQ's Except yields a set difference. */
  function RolesToAdd(selected: set<string>, current: set<string>): (add: set<string>)
    ensures add <= selected && add !! current
    ensures selected <= current + add
  {
    selected - current
  }

  /** `userRoles.Except(selectedRoles)`. */
  function RolesToRemove(selected: set<string>, current: set<string>): (remove: set<string>)
    ensures remove <= current && remove !! selected
    ensures current <= selected + remove
  {
    current - selected
  }

  /**
   * Adding the roles to add and then removing the roles to remove turns the
   * current roles into exactly the selection; no role is both added and
   * removed, and a role held and selected is in neither set.
   */
  lemma ReconciliationReachesSelection(selected: set<string>, current: set<string>)
    ensures (current + RolesToAdd(selected, current)) - RolesToRemove(selected, current) == selected
    ensures RolesToAdd(selected, current) !! RolesToRemove(selected, current)
    ensures forall r :: r in selected && r in current ==>
      r !in RolesToAdd(selected, current) && r !in RolesToRemove(selected, current)
  {
  }

  /**
   * The difference is minimal: any pair of add and remove sets that takes the
   * current roles to the selection adds at least the roles to add and removes
   * at least the roles to remove.
   */
  lemma ReconciliationIsMinimal(selected: set<string>, current: set<string>, add: set<string>, remove: set<string>)
    requires (current + add) - remove == selected
    ensures RolesToAdd(selected, current) <= add
    ensures RolesToRemove(selected, current) <= remove
  {
  }

  /** A call the controller makes on the identity store. */
  datatype RoleCall = AddCall(user: string, roles: set<string>) | RemoveCall(user: string, roles: set<string>)

  /** What one `EditRoles` request answers, the role table it leaves, and the store calls it made. */
  datatype Reconciliation = Reconciliation(response: Response<set<string>>, userRoles: map<string, set<string>>, calls: seq<RoleCall>)

  /**
   * `EditRoles` on values. `addSucceeds` and `removeSucceeds` are what the
   * identity store reports for the two phases; a failed phase changes nothing.
   */
  function Reconcile(userRoles: map<string, set<string>>, username: string, roles: Option<string>,
                     addSucceeds: bool, removeSucceeds: bool): (e: Reconciliation)
    // an empty selection is refused before the user is looked up
    ensures IsNullOrEmpty(roles) ==>
      e == Reconciliation(BadRequest("You must select at least one role"), userRoles, [])
    ensures !IsNullOrEmpty(roles) && username !in userRoles ==> e == Reconciliation(NotFound, userRoles, [])
    // no other user is touched
    ensures e.userRoles.Keys == userRoles.Keys
    ensures forall u :: u in userRoles && u != username ==> e.userRoles[u] == userRoles[u]
    ensures !IsNullOrEmpty(roles) && username in userRoles ==>
      var selected, current := SelectedRoles(roles.value), userRoles[username];
      && 1 <= |e.calls| <= 2
      && e.calls[0] == AddCall(username, selected - current)
      // a failed add stops the request before the remove phase
      && (!addSucceeds ==>
            e == Reconciliation(BadRequest("Failed to add to roles"), userRoles, [AddCall(username, selected - current)]))
      && (addSucceeds ==> e.calls == [AddCall(username, selected - current), RemoveCall(username, current - selected)])
      // a failed remove leaves the added roles in place
      && (addSucceeds && !removeSucceeds ==>
            e.response == BadRequest("Failed to remove from roles") && e.userRoles[username] == current + selected)
      // both phases succeed: the user holds exactly the selection, which is returned
      && (addSucceeds && removeSucceeds ==> e.response == Ok(selected) && e.userRoles[username] == selected)
  {
    if IsNullOrEmpty(roles) then Reconciliation(BadRequest("You must select at least one role"), userRoles, [])
    else
      var selected := SelectedRoles(roles.value);
      if username !in userRoles then Reconciliation(NotFound, userRoles, [])
      else
        var current := userRoles[username];
        var toAdd := RolesToAdd(selected, current);
        var add := AddCall(username, toAdd);
        if !addSucceeds then Reconciliation(BadRequest("Failed to add to roles"), userRoles, [add])
        else
          var added := userRoles[username := current + toAdd];
          var toRemove := RolesToRemove(selected, current);
          var calls := [add, RemoveCall(username, toRemove)];
          if !removeSucceeds then Reconciliation(BadRequest("Failed to remove from roles"), added, calls)
          else
            var removed := added[username := added[username] - toRemove];
            ReconciliationReachesSelection(selected, current);
            Reconciliation(Ok(removed[username]), removed, calls)
  }

  /**
   * Reconciliation is idempotent: after a request that succeeded, the same
   * request adds and removes nothing, leaves every user's roles as they are,
   * and, when the store accepts both empty phases, answers the same.
   */
  lemma ReconcileIdempotent(userRoles: map<string, set<string>>, username: string, roles: Option<string>,
                            addSucceeds: bool, removeSucceeds: bool)
    requires Reconcile(userRoles, username, roles, true, true).response.Ok?
    ensures var first := Reconcile(userRoles, username, roles, true, true);
      var second := Reconcile(first.userRoles, username, roles, addSucceeds, removeSucceeds);
      && second.userRoles == first.userRoles
      && second.calls == [AddCall(username, {})] + (if addSucceeds then [RemoveCall(username, {})] else [])
      && (addSucceeds && removeSucceeds ==> second.response == first.response)
  {
    var first := Reconcile(userRoles, username, roles, true, true);
    assert !IsNullOrEmpty(roles) && username in userRoles;
    var selected := SelectedRoles(roles.value);
    assert first.userRoles[username] == selected;
    assert selected - selected == {} && selected + {} == selected && selected - {} == selected;
    assert first.userRoles[username := selected] == first.userRoles;
    var second := Reconcile(first.userRoles, username, roles, addSucceeds, removeSucceeds);
    if addSucceeds && removeSucceeds {
      assert second.response == Ok(selected);
    }
  }

  /**
   * A user holding Member and Moderator who is given the selection "Admin"
   * gets Admin added, Member and Moderator removed, and ends with Admin only.
   */
  lemma ReconcileExample(userRoles: map<string, set<string>>)
    requires userRoles == map["lisa" := {"Member", "Moderator"}, "todd" := {"Member"}]
    ensures var e := Reconcile(userRoles, "lisa", Some("Admin"), true, true);
      && e.calls == [AddCall("lisa", {"Admin"}), RemoveCall("lisa", {"Member", "Moderator"})]
      && e.response == Ok({"Admin"})
      && e.userRoles == map["lisa" := {"Admin"}, "todd" := {"Member"}]
  {
    SplitWord("Admin", ',');
    assert SelectedRoles("Admin") == {"Admin"};
    assert {"Admin"} - {"Member", "Moderator"} == {"Admin"};
    assert {"Member", "Moderator"} - {"Admin"} == {"Member", "Moderator"};
    var e := Reconcile(userRoles, "lisa", Some("Admin"), true, true);
    assert e.userRoles.Keys == {"lisa", "todd"};
  }

  /**
   * The identity store's role table as the controller sees it, with a log of
   * the add and remove calls made on it.
   */
  class UserManager {
    var userRoles: map<string, set<string>>
    var log: seq<RoleCall>

    constructor (userRoles: map<string, set<string>>)
      ensures this.userRoles == userRoles && log == []
    {
      this.userRoles := userRoles;
      this.log := [];
    }

    /** `FindByNameAsync`: whether a user with this name exists. */
    method FindByName(username: string) returns (found: bool)
      ensures found <==> username in userRoles
    {
      found := username in userRoles;
    }

    /** `GetRolesAsync`: the roles the user holds now. */
    method GetRoles(username: string) returns (roles: set<string>)
      requires username in userRoles
      ensures roles == userRoles[username]
    {
      roles := userRoles[username];
    }

    /**
     * `AddToRolesAsync`: give the user these roles. The store's verdict
     * arrives as `succeeds`; a refused call changes no role.
     */
    method AddToRoles(username: string, roles: set<string>, succeeds: bool) returns (ok: bool)
      requires username in userRoles
      modifies this
      ensures ok == succeeds
      ensures log == old(log) + [AddCall(username, roles)]
      ensures userRoles == if succeeds then old(userRoles)[username := old(userRoles)[username] + roles] else old(userRoles)
    {
      log := log + [AddCall(username, roles)];
      if succeeds {
        userRoles := userRoles[username := userRoles[username] + roles];
      }
      ok := succeeds;
    }

    /** `RemoveFromRolesAsync`: take these roles from the user, on the same terms. */
    method RemoveFromRoles(username: string, roles: set<string>, succeeds: bool) returns (ok: bool)
      requires username in userRoles
      modifies this
      ensures ok == succeeds
      ensures log == old(log) + [RemoveCall(username, roles)]
      ensures userRoles == if succeeds then old(userRoles)[username := old(userRoles)[username] - roles] else old(userRoles)
    {
      log := log + [RemoveCall(username, roles)];
      if succeeds {
        userRoles := userRoles[username := userRoles[username] - roles];
      }
      ok := succeeds;
    }
  }
}
