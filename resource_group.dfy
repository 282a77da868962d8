/** The okta_group resource's membership handling: the reconciler
    `updateGroupUsers` with its helper `containsUser`, the read-back
    `syncGroupUsers`, and the 404 rule of `fetchGroup` and
    `resourceGroupExists`. */
module ResourceGroup {
  import opened Seqs
  import opened OktaApi
  import opened Membership

  /** The part of a resource's Terraform state that membership handling
      uses: the `manage_users` flag and the `users` set, kept as a
      duplicate-free list. Before a pass it is in the order the set's
      `List()` yields; after `SyncGroupUsers` it is in the order of the
      group's member listing. */
  class ResourceData {
    var manageUsers: bool
    var users: seq<string>

    ghost predicate Valid()
      reads this
    {
      Distinct(users)
    }

    constructor (manageUsers: bool, users: seq<string>)
      requires Distinct(users)
      ensures Valid()
      ensures this.manageUsers == manageUsers && this.users == users
    {
      this.manageUsers := manageUsers;
      this.users := users;
    }
  }

  /** `containsUser`: a linear search for a user with the given id. */
  method ContainsUser(users: seq<User>, id: string) returns (found: bool)
    ensures found <==> exists i :: 0 <= i < |users| && users[i].id == id
  {
    for k := 0 to |users|
      invariant forall i :: 0 <= i < k ==> users[i].id != id
    {
      if users[k].id == id {
        return true;
      }
    }
    return false;
  }

  /** `updateGroupUsers`: when `manage_users` is on, list the members once,
      add each desired id that is no member (any failure aborts), then
      remove each member that is not desired (a 404 is suppressed, any other
      failure aborts). The pass is exactly the one `Reconcile` specifies. */
  method UpdateGroupUsers(d: ResourceData, store: GroupStore) returns (err: Option<ApiError>)
    requires d.Valid() && store.Valid()
    modifies store`members, store`calls, store`listings
    ensures store.Valid()
    ensures var p := Reconcile(d.manageUsers, d.users, old(store.members), FaultsAt(store.faults, old(store.listings)));
      store.members == p.members && store.calls == old(store.calls) + p.issued && err == p.err
    ensures d.manageUsers ==> store.listings == old(store.listings) + 1
    ensures !d.manageUsers ==>
      err.None? && store.members == old(store.members) && store.calls == old(store.calls)
      && store.listings == old(store.listings)
  {
    if !d.manageUsers {
      return None;
    }
    ghost var f := FaultsAt(store.faults, store.listings);
    ghost var calls0 := store.calls;
    ghost var snap := store.members;
    ghost var p0 := Pass(snap, [], None);

    var existingUserList, listErr := store.ListGroupUsers();
    if listErr.Some? {
      RunFirstFatal(p0, f, Plan(d.users, snap), 0);
      assert Plan(d.users, snap)[..1] == [ListUsers];
      return listErr;
    }
    err := ApplyChanges(store, existingUserList, d.users, f, snap, calls0);
  }

  /** The two loops of `updateGroupUsers`, run after a successful listing:
      together they carry out the rest of the plan. */
  method ApplyChanges(store: GroupStore, existingUserList: seq<User>, rawArr: seq<string>,
                      ghost f: Faults, ghost snap: seq<string>, ghost calls0: seq<Call>)
    returns (err: Option<ApiError>)
    requires f.list.None? && f.add == store.faults.add && f.remove == store.faults.remove
    requires store.Valid() && store.members == snap && store.calls == calls0 + [ListUsers]
    requires existingUserList == AsUsers(snap)
    modifies store`members, store`calls
    ensures store.Valid()
    ensures var p := Run(Pass(snap, [], None), f, Plan(rawArr, snap));
      store.members == p.members && store.calls == calls0 + p.issued && err == p.err
  {
    ghost var p0 := Pass(snap, [], None);
    RunSingle(p0, f, ListUsers);
    ghost var p1 := Pass(snap, [ListUsers], None);
    assert Run(p0, f, [ListUsers]) == p1;

    var userIdList := new string[|rawArr|];
    ghost var adds := AddCalls(Difference(rawArr, snap));
    ghost var removes := RemoveCalls(Difference(snap, rawArr));
    assert Plan(rawArr, snap) == [ListUsers] + adds + removes;
    RunConcat(p0, f, [ListUsers], adds);
    AddPhaseIsRun(p1, f, rawArr, snap);
    ghost var p2 := AddPhase(p1, f, rawArr, snap);
    assert Run(p0, f, [ListUsers] + adds) == p2;
    err := AddMissingUsers(store, existingUserList, rawArr, userIdList, f, snap, p1, calls0);
    if err.Some? {
      RunStopsAfterError(p0, f, [ListUsers] + adds, removes);
      return err;
    }
    RunConcat(p0, f, [ListUsers] + adds, removes);
    RemovePhaseIsRun(p2, f, snap, rawArr);
    assert Run(p0, f, Plan(rawArr, snap)) == RemovePhase(p2, f, snap, rawArr);
    err := RemoveStaleUsers(store, existingUserList, userIdList, f, snap, p2, calls0);
  }

  /** The first loop of `updateGroupUsers`: record each desired id in
      `userIdList`, and add it unless the member snapshot holds it; stop at
      the first add that fails. */
  method AddMissingUsers(store: GroupStore, existingUserList: seq<User>, rawArr: seq<string>, userIdList: array<string>,
                         ghost f: Faults, ghost snap: seq<string>, ghost start: Pass, ghost calls0: seq<Call>)
    returns (err: Option<ApiError>)
    requires f.add == store.faults.add
    requires store.Valid() && start.err.None?
    requires store.members == start.members && store.calls == calls0 + start.issued
    requires existingUserList == AsUsers(snap)
    requires userIdList.Length == |rawArr|
    modifies store`members, store`calls, userIdList
    ensures store.Valid()
    ensures var p := AddPhase(start, f, rawArr, snap);
      store.members == p.members && store.calls == calls0 + p.issued && err == p.err
    ensures err.None? ==> userIdList[..] == rawArr
  {
    var i := 0;
    while i < |rawArr|
      invariant 0 <= i <= |rawArr|
      invariant store.Valid()
      invariant forall k :: 0 <= k < i ==> userIdList[k] == rawArr[k]
      invariant var p := AddPhase(start, f, rawArr[..i], snap);
        p.err.None? && store.members == p.members && store.calls == calls0 + p.issued
    {
      var userId := rawArr[i];
      userIdList[i] := userId;
      err := AddIfMissing(store, existingUserList, userId, rawArr, f, snap, start, i, calls0);
      if err.Some? {
        AddPhaseStops(start, f, rawArr, snap, i + 1);
        return;
      }
      i := i + 1;
    }
    assert rawArr[..i] == rawArr;
    return None;
  }

  /** The second loop of `updateGroupUsers`: remove each member of the
      snapshot that `userIdList` lacks; a 404 is suppressed, any other
      failure stops the loop. */
  method RemoveStaleUsers(store: GroupStore, existingUserList: seq<User>, userIdList: array<string>,
                          ghost f: Faults, ghost snap: seq<string>, ghost start: Pass, ghost calls0: seq<Call>)
    returns (err: Option<ApiError>)
    requires f.remove == store.faults.remove
    requires store.Valid() && start.err.None?
    requires store.members == start.members && store.calls == calls0 + start.issued
    requires existingUserList == AsUsers(snap)
    modifies store`members, store`calls
    ensures store.Valid()
    ensures var p := RemovePhase(start, f, snap, userIdList[..]);
      store.members == p.members && store.calls == calls0 + p.issued && err == p.err
  {
    ghost var wanted := userIdList[..];
    var j := 0;
    while j < |existingUserList|
      invariant 0 <= j <= |existingUserList| == |snap|
      invariant store.Valid()
      invariant var p := RemovePhase(start, f, snap[..j], wanted);
        p.err.None? && store.members == p.members && store.calls == calls0 + p.issued
    {
      var user := existingUserList[j];
      err := RemoveIfStale(store, user, userIdList, f, snap, start, j, calls0);
      if err.Some? {
        RemovePhaseStops(start, f, snap, wanted, j + 1);
        return;
      }
      j := j + 1;
    }
    assert snap[..j] == snap;
    return None;
  }

  /** The body of the first loop for the `i`-th desired id: add it unless
      the listing holds it. */
  method AddIfMissing(store: GroupStore, existingUserList: seq<User>, userId: string, ghost rawArr: seq<string>,
                      ghost f: Faults, ghost snap: seq<string>, ghost start: Pass, ghost i: nat, ghost calls0: seq<Call>)
    returns (err: Option<ApiError>)
    requires f.add == store.faults.add
    requires i < |rawArr| && userId == rawArr[i]
    requires existingUserList == AsUsers(snap)
    requires store.Valid()
    requires var q := AddPhase(start, f, rawArr[..i], snap);
      q.err.None? && store.members == q.members && store.calls == calls0 + q.issued
    modifies store`members, store`calls
    ensures store.Valid()
    ensures var r := AddPhase(start, f, rawArr[..i + 1], snap);
      store.members == r.members && store.calls == calls0 + r.issued && err == r.err
  {
    AddPhaseStep(start, f, rawArr, snap, i);
    var present := ContainsUser(existingUserList, userId);
    ListedIds(snap, userId);
    if !present {
      err := store.AddUserToGroup(userId);
    } else {
      err := None;
    }
  }

  /** The body of the second loop for the `j`-th listed user: remove it
      unless it is desired, suppressing a 404. */
  method RemoveIfStale(store: GroupStore, user: User, userIdList: array<string>,
                       ghost f: Faults, ghost snap: seq<string>, ghost start: Pass, ghost j: nat, ghost calls0: seq<Call>)
    returns (err: Option<ApiError>)
    requires f.remove == store.faults.remove
    requires j < |snap| && user.id == snap[j]
    requires store.Valid()
    requires var q := RemovePhase(start, f, snap[..j], userIdList[..]);
      q.err.None? && store.members == q.members && store.calls == calls0 + q.issued
    modifies store`members, store`calls
    ensures store.Valid()
    ensures var r := RemovePhase(start, f, snap[..j + 1], userIdList[..]);
      store.members == r.members && store.calls == calls0 + r.issued && err == r.err
  {
    RemovePhaseStep(start, f, snap, userIdList[..], j);
    if user.id !in userIdList[..] {
      var removeErr := store.RemoveGroupUser(user.id);
      err := SuppressErrorOn404(removeErr);
    } else {
      err := None;
    }
  }

  /** A user is in the listing exactly when its id is a member. */
  lemma ListedIds(members: seq<string>, id: string)
    ensures (exists i :: 0 <= i < |AsUsers(members)| && AsUsers(members)[i].id == id) <==> id in members
  {
    if id in members {
      var k :| 0 <= k < |members| && members[k] == id;
      assert AsUsers(members)[k].id == id;
    }
  }

  /** `listGroupUserIds`: the ids of the group's members, or the listing's error. */
  method ListGroupUserIds(store: GroupStore) returns (ids: seq<string>, err: Option<ApiError>)
    modifies store`calls, store`listings
    ensures store.calls == old(store.calls) + [ListUsers]
    ensures store.listings == old(store.listings) + 1
    ensures err == FaultsAt(store.faults, old(store.listings)).list
    ensures err.None? ==> ids == store.members
  {
    var users;
    users, err := store.ListGroupUsers();
    ids := seq(|users|, i requires 0 <= i < |users| => users[i].id);
  }

  /** `syncGroupUsers`: with `manage_users` on, overwrite `users` with the
      group's member ids; with it off, read nothing and change nothing. */
  method SyncGroupUsers(d: ResourceData, store: GroupStore) returns (err: Option<ApiError>)
    requires d.Valid() && store.Valid()
    modifies d`users, store`calls, store`listings
    ensures d.Valid()
    ensures !d.manageUsers ==>
      err.None? && d.users == old(d.users) && store.calls == old(store.calls) && store.listings == old(store.listings)
    ensures d.manageUsers ==>
      err == FaultsAt(store.faults, old(store.listings)).list
      && store.calls == old(store.calls) + [ListUsers] && store.listings == old(store.listings) + 1
    ensures d.manageUsers && err.None? ==> d.users == store.members
    ensures err.Some? ==> d.users == old(d.users)
  {
    if !d.manageUsers {
      return None;
    }
    var userIdList, listErr := ListGroupUserIds(store);
    if listErr.Some? {
      return listErr;
    }
    d.users := userIdList;
    return None;
  }

  /** The membership steps of `resourceGroupCreate` and `resourceGroupUpdate`:
      reconcile, then read the members back into `users`. When the reconcile
      fails, its error is returned and nothing is read back. Otherwise the
      read-back makes a listing of its own, which fails as a later listing
      does; when it works, `users` becomes the members. When no call of the
      reconcile can fail fatally, the members afterwards are exactly the ids
      `users` held before. */
  method ReconcileAndReadBack(d: ResourceData, store: GroupStore) returns (err: Option<ApiError>)
    requires d.Valid() && store.Valid()
    modifies d`users, store`members, store`calls, store`listings
    ensures d.Valid() && store.Valid()
    ensures !d.manageUsers ==>
      && err.None? && unchanged(d) && store.members == old(store.members)
      && store.calls == old(store.calls) && store.listings == old(store.listings)
    ensures d.manageUsers ==>
      var p := Reconcile(true, old(d.users), old(store.members), FaultsAt(store.faults, old(store.listings)));
      && store.members == p.members
      && (p.err.Some? ==> err == p.err && d.users == old(d.users) && store.calls == old(store.calls) + p.issued)
      && (p.err.None? ==> store.calls == old(store.calls) + p.issued + [ListUsers] && err == store.faults.relist)
      && (err.None? ==> d.users == store.members)
      && (err.Some? ==> d.users == old(d.users))
    ensures d.manageUsers && NoFatalFault(old(d.users), old(store.members), FaultsAt(store.faults, old(store.listings))) ==>
      err == store.faults.relist && (forall u :: u in store.members <==> u in old(d.users))
  {
    ghost var f := FaultsAt(store.faults, store.listings);
    err := UpdateGroupUsers(d, store);
    if d.manageUsers {
      ReconcileSucceedsIff(d.users, old(store.members), f);
    }
    if err.Some? {
      return;
    }
    if d.manageUsers && NoFatalFault(d.users, old(store.members), f) {
      ReconcileConverges(d.users, old(store.members), f);
    }
    err := SyncGroupUsers(d, store);
  }

  /** A group as the API returns it. */
  datatype Group = Group(id: string, name: string, description: string)

  /** What the SDK's GetGroup call returns: the group (absent when none was
      decoded), the HTTP status of the response, and the SDK's error. */
  datatype GetGroupReply = GetGroupReply(group: Option<Group>, statusCode: int, err: Option<ApiError>)

  const StatusNotFound: int := 404

  /** `fetchGroup`: a 404 means no group and no error; any other reply
      passes the SDK's group and error through. */
  function FetchGroup(reply: GetGroupReply): (r: (Option<Group>, Option<ApiError>))
    ensures reply.statusCode == StatusNotFound ==> r == (None, None)
    ensures reply.statusCode != StatusNotFound ==> r == (reply.group, reply.err)
  {
    if reply.statusCode == StatusNotFound then (None, None) else (reply.group, reply.err)
  }

  /** `resourceGroupExists`: the group exists exactly when the reply is no
      404, carries no error and carries a group; the error reported is the
      SDK's error, except that a 404 reports none. */
  function GroupExists(reply: GetGroupReply): (r: (bool, Option<ApiError>))
    ensures r.0 <==> reply.statusCode != StatusNotFound && reply.err.None? && reply.group.Some?
    ensures r.1.Some? <==> reply.statusCode != StatusNotFound && reply.err.Some?
    ensures r.1.Some? ==> r.1 == reply.err
    ensures reply.statusCode == StatusNotFound ==> r == (false, None)
  {
    var (g, err) := FetchGroup(reply);
    (err.None? && g.Some?, err)
  }
}
