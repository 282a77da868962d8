/** An abstract model of the part of the Okta group API that the group
    resource talks to: the member list of one group, the calls issued
    against it, and failures that a test scenario can inject per call. */
module OktaApi {
  import opened Seqs

  datatype Option<+T> = None | Some(value: T)

  /** An error reply of the API: a 404, or any other failure. */
  datatype ApiError = NotFound | Other(message: string)

  /** A user as the member listing returns it; only its id matters here. */
  datatype User = User(id: string)

  /** One call issued against the group's membership endpoints. */
  datatype Call = ListUsers | AddUser(userId: string) | RemoveUser(userId: string)

  /** Injected failures: of the scenario's first member listing, of every
      later listing, of adding a given user, and of removing a given user.
      A `NotFound` removal models a membership that vanished remotely
      before the call reached it. */
  datatype Faults = Faults(list: Option<ApiError>, relist: Option<ApiError>,
                           add: map<string, ApiError>, remove: map<string, ApiError>)

  /** The failures as a pass sees them that starts after `listings` earlier
      listings: its own listing fails as the first one does when there were
      none, and as a later one otherwise. */
  function FaultsAt(f: Faults, listings: nat): (g: Faults)
    ensures g.add == f.add && g.remove == f.remove && g.relist == f.relist
    ensures g.list == if listings == 0 then f.list else f.relist
  {
    if listings == 0 then f else f.(list := f.relist)
  }

  /** The member listing as the API returns it. */
  function AsUsers(ids: seq<string>): (users: seq<User>)
    ensures |users| == |ids|
    ensures forall i :: 0 <= i < |ids| ==> users[i].id == ids[i]
  {
    seq(|ids|, i requires 0 <= i < |ids| => User(ids[i]))
  }

  /** Effect and reply of adding `userId` to a group whose members are `members`.
      Adding a present member changes nothing (the API call is idempotent). */
  function AddOutcome(members: seq<string>, add: map<string, ApiError>, userId: string): (r: (seq<string>, Option<ApiError>))
    ensures r.1.Some? <==> userId in add
    ensures r.1.Some? ==> r == (members, Some(add[userId]))
  {
    if userId in add then (members, Some(add[userId]))
    else if userId in members then (members, None)
    else (members + [userId], None)
  }

  /** Effect and reply of removing `userId`: an `Other` failure leaves the
      members alone; otherwise the user is no member afterwards, and the reply
      is a 404 when it was no member (or the 404 was injected). */
  function RemoveOutcome(members: seq<string>, remove: map<string, ApiError>, userId: string): (r: (seq<string>, Option<ApiError>))
    ensures (r.1.Some? && r.1.value.Other?) <==> (userId in remove && remove[userId].Other?)
    ensures r.1.Some? && r.1.value.Other? ==> r == (members, Some(remove[userId]))
    ensures r.1 == None <==> userId in members && userId !in remove
  {
    if userId in remove && remove[userId].Other? then (members, Some(remove[userId]))
    else
      var rest := Difference(members, [userId]);
      if userId in members && userId !in remove then (rest, None) else (rest, Some(NotFound))
  }

  /** A successful add makes `userId` a member and keeps every other member. */
  lemma AddOutcomeMembers(members: seq<string>, add: map<string, ApiError>, userId: string)
    requires AddOutcome(members, add, userId).1.None?
    ensures forall u :: u in AddOutcome(members, add, userId).0 <==> u in members || u == userId
  {
  }

  /** A remove that does not fail with `Other` leaves `userId` no member and
      keeps every other member. */
  lemma RemoveOutcomeMembers(members: seq<string>, remove: map<string, ApiError>, userId: string)
    requires var r := RemoveOutcome(members, remove, userId); !(r.1.Some? && r.1.value.Other?)
    ensures forall u :: u in RemoveOutcome(members, remove, userId).0 <==> u in members && u != userId
  {
  }

  /** An add never makes a user a member twice. */
  lemma AddKeepsDistinct(members: seq<string>, add: map<string, ApiError>, userId: string)
    requires Distinct(members)
    ensures Distinct(AddOutcome(members, add, userId).0)
  {
  }

  /** A remove never makes a user a member twice. */
  lemma RemoveKeepsDistinct(members: seq<string>, remove: map<string, ApiError>, userId: string)
    requires Distinct(members)
    ensures Distinct(RemoveOutcome(members, remove, userId).0)
  {
    DifferenceKeepsDistinct(members, [userId]);
  }

  /** The remote group: its member ids (each once), the log of calls issued
      against it, how many listings it has answered, and the failures
      injected for this scenario. */
  class GroupStore {
    var members: seq<string>
    var calls: seq<Call>
    var listings: nat
    const faults: Faults

    ghost predicate Valid()
      reads this
    {
      Distinct(members)
    }

    constructor (members: seq<string>, faults: Faults)
      requires Distinct(members)
      ensures Valid()
      ensures this.members == members && this.faults == faults && calls == [] && listings == 0
    {
      this.members := members;
      this.faults := faults;
      calls := [];
      listings := 0;
    }

    /** ListGroupUsers: the current members, or the injected failure of the
        first or of a later listing. */
    method ListGroupUsers() returns (users: seq<User>, err: Option<ApiError>)
      modifies this`calls, this`listings
      ensures calls == old(calls) + [ListUsers]
      ensures listings == old(listings) + 1
      ensures err == FaultsAt(faults, old(listings)).list
      ensures err.None? ==> users == AsUsers(members)
    {
      calls := calls + [ListUsers];
      err := if listings == 0 then faults.list else faults.relist;
      listings := listings + 1;
      users := if err.None? then AsUsers(members) else [];
    }

    /** AddUserToGroup, with the effect and reply of `AddOutcome`. */
    method AddUserToGroup(userId: string) returns (err: Option<ApiError>)
      requires Valid()
      modifies this`members, this`calls
      ensures Valid()
      ensures calls == old(calls) + [AddUser(userId)]
      ensures (members, err) == AddOutcome(old(members), faults.add, userId)
    {
      calls := calls + [AddUser(userId)];
      AddKeepsDistinct(members, faults.add, userId);
      var outcome := AddOutcome(members, faults.add, userId);
      members, err := outcome.0, outcome.1;
    }

    /** RemoveGroupUser, with the effect and reply of `RemoveOutcome`. */
    method RemoveGroupUser(userId: string) returns (err: Option<ApiError>)
      requires Valid()
      modifies this`members, this`calls
      ensures Valid()
      ensures calls == old(calls) + [RemoveUser(userId)]
      ensures (members, err) == RemoveOutcome(old(members), faults.remove, userId)
    {
      calls := calls + [RemoveUser(userId)];
      RemoveKeepsDistinct(members, faults.remove, userId);
      var outcome := RemoveOutcome(members, faults.remove, userId);
      members, err := outcome.0, outcome.1;
    }
  }
}
