# Okta group membership reconciliation

A Dafny model of how the `okta_group` resource of the Terraform Okta
provider keeps a group's members in line with its `users` attribute.
It also covers the rule that a 404 reply means the group is absent.

When `manage_users` is on, `updateGroupUsers` works in three steps:

1. It lists the group's members once.
2. It adds every desired user id that is not in that listing. Any failure of an add aborts the pass.
3. It removes every listed member that is not desired. A 404 reply to a removal is suppressed. Any other failure aborts the pass.

`syncGroupUsers` reads the members back into `users`. `fetchGroup` and
`resourceGroupExists` turn a 404 reply into "no group, no error".

The model has four modules:

- `Seqs`: duplicate-free sequences, and a set difference that keeps order.
- `OktaApi`: the remote side, as an abstract store. Class `GroupStore` holds the member ids of one group, a log of the calls issued against it, a count of the listings made so far, and a fixed set of injected failures: one outcome for the first listing, one for every later listing, a failed add of a given user, and a failed removal of a given user, either `NotFound` or `Other`. `FaultsAt` gives the failures that apply after a given number of listings. The SDK calls `ListGroupUsers`, `AddUserToGroup` and `RemoveGroupUser` are methods of this class. `AddOutcome` and `RemoveOutcome` give the effect and reply of each call.
- `Membership`: the specification of one pass. `Plan` gives its calls: the listing, an add for each id in `desired` minus `existing`, then a remove for each id in `existing` minus `desired`. `Run` issues those calls in order and stops at the first fatal reply. `Reconcile` is the whole pass. Each property of the pass is a lemma about `Reconcile`.
- `ResourceGroup`: the provider code, in imperative form.
  - Class `ResourceData` holds `manage_users` and `users`.
  - `UpdateGroupUsers` lists the members, then `ApplyChanges` runs the two loops, `AddMissingUsers` and `RemoveStaleUsers`. The first fills the `userIdList` array by index, as the Go code does.
  - `UpdateGroupUsers` is proved to leave the store in exactly the state that `Reconcile` gives. It also returns the same error and logs the same calls.
  - `ContainsUser`, `SyncGroupUsers`, `FetchGroup` and `GroupExists` model the functions of the same names.

The members of a group, and the `users` set, are sequences without
duplicates. Before a pass, `users` is in the order its `List()` yields.
That order is arbitrary, and every property holds for any order. After
`SyncGroupUsers`, `users` is in the order of the group's member listing.

## Model

| member | source | states |
|---|---|---|
| `OktaApi.GroupStore.ListGroupUsers` | okta/resource_group.go:145-148 | Logs one listing call and counts it. Returns the error injected for the first listing if none was made before, the error injected for later listings otherwise, or else the current members as users. |
| `OktaApi.GroupStore.AddUserToGroup` | okta/resource_group.go:158-161 | Logs one add call. The new members and the reply are those of `AddOutcome`. Members stay duplicate-free. |
| `OktaApi.GroupStore.RemoveGroupUser` | okta/resource_group.go:167 | Logs one remove call. The new members and the reply are those of `RemoveOutcome`. Members stay duplicate-free. |
| `OktaApi.AddOutcome` | okta/resource_group.go:158-161 | An add fails exactly when a failure is injected for that id. A failed add leaves the members unchanged and returns the injected error. |
| `OktaApi.RemoveOutcome` | okta/resource_group.go:167-170 | A remove fails with `Other` exactly when that is injected, and then changes nothing. It succeeds exactly when the user is a member and no failure is injected. Otherwise it replies 404. |
| `OktaApi.AddOutcomeMembers` | okta/resource_group.go:158-161 | After a successful add, the members are the old members plus the added id. |
| `OktaApi.RemoveOutcomeMembers` | okta/resource_group.go:167-170 | After a remove that does not fail with `Other`, the members are the old members minus the removed id, including after a 404. |
| `Membership.Plan` | okta/resource_group.go:150-172 | The calls of one pass start with the listing, and there is at most one call per desired id or member. Which calls they are is stated by `PlanIsDiff`. |
| `Membership.Reconcile` | okta/resource_group.go:138-175 | One pass of `updateGroupUsers`. With `manage_users` off it issues nothing and changes nothing. With it on, the calls it issues are a non-empty prefix of `Plan`, starting with the listing. |
| `Membership.AddPhase` | okta/resource_group.go:153-163 | The add loop as a function of the ids seen so far. A pass that has already failed is left unchanged. The loop only appends calls, at most one per desired id. |
| `Membership.RemovePhase` | okta/resource_group.go:165-172 | The remove loop as a function of the members seen so far. A pass that has already failed is left unchanged. The loop only appends calls, at most one per listed member. |
| `Membership.SuppressErrorOn404` | okta/resource_group.go:167-170 | The result is no error exactly when the input is no error or a 404. Any other error passes through unchanged. |
| `Membership.Issue` | okta/resource_group.go:157-170 | Issuing one call logs it. The pass records an error exactly when the call is fatal: a failed list, a failed add, or a removal failing with something other than 404. A fatal call leaves the members unchanged. |
| `Membership.Run` | okta/resource_group.go:145-172 | Once a pass has an error, no further call is issued and nothing changes. |
| `Membership.RunKeepsDistinct` | okta/resource_group.go:150-172 | No sequence of calls makes a user a member twice. |
| `Membership.RunIssuesPrefix` | okta/resource_group.go:145-174 | A run issues a prefix of its call list: at least the first call, and all of them when it returns no error. |
| `Membership.PlanIsDiff` | okta/resource_group.go:150-172 | The pass starts with the listing. After it comes an add for exactly each desired id that is not a member, and a remove for exactly each member that is not desired. |
| `Membership.PlanDistinct` | okta/resource_group.go:150-172 | When the desired ids and the members have no duplicates, the pass contains no call twice. |
| `Membership.AddPhaseIsRun` | okta/resource_group.go:153-163 | The loop-shaped description of the add loop, which skips ids in the listing and stops at the first failure, equals running the adds of the diff. |
| `Membership.RemovePhaseIsRun` | okta/resource_group.go:165-172 | The loop-shaped description of the remove loop, which skips desired ids and stops at the first fatal failure, equals running the removes of the diff. |
| `Membership.ReconcileSucceedsIff` | okta/resource_group.go:145-174 | A pass returns no error if and only if no call it would issue can fail fatally. That means the listing works, no missing user's add fails, and every failing removal of a stale member fails with 404. |
| `Membership.IssuesOnlyNeededCalls` | okta/resource_group.go:153-167 | Every issued call is the listing, an add of a desired id missing from the snapshot, or a remove of a snapshot member that is not desired. The issued calls are a prefix of the plan, the whole plan on success, and contain no call twice. |
| `Membership.ReconcileConverges` | okta/resource_group.go:145-174 | When no call can fail fatally, the whole plan is issued and no error is returned. The final members are exactly the desired ids, each once. |
| `Membership.ReconcileIdempotent` | okta/resource_group.go:145-174 | After a successful pass, a second pass with the same desired ids issues only the listing, no add and no remove, and changes nothing. |
| `Membership.AddErrorAborts` | okta/resource_group.go:157-161 | If the k-th missing user's add is the first to fail, the pass returns that add's error. It has issued the listing and exactly the first k+1 adds, and no remove. The members are the snapshot plus the first k added ids. |
| `Membership.RemoveErrorAborts` | okta/resource_group.go:165-170 | Suppose every add succeeds and the k-th stale member's removal is the first to fail with something other than 404. Then the pass returns that error, after issuing all adds and exactly the first k+1 removes. Earlier 404s were suppressed, and the earlier stale members are gone. |
| `Membership.ReplaceOneMember` | okta/resource_group.go:138-175 | Members {u1, u2} with desired {u2, u3} and no failures: the pass lists, adds u3, removes u1, and ends with members {u2, u3}. |
| `ResourceGroup.ResourceData.constructor` | okta/resource_group.go:33-45 | The resource data holds the given `manage_users` flag and `users` list, which has no duplicates. |
| `ResourceGroup.ContainsUser` | okta/resource_group.go:177-184 | True if and only if some user in the list has the given id. |
| `ResourceGroup.ListedIds` | okta/resource_group.go:157 | A user with a given id is in the listing if and only if that id is a member. |
| `ResourceGroup.UpdateGroupUsers` | okta/resource_group.go:138-175 | The members afterwards, the calls logged and the returned error are those of `Reconcile`, under the failures that apply at the listing it makes. With `manage_users` on, exactly one listing is made. With it off, nothing is listed or called, membership is unchanged, and no error is returned. |
| `ResourceGroup.ApplyChanges` | okta/resource_group.go:150-172 | The two loops, run after a successful listing, leave members, calls and error exactly as the rest of the plan gives when run in order from the snapshot. |
| `ResourceGroup.AddMissingUsers` | okta/resource_group.go:150-163 | The first loop leaves members, calls and error as the add loop specifies. When it completes, `userIdList` holds the desired ids in order. |
| `ResourceGroup.RemoveStaleUsers` | okta/resource_group.go:165-172 | The second loop leaves members, calls and error as the remove loop specifies, against the ids in `userIdList`. |
| `ResourceGroup.AddIfMissing` | okta/resource_group.go:154-162 | One step of the first loop for the i-th desired id. It takes the store from the add loop's state after i ids to its state after i+1: nothing happens when the id is in the listing, and otherwise that add is issued. |
| `ResourceGroup.RemoveIfStale` | okta/resource_group.go:166-171 | One step of the second loop for the j-th listed user. It takes the store from the remove loop's state after j members to its state after j+1: nothing happens when the id is desired, and otherwise that remove is issued with 404 suppressed. |
| `ResourceGroup.ListGroupUserIds` | okta/resource_group.go:130-133 | Logs one listing call and counts it. Returns the failure that applies to that listing, or else exactly the member ids. |
| `ResourceGroup.SyncGroupUsers` | okta/resource_group.go:125-136 | With `manage_users` off, nothing is read and `users` is unchanged. With it on, one listing is made and its error, the failure that applies to it, is returned unchanged; on success `users` becomes exactly the group's members, and on failure `users` is untouched. |
| `ResourceGroup.ReconcileAndReadBack` | okta/resource_group.go:102-106 | Reconcile, then read back. With `manage_users` off, nothing changes. With it on, the members end as `Reconcile` gives. If the reconcile fails, its error is returned, `users` is untouched, and only the reconcile's calls are logged. If it succeeds, one more listing is logged and the returned error is the one injected for that later listing. On no error `users` equals the members, and on an error it is untouched. If no fatal failure of the reconcile is possible, the members hold exactly the ids `users` held before. |
| `ResourceGroup.FetchGroup` | okta/resource_group.go:115-123 | A 404 reply yields no group and no error. Any other reply passes the group and the error through. |
| `ResourceGroup.GroupExists` | okta/resource_group.go:74-78 | The group exists if and only if the reply is not a 404, carries no error and carries a group. An error is reported if and only if the reply is not a 404 and carries one. A 404 gives (false, no error). |

## Left out

- The Terraform schema, the importer and `buildGroup` (okta/resource_group.go:12-57) declare configuration and map fields. They hold no logic.
- `resourceGroupCreate` and `resourceGroupUpdate` (okta/resource_group.go:59-72, 95-107) are modelled only in their membership steps, `updateGroupUsers` followed by the read, which `ReconcileAndReadBack` models. `resourceGroupRead` (okta/resource_group.go:80-93) is modelled only in its membership step, `syncGroupUsers`, which `SyncGroupUsers` models. `resourceGroupDelete` (okta/resource_group.go:109-113) has no membership step and is left out. The group create, update and delete calls are single SDK calls. Copying the name and description is field mapping: `buildGroup` at okta/resource_group.go:50-57 writes them out, and `d.Set` at lines 86-87 reads them back.
- ReconcileAndReadBack: the read-back is `syncGroupUsers` alone. It leaves out the `fetchGroup` that `resourceGroupRead` does first (okta/resource_group.go:81-84). In the source, a GetGroup error there ends the create or update before `syncGroupUsers` runs. A 404 there makes `fetchGroup` return a nil group, which line 86 dereferences. The model assumes that fetch returns the group.
- The Okta SDK and its HTTP transport are replaced by `GroupStore`, whose failures come from a fixed `Faults` value in place of the network. Concurrent changes by others between the listing and a call show up only as an injected `NotFound` on a removal.
- `ListGroupUsers` is modelled as returning every member in one reply. Pagination inside the SDK is not part of this model.
- `contains`, `suppressErrorOn404`, `responseErr`, `listGroupUserIds`, `convertStringSetToInterface` and `getOktaClientFromMetadata` are defined in files that are not part of this model. They are modelled by what their names and call sites say: list membership, 404 suppression, error pass-through, reading the ids, and set conversion.
- UpdateGroupUsers: a failed add's error is returned without the decoration `responseErr` may add from the HTTP response.
- SyncGroupUsers: writing the attribute (`d.Set`) is modelled as never failing.
- FetchGroup: a reply without an HTTP response, on which the Go code dereferences a nil pointer (okta/resource_group.go:118), is not modelled. Every reply here carries a status code.
- okta/config.go builds the client and probes credentials over the network.
- The acceptance tests in okta/resource_group_test.go need a live tenant. `ReplaceOneMember` states a comparable scenario as a lemma.
