/** The group-membership reconciliation as diff-then-apply: list the
    current members once, add every desired user that is missing, remove
    every member that is not desired, and stop at the first fatal error.
    A 404 on a removal is not fatal. This module is the specification
    the imperative reconciler in ResourceGroup is proved against, and the
    home of the properties of that pass. */
module Membership {
  import opened Seqs
  import opened OktaApi

  /** The state of a pass: the group's members, the calls issued so far,
      and the fatal error it stopped at, if any. */
  datatype Pass = Pass(members: seq<string>, issued: seq<Call>, err: Option<ApiError>)

  /** The provider's `suppressErrorOn404`: a 404 is no error, every other error passes through. */
  function SuppressErrorOn404(err: Option<ApiError>): (r: Option<ApiError>)
    ensures r.None? <==> err.None? || err == Some(NotFound)
    ensures r.Some? ==> r == err
  {
    if err == Some(NotFound) then None else err
  }

  /** A call whose failure aborts the pass, whatever the members are: a
      failed listing, a failed add, or a removal failing with anything but a 404. */
  predicate Fatal(f: Faults, c: Call) {
    match c
    case ListUsers => f.list.Some?
    case AddUser(u) => u in f.add
    case RemoveUser(u) => u in f.remove && f.remove[u].Other?
  }

  /** The error a fatal call reports. */
  function FaultOf(f: Faults, c: Call): (e: ApiError)
    requires Fatal(f, c)
  {
    match c
    case ListUsers => f.list.value
    case AddUser(u) => f.add[u]
    case RemoveUser(u) => f.remove[u]
  }

  /** Issue one call and record its effect: removals go through `SuppressErrorOn404`. */
  function Issue(p: Pass, f: Faults, c: Call): (q: Pass)
    ensures q.issued == p.issued + [c]
    ensures q.err == if Fatal(f, c) then Some(FaultOf(f, c)) else None
    ensures Fatal(f, c) ==> q.members == p.members
  {
    match c
    case ListUsers => Pass(p.members, p.issued + [c], f.list)
    case AddUser(u) =>
      var (m, e) := AddOutcome(p.members, f.add, u);
      Pass(m, p.issued + [c], e)
    case RemoveUser(u) =>
      var (m, e) := RemoveOutcome(p.members, f.remove, u);
      Pass(m, p.issued + [c], SuppressErrorOn404(e))
  }

  /** Issue `calls` in order, issuing nothing more once a fatal error occurred. */
  function Run(p: Pass, f: Faults, calls: seq<Call>): (r: Pass)
    ensures p.err.Some? ==> r == p
    decreases |calls|
  {
    if calls == [] then p
    else
      var q := Run(p, f, calls[..|calls| - 1]);
      if q.err.Some? then q else Issue(q, f, calls[|calls| - 1])
  }

  /** No call makes a user a member twice. */
  lemma {:induction false} RunKeepsDistinct(p: Pass, f: Faults, calls: seq<Call>)
    requires Distinct(p.members)
    ensures Distinct(Run(p, f, calls).members)
    decreases |calls|
  {
    if calls != [] {
      var q := Run(p, f, calls[..|calls| - 1]);
      RunKeepsDistinct(p, f, calls[..|calls| - 1]);
      match calls[|calls| - 1]
      case ListUsers =>
      case AddUser(u) => AddKeepsDistinct(q.members, f.add, u);
      case RemoveUser(u) => RemoveKeepsDistinct(q.members, f.remove, u);
    }
  }

  function AddCalls(ids: seq<string>): (calls: seq<Call>)
    ensures |calls| == |ids|
    ensures forall i :: 0 <= i < |ids| ==> calls[i] == AddUser(ids[i])
  {
    seq(|ids|, i requires 0 <= i < |ids| => AddUser(ids[i]))
  }

  function RemoveCalls(ids: seq<string>): (calls: seq<Call>)
    ensures |calls| == |ids|
    ensures forall i :: 0 <= i < |ids| ==> calls[i] == RemoveUser(ids[i])
  {
    seq(|ids|, i requires 0 <= i < |ids| => RemoveUser(ids[i]))
  }

  lemma AddCallsContents(ids: seq<string>)
    ensures forall c :: c in AddCalls(ids) <==> c.AddUser? && c.userId in ids
    ensures Distinct(ids) ==> Distinct(AddCalls(ids))
  {
  }

  lemma RemoveCallsContents(ids: seq<string>)
    ensures forall c :: c in RemoveCalls(ids) <==> c.RemoveUser? && c.userId in ids
    ensures Distinct(ids) ==> Distinct(RemoveCalls(ids))
  {
  }

  /** The calls of one pass: one listing, then an add for every desired id not
      yet a member, then a remove for every member not desired. */
  function Plan(desired: seq<string>, existing: seq<string>): (calls: seq<Call>)
    ensures |calls| >= 1 && calls[0] == ListUsers
    ensures |calls| <= 1 + |desired| + |existing|
  {
    [ListUsers] + AddCalls(Difference(desired, existing)) + RemoveCalls(Difference(existing, desired))
  }

  /** The plan is the diff of the two sets: after the listing it holds an add
      for exactly the desired ids that are no members and a remove for
      exactly the members that are not desired, and it holds no call twice. */
  lemma PlanIsDiff(desired: seq<string>, existing: seq<string>)
    ensures |Plan(desired, existing)| >= 1 && Plan(desired, existing)[0] == ListUsers
    ensures forall c :: c in Plan(desired, existing)[1..] <==>
      (c.AddUser? && c.userId in desired && c.userId !in existing) ||
      (c.RemoveUser? && c.userId in existing && c.userId !in desired)
  {
    var adds := AddCalls(Difference(desired, existing));
    var removes := RemoveCalls(Difference(existing, desired));
    AddCallsContents(Difference(desired, existing));
    RemoveCallsContents(Difference(existing, desired));
    assert Plan(desired, existing)[1..] == adds + removes;
  }

  /** When both lists hold each id once, the plan holds no call twice. */
  lemma PlanDistinct(desired: seq<string>, existing: seq<string>)
    requires Distinct(desired) && Distinct(existing)
    ensures Distinct(Plan(desired, existing))
  {
    var adds := AddCalls(Difference(desired, existing));
    var removes := RemoveCalls(Difference(existing, desired));
    DifferenceKeepsDistinct(desired, existing);
    DifferenceKeepsDistinct(existing, desired);
    AddCallsContents(Difference(desired, existing));
    RemoveCallsContents(Difference(existing, desired));
    assert forall i, j :: 0 <= i < |adds| && 0 <= j < |removes| ==> adds[i] != removes[j] by {
      forall i, j | 0 <= i < |adds| && 0 <= j < |removes| ensures adds[i] != removes[j] {
        assert adds[i].AddUser? && removes[j].RemoveUser?;
      }
    }
    DistinctConcat(adds, removes);
    forall j | 0 <= j < |adds + removes| ensures ListUsers != (adds + removes)[j] {
      if j < |adds| {
        assert (adds + removes)[j] == adds[j];
      } else {
        assert (adds + removes)[j] == removes[j - |adds|];
      }
    }
    DistinctConcat([ListUsers], adds + removes);
    assert Plan(desired, existing) == [ListUsers] + (adds + removes);
  }

  /** One pass of `updateGroupUsers` on a group whose members are `existing`.
      With the flag off nothing is issued and nothing changes; with it on the
      calls issued start with the listing and are a prefix of the plan. */
  function Reconcile(manageUsers: bool, desired: seq<string>, existing: seq<string>, f: Faults): (p: Pass)
    ensures !manageUsers ==> p == Pass(existing, [], None)
    ensures manageUsers ==> 1 <= |p.issued| <= |Plan(desired, existing)| && p.issued == Plan(desired, existing)[..|p.issued|]
  {
    if !manageUsers then Pass(existing, [], None)
    else
      RunIssuesPrefix(Pass(existing, [], None), f, Plan(desired, existing));
      Run(Pass(existing, [], None), f, Plan(desired, existing))
  }

  /** No call of the pass can fail fatally: the listing works, no missing
      user fails to be added, and no stale member fails to be removed
      except with a 404. */
  predicate NoFatalFault(desired: seq<string>, existing: seq<string>, f: Faults) {
    f.list.None? &&
    (forall u :: u in desired && u !in existing ==> u !in f.add) &&
    (forall u :: u in existing && u !in desired && u in f.remove ==> f.remove[u].NotFound?)
  }

  // ------------------------------------------------------------------
  // Running a sequence of calls

  lemma {:induction false} RunConcat(p: Pass, f: Faults, a: seq<Call>, b: seq<Call>)
    ensures Run(p, f, a + b) == Run(Run(p, f, a), f, b)
    decreases |b|
  {
    if b == [] {
      assert a + b == a;
    } else {
      var b' := b[..|b| - 1];
      assert (a + b)[..|a + b| - 1] == a + b';
      assert (a + b)[|a + b| - 1] == b[|b| - 1];
      RunConcat(p, f, a, b');
    }
  }

  /** Nothing is issued after a fatal error. */
  lemma RunStopsAfterError(p: Pass, f: Faults, done: seq<Call>, rest: seq<Call>)
    requires Run(p, f, done).err.Some?
    ensures Run(p, f, done + rest) == Run(p, f, done)
  {
    RunConcat(p, f, done, rest);
  }

  /** Issuing one more call. */
  lemma RunSnoc(p: Pass, f: Faults, calls: seq<Call>, c: Call)
    ensures Run(p, f, calls + [c]) == (var q := Run(p, f, calls); if q.err.Some? then q else Issue(q, f, c))
  {
  }

  lemma RunSingle(p: Pass, f: Faults, c: Call)
    requires p.err.None?
    ensures Run(p, f, [c]) == Issue(p, f, c)
  {
  }

  /** Without a fatal call every call is issued and the pass returns no error. */
  lemma {:induction false} RunNoFatal(p: Pass, f: Faults, calls: seq<Call>)
    requires p.err.None?
    requires forall i :: 0 <= i < |calls| ==> !Fatal(f, calls[i])
    ensures Run(p, f, calls).err.None?
    ensures Run(p, f, calls).issued == p.issued + calls
    decreases |calls|
  {
    if calls != [] {
      var init := calls[..|calls| - 1];
      RunNoFatal(p, f, init);
      assert init + [calls[|calls| - 1]] == calls;
    }
  }

  /** A fatal call anywhere makes the pass return an error. */
  lemma {:induction false} RunFatal(p: Pass, f: Faults, calls: seq<Call>, k: nat)
    requires k < |calls| && Fatal(f, calls[k])
    ensures Run(p, f, calls).err.Some?
    decreases |calls|
  {
    var init := calls[..|calls| - 1];
    if k < |calls| - 1 {
      assert init[k] == calls[k];
      RunFatal(p, f, init, k);
    }
  }

  /** The pass stops at its first fatal call: that call is the last one
      issued, its error is returned, and it leaves the members alone. */
  lemma RunFirstFatal(p: Pass, f: Faults, calls: seq<Call>, k: nat)
    requires p.err.None?
    requires k < |calls| && Fatal(f, calls[k])
    requires forall i :: 0 <= i < k ==> !Fatal(f, calls[i])
    ensures Run(p, f, calls) == Pass(Run(p, f, calls[..k]).members, p.issued + calls[..k + 1], Some(FaultOf(f, calls[k])))
  {
    var done := calls[..k];
    var q := Run(p, f, done);
    assert forall i :: 0 <= i < k ==> !Fatal(f, done[i]);
    RunNoFatal(p, f, done);
    RunSnoc(p, f, done, calls[k]);
    IssueFatal(q, f, calls[k]);
    assert done + [calls[k]] == calls[..k + 1];
    assert q.issued + [calls[k]] == p.issued + calls[..k + 1];
    RunPrefixStops(p, f, calls, k + 1);
  }

  /** A call that fails fatally is logged and changes no member. */
  lemma IssueFatal(q: Pass, f: Faults, c: Call)
    requires Fatal(f, c)
    ensures Issue(q, f, c) == Pass(q.members, q.issued + [c], Some(FaultOf(f, c)))
  {
  }

  /** A run whose first `n` calls end in an error is the run of those calls. */
  lemma RunPrefixStops(p: Pass, f: Faults, calls: seq<Call>, n: nat)
    requires n <= |calls| && Run(p, f, calls[..n]).err.Some?
    ensures Run(p, f, calls) == Run(p, f, calls[..n])
  {
    assert calls == calls[..n] + calls[n..];
    RunStopsAfterError(p, f, calls[..n], calls[n..]);
  }

  /** Adding users none of which fails: each id is issued once, in order,
      and the members grow by exactly those ids. */
  lemma {:induction false} RunAdds(p: Pass, f: Faults, ids: seq<string>)
    requires p.err.None?
    requires forall u :: u in ids ==> u !in f.add
    ensures Run(p, f, AddCalls(ids)).err.None?
    ensures Run(p, f, AddCalls(ids)).issued == p.issued + AddCalls(ids)
    ensures forall u :: u in Run(p, f, AddCalls(ids)).members <==> u in p.members || u in ids
    decreases |ids|
  {
    if ids != [] {
      var init := ids[..|ids| - 1];
      var last := ids[|ids| - 1];
      assert AddCalls(ids)[..|ids| - 1] == AddCalls(init);
      RunAdds(p, f, init);
      assert AddCalls(init) + [AddUser(last)] == AddCalls(ids);
      RunSnoc(p, f, AddCalls(init), AddUser(last));
      AddOutcomeMembers(Run(p, f, AddCalls(init)).members, f.add, last);
      assert forall u :: u in ids <==> u in init || u == last;
    }
  }

  /** Removing members none of which fails except with a 404: each id is
      issued once, in order, and exactly those ids are gone afterwards. */
  lemma {:induction false} RunRemoves(p: Pass, f: Faults, ids: seq<string>)
    requires p.err.None?
    requires forall u :: u in ids && u in f.remove ==> f.remove[u].NotFound?
    ensures Run(p, f, RemoveCalls(ids)).err.None?
    ensures Run(p, f, RemoveCalls(ids)).issued == p.issued + RemoveCalls(ids)
    ensures forall u :: u in Run(p, f, RemoveCalls(ids)).members <==> u in p.members && u !in ids
    decreases |ids|
  {
    if ids != [] {
      var init := ids[..|ids| - 1];
      var last := ids[|ids| - 1];
      assert RemoveCalls(ids)[..|ids| - 1] == RemoveCalls(init);
      RunRemoves(p, f, init);
      assert RemoveCalls(init) + [RemoveUser(last)] == RemoveCalls(ids);
      RunSnoc(p, f, RemoveCalls(init), RemoveUser(last));
      RemoveOutcomeMembers(Run(p, f, RemoveCalls(init)).members, f.remove, last);
      assert forall u :: u in ids <==> u in init || u == last;
    }
  }

  // ------------------------------------------------------------------
  // The two loops of a pass, one id at a time

  /** The add loop after the ids `desired`: an add for each id that is no
      member of `existing`, until one fails. */
  function AddPhase(p: Pass, f: Faults, desired: seq<string>, existing: seq<string>): (r: Pass)
    ensures p.err.Some? ==> r == p
    ensures |p.issued| <= |r.issued| <= |p.issued| + |desired|
    ensures r.issued[..|p.issued|] == p.issued
    decreases |desired|
  {
    if desired == [] then p
    else
      var q := AddPhase(p, f, desired[..|desired| - 1], existing);
      var u := desired[|desired| - 1];
      if q.err.Some? || u in existing then q else Issue(q, f, AddUser(u))
  }

  /** The remove loop after the members `existing`: a remove for each member
      missing from `desired`, until one fails. */
  function RemovePhase(p: Pass, f: Faults, existing: seq<string>, desired: seq<string>): (r: Pass)
    ensures p.err.Some? ==> r == p
    ensures |p.issued| <= |r.issued| <= |p.issued| + |existing|
    ensures r.issued[..|p.issued|] == p.issued
    decreases |existing|
  {
    if existing == [] then p
    else
      var q := RemovePhase(p, f, existing[..|existing| - 1], desired);
      var u := existing[|existing| - 1];
      if q.err.Some? || u in desired then q else Issue(q, f, RemoveUser(u))
  }

  /** One more id for the add loop. */
  lemma AddPhaseStep(p: Pass, f: Faults, desired: seq<string>, existing: seq<string>, i: nat)
    requires i < |desired|
    ensures var q := AddPhase(p, f, desired[..i], existing);
      AddPhase(p, f, desired[..i + 1], existing)
        == if q.err.Some? || desired[i] in existing then q else Issue(q, f, AddUser(desired[i]))
  {
    assert desired[..i + 1][..i] == desired[..i];
  }

  /** One more member for the remove loop. */
  lemma RemovePhaseStep(p: Pass, f: Faults, existing: seq<string>, desired: seq<string>, j: nat)
    requires j < |existing|
    ensures var q := RemovePhase(p, f, existing[..j], desired);
      RemovePhase(p, f, existing[..j + 1], desired)
        == if q.err.Some? || existing[j] in desired then q else Issue(q, f, RemoveUser(existing[j]))
  {
    assert existing[..j + 1][..j] == existing[..j];
  }

  /** The add loop issues exactly the add calls of the plan. */
  lemma {:induction false} AddPhaseIsRun(p: Pass, f: Faults, desired: seq<string>, existing: seq<string>)
    ensures AddPhase(p, f, desired, existing) == Run(p, f, AddCalls(Difference(desired, existing)))
    decreases |desired|
  {
    if desired == [] {
      assert AddCalls(Difference(desired, existing)) == [];
    } else {
      var init := desired[..|desired| - 1];
      var u := desired[|desired| - 1];
      AddPhaseIsRun(p, f, init, existing);
      var done := AddCalls(Difference(init, existing));
      if u !in existing {
        assert AddCalls(Difference(desired, existing)) == done + [AddUser(u)];
        RunSnoc(p, f, done, AddUser(u));
      } else {
        assert Difference(desired, existing) == Difference(init, existing);
      }
    }
  }

  /** The remove loop issues exactly the remove calls of the plan. */
  lemma {:induction false} RemovePhaseIsRun(p: Pass, f: Faults, existing: seq<string>, desired: seq<string>)
    ensures RemovePhase(p, f, existing, desired) == Run(p, f, RemoveCalls(Difference(existing, desired)))
    decreases |existing|
  {
    if existing == [] {
      assert RemoveCalls(Difference(existing, desired)) == [];
    } else {
      var init := existing[..|existing| - 1];
      var u := existing[|existing| - 1];
      RemovePhaseIsRun(p, f, init, desired);
      var done := RemoveCalls(Difference(init, desired));
      if u !in desired {
        assert RemoveCalls(Difference(existing, desired)) == done + [RemoveUser(u)];
        RunSnoc(p, f, done, RemoveUser(u));
      } else {
        assert Difference(existing, desired) == Difference(init, desired);
      }
    }
  }

  /** Once an add failed, the add loop issues nothing more. */
  lemma {:induction false} AddPhaseStops(p: Pass, f: Faults, desired: seq<string>, existing: seq<string>, i: nat)
    requires i <= |desired|
    requires AddPhase(p, f, desired[..i], existing).err.Some?
    ensures AddPhase(p, f, desired, existing) == AddPhase(p, f, desired[..i], existing)
    decreases |desired| - i
  {
    if i < |desired| {
      assert desired[..|desired| - 1][..i] == desired[..i];
      AddPhaseStops(p, f, desired[..|desired| - 1], existing, i);
    } else {
      assert desired[..i] == desired;
    }
  }

  /** Once a remove failed, the remove loop issues nothing more. */
  lemma {:induction false} RemovePhaseStops(p: Pass, f: Faults, existing: seq<string>, desired: seq<string>, j: nat)
    requires j <= |existing|
    requires RemovePhase(p, f, existing[..j], desired).err.Some?
    ensures RemovePhase(p, f, existing, desired) == RemovePhase(p, f, existing[..j], desired)
    decreases |existing| - j
  {
    if j < |existing| {
      assert existing[..|existing| - 1][..j] == existing[..j];
      RemovePhaseStops(p, f, existing[..|existing| - 1], desired, j);
    } else {
      assert existing[..j] == existing;
    }
  }

  // ------------------------------------------------------------------
  // Properties of one reconciliation pass

  /** The pass succeeds exactly when none of its calls can fail fatally. */
  lemma ReconcileSucceedsIff(desired: seq<string>, existing: seq<string>, f: Faults)
    ensures Reconcile(true, desired, existing, f).err.None? <==> NoFatalFault(desired, existing, f)
  {
    var plan := Plan(desired, existing);
    var p0 := Pass(existing, [], None);
    PlanIsDiff(desired, existing);
    if NoFatalFault(desired, existing, f) {
      forall i | 0 <= i < |plan| ensures !Fatal(f, plan[i]) {
        if i > 0 {
          assert plan[i] in plan[1..];
        }
      }
      RunNoFatal(p0, f, plan);
    } else if f.list.Some? {
      RunFatal(p0, f, plan, 0);
    } else if u :| u in desired && u !in existing && u in f.add {
      assert AddUser(u) in plan[1..];
      var k :| 1 <= k < |plan| && plan[k] == AddUser(u);
      RunFatal(p0, f, plan, k);
    } else {
      var u :| u in existing && u !in desired && u in f.remove && !f.remove[u].NotFound?;
      assert RemoveUser(u) in plan[1..];
      var k :| 1 <= k < |plan| && plan[k] == RemoveUser(u);
      RunFatal(p0, f, plan, k);
    }
  }

  /** Every call issued is one the diff calls for: the listing, an add of a
      desired user who is no member, or a remove of a member who is not
      desired. The calls issued are the start of the plan, all of it when the
      pass succeeds, and no call is issued twice. */
  lemma IssuesOnlyNeededCalls(desired: seq<string>, existing: seq<string>, f: Faults)
    requires Distinct(desired) && Distinct(existing)
    ensures var p := Reconcile(true, desired, existing, f);
      && (forall c :: c in p.issued ==>
            c == ListUsers ||
            (c.AddUser? && c.userId in desired && c.userId !in existing) ||
            (c.RemoveUser? && c.userId in existing && c.userId !in desired))
      && 1 <= |p.issued| <= |Plan(desired, existing)|
      && p.issued == Plan(desired, existing)[..|p.issued|]
      && (p.err.None? ==> p.issued == Plan(desired, existing))
      && Distinct(p.issued)
  {
    var plan := Plan(desired, existing);
    var p0 := Pass(existing, [], None);
    var p := Run(p0, f, plan);
    PlanIsDiff(desired, existing);
    PlanDistinct(desired, existing);
    RunIssuesPrefix(p0, f, plan);
    var m := |p.issued|;
    assert Distinct(p.issued) by {
      forall i, j | 0 <= i < j < m ensures p.issued[i] != p.issued[j] {
        assert p.issued[i] == plan[i] && p.issued[j] == plan[j];
      }
    }
    forall c | c in p.issued && c != ListUsers ensures c in plan[1..] {
      var i :| 0 <= i < m && p.issued[i] == c;
      assert i > 0 && plan[i] == c;
      assert plan[1..][i - 1] == c;
    }
  }

  /** The calls a run issues are the first ones of its list: at least the
      first, and all of them when the run returns no error. */
  lemma {:induction false} RunIssuesPrefix(p: Pass, f: Faults, calls: seq<Call>)
    requires p.err.None? && p.issued == []
    ensures |Run(p, f, calls).issued| <= |calls|
    ensures Run(p, f, calls).issued == calls[..|Run(p, f, calls).issued|]
    ensures calls != [] ==> |Run(p, f, calls).issued| >= 1
    ensures Run(p, f, calls).err.None? ==> Run(p, f, calls).issued == calls
    decreases |calls|
  {
    if calls != [] {
      var init := calls[..|calls| - 1];
      RunIssuesPrefix(p, f, init);
      var q := Run(p, f, init);
      assert q.issued == calls[..|q.issued|];
      if q.err.None? {
        assert q.issued + [calls[|calls| - 1]] == calls;
      }
    }
  }

  /** Convergence: when no call fails fatally, every call of the plan is
      issued and the members afterwards are exactly the desired ids, each once. */
  lemma ReconcileConverges(desired: seq<string>, existing: seq<string>, f: Faults)
    requires Distinct(existing)
    requires NoFatalFault(desired, existing, f)
    ensures var p := Reconcile(true, desired, existing, f);
      && p.err.None?
      && p.issued == Plan(desired, existing)
      && (forall u :: u in p.members <==> u in desired)
      && Distinct(p.members)
  {
    var toAdd := Difference(desired, existing);
    var toRemove := Difference(existing, desired);
    var adds, removes := AddCalls(toAdd), RemoveCalls(toRemove);
    var p0 := Pass(existing, [], None);
    RunSingle(p0, f, ListUsers);
    var p1 := Run(p0, f, [ListUsers]);
    assert p1 == Pass(existing, [ListUsers], None);
    RunAdds(p1, f, toAdd);
    var p2 := Run(p1, f, adds);
    RunRemoves(p2, f, toRemove);
    var p3 := Run(p2, f, removes);
    RunConcat(p0, f, [ListUsers], adds);
    RunConcat(p0, f, [ListUsers] + adds, removes);
    assert Plan(desired, existing) == [ListUsers] + adds + removes;
    assert Reconcile(true, desired, existing, f) == p3;
    forall u ensures u in p3.members <==> u in desired {
      assert u in p2.members <==> u in existing || u in toAdd;
    }
    RunKeepsDistinct(p0, f, Plan(desired, existing));
  }

  /** Idempotence: a second pass with the same desired ids, after a first one
      that succeeded, lists the members and issues no add and no remove. */
  lemma ReconcileIdempotent(desired: seq<string>, existing: seq<string>, f: Faults)
    requires Distinct(existing)
    requires NoFatalFault(desired, existing, f)
    ensures var p := Reconcile(true, desired, existing, f);
      Reconcile(true, desired, p.members, f) == Pass(p.members, [ListUsers], None)
  {
    var p := Reconcile(true, desired, existing, f);
    ReconcileConverges(desired, existing, f);
    DifferenceCovered(desired, p.members);
    DifferenceCovered(p.members, desired);
    assert Plan(desired, p.members) == [ListUsers];
    RunSingle(Pass(p.members, [], None), f, ListUsers);
  }

  /** An add that fails aborts the pass: the earlier adds are done, no later
      add and no remove is issued, and the add's error is returned. */
  lemma AddErrorAborts(desired: seq<string>, existing: seq<string>, f: Faults, k: nat)
    requires f.list.None?
    requires var toAdd := Difference(desired, existing);
      && k < |toAdd| && toAdd[k] in f.add
      && forall i :: 0 <= i < k ==> toAdd[i] !in f.add
    ensures var toAdd := Difference(desired, existing);
      var p := Reconcile(true, desired, existing, f);
      && p.err == Some(f.add[toAdd[k]])
      && p.issued == [ListUsers] + AddCalls(toAdd[..k + 1])
      && (forall u :: u in p.members <==> u in existing || u in toAdd[..k])
  {
    var toAdd := Difference(desired, existing);
    var toRemove := Difference(existing, desired);
    assert Plan(desired, existing) == [ListUsers] + AddCalls(toAdd) + RemoveCalls(toRemove);
    RunAbortsAtAdd(Pass(existing, [], None), f, toAdd, toRemove, k);
  }

  /** Listing, adding `toAdd` and removing `toRemove` when the `k`-th add
      is the first call to fail. */
  lemma RunAbortsAtAdd(p0: Pass, f: Faults, toAdd: seq<string>, toRemove: seq<string>, k: nat)
    requires p0.err.None? && p0.issued == []
    requires f.list.None?
    requires k < |toAdd| && toAdd[k] in f.add
    requires forall i :: 0 <= i < k ==> toAdd[i] !in f.add
    ensures var r := Run(p0, f, [ListUsers] + AddCalls(toAdd) + RemoveCalls(toRemove));
      && r.err == Some(f.add[toAdd[k]])
      && r.issued == [ListUsers] + AddCalls(toAdd[..k + 1])
      && (forall u :: u in r.members <==> u in p0.members || u in toAdd[..k])
  {
    var calls := [ListUsers] + AddCalls(toAdd) + RemoveCalls(toRemove);
    assert calls[..k + 1] == [ListUsers] + AddCalls(toAdd[..k]);
    assert calls[..k + 2] == [ListUsers] + AddCalls(toAdd[..k + 1]);
    assert calls[k + 1] == AddUser(toAdd[k]);
    forall i | 0 <= i < k + 1 ensures !Fatal(f, calls[i]) {
      if i > 0 {
        assert calls[i] == AddUser(toAdd[i - 1]);
      }
    }
    RunFirstFatal(p0, f, calls, k + 1);
    assert forall u :: u in toAdd[..k] ==> u !in f.add;
    RunPhases(p0, f, toAdd[..k], []);
    assert [ListUsers] + AddCalls(toAdd[..k]) + RemoveCalls([]) == calls[..k + 1];
  }

  /** With every add done, a remove that fails with anything but a 404
      aborts the pass: the earlier removes are done, no later one is issued,
      and its error is returned. The 404s before it were suppressed. */
  lemma RemoveErrorAborts(desired: seq<string>, existing: seq<string>, f: Faults, k: nat)
    requires f.list.None?
    requires forall u :: u in desired && u !in existing ==> u !in f.add
    requires var toRemove := Difference(existing, desired);
      && k < |toRemove| && toRemove[k] in f.remove && f.remove[toRemove[k]].Other?
      && forall i :: 0 <= i < k && toRemove[i] in f.remove ==> f.remove[toRemove[i]].NotFound?
    ensures var toAdd := Difference(desired, existing);
      var toRemove := Difference(existing, desired);
      var p := Reconcile(true, desired, existing, f);
      && p.err == Some(f.remove[toRemove[k]])
      && p.issued == [ListUsers] + AddCalls(toAdd) + RemoveCalls(toRemove[..k + 1])
      && (forall u :: u in p.members <==> (u in existing || u in desired) && u !in toRemove[..k])
  {
    var toAdd := Difference(desired, existing);
    var toRemove := Difference(existing, desired);
    assert Plan(desired, existing) == [ListUsers] + AddCalls(toAdd) + RemoveCalls(toRemove);
    assert forall i :: 0 <= i < k && toRemove[i] in f.remove ==> f.remove[toRemove[i]].NotFound?;
    RunAbortsAtRemove(Pass(existing, [], None), f, toAdd, toRemove, k);
  }

  /** Listing, adding `toAdd` and removing `toRemove` when the `k`-th removal
      is the first call to fail fatally. */
  lemma RunAbortsAtRemove(p0: Pass, f: Faults, toAdd: seq<string>, toRemove: seq<string>, k: nat)
    requires p0.err.None? && p0.issued == []
    requires f.list.None?
    requires forall u :: u in toAdd ==> u !in f.add
    requires k < |toRemove| && toRemove[k] in f.remove && f.remove[toRemove[k]].Other?
    requires forall i :: 0 <= i < k && toRemove[i] in f.remove ==> f.remove[toRemove[i]].NotFound?
    ensures var r := Run(p0, f, [ListUsers] + AddCalls(toAdd) + RemoveCalls(toRemove));
      && r.err == Some(f.remove[toRemove[k]])
      && r.issued == [ListUsers] + AddCalls(toAdd) + RemoveCalls(toRemove[..k + 1])
      && (forall u :: u in r.members <==> (u in p0.members || u in toAdd) && u !in toRemove[..k])
  {
    var c := RemoveUser(toRemove[k]);
    var head := [ListUsers] + AddCalls(toAdd) + RemoveCalls(toRemove[..k]);
    var tail := RemoveCalls(toRemove[k + 1..]);
    assert RemoveCalls(toRemove) == RemoveCalls(toRemove[..k]) + [c] + tail;
    assert [ListUsers] + AddCalls(toAdd) + RemoveCalls(toRemove) == head + [c] + tail;
    assert head + [c] == [ListUsers] + AddCalls(toAdd) + RemoveCalls(toRemove[..k + 1]);
    NotFoundBefore(f, toRemove, k);
    RunPhases(p0, f, toAdd, toRemove[..k]);
    RunSnoc(p0, f, head, c);
    RunStopsAfterError(p0, f, head + [c], tail);
  }

  /** The removals before the `k`-th can fail with a 404 at most. */
  lemma NotFoundBefore(f: Faults, toRemove: seq<string>, k: nat)
    requires k <= |toRemove|
    requires forall i :: 0 <= i < k && toRemove[i] in f.remove ==> f.remove[toRemove[i]].NotFound?
    ensures forall u :: u in toRemove[..k] && u in f.remove ==> f.remove[u].NotFound?
  {
  }

  /** Listing, then adding `toAdd`, then removing `toRemove`, none failing fatally. */
  lemma RunPhases(p0: Pass, f: Faults, toAdd: seq<string>, toRemove: seq<string>)
    requires p0.err.None? && p0.issued == []
    requires f.list.None?
    requires forall u :: u in toAdd ==> u !in f.add
    requires forall u :: u in toRemove && u in f.remove ==> f.remove[u].NotFound?
    ensures var r := Run(p0, f, [ListUsers] + AddCalls(toAdd) + RemoveCalls(toRemove));
      && r.err.None? && r.issued == [ListUsers] + AddCalls(toAdd) + RemoveCalls(toRemove)
      && forall u :: u in r.members <==> (u in p0.members || u in toAdd) && u !in toRemove
  {
    var adds, removes := AddCalls(toAdd), RemoveCalls(toRemove);
    RunSingle(p0, f, ListUsers);
    var p1 := Run(p0, f, [ListUsers]);
    assert p1 == Pass(p0.members, [ListUsers], None);
    RunAdds(p1, f, toAdd);
    var p2 := Run(p1, f, adds);
    RunRemoves(p2, f, toRemove);
    var r := Run(p2, f, removes);
    RunConcat(p0, f, [ListUsers], adds);
    RunConcat(p0, f, [ListUsers] + adds, removes);
  }

  /** The scenario members {u1, u2}, desired {u2, u3}, no failures: one add
      of u3, one remove of u1, and the members become {u2, u3}. */
  lemma ReplaceOneMember(u1: string, u2: string, u3: string)
    requires u1 != u2 && u2 != u3 && u1 != u3
    ensures var p := Reconcile(true, [u2, u3], [u1, u2], Faults(None, None, map[], map[]));
      && p.err.None?
      && p.issued == [ListUsers, AddUser(u3), RemoveUser(u1)]
      && forall u :: u in p.members <==> u == u2 || u == u3
  {
    var desired, existing := [u2, u3], [u1, u2];
    assert desired[..1] == [u2] && [u2][..0] == [];
    assert Difference(desired, existing) == [u3];
    assert existing[..1] == [u1] && [u1][..0] == [];
    assert Difference(existing, desired) == [u1];
    assert Plan(desired, existing) == [ListUsers, AddUser(u3), RemoveUser(u1)];
    ReconcileConverges(desired, existing, Faults(None, None, map[], map[]));
  }
}
