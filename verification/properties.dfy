/** What `UndoBlockUserFromCommunity` guarantees, stated over the model in
    module UndoBlockUserHandler: one counter threaded through every resolution,
    logs that replay the collaborators faithfully, exactly one unban call,
    a ban table the handler itself never reads, and the scenarios of an inbound Undo and an outbound one. */
module UndoBlockUserProperties {
  import opened Wrappers
  import opened Activities
  import opened Trace
  import opened LemmyContext
  import opened UndoBlockUserHandler

  /** `verify` hands the request counter from each resolution to the next,
      starting from the caller's value and never resetting it. */
  lemma VerifyThreadsCounter(ctx: Context, u: UndoBlockUser, n: int, store: BanStore)
    ensures Threaded(Verify(ctx, u, n, store).log, n, Verify(ctx, u, n, store).counter)
  {
    var public := ctx.verifyIsPublic(u.to);
    var s1 := Step(VerifyIsPublic(u.to), NoFetch, ErrorOf(public), NoValue);
    ThreadedSnoc([], s1, n, n, n);
    assert [] + [s1] == [s1];
    if public.Fail? { return; }

    var activity := ctx.verifyActivity(u, ctx.settings);
    var s2 := Step(VerifyActivity(u), NoFetch, ErrorOf(activity), NoValue);
    ThreadedSnoc([s1], s2, n, n, n);
    assert [s1] + [s2] == [s1, s2];
    if activity.Fail? { return; }

    var community := GetCommunity(ctx, u, n, store);
    var n3 := community.counter;
    var s3 := Step(GetBlockCommunity(u.inner), Fetched(n, n3), FailureOf(community.value), CommunityFound(community.value));
    ThreadedSnoc([s1, s2], s3, n, n, n3);
    assert [s1, s2] + [s3] == [s1, s2, s3];
    if community.value.Failure? { return; }
    var comm := community.value.value;

    var member := ctx.verifyPersonInCommunity(u.actor, comm, n3, store);
    var n4 := member.counter;
    var s4 := Step(VerifyPersonInCommunity(u.actor, comm), Fetched(n3, n4), ErrorOf(member.value), NoValue);
    ThreadedSnoc([s1, s2, s3], s4, n, n3, n4);
    assert [s1, s2, s3] + [s4] == [s1, s2, s3, s4];
    if member.value.Fail? { return; }

    var moderator := ctx.verifyModAction(u.actor, comm, n4, store);
    var n5 := moderator.counter;
    var s5 := Step(VerifyModAction(u.actor, comm), Fetched(n4, n5), ErrorOf(moderator.value), NoValue);
    ThreadedSnoc([s1, s2, s3, s4], s5, n, n4, n5);
    assert [s1, s2, s3, s4] + [s5] == [s1, s2, s3, s4, s5];
    if moderator.value.Fail? { return; }

    var inner := ctx.verifyBlock(u.inner, n5, store);
    var s6 := Step(VerifyBlock(u.inner), Fetched(n5, inner.counter), ErrorOf(inner.value), NoValue);
    ThreadedSnoc([s1, s2, s3, s4, s5], s6, n, n5, inner.counter);
    assert [s1, s2, s3, s4, s5] + [s6] == [s1, s2, s3, s4, s5, s6];
  }

  /** `receive` threads the counter through its two resolutions; the
      unban call does not take it. */
  lemma ReceiveThreadsCounter(ctx: Context, u: UndoBlockUser, n: int, store: BanStore)
    ensures Threaded(Receive(ctx, u, n, store).log, n, Receive(ctx, u, n, store).counter)
  {
    var community := GetCommunity(ctx, u, n, store);
    var n1 := community.counter;
    var s1 := Step(GetBlockCommunity(u.inner), Fetched(n, n1), FailureOf(community.value), CommunityFound(community.value));
    ThreadedSnoc([], s1, n, n, n1);
    assert [] + [s1] == [s1];
    if community.value.Failure? { return; }

    var person := ctx.dereferencePerson(u.inner.blocked, n1, store);
    var n2 := person.counter;
    var s2 := Step(DereferencePerson(u.inner.blocked), Fetched(n1, n2), FailureOf(person.value), PersonFound(person.value));
    ThreadedSnoc([s1], s2, n, n1, n2);
    assert [s1] + [s2] == [s1, s2];
    if person.value.Failure? { return; }

    var form := BanForm(community.value.value.id, person.value.value.id);
    var s3 := Step(Unban(form), NoFetch, FailureOf(ctx.unban(form, store)), TableFound(ctx.unban(form, store)));
    ThreadedSnoc([s1, s2], s3, n, n2, n2);
    assert [s1, s2] + [s3] == [s1, s2, s3];
  }

  /** Every entry of `verify`'s log is what its collaborator answers. */
  lemma VerifyReplays(ctx: Context, u: UndoBlockUser, n: int, store: BanStore)
    ensures Replays(ctx, Verify(ctx, u, n, store).log, store)
  {
  }

  /** Every entry of `receive`'s log is what its collaborator answers. */
  lemma ReceiveReplays(ctx: Context, u: UndoBlockUser, n: int, store: BanStore)
    ensures Replays(ctx, Receive(ctx, u, n, store).log, store)
  {
  }

  /** A rejection by one of the first two checks (public addressing,
      activity/origin) leaves the request counter untouched and resolves
      nothing. */
  lemma EarlyRejectionFetchesNothing(ctx: Context, u: UndoBlockUser, n: int, store: BanStore)
    requires |Verify(ctx, u, n, store).log| <= 2
    ensures Verify(ctx, u, n, store).outcome.Fail?
    ensures Verify(ctx, u, n, store).counter == n
    ensures forall i :: 0 <= i < |Verify(ctx, u, n, store).log| ==> Verify(ctx, u, n, store).log[i].fetch.NoFetch?
  {
    var v := Verify(ctx, u, n, store);
    VerifyReplays(ctx, u, n, store);
    VerifyThreadsCounter(ctx, u, n, store);
    forall i | 0 <= i < |v.log|
      ensures v.log[i].fetch.NoFetch?
    {
      assert KindOf(v.log[i].call) in {PublicCheck, ActivityCheck};
      assert v.log[i] == Invoke(ctx, v.log[i].call, CounterIn(v.log[i].fetch), store);
    }
    ThreadedWithoutFetch(v.log, n, v.counter);
  }

  /** `verify` never calls unban. */
  lemma VerifyNeverUnbans(ctx: Context, u: UndoBlockUser, n: int, store: BanStore)
    ensures forall i :: 0 <= i < |Verify(ctx, u, n, store).log| ==> !Verify(ctx, u, n, store).log[i].call.Unban?
    ensures UnbanCount(Verify(ctx, u, n, store).log) == 0
  {
    var v := Verify(ctx, u, n, store);
    forall i | 0 <= i < |v.log|
      ensures !v.log[i].call.Unban?
    {
      assert KindOf(v.log[i].call) == VerifyOrder[i];
    }
    UnbanCountZero(v.log);
  }

  /** `receive` calls unban at most once, and exactly once when it
      succeeds. */
  lemma ReceiveUnbansOnce(ctx: Context, u: UndoBlockUser, n: int, store: BanStore)
    ensures UnbanCount(Receive(ctx, u, n, store).log) == (if |Receive(ctx, u, n, store).log| == 3 then 1 else 0)
    ensures Receive(ctx, u, n, store).outcome.Pass? ==> UnbanCount(Receive(ctx, u, n, store).log) == 1
  {
    var r := Receive(ctx, u, n, store);
    var k := |r.log| - 1;
    forall i | 0 <= i < k
      ensures !r.log[..k][i].call.Unban?
    {
      assert KindOf(r.log[i].call) == ReceiveOrder[i];
    }
    UnbanCountZero(r.log[..k]);
    assert r.log == r.log[..k] + [r.log[k]];
    UnbanCountSnoc(r.log[..k], r.log[k]);
  }

  /** What the activity router does with this handler: `receive` runs only
      once `verify` returned Ok, and continues with the counter `verify`
      left. */
  function VerifyThenReceive(ctx: Context, u: UndoBlockUser, n: int, store: BanStore): (r: Applied)
    ensures Verify(ctx, u, n, store).outcome.Fail? ==>
      && r.outcome == Verify(ctx, u, n, store).outcome
      && r.store == store
      && UnbanCount(r.log) == 0
    ensures r.outcome.Fail? ==> r.store == store
    ensures UnbanCount(r.log) <= 1
    ensures r.outcome.Pass? ==> UnbanCount(r.log) == 1
    ensures FollowsOrder(r.log, VerifyOrder + ReceiveOrder)
    ensures ShortCircuit(r.log)
    ensures r.outcome == OutcomeOf(r.log)
    ensures Threaded(r.log, n, r.counter)
  {
    var v := Verify(ctx, u, n, store);
    VerifyThreadsCounter(ctx, u, n, store);
    VerifyNeverUnbans(ctx, u, n, store);
    if v.outcome.Fail? then Applied(v.outcome, v.counter, store, v.log) else
    var a := Receive(ctx, u, v.counter, store);
    ReceiveThreadsCounter(ctx, u, v.counter, store);
    ReceiveUnbansOnce(ctx, u, v.counter, store);
    ThreadedAppend(v.log, a.log, n, v.counter, a.counter);
    UnbanCountAppend(v.log, a.log);
    PassedChainAppend(v.log, a.log, VerifyOrder, ReceiveOrder);
    Applied(a.outcome, a.counter, a.store, v.log + a.log)
  }

  /** `verify` accepts exactly when all six checks ran and none failed. */
  lemma VerifyPassesIffAllSixPass(ctx: Context, u: UndoBlockUser, n: int, store: BanStore)
    ensures Verify(ctx, u, n, store).outcome.Pass? <==>
      && |Verify(ctx, u, n, store).log| == 6
      && forall i :: 0 <= i < 6 ==> Verify(ctx, u, n, store).log[i].error.None?
  {
  }

  /** `verify` and `receive` both look the community up through the inner
      Block, so any two Undos wrapping the same Block resolve the same
      community. */
  lemma CommunityComesFromInnerBlock(ctx: Context, u: UndoBlockUser, u': UndoBlockUser, n: int, store: BanStore)
    requires u.inner == u'.inner
    ensures GetCommunity(ctx, u, n, store) == GetCommunity(ctx, u', n, store)
    ensures |Verify(ctx, u, n, store).log| > 2 ==> Verify(ctx, u, n, store).log[2].call == Receive(ctx, u', n, store).log[0].call
  {
  }

  /** An Undo not addressed to the public is rejected by the first check:
      nothing is resolved, the counter is untouched and the ban table is
      never written. */
  lemma NotPublicIsRejected(ctx: Context, u: UndoBlockUser, n: int, store: BanStore)
    requires ctx.verifyIsPublic(u.to).Fail?
    ensures var r := VerifyThenReceive(ctx, u, n, store);
      && r.outcome == ctx.verifyIsPublic(u.to)
      && r.store == store
      && r.counter == n
      && |r.log| == 1
      && UnbanCount(r.log) == 0
  {
  }

  /** An actor who is a member of the community but no longer its moderator
      is rejected by the moderator check: the inner Block is never verified
      and the ban row stays. */
  lemma DemotedModeratorIsRejected(
    ctx: Context, u: UndoBlockUser, n: int, store: BanStore,
    c: Community, n1: int, n2: int, n3: int, e: LemmyError)
    requires ctx.verifyIsPublic(u.to) == Pass
    requires ctx.verifyActivity(u, ctx.settings) == Pass
    requires ctx.blockCommunity(u.inner, n, store) == Counted(Success(c), n1)
    requires ctx.verifyPersonInCommunity(u.actor, c, n1, store) == Counted(Pass, n2)
    requires ctx.verifyModAction(u.actor, c, n2, store) == Counted(Fail(e), n3)
    ensures var r := VerifyThenReceive(ctx, u, n, store);
      && r.outcome == Fail(e)
      && r.store == store
      && r.counter == n3
      && |r.log| == 5
      && forall i :: 0 <= i < |r.log| ==> KindOf(r.log[i].call) != InnerBlockCheck
  {
  }

  /** An accepted Undo lifts exactly one ban: the one keyed by the
      community the inner Block resolves to and the person it names. */
  lemma AcceptedUndoLiftsOneBan(
    ctx: Context, u: UndoBlockUser, n: int, store: BanStore,
    c: Community, p: Person, m1: int, m2: int)
    requires Verify(ctx, u, n, store).outcome.Pass?
    requires ctx.blockCommunity(u.inner, Verify(ctx, u, n, store).counter, store) == Counted(Success(c), m1)
    requires ctx.dereferencePerson(u.inner.blocked, m1, store) == Counted(Success(p), m2)
    ensures var r := VerifyThenReceive(ctx, u, n, store);
      && UnbanCount(r.log) == 1
      && (forall i :: 0 <= i < |r.log| && r.log[i].call.Unban? ==> r.log[i].call.form == BanForm(c.id, p.id))
      && r.counter == m2
  {
  }

  /** The outcome of an accepted Undo is the ban table's answer to that one
      unban, and the table afterwards is the one it returned. */
  lemma AcceptedUndoReportsUnban(
    ctx: Context, u: UndoBlockUser, n: int, store: BanStore,
    c: Community, p: Person, m1: int, m2: int)
    requires Verify(ctx, u, n, store).outcome.Pass?
    requires ctx.blockCommunity(u.inner, Verify(ctx, u, n, store).counter, store) == Counted(Success(c), m1)
    requires ctx.dereferencePerson(u.inner.blocked, m1, store) == Counted(Success(p), m2)
    ensures var r := VerifyThenReceive(ctx, u, n, store);
      match ctx.unban(BanForm(c.id, p.id), store)
      case Success(after) => r.outcome == Pass && r.store == after
      case Failure(err) => r.outcome == Fail(err) && r.store == store
  {
  }

  /** The two ban tables look the same to every helper that is handed the
      database: each answers the same for every argument and counter. */
  ghost predicate SameAnswers(ctx: Context, s1: BanStore, s2: BanStore)
  {
    && (forall b, k :: ctx.blockCommunity(b, k, s1) == ctx.blockCommunity(b, k, s2))
    && (forall a, c, k :: ctx.verifyPersonInCommunity(a, c, k, s1) == ctx.verifyPersonInCommunity(a, c, k, s2))
    && (forall a, c, k :: ctx.verifyModAction(a, c, k, s1) == ctx.verifyModAction(a, c, k, s2))
    && (forall b, k :: ctx.verifyBlock(b, k, s1) == ctx.verifyBlock(b, k, s2))
    && (forall p, k :: ctx.dereferencePerson(p, k, s1) == ctx.dereferencePerson(p, k, s2))
  }

  /** The handler's own code never reads the ban table: on two tables its
      helpers cannot tell apart, `verify` runs identically, and `receive`
      makes the same calls with the same answers up to the unban, which is
      issued for the same key. Only the unban itself sees the difference; a
      receive that stops at a failing lookup is identical on both tables. */
  lemma HandlerReadsBansOnlyThroughHelpers(ctx: Context, u: UndoBlockUser, n: int, s1: BanStore, s2: BanStore)
    requires SameAnswers(ctx, s1, s2)
    ensures Verify(ctx, u, n, s1) == Verify(ctx, u, n, s2)
    ensures var a1 := Receive(ctx, u, n, s1); var a2 := Receive(ctx, u, n, s2);
      && |a1.log| == |a2.log|
      && a1.counter == a2.counter
      && a1.log[..|a1.log| - 1] == a2.log[..|a2.log| - 1]
      && a1.log[|a1.log| - 1].call == a2.log[|a2.log| - 1].call
      && (|a1.log| < |ReceiveOrder| ==> a1.outcome == a2.outcome && a1.log == a2.log)
  {
    var c := GetCommunity(ctx, u, n, s1);
    assert c == GetCommunity(ctx, u, n, s2);
    if c.value.Success? {
      assert ctx.dereferencePerson(u.inner.blocked, c.counter, s1) == ctx.dereferencePerson(u.inner.blocked, c.counter, s2);
    }
  }

  /** An Undo is accepted, or rejected, the same whether or not the ban row
      it lifts exists: as long as no helper reads that row, `verify` re-runs
      the inner Block's checks and never looks for it, and `receive` issues
      the same unban either way. */
  lemma UndoAcceptedWithoutBanRow(ctx: Context, u: UndoBlockUser, n: int, store: BanStore, form: BanForm)
    requires SameAnswers(ctx, store - {form}, store + {form})
    ensures Verify(ctx, u, n, store - {form}) == Verify(ctx, u, n, store + {form})
    ensures var m := Verify(ctx, u, n, store + {form}).counter;
      var without := Receive(ctx, u, m, store - {form});
      var with := Receive(ctx, u, m, store + {form});
      && |without.log| == |with.log|
      && without.log[|without.log| - 1].call == with.log[|with.log| - 1].call
  {
    HandlerReadsBansOnlyThroughHelpers(ctx, u, n, store - {form}, store + {form});
    var m := Verify(ctx, u, n, store + {form}).counter;
    HandlerReadsBansOnlyThroughHelpers(ctx, u, m, store - {form}, store + {form});
  }

  /** The Undo `send` hands to delivery is public, names the acting person,
      and is verified against the very Block `send` built: its community
      check resolves that Block's community and its actor checks use the
      sender's id. */
  lemma SentUndoIsCheckedAgainstItsBlock(
    ctx: Context, community: Community, target: Person, actor: Person, n: int, store: BanStore)
    requires Send(ctx, community, target, actor).delivered.Some?
    ensures var u := Send(ctx, community, target, actor).delivered.value.activity.undo;
      var v := Verify(ctx, u, n, store);
      && Public in u.to
      && v.log[0].call == VerifyIsPublic([Public])
      && (|v.log| > 2 ==> v.log[2].call == GetBlockCommunity(ctx.newBlock(community, target, actor).value))
      && (|v.log| > 3 ==> v.log[3].call.actor == ObjectId(actor.actorId))
      && GetCommunity(ctx, u, n, store) == ctx.blockCommunity(ctx.newBlock(community, target, actor).value, n, store)
  {
  }
}
