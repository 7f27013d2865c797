/** `UndoBlockUserFromCommunity` (crates/apub/src/activities/community/undo_block_user.rs):
    sending an Undo of a community ban, verifying an incoming one, and applying
    it. Each operation is a pure function of the collaborators in `Context`,
    the incoming request counter and, for `Receive`, the ban table; it returns
    its result together with the log of the calls it made. */
module UndoBlockUserHandler {
  import opened Wrappers
  import opened Activities
  import opened Trace
  import opened LemmyContext

  /** The six checks of `verify`, in the order the handler runs them. */
  const VerifyOrder: seq<CallKind> :=
    [PublicCheck, ActivityCheck, CommunityLookup, MemberCheck, ModeratorCheck, InnerBlockCheck]

  /** The three calls of `receive`, in order. */
  const ReceiveOrder: seq<CallKind> := [CommunityLookup, PersonLookup, UnbanWrite]

  /** The result of `verify`: its outcome, the request counter it leaves,
      and the calls it made. */
  datatype Verdict = Verdict(outcome: Outcome<LemmyError>, counter: int, log: seq<Step>)

  /** The result of `receive`: also the ban table afterwards. */
  datatype Applied = Applied(outcome: Outcome<LemmyError>, counter: int, store: BanStore, log: seq<Step>)

  /** The result of `send`: its outcome, and what was handed to
      `send_to_community`, if anything was. */
  datatype Sent = Sent(outcome: Outcome<LemmyError>, delivered: Option<Delivery>)

  /** `GetCommunity::get_community`: the Undo's community is whatever its
      inner Block resolves to, looked up with the caller's counter. */
  function GetCommunity(ctx: Context, u: UndoBlockUser, n: int, store: BanStore): (r: Counted<Result<Community, LemmyError>>)
    ensures Invoke(ctx, GetBlockCommunity(u.inner), n, store) ==
      Step(GetBlockCommunity(u.inner), Fetched(n, r.counter), FailureOf(r.value), CommunityFound(r.value))
  {
    ctx.blockCommunity(u.inner, n, store)
  }

  /** The Undo the handler wraps `block` in when `actor` lifts a ban in
      `community`; `id` is the freshly minted activity id. */
  predicate IsUndoOf(u: UndoBlockUser, block: Block, community: Community, actor: Person, id: Url)
  {
    && u.actor == ObjectId(actor.actorId)
    && u.to == [Public]
    && u.inner == block
    && u.cc == [community.actorId]
    && u.kind == Undo
    && u.id == id
    && u.unparsed == NoUnparsed
  }

  /** `UndoBlockUserFromCommunity::send`: build the Block, mint an id, wrap
      the Block in an Undo and hand it to delivery for the target's inbox. */
  function Send(ctx: Context, community: Community, target: Person, actor: Person): (r: Sent)
    ensures r.delivered.Some? <==>
      && ctx.newBlock(community, target, actor).Success?
      && ctx.generateActivityId(Undo, ctx.settings.protocolAndHostname).Success?
    ensures ctx.newBlock(community, target, actor).Failure? ==>
      r.outcome == Fail(ctx.newBlock(community, target, actor).error)
    ensures
      (&& ctx.newBlock(community, target, actor).Success?
       && ctx.generateActivityId(Undo, ctx.settings.protocolAndHostname).Failure?) ==>
      r.outcome == Fail(ctx.generateActivityId(Undo, ctx.settings.protocolAndHostname).error)
    ensures r.delivered.Some? ==>
      var d := r.delivered.value;
      && r.outcome == ctx.sendToCommunity(d)
      && ctx.generateActivityId(Undo, ctx.settings.protocolAndHostname) == Success(d.id)
      && IsUndoOf(d.activity.undo, ctx.newBlock(community, target, actor).value, community, actor, d.id)
      && d.actor == actor
      && d.community == community
      && d.inboxes == [target.SharedInboxOrInbox()]
  {
    match ctx.newBlock(community, target, actor)
    case Failure(e) => Sent(Fail(e), None)
    case Success(block) =>
      match ctx.generateActivityId(Undo, ctx.settings.protocolAndHostname)
      case Failure(e) => Sent(Fail(e), None)
      case Success(id) =>
        var undo := UndoBlockUser(
          ObjectId(actor.actorId), [Public], block, [community.actorId], Undo, id, NoUnparsed);
        var delivery := Delivery(
          UndoBlockUserFromCommunity(undo), id, actor, community, [target.SharedInboxOrInbox()]);
        Sent(ctx.sendToCommunity(delivery), Some(delivery))
  }

  /** `ActivityHandler::verify`: six checks, each returning early with its
      error; the counter is handed from one resolution to the next. */
  function Verify(ctx: Context, u: UndoBlockUser, n: int, store: BanStore): (r: Verdict)
    ensures 1 <= |r.log| && FollowsOrder(r.log, VerifyOrder)
    ensures ShortCircuit(r.log)
    ensures r.outcome == OutcomeOf(r.log)
    ensures r.outcome.Pass? ==> |r.log| == |VerifyOrder|
    ensures r.log[0].call == VerifyIsPublic(u.to)
    ensures |r.log| > 1 ==> r.log[1].call == VerifyActivity(u)
    ensures |r.log| > 2 ==> r.log[2].call == GetBlockCommunity(u.inner) && r.log[2].fetch.Fetched? && r.log[2].fetch.before == n
    ensures |r.log| > 3 ==>
      && r.log[3].call == VerifyPersonInCommunity(u.actor, r.log[3].call.community)
      && GetCommunity(ctx, u, n, store).value == Success(r.log[3].call.community)
      && r.log[2].found == FoundCommunity(r.log[3].call.community)
    ensures |r.log| > 4 ==> r.log[4].call == VerifyModAction(u.actor, r.log[3].call.community)
    ensures |r.log| > 5 ==> r.log[5].call == VerifyBlock(u.inner)
  {
    var public := ctx.verifyIsPublic(u.to);
    var s1 := Step(VerifyIsPublic(u.to), NoFetch, ErrorOf(public), NoValue);
    var log1 := [s1];
    if public.Fail? then Verdict(public, n, log1) else

    var activity := ctx.verifyActivity(u, ctx.settings);
    var s2 := Step(VerifyActivity(u), NoFetch, ErrorOf(activity), NoValue);
    var log2 := [s1, s2];
    if activity.Fail? then Verdict(activity, n, log2) else

    var community := GetCommunity(ctx, u, n, store);
    var n3 := community.counter;
    var s3 := Step(GetBlockCommunity(u.inner), Fetched(n, n3), FailureOf(community.value), CommunityFound(community.value));
    var log3 := [s1, s2, s3];
    if community.value.Failure? then Verdict(Fail(community.value.error), n3, log3) else
    var comm := community.value.value;

    var member := ctx.verifyPersonInCommunity(u.actor, comm, n3, store);
    var n4 := member.counter;
    var s4 := Step(VerifyPersonInCommunity(u.actor, comm), Fetched(n3, n4), ErrorOf(member.value), NoValue);
    var log4 := [s1, s2, s3, s4];
    if member.value.Fail? then Verdict(member.value, n4, log4) else

    var moderator := ctx.verifyModAction(u.actor, comm, n4, store);
    var n5 := moderator.counter;
    var s5 := Step(VerifyModAction(u.actor, comm), Fetched(n4, n5), ErrorOf(moderator.value), NoValue);
    var log5 := [s1, s2, s3, s4, s5];
    if moderator.value.Fail? then Verdict(moderator.value, n5, log5) else

    var inner := ctx.verifyBlock(u.inner, n5, store);
    var s6 := Step(VerifyBlock(u.inner), Fetched(n5, inner.counter), ErrorOf(inner.value), NoValue);
    var log6 := [s1, s2, s3, s4, s5, s6];
    Verdict(inner.value, inner.counter, log6)
  }

  /** The ban key `receive` removes, when both lookups it makes succeed: the
      community of the inner Block, resolved with counter `n`, and the person
      the inner Block names, resolved with the counter that lookup left. */
  predicate UnbansBlockedPair(ctx: Context, u: UndoBlockUser, n: int, store: BanStore, form: BanForm)
  {
    var community := GetCommunity(ctx, u, n, store);
    && community.value.Success?
    && var person := ctx.dereferencePerson(u.inner.blocked, community.counter, store);
    && person.value.Success?
    && form == BanForm(community.value.value.id, person.value.value.id)
  }

  /** `ActivityHandler::receive`: resolve the community and the blocked
      person, then call `unban` on that one (community, person) key. A failed unban leaves the table
      as it was. */
  function Receive(ctx: Context, u: UndoBlockUser, n: int, store: BanStore): (r: Applied)
    ensures 1 <= |r.log| && FollowsOrder(r.log, ReceiveOrder)
    ensures ShortCircuit(r.log)
    ensures r.outcome == OutcomeOf(r.log)
    ensures r.outcome.Pass? ==> |r.log| == |ReceiveOrder|
    ensures r.log[0].call == GetBlockCommunity(u.inner) && r.log[0].fetch.Fetched? && r.log[0].fetch.before == n
    ensures |r.log| > 1 ==> r.log[1].call == DereferencePerson(u.inner.blocked)
    ensures |r.log| > 2 ==> r.log[2].call.Unban? && UnbansBlockedPair(ctx, u, n, store, r.log[2].call.form)
    ensures |r.log| > 2 ==>
      && r.log[0].found.FoundCommunity? && r.log[1].found.FoundPerson?
      && r.log[2].call.form == BanForm(r.log[0].found.community.id, r.log[1].found.person.id)
    ensures r.outcome.Fail? ==> r.store == store
    ensures r.outcome.Pass? ==> ctx.unban(r.log[2].call.form, store) == Success(r.store)
    ensures r.outcome.Pass? ==> r.log[2].found == NewTable(r.store)
  {
    var community := GetCommunity(ctx, u, n, store);
    var n1 := community.counter;
    var s1 := Step(GetBlockCommunity(u.inner), Fetched(n, n1), FailureOf(community.value), CommunityFound(community.value));
    var log1 := [s1];
    if community.value.Failure? then Applied(Fail(community.value.error), n1, store, log1) else

    var person := ctx.dereferencePerson(u.inner.blocked, n1, store);
    var n2 := person.counter;
    var s2 := Step(DereferencePerson(u.inner.blocked), Fetched(n1, n2), FailureOf(person.value), PersonFound(person.value));
    var log2 := [s1, s2];
    if person.value.Failure? then Applied(Fail(person.value.error), n2, store, log2) else

    var form := BanForm(community.value.value.id, person.value.value.id);
    var unbanned := ctx.unban(form, store);
    var s3 := Step(Unban(form), NoFetch, FailureOf(unbanned), TableFound(unbanned));
    var log3 := [s1, s2, s3];
    match unbanned
    case Failure(e) => Applied(Fail(e), n2, store, log3)
    case Success(after) => Applied(Pass, n2, after, log3)
  }
}
