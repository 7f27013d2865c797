/** `LemmyContext` as the handler sees it: the settings, and every helper the
    handler calls but that lives outside crates/apub/src/activities/community/undo_block_user.rs.
    Each helper is an opaque function of its arguments; those that take the
    shared `request_counter` receive its current value and return the new one
    next to their result. The helpers of verify and receive that are handed
    the context can read the database, so each of them also receives the ban
    table: which rows they read, if any, is theirs to decide. The two helpers
    of send that are handed the context, `newBlock` and `sendToCommunity`,
    get no table. Nothing is assumed about what any helper does. */
module LemmyContext {
  import opened Wrappers
  import opened Activities
  import opened Trace

  /** A collaborator's result together with the request counter it left. */
  datatype Counted<+T> = Counted(value: T, counter: int)

  datatype Context = Context(
    settings: Settings,
    /** `verify_is_public(&to)` */
    verifyIsPublic: seq<Url> -> Outcome<LemmyError>,
    /** `verify_activity(activity, &settings)` */
    verifyActivity: (UndoBlockUser, Settings) -> Outcome<LemmyError>,
    /** `BlockUserFromCommunity::get_community(context, request_counter)` */
    blockCommunity: (Block, int, BanStore) -> Counted<Result<Community, LemmyError>>,
    /** `verify_person_in_community(actor, community, context, request_counter)` */
    verifyPersonInCommunity: (ObjectId, Community, int, BanStore) -> Counted<Outcome<LemmyError>>,
    /** `verify_mod_action(actor, community, context, request_counter)` */
    verifyModAction: (ObjectId, Community, int, BanStore) -> Counted<Outcome<LemmyError>>,
    /** `BlockUserFromCommunity::verify(context, request_counter)` */
    verifyBlock: (Block, int, BanStore) -> Counted<Outcome<LemmyError>>,
    /** `ObjectId<ApubPerson>::dereference(context, request_counter)` */
    dereferencePerson: (ObjectId, int, BanStore) -> Counted<Result<Person, LemmyError>>,
    /** `CommunityPersonBan::unban(conn, form)` run through `blocking`:
        the new table, or the pool's or the database's error. */
    unban: (BanForm, BanStore) -> Result<BanStore, LemmyError>,
    /** `BlockUserFromCommunity::new(community, target, actor, context)` */
    newBlock: (Community, Person, Person) -> Result<Block, LemmyError>,
    /** `generate_activity_id(kind, protocol_and_hostname)`; the fresh
        identifier it mints is whatever this function yields. */
    generateActivityId: (UndoType, string) -> Result<Url, LemmyError>,
    /** `send_to_community(activity, id, actor, community, inboxes, context)` */
    sendToCommunity: Delivery -> Outcome<LemmyError>)

  /** The counter a logged call was handed; calls that take none ignore it. */
  function CounterIn(f: Fetch): int
  {
    match f
    case Fetched(before, _) => before
    case NoFetch => 0
  }

  /** What the collaborator answers when `call` is made with the counter at
      `counter` and the ban table at `store`, as a log entry. */
  function Invoke(ctx: Context, call: Call, counter: int, store: BanStore): (s: Step)
    ensures s.call == call
    ensures s.fetch.Fetched? <==> KindOf(call) !in {PublicCheck, ActivityCheck, UnbanWrite}
    ensures s.fetch.Fetched? ==> s.fetch.before == counter
  {
    match call
    case VerifyIsPublic(to) =>
      Step(call, NoFetch, ErrorOf(ctx.verifyIsPublic(to)), NoValue)
    case VerifyActivity(activity) =>
      Step(call, NoFetch, ErrorOf(ctx.verifyActivity(activity, ctx.settings)), NoValue)
    case GetBlockCommunity(block) =>
      var r := ctx.blockCommunity(block, counter, store);
      Step(call, Fetched(counter, r.counter), FailureOf(r.value), CommunityFound(r.value))
    case VerifyPersonInCommunity(actor, community) =>
      var r := ctx.verifyPersonInCommunity(actor, community, counter, store);
      Step(call, Fetched(counter, r.counter), ErrorOf(r.value), NoValue)
    case VerifyModAction(actor, community) =>
      var r := ctx.verifyModAction(actor, community, counter, store);
      Step(call, Fetched(counter, r.counter), ErrorOf(r.value), NoValue)
    case VerifyBlock(block) =>
      var r := ctx.verifyBlock(block, counter, store);
      Step(call, Fetched(counter, r.counter), ErrorOf(r.value), NoValue)
    case DereferencePerson(person) =>
      var r := ctx.dereferencePerson(person, counter, store);
      Step(call, Fetched(counter, r.counter), FailureOf(r.value), PersonFound(r.value))
    case Unban(form) =>
      Step(call, NoFetch, FailureOf(ctx.unban(form, store)), TableFound(ctx.unban(form, store)))
  }

  /** Every entry of the log is exactly what its collaborator answers: the
      log invents no result, counter value or error. */
  predicate Replays(ctx: Context, log: seq<Step>, store: BanStore)
  {
    forall i :: 0 <= i < |log| ==> log[i] == Invoke(ctx, log[i].call, CounterIn(log[i].fetch), store)
  }
}
