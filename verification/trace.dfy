/** The observable behaviour of the handler: the calls it makes into its
    collaborators, in order, each with the fetch counter it handed over and
    got back, the error it received and what a successful lookup or unban
    returned. The properties of the verification
    chain (fixed order, first error wins, one counter threaded through every
    resolution) are predicates over this log, defined here independently of
    the handler. */
module Trace {
  import opened Wrappers
  import opened Activities

  /** One call into a collaborator, with the arguments the handler passed. */
  datatype Call =
    | VerifyIsPublic(to: seq<Url>)
    | VerifyActivity(activity: UndoBlockUser)
    | GetBlockCommunity(block: Block)
    | VerifyPersonInCommunity(actor: ObjectId, community: Community)
    | VerifyModAction(actor: ObjectId, community: Community)
    | VerifyBlock(block: Block)
    | DereferencePerson(person: ObjectId)
    | Unban(form: BanForm)

  datatype CallKind =
    | PublicCheck | ActivityCheck | CommunityLookup | MemberCheck
    | ModeratorCheck | InnerBlockCheck | PersonLookup | UnbanWrite

  function KindOf(c: Call): CallKind
  {
    match c
    case VerifyIsPublic(_) => PublicCheck
    case VerifyActivity(_) => ActivityCheck
    case GetBlockCommunity(_) => CommunityLookup
    case VerifyPersonInCommunity(_, _) => MemberCheck
    case VerifyModAction(_, _) => ModeratorCheck
    case VerifyBlock(_) => InnerBlockCheck
    case DereferencePerson(_) => PersonLookup
    case Unban(_) => UnbanWrite
  }

  /** Whether a call was handed the request counter: if so, its value going
      in and coming back. */
  datatype Fetch = NoFetch | Fetched(before: int, after: int)

  /** What a successful lookup or unban handed back: the community, the
      person, or the ban table after the unban. Checks hand back nothing. */
  datatype Found =
    | NoValue
    | FoundCommunity(community: Community)
    | FoundPerson(person: Person)
    | NewTable(table: BanStore)

  function CommunityFound(r: Result<Community, LemmyError>): Found
  {
    if r.Success? then FoundCommunity(r.value) else NoValue
  }

  function PersonFound(r: Result<Person, LemmyError>): Found
  {
    if r.Success? then FoundPerson(r.value) else NoValue
  }

  function TableFound(r: Result<BanStore, LemmyError>): Found
  {
    if r.Success? then NewTable(r.value) else NoValue
  }

  /** One entry of the log. `error` is `None` when the call succeeded, and
      `found` is the value a successful lookup or unban returned. */
  datatype Step = Step(call: Call, fetch: Fetch, error: Option<LemmyError>, found: Found)

  /** The calls were made in the given order, without skipping or
      repeating any, and possibly stopping early. */
  predicate FollowsOrder(log: seq<Step>, order: seq<CallKind>)
  {
    && |log| <= |order|
    && forall i :: 0 <= i < |log| ==> KindOf(log[i].call) == order[i]
  }

  /** Every call but the last succeeded: the chain stopped at its first
      error, if it met one. */
  predicate ShortCircuit(log: seq<Step>)
  {
    forall i :: 0 <= i < |log| - 1 ==> log[i].error.None?
  }

  /** The outcome a short-circuiting chain reports: the error of the call it
      stopped at, unchanged, or success. */
  function OutcomeOf(log: seq<Step>): Outcome<LemmyError>
  {
    if |log| > 0 && log[|log| - 1].error.Some? then Fail(log[|log| - 1].error.value) else Pass
  }

  /** One counter was threaded through the log: each call that took it got
      the value the previous such call returned (the first got `start`),
      and `end` is the value the last one returned (`start` if none took it). */
  predicate Threaded(log: seq<Step>, start: int, end: int)
    decreases |log|
  {
    if |log| == 0 then start == end
    else
      var last := log[|log| - 1];
      match last.fetch
      case NoFetch => Threaded(log[..|log| - 1], start, end)
      case Fetched(before, after) => after == end && Threaded(log[..|log| - 1], start, before)
  }

  /** How many unban calls were issued, successful or not. */
  function UnbanCount(log: seq<Step>): nat
    decreases |log|
  {
    if |log| == 0 then 0
    else UnbanCount(log[..|log| - 1]) + (if log[|log| - 1].call.Unban? then 1 else 0)
  }

  lemma ThreadedSnoc(log: seq<Step>, s: Step, start: int, mid: int, end: int)
    requires Threaded(log, start, mid)
    requires s.fetch.NoFetch? ==> mid == end
    requires s.fetch.Fetched? ==> s.fetch.before == mid && s.fetch.after == end
    ensures Threaded(log + [s], start, end)
  {
  }

  /** Two threaded logs run one after the other, the second starting from
      the counter the first left, thread the counter through both. */
  lemma {:induction false} ThreadedAppend(a: seq<Step>, b: seq<Step>, start: int, mid: int, end: int)
    requires Threaded(a, start, mid)
    requires Threaded(b, mid, end)
    ensures Threaded(a + b, start, end)
    decreases |b|
  {
    if |b| == 0 {
      assert a + b == a;
    } else {
      var b' := b[..|b| - 1];
      var last := b[|b| - 1];
      assert b == b' + [last];
      assert a + b == (a + b') + [last];
      match last.fetch
      case NoFetch =>
        ThreadedAppend(a, b', start, mid, end);
        ThreadedSnoc(a + b', last, start, end, end);
      case Fetched(before, after) =>
        ThreadedAppend(a, b', start, mid, before);
        ThreadedSnoc(a + b', last, start, before, end);
    }
  }

  /** A log in which no call took the counter leaves it where it was. */
  lemma {:induction false} ThreadedWithoutFetch(log: seq<Step>, start: int, end: int)
    requires forall i :: 0 <= i < |log| ==> log[i].fetch.NoFetch?
    requires Threaded(log, start, end)
    ensures start == end
    decreases |log|
  {
    if |log| > 0 {
      ThreadedWithoutFetch(log[..|log| - 1], start, end);
    }
  }

  lemma UnbanCountSnoc(log: seq<Step>, s: Step)
    ensures UnbanCount(log + [s]) == UnbanCount(log) + (if s.call.Unban? then 1 else 0)
  {
  }

  /** The unban calls of two logs run one after the other add up. */
  lemma {:induction false} UnbanCountAppend(a: seq<Step>, b: seq<Step>)
    ensures UnbanCount(a + b) == UnbanCount(a) + UnbanCount(b)
    decreases |b|
  {
    if |b| == 0 {
      assert a + b == a;
    } else {
      var b' := b[..|b| - 1];
      var last := b[|b| - 1];
      assert b == b' + [last];
      assert a + b == (a + b') + [last];
      UnbanCountAppend(a, b');
      UnbanCountSnoc(a + b', last);
    }
  }

  /** A log without an unban call counts none. */
  lemma {:induction false} UnbanCountZero(log: seq<Step>)
    requires forall i :: 0 <= i < |log| ==> !log[i].call.Unban?
    ensures UnbanCount(log) == 0
    decreases |log|
  {
    if |log| > 0 {
      UnbanCountZero(log[..|log| - 1]);
    }
  }

  /** A complete, error-free run of one chain followed by a run of another
      is a run of the two chains joined. */
  lemma PassedChainAppend(a: seq<Step>, b: seq<Step>, first: seq<CallKind>, second: seq<CallKind>)
    requires FollowsOrder(a, first) && |a| == |first|
    requires ShortCircuit(a) && OutcomeOf(a).Pass?
    requires FollowsOrder(b, second) && ShortCircuit(b)
    ensures FollowsOrder(a + b, first + second)
    ensures ShortCircuit(a + b)
    ensures OutcomeOf(a + b) == (if |b| == 0 then OutcomeOf(a) else OutcomeOf(b))
  {
  }
}
