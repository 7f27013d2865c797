# Undo of a community ban, modelled in Dafny

This project models `UndoBlockUserFromCommunity`, Lemmy's ActivityPub handler for an
`Undo` activity whose object is a `Block` of a person from a community
(`crates/apub/src/activities/community/undo_block_user.rs`). The file does four things:

- **send**: a local moderator lifts a ban. The handler builds the inner Block and mints an
  activity id. It wraps the Block in an Undo addressed `to = [public]`, `cc = [community]`,
  and hands it to `send_to_community` for the target person's shared-or-direct inbox.
- **verify**: an incoming Undo must pass six checks in a fixed order. These are public
  addressing, activity/origin consistency, resolution of the community through the inner
  Block, the actor's membership, the actor's moderator rights, and the inner Block's own
  verification. The first error is returned and nothing after it runs.
- **receive**: the handler resolves the community and the blocked person, then calls `unban`
  on that one (community, person) key.
- **get_community**: the Undo's community is the one its inner Block resolves to; the handler
  delegates the lookup to the Block (lines 128-136).

Every helper the file calls lives elsewhere in the repository. In the model each one is an
opaque function-valued field of `LemmyContext.Context`, and the model assumes nothing about
what it does. The helpers that take the shared `request_counter` receive its current value
and return the new one with their result. The helpers of verify and receive that are handed the
context can read the database, so each of them also receives the ban table (`BanStore`);
which rows they read is left to them. The two helpers of send that are handed the context,
`BlockUserFromCommunity::new` (line 62) and `send_to_community` (line 81), get no table:
send's model has no table to give them. Each operation is a pure function. Verify and receive
return their outcome, the counter they leave, and a log of the calls they made (`Trace.Step`: the call and its
arguments, the counter handed in and returned, the error received, and the community, person
or table a successful lookup or unban returned). Properties are stated
over that log using predicates defined independently of the handler, in module `Trace`:

- `FollowsOrder`: calls happen in a fixed order.
- `ShortCircuit` and `OutcomeOf`: the first error wins, unchanged.
- `Threaded`: one counter is threaded through every resolution.
- `UnbanCount`: how many unban calls were issued, successful or not.

`LemmyContext.Replays` ties every log entry to what its collaborator actually answers.

Modules: `Wrappers` (Option/Result/Outcome), `Activities` (envelope and actor data),
`Trace` (the call log and its predicates), `LemmyContext` (collaborators),
`UndoBlockUserHandler` (send, verify, receive, get_community), `UndoBlockUserProperties`
(the router's verify-then-receive composition and the guarantees).

`verify` runs six checks (undo_block_user.rs:93-98); public addressing and activity/origin
consistency are separate calls. At line 98 it re-verifies the inner Block and does not itself
look up the ban row being lifted. The model keeps this: the handler's own code never reads
the ban table, and only the helpers it calls can (`HandlerReadsBansOnlyThroughHelpers`,
`UndoAcceptedWithoutBanRow`).

## Model

| member | source | states |
|---|---|---|
| UndoBlockUserHandler.Send | crates/apub/src/activities/community/undo_block_user.rs:56-82 | Something is delivered iff both Block construction and id generation succeed; otherwise the first of their errors is returned and nothing reaches delivery. The delivered Undo has actor = acting person's id, to = [public], cc = [community actor id], object = the built Block, kind Undo, and no unparsed fields. Its id is the minted id and is also the id passed to delivery. `send_to_community` is handed exactly one inbox, the target's shared-or-direct inbox, and the outcome is its answer |
| UndoBlockUserHandler.Verify | crates/apub/src/activities/community/undo_block_user.rs:88-100 | The calls made are a prefix of public → activity → community → member → moderator → inner Block. Every call but the last succeeded, and the outcome is the last call's error unchanged, or Ok. Ok only if all six ran. Each call has the right arguments, and the member and moderator checks use the community the inner Block resolved to, which is the one the logged lookup returned |
| UndoBlockUserHandler.Receive | crates/apub/src/activities/community/undo_block_user.rs:102-125 | The calls are a prefix of community lookup → person lookup → unban, stopping at the first error, which is returned unchanged. The unban key is (community of the inner Block, person its object names): the ids of the community and person the two logged lookups returned. A failed run leaves the table as it was; an Ok run leaves the table the unban returned, which is the table logged for the unban |
| UndoBlockUserHandler.GetCommunity | crates/apub/src/activities/community/undo_block_user.rs:130-136 | get_community is the inner Block's community lookup, made with the caller's counter: the community it returns (or its error) and the counter it leaves are exactly the answer logged for that call |
| UndoBlockUserProperties.VerifyThreadsCounter | crates/apub/src/activities/community/undo_block_user.rs:91-98 | One request counter is threaded through every resolution of verify: each gets the value the previous one left, starting at the caller's, never reset |
| UndoBlockUserProperties.ReceiveThreadsCounter | crates/apub/src/activities/community/undo_block_user.rs:105-112 | Receive threads the counter through its two resolutions; the unban call does not take it |
| UndoBlockUserProperties.VerifyReplays | crates/apub/src/activities/community/undo_block_user.rs:93-98 | Every logged verify call carries exactly the counter, error and, for the community lookup, the community its collaborator gives for those arguments and that ban table |
| UndoBlockUserProperties.ReceiveReplays | crates/apub/src/activities/community/undo_block_user.rs:107-122 | Every logged receive call carries exactly its collaborator's answer: counter, error, and the community, person or table it returned |
| UndoBlockUserProperties.EarlyRejectionFetchesNothing | crates/apub/src/activities/community/undo_block_user.rs:93-95 | A rejection by the public-addressing or activity check leaves the request counter untouched, and no call in the log took it |
| UndoBlockUserProperties.VerifyNeverUnbans | crates/apub/src/activities/community/undo_block_user.rs:88-100 | Verify never calls unban |
| UndoBlockUserProperties.ReceiveUnbansOnce | crates/apub/src/activities/community/undo_block_user.rs:114-122 | Receive calls unban once if it gets that far and never otherwise; exactly once when it succeeds |
| UndoBlockUserProperties.VerifyThenReceive | crates/apub/src/activities/community/undo_block_user.rs:88-125 | Receive runs only after verify is Ok. A rejection is returned unchanged with the table untouched and no unban call. At most one unban call overall, exactly one on success. The joined run keeps the fixed order, short-circuits, and threads one counter |
| UndoBlockUserProperties.VerifyPassesIffAllSixPass | crates/apub/src/activities/community/undo_block_user.rs:93-99 | Verify is Ok exactly when all six checks ran and none failed |
| UndoBlockUserProperties.CommunityComesFromInnerBlock | crates/apub/src/activities/community/undo_block_user.rs:128-136 | get_community delegates to the inner Block: Undos wrapping the same Block resolve the same community, and verify and receive look it up with the same call |
| UndoBlockUserProperties.NotPublicIsRejected | crates/apub/src/activities/community/undo_block_user.rs:93 | An Undo the public check rejects gets that error. Only that one check ran, the counter is untouched, and unban is never called |
| UndoBlockUserProperties.DemotedModeratorIsRejected | crates/apub/src/activities/community/undo_block_user.rs:95-98 | A member who fails the moderator check gets that check's error. The inner Block is never verified and the ban table is unchanged |
| UndoBlockUserProperties.AcceptedUndoLiftsOneBan | crates/apub/src/activities/community/undo_block_user.rs:107-122 | After verify is Ok and both lookups succeed, exactly one unban is issued. It is keyed by (resolved community id, id of the person the inner Block names) |
| UndoBlockUserProperties.AcceptedUndoReportsUnban | crates/apub/src/activities/community/undo_block_user.rs:114-124 | The outcome of an accepted Undo is the unban's own answer, propagated rather than swallowed; the table afterwards is the one it returned |
| UndoBlockUserProperties.HandlerReadsBansOnlyThroughHelpers | crates/apub/src/activities/community/undo_block_user.rs:93-122 | On two ban tables that every database-reading helper answers the same for, verify runs identically, and receive makes the same calls with the same answers up to the unban, which has the same key. A receive that stops at a failing lookup has the same log and outcome on both tables |
| UndoBlockUserProperties.UndoAcceptedWithoutBanRow | crates/apub/src/activities/community/undo_block_user.rs:93-98 | Whether or not the row being lifted exists, verify returns the same verdict with the same log, and receive reaches the same unban call, as long as no helper reads that row: the handler re-verifies the inner Block instead of looking for the row |
| UndoBlockUserProperties.SentUndoIsCheckedAgainstItsBlock | crates/apub/src/activities/community/undo_block_user.rs:62-77 | A sent Undo is public. Verifying it checks [public], resolves the community of the Block that send built, and checks the sender's id |

## Left out

- Serde (de)serialisation, the `@context` field (`lemmy_context()`) and the round trip of the flattened `unparsed` bag. This is derive and library behaviour. The bag is carried as an opaque list of fields, and `send` sets it empty.
- The bodies of `verify_is_public`, `verify_activity`, `verify_person_in_community`, `verify_mod_action`, `BlockUserFromCommunity::new`/`verify`/`get_community`, `dereference`, `CommunityPersonBan::unban`, `generate_activity_id` and `send_to_community`. They live in other files and are opaque collaborators here.
- `BlockUserFromCommunity` is not part of this model beyond its `object` field, which this file reads. Its other fields (actor, to, cc, id, extension fields) are a modelling assumption and are never inspected here.
- `shared_inbox_or_inbox_url` is modelled as "the shared inbox if the person has one, else the inbox" (`Person.SharedInboxOrInbox`). Its implementation is not part of this model.
- The fetch ceiling, and the error the resolver returns when it is reached, belong to the resolver. The model only threads the counter through every resolution.
- `request_counter` is an `i32` in the source and an unbounded `int` here. This file never does arithmetic on it; only the collaborators change it.
- `generate_activity_id` mints a random id. Here the id is whatever the collaborator function yields for its arguments.
- The ban table is the only part of the database modelled. The community, person and moderator data the helpers consult stay inside them.
- UndoBlockUserHandler.Send: `BlockUserFromCommunity::new` and `send_to_community` are handed the context in the source but get no ban table here. What they read from the database is inside them and does not affect the envelope or the arguments of delivery.
- Async execution and the `blocking` thread-pool dispatch. The pool's error and the database's error (the two `?` at line 122) are both carried by the unban collaborator's single `Result`.
- UndoBlockUserHandler.Receive: when the unban fails, the table is taken to be unchanged. The storage layer's atomic delete is assumed, not derived from this file.
- Idempotence of `receive` (a second Undo leaving the same table and no error). It rests entirely on `CommunityPersonBan::unban`, whose behaviour is not part of this model.
- `AnnouncableActivities` has one variant here. The router that picks this handler by type, and the announce wrapping, are out of scope. `VerifyThenReceive` states only the router's rule that receive runs after a successful verify.
