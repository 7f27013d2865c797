/** The envelope model: the actors, the Block activity and the Undo that wraps
    it (`UndoBlockUserFromCommunity` in crates/apub/src/activities/community/undo_block_user.rs),
    and the ban relation the Undo removes a row from. */
module Activities {
  import opened Wrappers

  /** Every identifier on the wire is a URL; its parsing is not modelled. */
  type Url = string

  /** The distinguished "public" recipient of ActivityPub section 5.6,
      the value of `activitystreams::public()`. */
  const Public: Url := "https://www.w3.org/ns/activitystreams#Public"

  /** Whatever goes wrong, anywhere: `LemmyError` is opaque to this handler. */
  datatype LemmyError = LemmyError(message: string)

  /** `ObjectId<ApubPerson>`: a reference to a person that still has to be
      dereferenced. */
  datatype ObjectId = ObjectId(url: Url)

  /** `ApubPerson` as far as this handler uses it: the database id, the actor
      id, and the two inboxes. */
  datatype Person = Person(id: int, actorId: Url, inbox: Url, sharedInbox: Option<Url>)
  {
    /** The one inbox an activity for this person is delivered to: the
        server-wide shared inbox when the person has one. */
    function SharedInboxOrInbox(): Url
    {
      match sharedInbox
      case Some(shared) => shared
      case None => inbox
    }
  }

  /** `ApubCommunity` as far as this handler uses it. */
  datatype Community = Community(id: int, actorId: Url)

  /** The `#[serde(flatten)]` bag of unrecognised fields, in wire order. */
  datatype Unparsed = Unparsed(fields: seq<(string, string)>)

  /** `Unparsed::default()`. */
  const NoUnparsed: Unparsed := Unparsed([])

  /** The `type` tag of the outer activity: the only value is `Undo`. */
  datatype UndoType = Undo

  /** `BlockUserFromCommunity`, the inner activity. `blocked` is its wire
      field `object`, the blocked person; the rest is carried but only read
      by its own verification and community lookup, which are not part of
      this model. */
  datatype Block = Block(actor: ObjectId, to: seq<Url>, blocked: ObjectId, cc: seq<Url>, id: Url, unparsed: Unparsed)

  /** `UndoBlockUserFromCommunity`: an Undo whose wire field `object`, here
      `inner`, is a whole Block, not flattened into it. The `@context` field
      is not modelled. */
  datatype UndoBlockUser = UndoBlockUser(
    actor: ObjectId,
    to: seq<Url>,
    inner: Block,
    cc: seq<Url>,
    kind: UndoType,
    id: Url,
    unparsed: Unparsed)

  /** The one variant of `AnnouncableActivities` this handler builds. */
  datatype AnnouncableActivity = UndoBlockUserFromCommunity(undo: UndoBlockUser)

  /** The arguments of `send_to_community`: what is handed over for delivery. */
  datatype Delivery = Delivery(
    activity: AnnouncableActivity,
    id: Url,
    actor: Person,
    community: Community,
    inboxes: seq<Url>)

  /** `CommunityPersonBanForm`: the key of a ban row. */
  datatype BanForm = BanForm(communityId: int, personId: int)

  /** The `community_person_ban` table: the set of keys that have a row. */
  type BanStore = set<BanForm>

  /** The settings this handler reads. */
  datatype Settings = Settings(protocolAndHostname: string)
}
