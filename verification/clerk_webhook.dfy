/**
 * The identity provider's webhook: keeps the user table in step with user creation,
 * update and deletion events.
 *
 * Signature verification is outside the model: the handler receives the verified event,
 * or `None` when verification failed.
 */
module ClerkWebhook {
  import opened Wrappers
  import opened Db
  import Text

  datatype EmailAddress = EmailAddress(id: string, emailAddress: string)

  /** The part of the event payload the handler reads; the two name parts may be null. */
  datatype UserData = UserData(
    id: UserId,
    emailAddresses: seq<EmailAddress>,
    primaryEmailAddressId: Option<string>,
    firstName: Option<string>,
    lastName: Option<string>)

  /** The payload of a deletion: the provider's deleted-object record, whose `id` is optional. */
  datatype DeletedObject = DeletedObject(id: Option<UserId>)

  /**
   * A verified event, by its `type`: a user's creation, update or deletion, or an event of
   * any other type, whose payload the handler does not read.
   */
  datatype Event =
    | UserCreated(data: UserData)
    | UserUpdated(data: UserData)
    | UserDeleted(deleted: DeletedObject)
    | OtherEvent

  /** The HTTP reply: a status and an optional plain-text body. */
  datatype Reply = Reply(status: nat, text: Option<string>)

  /** `email_addresses.find(e => e.id === primary_email_address_id)`: the first address with that id. */
  function PrimaryEmail(addresses: seq<EmailAddress>, primaryId: Option<string>): (r: Option<EmailAddress>)
    ensures r.None? <==> forall i :: 0 <= i < |addresses| ==> Some(addresses[i].id) != primaryId
    ensures r.Some? ==> exists i :: 0 <= i < |addresses| && addresses[i] == r.value
                                    && Some(r.value.id) == primaryId
                                    && forall j :: 0 <= j < i ==> Some(addresses[j].id) != primaryId
  {
    if addresses == [] then None
    else if Some(addresses[0].id) == primaryId then Some(addresses[0])
    else
      var r := PrimaryEmail(addresses[1..], primaryId);
      if r.Some? then
        assert exists i :: 0 <= i < |addresses| - 1 && addresses[1..][i] == r.value
                           && forall j :: 0 <= j < i ==> Some(addresses[1..][j].id) != primaryId;
        var i :| 0 <= i < |addresses| - 1 && addresses[1..][i] == r.value
                 && forall j :: 0 <= j < i ==> Some(addresses[1..][j].id) != primaryId;
        assert addresses[i + 1] == r.value;
        assert forall j :: 0 < j < i + 1 ==> addresses[j] == addresses[1..][j - 1];
        r
      else
        assert forall i :: 1 <= i < |addresses| ==> addresses[i] == addresses[1..][i - 1];
        r
  }

  /** A name part counts when it is present and non-empty (`filter(Boolean)`). */
  predicate Present(part: Option<string>) {
    part.Some? && part.value != ""
  }

  /** `[first, last].filter(Boolean).join(" ") || null`. */
  function FullName(first: Option<string>, last: Option<string>): (name: Option<string>)
    ensures !Present(first) && !Present(last) ==> name.None?
    ensures Present(first) && !Present(last) ==> name == Some(first.value)
    ensures !Present(first) && Present(last) ==> name == Some(last.value)
    ensures Present(first) && Present(last) ==> name == Some(first.value + " " + last.value)
  {
    var parts := (if Present(first) then [first.value] else []) + (if Present(last) then [last.value] else []);
    var joined := Text.Join(parts, " ");
    assert Present(first) && Present(last) ==>
             parts == [first.value, last.value] && parts[1..] == [last.value] && Text.Join(parts[1..], " ") == last.value;
    if joined == "" then None else Some(joined)
  }

  /** `upsert`: a new row carries id, email and name; an existing row gets only the new email and name. */
  function Upsert(users: map<UserId, User>, id: UserId, email: string, name: Option<string>): (r: map<UserId, User>)
    ensures r.Keys == users.Keys + {id}
    ensures forall v :: v in users && v != id ==> r[v] == users[v]
    ensures id !in users ==> r[id] == User(id, email, name, None)
    ensures id in users ==> r[id] == users[id].(email := email, name := name)
  {
    if id in users then users[id := users[id].(email := email, name := name)]
    else users[id := User(id, email, name, None)]
  }

  /**
   * Whether a row with id `v` satisfies `where: { id }`. A filter field that is
   * `undefined` sets no condition, so it is satisfied by every row.
   */
  predicate IdFilter(id: Option<UserId>, v: UserId) {
    id.None? || id.value == v
  }

  /** `deleteMany({ where: { id } })`: every row that satisfies the filter goes, the others stay as they were. */
  function DeleteMany(users: map<UserId, User>, id: Option<UserId>): (r: map<UserId, User>)
    ensures forall v :: v in r <==> v in users && !IdFilter(id, v)
    ensures forall v :: v in r ==> r[v] == users[v]
  {
    map v | v in users && !IdFilter(id, v) :: users[v]
  }

  /** As written, a deletion event without an id removes every user, not just one. */
  lemma DeletedWithoutIdRemovesEveryone(users: map<UserId, User>, v: UserId)
    requires v in users
    ensures v !in DeleteMany(users, None)
    ensures DeleteMany(users, None) == map[]
  {
  }

  /** The deletion the handler means: the row of the named user goes, and nothing goes when no user is named. */
  function DeleteUser(users: map<UserId, User>, id: Option<UserId>): (r: map<UserId, User>)
    ensures forall v :: v in r <==> v in users && id != Some(v)
    ensures forall v :: v in r ==> r[v] == users[v]
  {
    if id.Some? then users - {id.value} else users
  }

  /** The corrected deletion removes at most the named user's row, and agrees with `deleteMany` whenever the event names a user. */
  lemma DeleteUserRemovesAtMostOne(users: map<UserId, User>, id: Option<UserId>)
    ensures users.Keys - DeleteUser(users, id).Keys <= (if id.Some? then {id.value} else {})
    ensures id.Some? ==> DeleteUser(users, id) == DeleteMany(users, id)
    ensures id.None? ==> DeleteUser(users, id) == users
  {
  }

  /**
   * The handler. Deletion runs `deleteMany` on the payload's id and answers 204; creation
   * and update need a primary email, then upsert; every other event type is
   * acknowledged with 204 and changes nothing.
   */
  method Post(db: Database, event: Option<Event>) returns (reply: Reply)
    requires db.Valid()
    modifies db`users
    ensures db.Valid()
    ensures event.None? ==> reply == Reply(400, Some("Invalid webhook signature")) && db.users == old(db.users)
    ensures event.Some? && event.value.UserDeleted? ==>
              && reply == Reply(204, None)
              && db.users == DeleteMany(old(db.users), event.value.deleted.id)
              && (event.value.deleted.id.Some? ==> db.users == old(db.users) - {event.value.deleted.id.value})
              && (event.value.deleted.id.None? ==> db.users == map[])
    ensures event.Some? && (event.value.UserCreated? || event.value.UserUpdated?) ==>
              var d := event.value.data;
              match PrimaryEmail(d.emailAddresses, d.primaryEmailAddressId)
              case None => reply == Reply(400, Some("No primary email found")) && db.users == old(db.users)
              case Some(e) =>
                reply == Reply(204, None)
                && db.users == Upsert(old(db.users), d.id, e.emailAddress, FullName(d.firstName, d.lastName))
    ensures event == Some(OtherEvent) ==> reply == Reply(204, None) && db.users == old(db.users)
  {
    if event.None? {
      return Reply(400, Some("Invalid webhook signature"));
    }
    var e := event.value;
    if e.UserDeleted? {
      db.users := DeleteMany(db.users, e.deleted.id);
      return Reply(204, None);
    }
    if e.UserCreated? || e.UserUpdated? {
      var d := e.data;
      var primary := PrimaryEmail(d.emailAddresses, d.primaryEmailAddressId);
      if primary.None? {
        return Reply(400, Some("No primary email found"));
      }
      db.users := Upsert(db.users, d.id, primary.value.emailAddress, FullName(d.firstName, d.lastName));
    }
    reply := Reply(204, None);
  }

  /** Replaying a creation or update event changes nothing the second time. */
  lemma UpsertIdempotent(users: map<UserId, User>, id: UserId, email: string, name: Option<string>)
    ensures Upsert(Upsert(users, id, email, name), id, email, name) == Upsert(users, id, email, name)
  {
  }

  /** An update keeps the user's chosen tabs; only a newly created row starts without a choice. */
  lemma UpsertKeepsVisibleRoutes(users: map<UserId, User>, id: UserId, email: string, name: Option<string>)
    ensures id in users ==> Upsert(users, id, email, name)[id].visibleRoutes == users[id].visibleRoutes
    ensures id !in users ==> Upsert(users, id, email, name)[id].visibleRoutes.None?
  {
  }
}
