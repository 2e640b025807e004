/**
 * Which tabs a user sees: reading the stored choice with its defaults, and saving a new
 * choice after checking that every route in it is known.
 */
module Settings {
  import opened Wrappers
  import opened Db
  import Auth
  import Sorting
  import Text

  /** The routes that have a tab: Schedule, Food Diary and AI Overview. */
  const KnownRoutes: seq<string> := ["/", "/food-diary", "/ai-overview"]

  /** The tabs shown when nothing was chosen: all of them. */
  const DefaultRoutes: seq<string> := KnownRoutes

  /**
   * The text the store's error carries when `update` finds no row for the user; the
   * action reports it as the failure's message.
   */
  const RecordNotFound: string := "Record to update not found."

  /** The routes of the request that are not known, in request order and with repeats. */
  function InvalidRoutes(routes: seq<string>): (r: seq<string>)
    ensures forall x :: x in r <==> x in routes && x !in KnownRoutes
  {
    Sorting.Filter(routes, x => x !in KnownRoutes)
  }

  /** The unknown routes are collected in request order: route by route, a known route adds nothing. */
  lemma InvalidRoutesInOrder(routes: seq<string>, x: string)
    ensures InvalidRoutes(routes + [x]) == InvalidRoutes(routes) + (if x in KnownRoutes then [] else [x])
    ensures InvalidRoutes([]) == []
  {
    Sorting.FilterConcat(routes, [x], y => y !in KnownRoutes);
    assert [x][1..] == [];
  }

  function UnknownRoutesMessage(invalid: seq<string>): string {
    "Unknown routes: " + Text.Join(invalid, ", ")
  }

  /** The list the read action returns, or `undefined` when the user has no row. */
  datatype Routes = Routes(list: seq<string>) | Undefined

  /**
   * `getVisibleRoutes`: the defaults for a visitor without a session and for a row whose
   * column is null; the stored list otherwise. A session without a row yields
   * `undefined`, since only `null` is replaced by the defaults.
   */
  function GetVisibleRoutes(db: Database, session: Option<UserId>): (r: Routes)
    reads db
    ensures Auth.RequiredUserId(session).Failure? ==> r == Routes(DefaultRoutes)
    ensures Auth.RequiredUserId(session).Success? ==>
              (r.Undefined? <==> session.value !in db.users)
    ensures Auth.RequiredUserId(session).Success? && session.value in db.users ==>
              r == Routes(match db.users[session.value].visibleRoutes
                          case None => DefaultRoutes
                          case Some(stored) => stored)
  {
    if Auth.RequiredUserId(session).Failure? then Routes(DefaultRoutes)
    else if session.value !in db.users then Undefined
    else match db.users[session.value].visibleRoutes
      case None => Routes(DefaultRoutes)
      case Some(stored) => Routes(stored)
  }

  /**
   * As written, the read action answers `undefined` to a signed-in user who has no row
   * yet, although it is declared to return a list and the settings form calls
   * `includes` on what it returns.
   */
  lemma SignedInWithoutRowGetsUndefined(db: Database, session: Option<UserId>)
    requires Auth.RequiredUserId(session).Success? && session.value !in db.users
    ensures GetVisibleRoutes(db, session).Undefined?
  {
  }

  /**
   * The read action as the tab bar does it: the defaults unless the user has a row with
   * a stored choice, and then that choice. It always yields a list.
   */
  function VisibleRoutes(db: Database, session: Option<UserId>): (r: seq<string>)
    reads db
    ensures (|| Auth.RequiredUserId(session).Failure?
             || session.value !in db.users
             || db.users[session.value].visibleRoutes.None?) ==> r == DefaultRoutes
    ensures (&& Auth.RequiredUserId(session).Success?
             && session.value in db.users
             && db.users[session.value].visibleRoutes.Some?) ==> r == db.users[session.value].visibleRoutes.value
  {
    match GetVisibleRoutes(db, session)
    case Routes(list) => list
    case Undefined => DefaultRoutes
  }

  /** The corrected read differs from the written one only where that one yields `undefined`. */
  lemma VisibleRoutesAgrees(db: Database, session: Option<UserId>)
    ensures GetVisibleRoutes(db, session).Routes? ==> VisibleRoutes(db, session) == GetVisibleRoutes(db, session).list
    ensures GetVisibleRoutes(db, session).Undefined? ==> VisibleRoutes(db, session) == DefaultRoutes
  {
  }

  /**
   * `updateVisibleRoutes`. Without a session: `"Not authenticated"`. With any unknown
   * route: `"Unknown routes: "` and the unknown ones joined by `", "`. Otherwise the list
   * is stored exactly as given, and from then on it is what the read action returns.
   */
  method UpdateVisibleRoutes(db: Database, session: Option<UserId>, routes: seq<string>, storeFault: Option<Thrown>)
    returns (r: ActionResult)
    requires db.Valid()
    modifies db`users
    ensures db.Valid()
    ensures Auth.RequiredUserId(session).Failure? ==> r == Failed("Not authenticated") && db.users == old(db.users)
    ensures Auth.RequiredUserId(session).Success? && InvalidRoutes(routes) != [] ==>
              r == Failed(UnknownRoutesMessage(InvalidRoutes(routes))) && db.users == old(db.users)
    ensures Auth.RequiredUserId(session).Success? && InvalidRoutes(routes) == [] && session.value !in old(db.users) ==>
              r == Failed(RecordNotFound) && db.users == old(db.users)
    ensures Auth.RequiredUserId(session).Success? && InvalidRoutes(routes) == [] && session.value in old(db.users)
            && storeFault.Some? ==>
              r == Failed(CaughtMessage(storeFault.value)) && db.users == old(db.users)
    ensures Auth.RequiredUserId(session).Success? && InvalidRoutes(routes) == [] && session.value in old(db.users)
            && storeFault.None? ==>
              && r == Succeeded
              && db.users == old(db.users)[session.value := old(db.users)[session.value].(visibleRoutes := Some(routes))]
              && GetVisibleRoutes(db, session) == Routes(routes)
              && VisibleRoutes(db, session) == routes
  {
    var auth := Auth.RequiredUserId(session);
    if auth.Failure? {
      return Failed("Not authenticated");
    }
    var u := auth.value;
    var invalid := InvalidRoutes(routes);
    if |invalid| > 0 {
      return Failed(UnknownRoutesMessage(invalid));
    }
    if u !in db.users {
      return Failed(RecordNotFound);
    }
    if storeFault.Some? {
      return Failed(CaughtMessage(storeFault.value));
    }
    db.users := db.users[u := db.users[u].(visibleRoutes := Some(routes))];
    r := Succeeded;
  }

  /** A request passes the route check exactly when each of its routes is known; the empty list passes. */
  lemma RouteCheckExact(routes: seq<string>)
    ensures InvalidRoutes(routes) == [] <==> forall x :: x in routes ==> x in KnownRoutes
  {
    if InvalidRoutes(routes) != [] {
      assert InvalidRoutes(routes)[0] in InvalidRoutes(routes);
    }
  }
}
