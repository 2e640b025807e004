/**
 * The application's tables, held in memory.
 *
 * One `Database` object stands for the single database client every server action and
 * route handler shares. Rows are values; tables that are read in insertion order are
 * sequences, tables keyed by user are maps. Row ids are drawn from a counter, which
 * keeps them unique.
 */
module Db {
  import opened Wrappers

  /** The identity provider's user id. */
  type UserId = string

  /** One logged meal. `date` and `createdAt` are instants in milliseconds since the epoch. */
  datatype FoodEntry = FoodEntry(
    id: nat,
    userId: UserId,
    date: int,
    mealType: string,
    description: string,
    feelings: Option<string>,
    createdAt: int)

  /** An item of `recommended` or `notRecommended`. */
  datatype Dish = Dish(dish: string, reason: string)

  /** An item of `avoidProducts`. */
  datatype Product = Product(product: string, reason: string)

  /** The one analysis row a user has, with its watermark `lastEntryDate`. */
  datatype AiAnalysis = AiAnalysis(
    recommended: seq<Dish>,
    notRecommended: seq<Dish>,
    avoidProducts: seq<Product>,
    lastEntryDate: int)

  /** One activity of the weekly schedule; `weekday` 0 is Monday. */
  datatype ScheduleEntry = ScheduleEntry(
    id: nat,
    userId: UserId,
    weekday: int,
    startTime: string,
    endTime: string,
    activity: string)

  /** A user row; `visibleRoutes` is a nullable JSON column. */
  datatype User = User(id: UserId, email: string, name: Option<string>, visibleRoutes: Option<seq<string>>)

  /** What a server action returns: `{ success: true }` or `{ success: false, error }`. */
  datatype ActionResult = Succeeded | Failed(error: string)

  /** A value thrown inside a server action: an `Error` carrying its message, or anything else. */
  datatype Thrown = ErrorObject(message: string) | OtherValue

  /** The message a `catch (err)` block reports: the error's own message, or `"Unknown error"`. */
  function CaughtMessage(t: Thrown): (m: string)
    ensures t.ErrorObject? ==> m == t.message
    ensures t.OtherValue? ==> m == "Unknown error"
  {
    match t
    case ErrorObject(message) => message
    case OtherValue => "Unknown error"
  }

  class Database {
    var foodEntries: seq<FoodEntry>
    var analyses: map<UserId, AiAnalysis>
    var scheduleEntries: seq<ScheduleEntry>
    var users: map<UserId, User>
    /** The next id the store hands out. */
    var nextId: nat

    /** Ids are unique within each table and below `nextId`; each user row is stored under its own id. */
    ghost predicate Valid()
      reads this`foodEntries, this`scheduleEntries, this`users, this`nextId
    {
      && (forall i :: 0 <= i < |foodEntries| ==> foodEntries[i].id < nextId)
      && (forall i, j :: 0 <= i < j < |foodEntries| ==> foodEntries[i].id != foodEntries[j].id)
      && (forall i :: 0 <= i < |scheduleEntries| ==> scheduleEntries[i].id < nextId)
      && (forall i, j :: 0 <= i < j < |scheduleEntries| ==> scheduleEntries[i].id != scheduleEntries[j].id)
      && (forall u :: u in users ==> users[u].id == u)
    }

    constructor ()
      ensures Valid()
      ensures foodEntries == [] && analyses == map[] && scheduleEntries == [] && users == map[]
    {
      foodEntries, analyses, scheduleEntries, users, nextId := [], map[], [], map[], 0;
    }
  }
}
