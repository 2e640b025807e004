/**
 * `POST /api/ai/analyze`: choose the food entries to analyse, render them into the
 * prompt for the language model, and store the model's structured answer as the user's
 * one analysis row, moving its watermark `lastEntryDate` to the newest analysed entry.
 *
 * The language model is a parameter: `generated` is what `generateObject` returned for
 * the prompt, or the error it threw.
 */
module Analyze {
  import opened Wrappers
  import opened Db
  import Auth
  import Sorting
  import Text
  import Clock
  import Json
  import FoodDiary

  // ---------------------------------------------------------------------------------
  // Request body
  // ---------------------------------------------------------------------------------

  datatype Mode = Full | Incremental

  /**
   * The request body as the handler sees it: text that is not JSON at all, or a JSON
   * value whose `mode` member is a string (`Some`) or is missing or not a string (`None`).
   */
  datatype Body = Malformed | Json(mode: Option<string>)

  function ModeName(m: Mode): string {
    match m
    case Full => "full"
    case Incremental => "incremental"
  }

  /** `bodySchema.safeParse`: `mode` must be exactly one of the two names. */
  function ParseMode(mode: Option<string>): Option<Mode> {
    if mode == Some("full") then Some(Full)
    else if mode == Some("incremental") then Some(Incremental)
    else None
  }

  /** The schema accepts exactly the names of the two modes, and reads each back as itself. */
  lemma ParseModeExact(mode: Option<string>, m: Mode)
    ensures ParseMode(mode) == Some(m) <==> mode == Some(ModeName(m))
  {
  }

  // ---------------------------------------------------------------------------------
  // Entry selection
  // ---------------------------------------------------------------------------------

  function DateKey(e: FoodEntry): int {
    e.date
  }

  /** Whether `e` is one of `u`'s entries and, when there is a watermark, strictly newer than it. */
  predicate Wanted(u: UserId, after: Option<int>, e: FoodEntry) {
    e.userId == u && (after.None? || e.date > after.value)
  }

  /** The `where` clause of the two `findMany` reads, in table order. */
  function Candidates(table: seq<FoodEntry>, u: UserId, after: Option<int>): (r: seq<FoodEntry>)
    ensures forall e :: e in r <==> e in table && Wanted(u, after, e)
  {
    Sorting.Filter(table, e => Wanted(u, after, e))
  }

  /** `findMany({ where, orderBy: { date: "asc" } })`. */
  function EntriesFor(table: seq<FoodEntry>, u: UserId, after: Option<int>): seq<FoodEntry> {
    Sorting.SortBy(Candidates(table, u, after), DateKey, Sorting.IntLe)
  }

  /**
   * The read returns exactly `u`'s entries past the watermark, oldest first, and entries
   * with the same date keep the order in which they were stored.
   */
  lemma EntriesForSpec(table: seq<FoodEntry>, u: UserId, after: Option<int>, date: int)
    ensures forall e :: e in EntriesFor(table, u, after) <==> e in table && Wanted(u, after, e)
    ensures Sorting.Sorted(EntriesFor(table, u, after), DateKey, Sorting.IntLe)
    ensures Sorting.WithKey(EntriesFor(table, u, after), DateKey, date)
         == Sorting.WithKey(Candidates(table, u, after), DateKey, date)
  {
    Sorting.IntLeIsTotalPreorder();
    Sorting.SortBySorted(Candidates(table, u, after), DateKey, Sorting.IntLe);
    Sorting.SortByStable(Candidates(table, u, after), DateKey, Sorting.IntLe, date);
  }

  /** What the selection step of the handler produces: the entries and the serialized previous analysis. */
  datatype Selection = Selection(entries: seq<FoodEntry>, previous: Option<string>)

  /**
   * Full mode reads all of the user's entries; incremental mode reads those past the
   * stored watermark together with the stored analysis, or all entries when the user has
   * no analysis yet.
   */
  function Select(table: seq<FoodEntry>, analyses: map<UserId, AiAnalysis>, u: UserId, mode: Mode): Selection {
    if mode == Incremental && u in analyses then
      Selection(EntriesFor(table, u, Some(analyses[u].lastEntryDate)), Some(AnalysisJson(analyses[u])))
    else
      Selection(EntriesFor(table, u, None), None)
  }

  /** Without a stored analysis, incremental mode behaves exactly like full mode. */
  lemma IncrementalWithoutAnalysisIsFull(table: seq<FoodEntry>, analyses: map<UserId, AiAnalysis>, u: UserId)
    requires u !in analyses
    ensures Select(table, analyses, u, Incremental) == Select(table, analyses, u, Full)
  {
  }

  /** The last selected entry carries the newest date of the selection, and (incrementally) one past the old watermark. */
  lemma {:induction false} NewestIsLast(table: seq<FoodEntry>, analyses: map<UserId, AiAnalysis>, u: UserId, mode: Mode)
    requires Select(table, analyses, u, mode).entries != []
    ensures var es := Select(table, analyses, u, mode).entries;
            forall e :: e in es ==> e.date <= es[|es| - 1].date
    ensures var es := Select(table, analyses, u, mode).entries;
            mode == Incremental && u in analyses ==> es[|es| - 1].date > analyses[u].lastEntryDate
  {
    var after := if mode == Incremental && u in analyses then Some(analyses[u].lastEntryDate) else None;
    var es := EntriesFor(table, u, after);
    assert es == Select(table, analyses, u, mode).entries;
    Sorting.IntLeIsTotalPreorder();
    Sorting.SortBySorted(Candidates(table, u, after), DateKey, Sorting.IntLe);
    LastIsNewest(es);
    assert es[|es| - 1] in Candidates(table, u, after) by {
      assert es[|es| - 1] in es;
    }
  }

  /** In a list in ascending date order, no element is newer than the last. */
  lemma LastIsNewest(es: seq<FoodEntry>)
    requires es != [] && Sorting.Sorted(es, DateKey, Sorting.IntLe)
    ensures forall e :: e in es ==> e.date <= es[|es| - 1].date
  {
    forall e | e in es ensures e.date <= es[|es| - 1].date {
      var i :| 0 <= i < |es| && es[i] == e;
      if i < |es| - 1 {
        assert Sorting.IntLe(DateKey(es[i]), DateKey(es[|es| - 1]));
      }
    }
  }

  /** No entry is past a watermark that is at least the newest date of a read whose watermark was not above it. */
  lemma {:induction false} NothingPast(table: seq<FoodEntry>, u: UserId, after: Option<int>, w: int)
    requires forall e :: e in EntriesFor(table, u, after) ==> e.date <= w
    requires after.None? || after.value <= w
    ensures EntriesFor(table, u, Some(w)) == []
  {
    var next := EntriesFor(table, u, Some(w));
    EntriesForSpec(table, u, after, 0);
    EntriesForSpec(table, u, Some(w), 0);
    assert forall e :: e in next ==> e in EntriesFor(table, u, after) && e.date > w;
  }

  /**
   * After a successful run has stored the newest selected date as the watermark, an
   * incremental run over the same entries finds nothing new, whichever mode stored it.
   */
  lemma RerunFindsNothing(table: seq<FoodEntry>, analyses: map<UserId, AiAnalysis>, u: UserId, mode: Mode, stored: AiAnalysis)
    requires Select(table, analyses, u, mode).entries != []
    requires var es := Select(table, analyses, u, mode).entries; stored.lastEntryDate == es[|es| - 1].date
    ensures Select(table, analyses[u := stored], u, Incremental).entries == []
  {
    var after := if mode == Incremental && u in analyses then Some(analyses[u].lastEntryDate) else None;
    var es := Select(table, analyses, u, mode).entries;
    assert es == EntriesFor(table, u, after);
    NewestIsLast(table, analyses, u, mode);
    NothingPast(table, u, after, stored.lastEntryDate);
    assert Select(table, analyses[u := stored], u, Incremental).entries == EntriesFor(table, u, Some(stored.lastEntryDate));
  }

  /**
   * The watermark compares dates, and every diary entry is dated at the midnight of the
   * day it was logged. So an entry logged on the day of the newest analysed entry, after
   * the analysis ran, carries the watermark's own date and no incremental run selects it.
   */
  lemma SameDayEntryNotSelected(table: seq<FoodEntry>, analyses: map<UserId, AiAnalysis>, u: UserId, e: FoodEntry)
    requires e in table && e.userId == u && u in analyses
    requires e.date == analyses[u].lastEntryDate
    ensures e !in Select(table, analyses, u, Incremental).entries
  {
    EntriesForSpec(table, u, Some(analyses[u].lastEntryDate), e.date);
  }

  // ---------------------------------------------------------------------------------
  // The watermark never moves back
  // ---------------------------------------------------------------------------------

  /** Some entry of `u` in `table` is dated `date`. */
  ghost predicate DatedEntry(table: seq<FoodEntry>, u: UserId, date: int) {
    exists e :: e in table && e.userId == u && e.date == date
  }

  /** Every stored watermark is the date of one of its user's entries. */
  ghost predicate Anchored(table: seq<FoodEntry>, analyses: map<UserId, AiAnalysis>) {
    forall v :: v in analyses ==> DatedEntry(table, v, analyses[v].lastEntryDate)
  }

  /**
   * When the stored watermark is the date of one of the user's entries, a run of either
   * mode that selects anything ends on an entry at least as new: a full run reads that
   * entry again, an incremental run reads only newer ones.
   */
  lemma WatermarkNeverDecreases(table: seq<FoodEntry>, analyses: map<UserId, AiAnalysis>, u: UserId, mode: Mode)
    requires u in analyses && DatedEntry(table, u, analyses[u].lastEntryDate)
    requires Select(table, analyses, u, mode).entries != []
    ensures var es := Select(table, analyses, u, mode).entries;
            es[|es| - 1].date >= analyses[u].lastEntryDate
  {
    NewestIsLast(table, analyses, u, mode);
    if mode == Full {
      var e :| e in table && e.userId == u && e.date == analyses[u].lastEntryDate;
      EntriesForSpec(table, u, None, 0);
      assert e in Select(table, analyses, u, mode).entries;
    }
  }

  /**
   * A run keeps every watermark anchored to an entry of its user, and never moves a
   * stored watermark back, whatever the mode and whatever the model returns.
   */
  lemma AnalyzeKeepsAnchored(table: seq<FoodEntry>, analyses: map<UserId, AiAnalysis>, u: UserId, mode: Mode,
                             generated: Result<Generated, string>,
                             reply: Reply, prompt: Option<string>, analyses': map<UserId, AiAnalysis>)
    requires Anchored(table, analyses)
    requires AnalyzeSpec(table, analyses, u, mode, generated, reply, prompt, analyses')
    ensures Anchored(table, analyses')
    ensures forall v :: v in analyses ==> v in analyses' && analyses'[v].lastEntryDate >= analyses[v].lastEntryDate
  {
    var es := Select(table, analyses, u, mode).entries;
    if es != [] && generated.Success? {
      var g := generated.value;
      var stored := AiAnalysis(g.recommended, g.notRecommended, g.avoidProducts, es[|es| - 1].date);
      assert analyses' == analyses[u := stored];
      NewestIsDated(table, analyses, u, mode);
      if u in analyses {
        WatermarkNeverDecreases(table, analyses, u, mode);
      }
      StoreKeepsAnchored(table, analyses, u, stored);
    }
  }

  /** The newest selected entry is one of the user's entries in the table. */
  lemma NewestIsDated(table: seq<FoodEntry>, analyses: map<UserId, AiAnalysis>, u: UserId, mode: Mode)
    requires Select(table, analyses, u, mode).entries != []
    ensures var es := Select(table, analyses, u, mode).entries;
            DatedEntry(table, u, es[|es| - 1].date)
  {
    var es := Select(table, analyses, u, mode).entries;
    var after := if mode == Incremental && u in analyses then Some(analyses[u].lastEntryDate) else None;
    assert es == EntriesFor(table, u, after);
    EntriesForSpec(table, u, after, 0);
    assert es[|es| - 1] in es;
  }

  /** Storing a row whose watermark is anchored, and not older than the one it replaces, keeps the invariant. */
  lemma StoreKeepsAnchored(table: seq<FoodEntry>, analyses: map<UserId, AiAnalysis>, u: UserId, stored: AiAnalysis)
    requires Anchored(table, analyses) && DatedEntry(table, u, stored.lastEntryDate)
    requires u in analyses ==> stored.lastEntryDate >= analyses[u].lastEntryDate
    ensures Anchored(table, analyses[u := stored])
    ensures forall v :: v in analyses ==>
              v in analyses[u := stored] && analyses[u := stored][v].lastEntryDate >= analyses[v].lastEntryDate
  {
  }

  /** Watermarks stay anchored when every entry's user and date survive a change of the table. */
  lemma AnchoredKeptBy(table: seq<FoodEntry>, table': seq<FoodEntry>, analyses: map<UserId, AiAnalysis>)
    requires Anchored(table, analyses)
    requires forall e :: e in table ==> DatedEntry(table', e.userId, e.date)
    ensures Anchored(table', analyses)
  {
    forall v | v in analyses ensures DatedEntry(table', v, analyses[v].lastEntryDate) {
      var e :| e in table && e.userId == v && e.date == analyses[v].lastEntryDate;
    }
  }

  /**
   * The diary's writes keep every watermark anchored: adding an entry keeps the old ones,
   * and recording feelings changes no entry's user or date.
   */
  lemma DiaryWritesKeepAnchored(table: seq<FoodEntry>, analyses: map<UserId, AiAnalysis>, added: FoodEntry,
                                id: nat, feelings: string)
    requires Anchored(table, analyses)
    ensures Anchored(table + [added], analyses)
    ensures Anchored(FoodDiary.SetFeelings(table, id, feelings), analyses)
  {
    forall e | e in table ensures DatedEntry(table + [added], e.userId, e.date) {
      assert e in table + [added];
    }
    AnchoredKeptBy(table, table + [added], analyses);
    var updated := FoodDiary.SetFeelings(table, id, feelings);
    forall e | e in table ensures DatedEntry(updated, e.userId, e.date) {
      var i :| 0 <= i < |table| && table[i] == e;
      assert updated[i] in updated;
    }
    AnchoredKeptBy(table, updated, analyses);
  }

  // ---------------------------------------------------------------------------------
  // Previous analysis as JSON
  // ---------------------------------------------------------------------------------

  function DishPairs(ds: seq<Dish>): seq<(string, string)> {
    seq(|ds|, i requires 0 <= i < |ds| => (ds[i].dish, ds[i].reason))
  }

  function ProductPairs(ps: seq<Product>): seq<(string, string)> {
    seq(|ps|, i requires 0 <= i < |ps| => (ps[i].product, ps[i].reason))
  }

  function ToDishes(ps: seq<(string, string)>): seq<Dish> {
    seq(|ps|, i requires 0 <= i < |ps| => Dish(ps[i].0, ps[i].1))
  }

  function ToProducts(ps: seq<(string, string)>): seq<Product> {
    seq(|ps|, i requires 0 <= i < |ps| => Product(ps[i].0, ps[i].1))
  }

  /** `JSON.stringify({ recommended, notRecommended, avoidProducts })` of the stored row. */
  function AnalysisJson(a: AiAnalysis): string {
    "{\"recommended\":" + (Json.PairsJson("dish", DishPairs(a.recommended)) + NotRecommendedJson(a.notRecommended, a.avoidProducts))
  }

  /** The printed members after `recommended`, through the closing brace. */
  function NotRecommendedJson(ns: seq<Dish>, ps: seq<Product>): string {
    ",\"notRecommended\":" + (Json.PairsJson("dish", DishPairs(ns)) + AvoidProductsJson(ps))
  }

  function AvoidProductsJson(ps: seq<Product>): string {
    ",\"avoidProducts\":" + (Json.PairsJson("product", ProductPairs(ps)) + "}")
  }

  /** A reader for exactly the text `AnalysisJson` prints. */
  function ParseAnalysisJson(t: string): Option<(seq<Dish>, seq<Dish>, seq<Product>)> {
    match Json.Expect(t, "{\"recommended\":")
    case None => None
    case Some(t1) =>
      match Json.ParsePairs("dish", t1)
      case None => None
      case Some((r, t2)) =>
        match ParseNotRecommended(t2)
        case None => None
        case Some((n, p)) => Some((ToDishes(r), n, p))
  }

  /** The members after `recommended`, through the closing brace. */
  function ParseNotRecommended(t: string): Option<(seq<Dish>, seq<Product>)> {
    match Json.Expect(t, ",\"notRecommended\":")
    case None => None
    case Some(t1) =>
      match Json.ParsePairs("dish", t1)
      case None => None
      case Some((n, t2)) =>
        match ParseAvoidProducts(t2)
        case None => None
        case Some(p) => Some((ToDishes(n), p))
  }

  /** The last member, `avoidProducts`, and the closing brace. */
  function ParseAvoidProducts(t: string): Option<seq<Product>> {
    match Json.Expect(t, ",\"avoidProducts\":")
    case None => None
    case Some(t1) =>
      match Json.ParsePairs("product", t1)
      case None => None
      case Some((p, t2)) => if t2 == "}" then Some(ToProducts(p)) else None
  }

  lemma DishPairsRoundTrip(ds: seq<Dish>)
    ensures ToDishes(DishPairs(ds)) == ds
  {
  }

  lemma AvoidProductsRoundTrip(ps: seq<Product>)
    ensures ParseAvoidProducts(AvoidProductsJson(ps)) == Some(ps)
  {
    var pp := ProductPairs(ps);
    var t1 := Json.PairsJson("product", pp) + "}";
    Json.ExpectPrefix(",\"avoidProducts\":", t1);
    Json.PairsParse("product", pp, "}");
    assert ToProducts(pp) == ps;
  }

  lemma NotRecommendedRoundTrip(ns: seq<Dish>, ps: seq<Product>)
    ensures ParseNotRecommended(NotRecommendedJson(ns, ps)) == Some((ns, ps))
  {
    var rest := AvoidProductsJson(ps);
    var t1 := Json.PairsJson("dish", DishPairs(ns)) + rest;
    Json.ExpectPrefix(",\"notRecommended\":", t1);
    Json.PairsParse("dish", DishPairs(ns), rest);
    AvoidProductsRoundTrip(ps);
    DishPairsRoundTrip(ns);
  }

  /** The serialized previous analysis reads back as the three stored lists, whatever text their items hold. */
  lemma AnalysisJsonRoundTrip(a: AiAnalysis)
    ensures ParseAnalysisJson(AnalysisJson(a)) == Some((a.recommended, a.notRecommended, a.avoidProducts))
  {
    var rest := NotRecommendedJson(a.notRecommended, a.avoidProducts);
    var t1 := Json.PairsJson("dish", DishPairs(a.recommended)) + rest;
    Json.ExpectPrefix("{\"recommended\":", t1);
    Json.PairsParse("dish", DishPairs(a.recommended), rest);
    NotRecommendedRoundTrip(a.notRecommended, a.avoidProducts);
    DishPairsRoundTrip(a.recommended);
  }

  /** Two analyses with different lists never serialize to the same previous-analysis text. */
  lemma AnalysisJsonInjective(a: AiAnalysis, b: AiAnalysis)
    requires AnalysisJson(a) == AnalysisJson(b)
    ensures a.recommended == b.recommended
    ensures a.notRecommended == b.notRecommended
    ensures a.avoidProducts == b.avoidProducts
  {
    AnalysisJsonRoundTrip(a);
    AnalysisJsonRoundTrip(b);
  }

  // ---------------------------------------------------------------------------------
  // Prompt
  // ---------------------------------------------------------------------------------

  /** The text appended when the entry records feelings; an empty string is falsy and adds nothing. */
  function FeelingsSuffix(feelings: Option<string>): string {
    if feelings.Some? && feelings.value != "" then ", Feelings after: " + feelings.value else ""
  }

  /** One line of the prompt: date, meal, description and, when present, the feelings. */
  function RenderEntry(e: FoodEntry): string {
    "Date: " + Clock.IsoDate(e.date) + ", Meal: " + e.mealType + ", Description: " + e.description
    + FeelingsSuffix(e.feelings)
  }

  /** Every rendered line opens with the entry's ISO date and ends in its feelings, or in its description when it has none. */
  lemma RenderEntryShape(e: FoodEntry)
    ensures Text.StartsWith(RenderEntry(e), "Date: " + Clock.IsoDate(e.date) + ", Meal: ")
    ensures e.feelings.Some? && e.feelings.value != "" ==>
              Text.EndsWith(RenderEntry(e), ", Feelings after: " + e.feelings.value)
    ensures e.feelings.None? || e.feelings.value == "" ==> Text.EndsWith(RenderEntry(e), ", Description: " + e.description)
  {
    var head := "Date: " + Clock.IsoDate(e.date) + ", Meal: ";
    var body := head + e.mealType + ", Description: " + e.description;
    var tail := FeelingsSuffix(e.feelings);
    assert RenderEntry(e) == body + tail;
    Text.StartsWithConcat(head, e.mealType);
    Text.StartsWithExtend(head + e.mealType, head, ", Description: ");
    Text.StartsWithExtend(head + e.mealType + ", Description: ", head, e.description);
    Text.StartsWithExtend(body, head, tail);
    if tail == "" {
      assert body + tail == body;
      Text.EndsWithLastTwo(head + e.mealType, ", Description: ", e.description);
    } else {
      Text.EndsWithConcat(body, tail);
    }
  }

  function Lines(es: seq<FoodEntry>): seq<string> {
    seq(|es|, i requires 0 <= i < |es| => RenderEntry(es[i]))
  }

  /** `entries.map(render).join("\n")`. */
  function EntriesText(es: seq<FoodEntry>): string {
    Text.Join(Lines(es), "\n")
  }

  /** The text of a split list is the texts of the two halves, one line break apart. */
  lemma EntriesTextConcat(a: seq<FoodEntry>, b: seq<FoodEntry>)
    requires a != [] && b != []
    ensures EntriesText(a + b) == EntriesText(a) + "\n" + EntriesText(b)
  {
    LinesConcat(a, b);
    Text.JoinConcat(Lines(a), Lines(b), "\n");
  }

  lemma LinesConcat(a: seq<FoodEntry>, b: seq<FoodEntry>)
    ensures Lines(a + b) == Lines(a) + Lines(b)
  {
    forall i | 0 <= i < |a + b| ensures Lines(a + b)[i] == (Lines(a) + Lines(b))[i] {
      if i < |a| {
        assert (a + b)[i] == a[i];
      } else {
        assert (a + b)[i] == b[i - |a|];
      }
    }
  }

  /** A single entry is rendered alone, without a line break. */
  lemma EntriesTextSingle(e: FoodEntry)
    ensures EntriesText([e]) == RenderEntry(e)
  {
    assert Lines([e]) == [RenderEntry(e)];
  }

  const Instructions: string := "\n\nPlease update your analysis incorporating the new entries."

  /** The user prompt: the update form when an incremental run has a previous analysis, the plain listing otherwise. */
  function UserPrompt(mode: Mode, previous: Option<string>, entriesText: string): string {
    if mode == Incremental && previous.Some? && previous.value != "" then
      "Previous analysis:\n" + previous.value + "\n\nNew food entries since last analysis:\n" + entriesText + Instructions
    else
      "Food diary entries:\n" + entriesText
  }

  /**
   * The prompt takes the update form exactly when the run is incremental and has a
   * previous analysis; either way the entries text is in it, and in the plain form it is
   * the whole tail.
   */
  lemma UserPromptForms(mode: Mode, previous: Option<string>, entriesText: string)
    ensures var p := UserPrompt(mode, previous, entriesText);
            Text.StartsWith(p, "Previous analysis:\n") <==> mode == Incremental && previous.Some? && previous.value != ""
    ensures var p := UserPrompt(mode, previous, entriesText);
            Text.StartsWith(p, "Food diary entries:\n") <==> !(mode == Incremental && previous.Some? && previous.value != "")
    ensures var p := UserPrompt(mode, previous, entriesText);
            !(mode == Incremental && previous.Some? && previous.value != "") ==> Text.EndsWith(p, entriesText)
    ensures var p := UserPrompt(mode, previous, entriesText);
            mode == Incremental && previous.Some? && previous.value != "" ==>
              Text.EndsWith(p, entriesText + Instructions) && Text.StartsWith(p, "Previous analysis:\n" + previous.value)
  {
    var p := UserPrompt(mode, previous, entriesText);
    var update, plain := "Previous analysis:\n", "Food diary entries:\n";
    if mode == Incremental && previous.Some? && previous.value != "" {
      var mid := "\n\nNew food entries since last analysis:\n";
      assert p == update + previous.value + mid + entriesText + Instructions;
      Text.StartsWithConcat(update + previous.value, mid);
      Text.StartsWithExtend(update + previous.value + mid, update + previous.value, entriesText);
      Text.StartsWithExtend(update + previous.value + mid + entriesText, update + previous.value, Instructions);
      Text.StartsWithConcat(update, previous.value);
      Text.StartsWithExtend(update + previous.value, update, mid);
      Text.StartsWithExtend(update + previous.value + mid, update, entriesText);
      Text.StartsWithExtend(update + previous.value + mid + entriesText, update, Instructions);
      Text.OtherFirstChar(p, update, plain);
      Text.EndsWithLastTwo(update + previous.value + mid, entriesText, Instructions);
    } else {
      assert p == plain + entriesText;
      Text.StartsWithConcat(plain, entriesText);
      Text.EndsWithConcat(plain, entriesText);
      Text.OtherFirstChar(p, plain, update);
    }
  }

  // ---------------------------------------------------------------------------------
  // Handler
  // ---------------------------------------------------------------------------------

  /** The structured answer `generateObject` returns under `analysisSchema`. */
  datatype Generated = Generated(recommended: seq<Dish>, notRecommended: seq<Dish>, avoidProducts: seq<Product>)

  datatype Payload = Ok | Error(message: string)

  /** A JSON reply with its status, or an exception that escapes the handler. */
  datatype Reply = Reply(status: nat, payload: Payload) | Thrown

  const SystemPrompt: string :=
    "You are a professional nutrition and wellness analyst. Analyze the user's food diary and correlate what "
    + "they eat with how they feel after meals. Identify patterns between specific foods/meals and reported "
    + "emotional or physical states. Provide personalized dietary recommendations based on these patterns."

  /**
   * The handler. `session` is the signed-in user, `body` the request body and `generated`
   * what the model returns for the prompt; `prompt` is the user prompt sent to the model,
   * when the handler gets that far. The caller is checked before the body is read, and
   * the mode before any table is read.
   */
  method Post(db: Database, session: Option<UserId>, body: Body, generated: Result<Generated, string>)
    returns (reply: Reply, prompt: Option<string>)
    requires db.Valid()
    modifies db`analyses
    ensures db.Valid()
    ensures Auth.RequiredUserId(session).Failure? ==>
              reply == Reply(401, Error("Unauthorized")) && prompt.None? && db.analyses == old(db.analyses)
    ensures Auth.RequiredUserId(session).Success? && body.Malformed? ==>
              reply == Thrown && prompt.None? && db.analyses == old(db.analyses)
    ensures Auth.RequiredUserId(session).Success? && body.Json? && ParseMode(body.mode).None? ==>
              reply == Reply(400, Error("Invalid mode")) && prompt.None? && db.analyses == old(db.analyses)
    ensures Auth.RequiredUserId(session).Success? && body.Json? && ParseMode(body.mode).Some? ==>
              AnalyzeSpec(old(db.foodEntries), old(db.analyses), session.value, ParseMode(body.mode).value, generated,
                          reply, prompt, db.analyses)
  {
    var auth := Auth.RequiredUserId(session);
    if auth.Failure? {
      return Reply(401, Error("Unauthorized")), None;
    }
    if body.Malformed? {
      return Thrown, None;
    }
    var parsed := ParseMode(body.mode);
    if parsed.None? {
      return Reply(400, Error("Invalid mode")), None;
    }
    reply, prompt := Run(db, auth.value, parsed.value, generated);
  }

  /**
   * What a run for user `u` in `mode` does after the checks: with nothing selected it
   * answers 400 and stores nothing; otherwise it sends the prompt, and on success stores
   * the generated lists with the newest selected date as the new watermark.
   */
  ghost predicate AnalyzeSpec(table: seq<FoodEntry>, analyses: map<UserId, AiAnalysis>, u: UserId, mode: Mode,
                              generated: Result<Generated, string>,
                              reply: Reply, prompt: Option<string>, analyses': map<UserId, AiAnalysis>)
  {
    var sel := Select(table, analyses, u, mode);
    if sel.entries == [] then
      reply == Reply(400, Error("No entries to analyze")) && prompt.None? && analyses' == analyses
    else
      && prompt == Some(UserPrompt(mode, sel.previous, EntriesText(sel.entries)))
      && (generated.Failure? ==> reply == Thrown && analyses' == analyses)
      && (generated.Success? ==>
            var g := generated.value;
            && reply == Reply(200, Ok)
            && analyses' == analyses[u := AiAnalysis(g.recommended, g.notRecommended, g.avoidProducts,
                                                     sel.entries[|sel.entries| - 1].date)])
  }

  /** Selection, prompt, generation and upsert for an authenticated caller and a valid mode. */
  method Run(db: Database, u: UserId, mode: Mode, generated: Result<Generated, string>)
    returns (reply: Reply, prompt: Option<string>)
    requires db.Valid()
    modifies db`analyses
    ensures db.Valid()
    ensures AnalyzeSpec(old(db.foodEntries), old(db.analyses), u, mode, generated, reply, prompt, db.analyses)
  {
    var analyses;
    reply, prompt, analyses := Decide(db.foodEntries, db.analyses, u, mode, generated);
    db.analyses := analyses;
  }

  /** The run on the tables' contents: the reply, the prompt sent, and the analyses table afterwards. */
  method Decide(table: seq<FoodEntry>, analyses: map<UserId, AiAnalysis>, u: UserId, mode: Mode,
                generated: Result<Generated, string>)
    returns (reply: Reply, prompt: Option<string>, analyses': map<UserId, AiAnalysis>)
    ensures AnalyzeSpec(table, analyses, u, mode, generated, reply, prompt, analyses')
  {
    var sel := Select(table, analyses, u, mode);
    if |sel.entries| == 0 {
      return Reply(400, Error("No entries to analyze")), None, analyses;
    }
    prompt := Some(UserPrompt(mode, sel.previous, EntriesText(sel.entries)));
    if generated.Failure? {
      return Thrown, prompt, analyses;
    }
    var g := generated.value;
    var newest := sel.entries[|sel.entries| - 1];
    analyses' := analyses[u := AiAnalysis(g.recommended, g.notRecommended, g.avoidProducts, newest.date)];
    reply := Reply(200, Ok);
  }
}
