/**
 * The sheet store (src/store/useSheetStore.ts): the list of sheets, the active sheet, the
 * per-sheet undo and redo stacks and the theme, with every action as a function from the
 * old state to the new one. The clock (`Date.now()`) and the id generator (`uuidv4()`) are
 * parameters of the actions that use them.
 */
module SheetStore {
  import opened Wrappers
  import opened Text

  /**
   * The legacy `lines` property a stored or imported sheet may still carry: absent (or
   * `undefined`), an array of lines, or some other value, which is not migrated.
   */
  datatype Legacy = NoLines | LineArray(items: seq<string>) | NotAnArray

  datatype Sheet = Sheet(id: string, name: string, content: string, lastModified: int, lines: Legacy)

  /** The undo stack `past` (most recent last) and the redo stack `future` (most recent first) of one sheet. */
  datatype History = History(past: seq<string>, future: seq<string>)

  datatype Theme = Dark | Light

  datatype State = State(sheets: seq<Sheet>, activeSheetId: string, history: map<string, History>, theme: Theme)

  /** How many earlier contents a sheet's undo stack keeps. */
  const HistoryLimit: nat := 50

  /** The content of the welcome sheet. */
  const WelcomeContent: string :=
    "// Welcome to SumFlow!\n" +
    "// Use this scratchpad for quick math, conversions, and logic.\n" +
    "\n" +
    "// 1. Basic Math\n" +
    "Salary = 5000\n" +
    "Bonus = 1000\n" +
    "Total Income = Salary + Bonus\n" +
    "\n" +
    "// 2. Percentages\n" +
    "Tax Rate = 20%\n" +
    "Tax = Total Income * Tax Rate\n" +
    "Net Income = Total Income - Tax\n" +
    "\n" +
    "// 3. Unit Conversions\n" +
    "// You can mix units freely\n" +
    "Walk = 5 km + 500 m\n" +
    "Drive = 20 miles\n" +
    "Total Distance = Walk + Drive in km\n" +
    "\n" +
    "// 4. Currency\n" +
    "// Supports $, €, £, ¥, ₩, etc. (Rates are static for demo)\n" +
    "Hotel = $200\n" +
    "Food = €50\n" +
    "Total Trip Cost = Hotel + Food in USD\n" +
    "\n" +
    "// 5. References\n" +
    "// You can refer to line numbers (line1, line2) or 'prev'\n" +
    "Item A = 100\n" +
    "Item B = 200\n" +
    "prev * 2\n" +
    "\n" +
    "// Try typing your own calculations below!\n"

  /** The id of the sheet a fresh store starts with. */
  const WelcomeId: string := "welcome"

  /** A welcome sheet with the given id, last modified at `now`. */
  function WelcomeSheet(id: string, now: int): Sheet {
    Sheet(id, "Welcome", WelcomeContent, now, NoLines)
  }

  /** The state before anything is stored: the welcome sheet, active, no history, dark theme. */
  function Initial(now: int): (st: State)
    ensures st.sheets == [WelcomeSheet(WelcomeId, now)] && st.activeSheetId == WelcomeId
    ensures st.history == map[] && st.theme == Dark
  {
    State([WelcomeSheet(WelcomeId, now)], WelcomeId, map[], Dark)
  }

  // ---------------------------------------------------------------------------------------
  // Helpers over the list of sheets
  // ---------------------------------------------------------------------------------------

  predicate HasId(sheets: seq<Sheet>, id: string) {
    exists i :: 0 <= i < |sheets| && sheets[i].id == id
  }

  /** `sheets.find(s => s.id === id)`: the first sheet with the id, if any. */
  function Find(sheets: seq<Sheet>, id: string): (r: Option<nat>)
    ensures r.None? <==> !HasId(sheets, id)
    ensures r.Some? ==> r.value < |sheets| && sheets[r.value].id == id
    ensures r.Some? ==> forall i :: 0 <= i < r.value ==> sheets[i].id != id
  {
    if |sheets| == 0 then None
    else if sheets[0].id == id then Some(0)
    else
      var r := Find(sheets[1..], id);
      assert HasId(sheets[1..], id) ==> HasId(sheets, id) by {
        if HasId(sheets[1..], id) {
          var i :| 0 <= i < |sheets[1..]| && sheets[1..][i].id == id;
          assert sheets[i + 1].id == id;
        }
      }
      if r.None? then None else Some(r.value + 1)
  }

  /** `sheets.map(s => s.id === id ? edit(s) : s)`: the sheets with the id are edited, the others kept. */
  function Updated(sheets: seq<Sheet>, id: string, edit: Sheet -> Sheet): (r: seq<Sheet>)
    ensures |r| == |sheets|
    ensures forall i :: 0 <= i < |sheets| ==> r[i] == if sheets[i].id == id then edit(sheets[i]) else sheets[i]
  {
    seq(|sheets|, i requires 0 <= i < |sheets| => if sheets[i].id == id then edit(sheets[i]) else sheets[i])
  }

  /** `sheets.filter(s => s.id !== id)`. */
  function Without(sheets: seq<Sheet>, id: string): (r: seq<Sheet>)
    ensures |r| <= |sheets|
    ensures forall s :: s in r <==> s in sheets && s.id != id
    ensures !HasId(sheets, id) ==> r == sheets
    ensures |r| == 0 <==> forall i :: 0 <= i < |sheets| ==> sheets[i].id == id
    ensures |r| > 0 ==> FirstOther(sheets, id) < |sheets| && r[0] == sheets[FirstOther(sheets, id)]
  {
    if |sheets| == 0 then []
    else if sheets[0].id == id then Without(sheets[1..], id)
    else [sheets[0]] + Without(sheets[1..], id)
  }

  /** The index of the first sheet whose id is not `id` (`|sheets|` when there is none). */
  function FirstOther(sheets: seq<Sheet>, id: string): (i: nat)
    ensures i <= |sheets|
    ensures forall j :: 0 <= j < i ==> sheets[j].id == id
    ensures i < |sheets| ==> sheets[i].id != id
  {
    if |sheets| == 0 || sheets[0].id != id then 0 else 1 + FirstOther(sheets[1..], id)
  }

  /** The last `n` entries of `s`, all of them when there are fewer: `s.slice(-n)` for `n > 0`. */
  function TakeLast(s: seq<string>, n: nat): (r: seq<string>)
    requires n > 0
    ensures |r| == if |s| <= n then |s| else n
    ensures r == s[|s| - |r|..]
  {
    if |s| <= n then s else s[|s| - n..]
  }

  // ---------------------------------------------------------------------------------------
  // Actions
  // ---------------------------------------------------------------------------------------

  function Other(t: Theme): Theme {
    if t == Dark then Light else Dark
  }

  /** `toggleTheme` */
  function ToggleTheme(st: State): (r: State)
    ensures r.theme != st.theme
    ensures r.(theme := st.theme) == st
  {
    st.(theme := Other(st.theme))
  }

  /** `addSheet`, with the generated id and the current time as parameters. */
  function AddSheet(st: State, newId: string, now: int): (r: State)
    ensures r.sheets == st.sheets + [Sheet(newId, "New Sheet", "", now, NoLines)]
    ensures r.activeSheetId == newId && r.history == st.history && r.theme == st.theme
  {
    st.(sheets := st.sheets + [Sheet(newId, "New Sheet", "", now, NoLines)], activeSheetId := newId)
  }

  /** `addWelcomeSheet`: like `addSheet`, with the welcome sheet. */
  function AddWelcomeSheet(st: State, newId: string, now: int): (r: State)
    ensures r.sheets == st.sheets + [WelcomeSheet(newId, now)]
    ensures r.activeSheetId == newId && r.history == st.history && r.theme == st.theme
  {
    st.(sheets := st.sheets + [WelcomeSheet(newId, now)], activeSheetId := newId)
  }

  /**
   * `deleteSheet`. With one sheet or none the state stays as it is. Otherwise every sheet
   * with the id goes, and so does its history; when the active sheet was deleted the first
   * remaining sheet becomes active, and when none remains that lookup throws (`None`).
   */
  function DeleteSheet(st: State, id: string): (r: Option<State>)
    ensures |st.sheets| <= 1 ==> r == Some(st)
    ensures r.None? <==> |st.sheets| > 1 && st.activeSheetId == id && |Without(st.sheets, id)| == 0
  {
    if |st.sheets| <= 1 then Some(st)
    else
      var remaining := Without(st.sheets, id);
      if st.activeSheetId == id && |remaining| == 0 then None
      else
        var active := if st.activeSheetId == id then remaining[0].id else st.activeSheetId;
        Some(st.(sheets := remaining, activeSheetId := active, history := st.history - {id}))
  }

  /** `setActiveSheet`: any id is accepted. */
  function SetActiveSheet(st: State, id: string): (r: State)
    ensures r.activeSheetId == id && r.(activeSheetId := st.activeSheetId) == st
  {
    st.(activeSheetId := id)
  }

  /** `updateSheetName`: every sheet with the id gets the name and the time. */
  function UpdateSheetName(st: State, id: string, name: string, now: int): (r: State) {
    st.(sheets := Updated(st.sheets, id, (s: Sheet) => s.(name := name, lastModified := now)))
  }

  /** The history of a sheet, empty when it has none (`state.history[id] || { past: [], future: [] }`). */
  function HistoryOf(st: State, id: string): History {
    if id in st.history then st.history[id] else History([], [])
  }

  /** What editing, undo and redo have in common: the sheets with the id get new content and the id a new history. */
  function Revise(st: State, id: string, content: string, now: int, h: History): State {
    st.(sheets := Updated(st.sheets, id, (s: Sheet) => s.(content := content, lastModified := now)), history := st.history[id := h])
  }

  /**
   * `updateSheetContent`. An unknown id leaves the state as it is. Otherwise the content of
   * the first sheet with the id goes onto its undo stack, which keeps its last
   * `HistoryLimit` entries, the redo stack is emptied, and every sheet with the id gets the
   * new content and the time.
   */
  function UpdateSheetContent(st: State, id: string, content: string, now: int): (r: State) {
    match Find(st.sheets, id)
    case None => st
    case Some(i) =>
      var past := TakeLast(HistoryOf(st, id).past + [st.sheets[i].content], HistoryLimit);
      Revise(st, id, content, now, History(past, []))
  }

  /**
   * `undo`, on the active sheet. Without history, with an empty undo stack or without a sheet
   * with the active id the state stays as it is. Otherwise the last entry of the undo stack
   * becomes the content, and the content of the first sheet with the id goes to the front
   * of the redo stack.
   */
  function Undo(st: State, now: int): (r: State) {
    var id := st.activeSheetId;
    if id !in st.history || |st.history[id].past| == 0 then st
    else
      var h := st.history[id];
      match Find(st.sheets, id)
      case None => st
      case Some(i) =>
        var previous := h.past[|h.past| - 1];
        Revise(st, id, previous, now, History(h.past[..|h.past| - 1], [st.sheets[i].content] + h.future))
  }

  /**
   * `redo`, the mirror of `undo`: the first entry of the redo stack becomes the content, and
   * the current content goes to the end of the undo stack, which is not cut here.
   */
  function Redo(st: State, now: int): (r: State) {
    var id := st.activeSheetId;
    if id !in st.history || |st.history[id].future| == 0 then st
    else
      var h := st.history[id];
      match Find(st.sheets, id)
      case None => st
      case Some(i) =>
        var next := h.future[0];
        Revise(st, id, next, now, History(h.past + [st.sheets[i].content], h.future[1..]))
  }

  /** A sheet with a legacy array of lines gets them, joined by line breaks, as its content. */
  function Migrate(s: Sheet): (r: Sheet)
    ensures r.id == s.id && r.name == s.name && r.lastModified == s.lastModified
    ensures s.lines.LineArray? ==> r.lines == NoLines
    ensures !s.lines.LineArray? ==> r == s
  {
    match s.lines
    case LineArray(items) => s.(content := Join(items, "\n"), lines := NoLines)
    case _ => s
  }

  function MigrateAll(sheets: seq<Sheet>): (r: seq<Sheet>)
    ensures |r| == |sheets|
    ensures forall i :: 0 <= i < |sheets| ==> r[i] == Migrate(sheets[i])
  {
    seq(|sheets|, i requires 0 <= i < |sheets| => Migrate(sheets[i]))
  }

  /** What `importSheets` may be handed: something that is not an array, or an array of sheets. */
  datatype Imported = NotAList | List(items: seq<Sheet>)

  /**
   * `importSheets`: anything but a non-empty array is ignored; otherwise the migrated sheets
   * replace the old ones, the first becomes active and all history is dropped.
   */
  function ImportSheets(st: State, input: Imported): (r: State) {
    if input.NotAList? || |input.items| == 0 then st
    else
      var sheets := MigrateAll(input.items);
      st.(sheets := sheets, activeSheetId := sheets[0].id, history := map[])
  }

  /** `onRehydrateStorage`: the stored state, when there is one, with its sheets migrated. */
  function Rehydrate(stored: Option<State>): (r: Option<State>) {
    match stored
    case None => None
    case Some(st) => Some(st.(sheets := MigrateAll(st.sheets)))
  }
}
