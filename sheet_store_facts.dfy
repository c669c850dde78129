/**
 * What the actions of the sheet store guarantee: what each one changes and what it leaves
 * alone, when it does nothing, that `undo` and `redo` undo each other, that no history ever
 * holds more than `HistoryLimit` entries, and that migrating legacy lines keeps the lines.
 */
module SheetStoreFacts {
  import opened Wrappers
  import opened Text
  import opened SheetStore

  /** No two sheets share an id, as with ids from the id generator. */
  predicate UniqueIds(sheets: seq<Sheet>) {
    forall i, j :: 0 <= i < j < |sheets| ==> sheets[i].id != sheets[j].id
  }

  /** All sheets with the id have the same content, so the first of them stands for all. */
  predicate SameContent(sheets: seq<Sheet>, id: string) {
    forall i, j :: 0 <= i < |sheets| && 0 <= j < |sheets| && sheets[i].id == id && sheets[j].id == id ==>
      sheets[i].content == sheets[j].content
  }

  lemma UniqueIdsSameContent(sheets: seq<Sheet>, id: string)
    requires UniqueIds(sheets)
    ensures SameContent(sheets, id)
  {
    forall i, j | 0 <= i < |sheets| && 0 <= j < |sheets| && sheets[i].id == id && sheets[j].id == id
      ensures sheets[i].content == sheets[j].content
    {
      if i < j || j < i {
        assert false;
      }
    }
  }

  /** A sheet without its time stamp: what undo and redo restore. */
  function Undated(s: Sheet): Sheet {
    s.(lastModified := 0)
  }

  predicate SameUndated(a: seq<Sheet>, b: seq<Sheet>) {
    |a| == |b| && forall i :: 0 <= i < |a| ==> Undated(a[i]) == Undated(b[i])
  }

  /** Every sheet's undo and redo stacks hold at most `HistoryLimit` entries together. */
  predicate HistoryBounded(st: State) {
    forall id :: id in st.history ==> |st.history[id].past| + |st.history[id].future| <= HistoryLimit
  }

  // ---------------------------------------------------------------------------------------
  // Theme and adding sheets
  // ---------------------------------------------------------------------------------------

  /** Toggling the theme twice gives the state back. */
  lemma ToggleThemeTwice(st: State)
    ensures ToggleTheme(ToggleTheme(st)) == st
    ensures ToggleTheme(st).theme == (if st.theme == Dark then Light else Dark)
  {
  }

  /**
   * Adding a sheet puts exactly one sheet at the end and makes it active; the sheets before
   * it are untouched, and a fresh id keeps the ids unique and is found at the new sheet.
   */
  lemma AddSheetAppends(st: State, newId: string, now: int)
    ensures var r := AddSheet(st, newId, now);
      && |r.sheets| == |st.sheets| + 1 && r.sheets[..|st.sheets|] == st.sheets
      && r.sheets[|st.sheets|].id == r.activeSheetId == newId
      && r.sheets[|st.sheets|].content == "" && r.sheets[|st.sheets|].name == "New Sheet"
    ensures UniqueIds(st.sheets) && !HasId(st.sheets, newId) ==>
      UniqueIds(AddSheet(st, newId, now).sheets) && Find(AddSheet(st, newId, now).sheets, newId) == Some(|st.sheets|)
  {
    var r := AddSheet(st, newId, now);
    assert r.sheets[..|st.sheets|] == st.sheets;
    if UniqueIds(st.sheets) && !HasId(st.sheets, newId) {
      FreshAppended(st.sheets, r.sheets[|st.sheets|]);
    }
  }

  /** The same for the welcome sheet. */
  lemma AddWelcomeSheetAppends(st: State, newId: string, now: int)
    ensures var r := AddWelcomeSheet(st, newId, now);
      && |r.sheets| == |st.sheets| + 1 && r.sheets[..|st.sheets|] == st.sheets
      && r.sheets[|st.sheets|].id == r.activeSheetId == newId
      && r.sheets[|st.sheets|].content == WelcomeContent && r.sheets[|st.sheets|].name == "Welcome"
    ensures UniqueIds(st.sheets) && !HasId(st.sheets, newId) ==>
      UniqueIds(AddWelcomeSheet(st, newId, now).sheets) && Find(AddWelcomeSheet(st, newId, now).sheets, newId) == Some(|st.sheets|)
  {
    var r := AddWelcomeSheet(st, newId, now);
    assert r.sheets[..|st.sheets|] == st.sheets;
    if UniqueIds(st.sheets) && !HasId(st.sheets, newId) {
      FreshAppended(st.sheets, r.sheets[|st.sheets|]);
    }
  }

  lemma FreshAppended(sheets: seq<Sheet>, s: Sheet)
    requires UniqueIds(sheets) && !HasId(sheets, s.id)
    ensures UniqueIds(sheets + [s]) && Find(sheets + [s], s.id) == Some(|sheets|)
  {
    var all := sheets + [s];
    forall i, j | 0 <= i < j < |all| ensures all[i].id != all[j].id {
      assert all[i] == sheets[i];
      if j < |sheets| {
        assert all[j] == sheets[j];
      }
    }
    assert !HasId(all[..|sheets|], s.id) by {
      assert all[..|sheets|] == sheets;
    }
    FindAfter(all, |sheets|);
  }

  /** The first sheet with its id where no earlier sheet has it. */
  lemma FindAfter(sheets: seq<Sheet>, i: nat)
    requires i < |sheets| && !HasId(sheets[..i], sheets[i].id)
    ensures Find(sheets, sheets[i].id) == Some(i)
  {
    var id := sheets[i].id;
    assert HasId(sheets, id);
    var k := Find(sheets, id).value;
    forall j | 0 <= j < i ensures sheets[j].id != id {
      assert sheets[..i][j] == sheets[j];
    }
    assert sheets[k].id == id;
    assert !(k < i);
    assert !(i < k);
  }

  // ---------------------------------------------------------------------------------------
  // Deleting, selecting and renaming
  // ---------------------------------------------------------------------------------------

  /**
   * Deleting from two or more sheets: the sheets with the id go and the others stay in
   * order; the active id stays unless it was the deleted one, in which case the first
   * remaining sheet becomes active; the deleted id's history goes and no other changes.
   */
  lemma DeleteSheetEffect(st: State, id: string)
    requires |st.sheets| > 1 && DeleteSheet(st, id).Some?
    ensures var r := DeleteSheet(st, id).value;
      && r.sheets == Without(st.sheets, id)
      && (forall s :: s in r.sheets <==> s in st.sheets && s.id != id)
      && (st.activeSheetId != id ==> r.activeSheetId == st.activeSheetId)
      && (st.activeSheetId == id ==> r.activeSheetId == st.sheets[FirstOther(st.sheets, id)].id != id)
      && id !in r.history
      && (forall k :: k in st.history && k != id ==> k in r.history && r.history[k] == st.history[k])
      && (forall k :: k in r.history ==> k in st.history)
      && r.theme == st.theme
  {
  }

  /** Deleting an id no sheet has, while another sheet is active, only drops any history kept for that id. */
  lemma DeleteUnknownSheet(st: State, id: string)
    requires |st.sheets| > 1 && !HasId(st.sheets, id) && st.activeSheetId != id
    ensures DeleteSheet(st, id) == Some(st.(history := st.history - {id}))
  {
  }

  /**
   * With unique ids the lookup of the new active sheet never throws: deleting from two or
   * more sheets removes at most one, and the active sheet is still there when it was before.
   */
  lemma DeleteSheetUnique(st: State, id: string)
    requires |st.sheets| > 1 && UniqueIds(st.sheets)
    ensures DeleteSheet(st, id).Some?
    ensures |DeleteSheet(st, id).value.sheets| == |st.sheets| - (if HasId(st.sheets, id) then 1 else 0)
    ensures HasId(st.sheets, st.activeSheetId) ==> HasId(DeleteSheet(st, id).value.sheets, DeleteSheet(st, id).value.activeSheetId)
  {
    WithoutUnique(st.sheets, id);
    var r := DeleteSheet(st, id).value;
    if HasId(st.sheets, st.activeSheetId) {
      if st.activeSheetId == id {
        assert r.sheets[0].id == r.activeSheetId;
      } else {
        var i :| 0 <= i < |st.sheets| && st.sheets[i].id == st.activeSheetId;
        assert st.sheets[i] in r.sheets;
        var j :| 0 <= j < |r.sheets| && r.sheets[j] == st.sheets[i];
      }
    }
  }

  /** A single sheet is kept exactly when its id is another one. */
  lemma WithoutOne(s: Sheet, id: string)
    ensures Without([s], id) == if s.id == id then [] else [s]
  {
    assert [s][1..] == [];
  }

  /**
   * Filtering distributes over concatenation: together with `WithoutOne` this says that
   * `Without` keeps the other sheets in their order, each exactly once.
   */
  lemma {:induction false} WithoutAppend(a: seq<Sheet>, b: seq<Sheet>, id: string)
    ensures Without(a + b, id) == Without(a, id) + Without(b, id)
    decreases |a|
  {
    if a == [] {
      assert a + b == b;
    } else {
      assert (a + b)[0] == a[0];
      assert (a + b)[1..] == a[1..] + b;
      WithoutAppend(a[1..], b, id);
    }
  }

  /** Filtering out an id among unique ids drops exactly the sheet with it, if any. */
  lemma WithoutUnique(sheets: seq<Sheet>, id: string)
    requires UniqueIds(sheets)
    ensures |Without(sheets, id)| == |sheets| - (if HasId(sheets, id) then 1 else 0)
    ensures UniqueIds(Without(sheets, id))
  {
    WithoutUniqueLength(sheets, id);
    WithoutUniqueIds(sheets, id);
  }

  lemma HasIdCons(sheets: seq<Sheet>, id: string)
    requires |sheets| > 0
    ensures HasId(sheets, id) <==> sheets[0].id == id || HasId(sheets[1..], id)
  {
    if HasId(sheets, id) && sheets[0].id != id {
      var i :| 0 <= i < |sheets| && sheets[i].id == id;
      assert sheets[1..][i - 1].id == id;
    }
    if HasId(sheets[1..], id) {
      var i :| 0 <= i < |sheets[1..]| && sheets[1..][i].id == id;
      assert sheets[i + 1].id == id;
    }
  }

  lemma UniqueTail(sheets: seq<Sheet>)
    requires |sheets| > 0 && UniqueIds(sheets)
    ensures UniqueIds(sheets[1..]) && !HasId(sheets[1..], sheets[0].id)
  {
    var tail := sheets[1..];
    forall i, j | 0 <= i < j < |tail| ensures tail[i].id != tail[j].id {
      assert tail[i] == sheets[i + 1] && tail[j] == sheets[j + 1];
    }
    forall i | 0 <= i < |tail| ensures tail[i].id != sheets[0].id {
      assert tail[i] == sheets[i + 1];
    }
  }

  lemma UniqueCons(s: Sheet, rest: seq<Sheet>)
    requires UniqueIds(rest) && !HasId(rest, s.id)
    ensures UniqueIds([s] + rest)
  {
    var r := [s] + rest;
    forall i, j | 0 <= i < j < |r| ensures r[i].id != r[j].id {
      assert r[j] == rest[j - 1];
      if i > 0 {
        assert r[i] == rest[i - 1];
      }
    }
  }

  /** Filtering keeps no id the list did not have. */
  lemma {:induction false} WithoutNoNewIds(sheets: seq<Sheet>, id: string, x: string)
    requires !HasId(sheets, x)
    ensures !HasId(Without(sheets, id), x)
  {
    if |sheets| > 0 {
      HasIdCons(sheets, x);
      WithoutNoNewIds(sheets[1..], id, x);
      if sheets[0].id != id {
        HasIdCons(Without(sheets, id), x);
        assert Without(sheets, id)[1..] == Without(sheets[1..], id);
      }
    }
  }

  lemma {:induction false} WithoutUniqueLength(sheets: seq<Sheet>, id: string)
    requires UniqueIds(sheets)
    ensures |Without(sheets, id)| == |sheets| - (if HasId(sheets, id) then 1 else 0)
  {
    if |sheets| > 0 {
      UniqueTail(sheets);
      WithoutUniqueLength(sheets[1..], id);
      HasIdCons(sheets, id);
    }
  }

  lemma {:induction false} WithoutUniqueIds(sheets: seq<Sheet>, id: string)
    requires UniqueIds(sheets)
    ensures UniqueIds(Without(sheets, id))
  {
    if |sheets| > 0 {
      UniqueTail(sheets);
      WithoutUniqueIds(sheets[1..], id);
      if sheets[0].id != id {
        WithoutNoNewIds(sheets[1..], id, sheets[0].id);
        UniqueCons(sheets[0], Without(sheets[1..], id));
      }
    }
  }

  /**
   * Renaming touches only the names and time stamps of the sheets with the id, keeps the
   * number and order of the sheets, and leaves active sheet, history and theme alone.
   */
  lemma UpdateSheetNameEffect(st: State, id: string, name: string, now: int)
    ensures var r := UpdateSheetName(st, id, name, now);
      && |r.sheets| == |st.sheets|
      && (forall i :: 0 <= i < |st.sheets| ==>
            && r.sheets[i].id == st.sheets[i].id
            && r.sheets[i].content == st.sheets[i].content
            && r.sheets[i].lines == st.sheets[i].lines
            && r.sheets[i].name == (if st.sheets[i].id == id then name else st.sheets[i].name)
            && (st.sheets[i].id != id ==> r.sheets[i] == st.sheets[i]))
      && r.activeSheetId == st.activeSheetId && r.history == st.history && r.theme == st.theme
  {
  }

  /** Renaming an id no sheet has changes nothing. */
  lemma UpdateSheetNameUnknown(st: State, id: string, name: string, now: int)
    requires !HasId(st.sheets, id)
    ensures UpdateSheetName(st, id, name, now) == st
  {
    var r := UpdateSheetName(st, id, name, now);
    assert r.sheets == st.sheets;
  }

  // ---------------------------------------------------------------------------------------
  // Editing, undo and redo
  // ---------------------------------------------------------------------------------------

  /**
   * The common step of editing, undo and redo: the sheets with the id get the content and a
   * new time stamp and keep everything else, the other sheets stay as they are, the id gets
   * the history and no other history, the active id or the theme changes.
   */
  lemma ReviseEffect(st: State, id: string, content: string, now: int, h: History)
    ensures var r := Revise(st, id, content, now, h);
      && |r.sheets| == |st.sheets|
      && (forall j :: 0 <= j < |st.sheets| ==>
            && r.sheets[j].id == st.sheets[j].id && r.sheets[j].name == st.sheets[j].name
            && r.sheets[j].lines == st.sheets[j].lines
            && r.sheets[j].content == (if st.sheets[j].id == id then content else st.sheets[j].content)
            && (st.sheets[j].id != id ==> r.sheets[j] == st.sheets[j]))
      && id in r.history && r.history[id] == h
      && (forall k :: k != id ==> (k in r.history <==> k in st.history))
      && (forall k :: k != id && k in st.history ==> r.history[k] == st.history[k])
      && r.activeSheetId == st.activeSheetId && r.theme == st.theme
  {
  }

  /**
   * Two revisions of the same id in a row, the second back to the content all sheets with
   * the id had, give back the sheets apart from time stamps.
   */
  lemma ReviseBack(st: State, id: string, c1: string, t1: int, h1: History, t2: int, h2: History)
    requires HasId(st.sheets, id)
    requires forall j :: 0 <= j < |st.sheets| && st.sheets[j].id == id ==> st.sheets[j].content == st.sheets[Find(st.sheets, id).value].content
    ensures var r := Revise(Revise(st, id, c1, t1, h1), id, st.sheets[Find(st.sheets, id).value].content, t2, h2);
      SameUndated(r.sheets, st.sheets) && r.history == st.history[id := h2]
  {
  }

  /** Editing the content of an id no sheet has changes nothing. */
  lemma UpdateSheetContentUnknown(st: State, id: string, content: string, now: int)
    requires !HasId(st.sheets, id)
    ensures UpdateSheetContent(st, id, content, now) == st
  {
  }

  /**
   * Editing the content of a sheet revises it: the sheets with the id get the new content;
   * the old content of the first of them is the newest entry of its undo stack, which keeps
   * the latest `HistoryLimit` entries of the earlier stack and that content; its redo stack
   * is empty.
   */
  lemma UpdateSheetContentEffect(st: State, id: string, content: string, now: int)
    requires HasId(st.sheets, id)
    ensures var i := Find(st.sheets, id).value;
      exists past: seq<string> ::
        && UpdateSheetContent(st, id, content, now) == Revise(st, id, content, now, History(past, []))
        && var stack := HistoryOf(st, id).past + [st.sheets[i].content];
        && |past| == (if |stack| <= HistoryLimit then |stack| else HistoryLimit)
        && past == stack[|stack| - |past|..]
        && past[|past| - 1] == st.sheets[i].content
  {
    var i := Find(st.sheets, id).value;
    var stack := HistoryOf(st, id).past + [st.sheets[i].content];
    var past := TakeLast(stack, HistoryLimit);
    assert past[|past| - 1] == stack[|stack| - 1];
    assert UpdateSheetContent(st, id, content, now) == Revise(st, id, content, now, History(past, []));
  }

  /** Undo does nothing without history, with an empty undo stack, or without a sheet with the active id. */
  lemma UndoNothing(st: State, now: int)
    requires var id := st.activeSheetId;
      id !in st.history || |st.history[id].past| == 0 || !HasId(st.sheets, id)
    ensures Undo(st, now) == st
  {
  }

  /** Redo does nothing without history, with an empty redo stack, or without a sheet with the active id. */
  lemma RedoNothing(st: State, now: int)
    requires var id := st.activeSheetId;
      id !in st.history || |st.history[id].future| == 0 || !HasId(st.sheets, id)
    ensures Redo(st, now) == st
  {
  }

  /** Whether `undo` does something: the active sheet exists and has something to undo. */
  predicate CanUndo(st: State) {
    && st.activeSheetId in st.history && |st.history[st.activeSheetId].past| > 0
    && HasId(st.sheets, st.activeSheetId)
  }

  /** Whether `redo` does something. */
  predicate CanRedo(st: State) {
    && st.activeSheetId in st.history && |st.history[st.activeSheetId].future| > 0
    && HasId(st.sheets, st.activeSheetId)
  }

  /** The content of the first sheet with the active id, the one undo and redo save. */
  function ActiveContent(st: State): string
    requires HasId(st.sheets, st.activeSheetId)
  {
    st.sheets[Find(st.sheets, st.activeSheetId).value].content
  }

  /**
   * Undo revises the active sheet: its content becomes the newest entry of the undo stack,
   * that entry leaves the undo stack, and the content it had goes to the front of the redo
   * stack.
   */
  lemma UndoEffect(st: State, now: int)
    requires CanUndo(st)
    ensures var h := st.history[st.activeSheetId];
      Undo(st, now) == Revise(st, st.activeSheetId, h.past[|h.past| - 1], now,
        History(h.past[..|h.past| - 1], [ActiveContent(st)] + h.future))
  {
  }

  /**
   * Redo revises the active sheet the other way: its content becomes the front of the redo
   * stack, that entry leaves the redo stack, and the content it had goes to the end of the
   * undo stack.
   */
  lemma RedoEffect(st: State, now: int)
    requires CanRedo(st)
    ensures var h := st.history[st.activeSheetId];
      Redo(st, now) == Revise(st, st.activeSheetId, h.future[0], now,
        History(h.past + [ActiveContent(st)], h.future[1..]))
  {
  }

  /** The state after an effective undo, as the redo that follows sees it. */
  lemma AfterUndo(st: State, t1: int)
    requires CanUndo(st)
    ensures var id := st.activeSheetId;
      var h := st.history[id];
      var u := Undo(st, t1);
      && u == Revise(st, id, h.past[|h.past| - 1], t1, History(h.past[..|h.past| - 1], [ActiveContent(st)] + h.future))
      && u.activeSheetId == id && u.theme == st.theme && CanRedo(u)
      && u.history[id] == History(h.past[..|h.past| - 1], [ActiveContent(st)] + h.future)
      && ActiveContent(u) == h.past[|h.past| - 1]
  {
    var id := st.activeSheetId;
    var h := st.history[id];
    var h1 := History(h.past[..|h.past| - 1], [ActiveContent(st)] + h.future);
    UndoEffect(st, t1);
    var u := Undo(st, t1);
    ReviseEffect(st, id, h.past[|h.past| - 1], t1, h1);
    SameIdsFind(st.sheets, u.sheets, id);
  }

  /** The state after an effective redo, as the undo that follows sees it. */
  lemma AfterRedo(st: State, t1: int)
    requires CanRedo(st)
    ensures var id := st.activeSheetId;
      var h := st.history[id];
      var u := Redo(st, t1);
      && u == Revise(st, id, h.future[0], t1, History(h.past + [ActiveContent(st)], h.future[1..]))
      && u.activeSheetId == id && u.theme == st.theme && CanUndo(u)
      && u.history[id] == History(h.past + [ActiveContent(st)], h.future[1..])
      && ActiveContent(u) == h.future[0]
  {
    var id := st.activeSheetId;
    var h := st.history[id];
    var h1 := History(h.past + [ActiveContent(st)], h.future[1..]);
    RedoEffect(st, t1);
    var u := Redo(st, t1);
    ReviseEffect(st, id, h.future[0], t1, h1);
    SameIdsFind(st.sheets, u.sheets, id);
  }

  /**
   * Undo followed by redo gives back the state apart from time stamps: the contents, both
   * stacks, the active id and the theme, provided the sheets with the active id agree on
   * their content (which unique ids guarantee).
   */
  lemma UndoThenRedo(st: State, t1: int, t2: int)
    requires CanUndo(st) && SameContent(st.sheets, st.activeSheetId)
    ensures CanRedo(Undo(st, t1))
    ensures var r := Redo(Undo(st, t1), t2);
      SameUndated(r.sheets, st.sheets) && r.history == st.history
      && r.activeSheetId == st.activeSheetId && r.theme == st.theme
  {
    var id := st.activeSheetId;
    var h := st.history[id];
    var c := ActiveContent(st);
    var previous := h.past[|h.past| - 1];
    var h1 := History(h.past[..|h.past| - 1], [c] + h.future);
    AfterUndo(st, t1);
    var u := Undo(st, t1);
    RedoEffect(u, t2);
    assert History(h1.past + [previous], h1.future[1..]) == h by {
      assert h.past[..|h.past| - 1] + [previous] == h.past;
      assert ([c] + h.future)[1..] == h.future;
    }
    assert Redo(u, t2) == Revise(u, id, c, t2, h);
    SameContentFirst(st.sheets, id);
    ReviseBack(st, id, previous, t1, h1, t2, h);
    assert st.history[id := h] == st.history;
  }

  /** Redo followed by undo gives back the state apart from time stamps, under the same proviso. */
  lemma RedoThenUndo(st: State, t1: int, t2: int)
    requires CanRedo(st) && SameContent(st.sheets, st.activeSheetId)
    ensures CanUndo(Redo(st, t1))
    ensures var r := Undo(Redo(st, t1), t2);
      SameUndated(r.sheets, st.sheets) && r.history == st.history
      && r.activeSheetId == st.activeSheetId && r.theme == st.theme
  {
    var id := st.activeSheetId;
    var h := st.history[id];
    var c := ActiveContent(st);
    var next := h.future[0];
    var h1 := History(h.past + [c], h.future[1..]);
    AfterRedo(st, t1);
    var u := Redo(st, t1);
    UndoEffect(u, t2);
    assert History(h1.past[..|h1.past| - 1], [next] + h1.future) == h by {
      assert (h.past + [c])[..|h.past|] == h.past;
      assert [next] + h.future[1..] == h.future;
    }
    assert Undo(u, t2) == Revise(u, id, (h.past + [c])[|h.past|], t2, h);
    assert (h.past + [c])[|h.past|] == c;
    SameContentFirst(st.sheets, id);
    ReviseBack(st, id, next, t1, h1, t2, h);
    assert st.history[id := h] == st.history;
  }

  /** When the sheets with an id agree on content, each has the content of the first. */
  lemma SameContentFirst(sheets: seq<Sheet>, id: string)
    requires SameContent(sheets, id) && HasId(sheets, id)
    ensures forall j :: 0 <= j < |sheets| && sheets[j].id == id ==> sheets[j].content == sheets[Find(sheets, id).value].content
  {
  }

  /** Two lists of sheets with the same ids, position by position, have the same first sheet with an id. */
  lemma {:induction false} SameIdsFind(a: seq<Sheet>, b: seq<Sheet>, id: string)
    requires |a| == |b| && forall j :: 0 <= j < |a| ==> a[j].id == b[j].id
    ensures Find(a, id) == Find(b, id)
  {
    if |a| > 0 && a[0].id != id {
      SameIdsFind(a[1..], b[1..], id);
    }
  }

  // ---------------------------------------------------------------------------------------
  // Importing and migrating
  // ---------------------------------------------------------------------------------------

  /**
   * Importing anything but a non-empty list changes nothing; a non-empty list of sheets
   * replaces the sheets with their migrations, in order, makes the first active and drops
   * all history.
   */
  lemma ImportSheetsEffect(st: State, input: Imported)
    ensures input.NotAList? || |input.items| == 0 ==> ImportSheets(st, input) == st
    ensures input.List? && |input.items| > 0 ==>
      var r := ImportSheets(st, input);
      && |r.sheets| == |input.items|
      && (forall i :: 0 <= i < |input.items| ==> r.sheets[i] == Migrate(input.items[i]))
      && r.activeSheetId == input.items[0].id && r.history == map[] && r.theme == st.theme
  {
  }

  /**
   * Migrating a legacy sheet keeps its lines: splitting the new content at line breaks
   * gives back the lines, when there is at least one and none holds a line break.
   */
  lemma MigrateKeepsLines(s: Sheet)
    requires s.lines.LineArray? && |s.lines.items| > 0
    requires forall k :: 0 <= k < |s.lines.items| ==> '\n' !in s.lines.items[k]
    ensures Split(Migrate(s).content, '\n') == s.lines.items
  {
    SplitJoin(s.lines.items, '\n');
  }

  /** Migrating twice is migrating once, so rehydrating again changes nothing. */
  lemma RehydrateIdempotent(stored: Option<State>)
    ensures Rehydrate(Rehydrate(stored)) == Rehydrate(stored)
    ensures stored.Some? ==> forall i :: 0 <= i < |Rehydrate(stored).value.sheets| ==>
      !Rehydrate(stored).value.sheets[i].lines.LineArray?
  {
    if stored.Some? {
      var r := Rehydrate(stored).value;
      assert MigrateAll(r.sheets) == r.sheets;
    }
  }

  // ---------------------------------------------------------------------------------------
  // The bound on histories
  // ---------------------------------------------------------------------------------------

  /** The actions of the store, with the generated ids and the clock readings they use. */
  datatype Action =
    | ToggleThemeAction
    | AddSheetAction(newId: string, now: int)
    | AddWelcomeSheetAction(newId: string, now: int)
    | DeleteSheetAction(id: string)
    | SetActiveSheetAction(id: string)
    | UpdateSheetNameAction(id: string, name: string, now: int)
    | UpdateSheetContentAction(id: string, content: string, now: int)
    | UndoAction(now: int)
    | RedoAction(now: int)
    | ImportSheetsAction(input: Imported)
    | RehydrateAction

  /** The state after an action; a `deleteSheet` that throws leaves the state as it was. */
  function Apply(st: State, a: Action): State {
    match a
    case ToggleThemeAction => ToggleTheme(st)
    case AddSheetAction(newId, now) => AddSheet(st, newId, now)
    case AddWelcomeSheetAction(newId, now) => AddWelcomeSheet(st, newId, now)
    case DeleteSheetAction(id) => (match DeleteSheet(st, id) case Some(r) => r case None => st)
    case SetActiveSheetAction(id) => SetActiveSheet(st, id)
    case UpdateSheetNameAction(id, name, now) => UpdateSheetName(st, id, name, now)
    case UpdateSheetContentAction(id, content, now) => UpdateSheetContent(st, id, content, now)
    case UndoAction(now) => Undo(st, now)
    case RedoAction(now) => Redo(st, now)
    case ImportSheetsAction(input) => ImportSheets(st, input)
    case RehydrateAction => Rehydrate(Some(st)).value
  }

  /** The state after a sequence of actions from a fresh store. */
  function Replay(start: int, actions: seq<Action>): State {
    if |actions| == 0 then Initial(start)
    else Apply(Replay(start, actions[..|actions| - 1]), actions[|actions| - 1])
  }

  /** Editing caps the undo stack and empties the redo stack, so the bound holds for the edited sheet. */
  lemma UpdateSheetContentBounded(st: State, id: string, content: string, now: int)
    requires HistoryBounded(st)
    ensures HistoryBounded(UpdateSheetContent(st, id, content, now))
  {
    if HasId(st.sheets, id) {
      var i := Find(st.sheets, id).value;
      var past := TakeLast(HistoryOf(st, id).past + [st.sheets[i].content], HistoryLimit);
      ReviseEffect(st, id, content, now, History(past, []));
    }
  }

  /** Undo moves one entry from the undo stack to the redo stack, so the total stays the same. */
  lemma UndoBounded(st: State, now: int)
    requires HistoryBounded(st)
    ensures HistoryBounded(Undo(st, now))
  {
    if CanUndo(st) {
      var h := st.history[st.activeSheetId];
      UndoEffect(st, now);
      ReviseEffect(st, st.activeSheetId, h.past[|h.past| - 1], now, History(h.past[..|h.past| - 1], [ActiveContent(st)] + h.future));
    } else {
      UndoNothing(st, now);
    }
  }

  /** Redo moves one entry back, so the total stays the same. */
  lemma RedoBounded(st: State, now: int)
    requires HistoryBounded(st)
    ensures HistoryBounded(Redo(st, now))
  {
    if CanRedo(st) {
      var h := st.history[st.activeSheetId];
      RedoEffect(st, now);
      ReviseEffect(st, st.activeSheetId, h.future[0], now, History(h.past + [ActiveContent(st)], h.future[1..]));
    } else {
      RedoNothing(st, now);
    }
  }

  /** Every action keeps every history within the bound. */
  lemma ApplyBounded(st: State, a: Action)
    requires HistoryBounded(st)
    ensures HistoryBounded(Apply(st, a))
  {
    match a
    case UpdateSheetContentAction(id, content, now) => UpdateSheetContentBounded(st, id, content, now);
    case UndoAction(now) => UndoBounded(st, now);
    case RedoAction(now) => RedoBounded(st, now);
    case DeleteSheetAction(id) =>
      if DeleteSheet(st, id).Some? && |st.sheets| > 1 {
        DeleteSheetEffect(st, id);
      }
    case _ =>
  }

  /**
   * However the store is used, no sheet's undo and redo stacks together hold more than
   * `HistoryLimit` entries, though `redo` itself never cuts the undo stack.
   */
  lemma {:induction false} ReplayBounded(start: int, actions: seq<Action>)
    ensures HistoryBounded(Replay(start, actions))
  {
    if |actions| > 0 {
      ReplayBounded(start, actions[..|actions| - 1]);
      ApplyBounded(Replay(start, actions[..|actions| - 1]), actions[|actions| - 1]);
    }
  }
}
