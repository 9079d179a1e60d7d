/**
 * The exercise list page (app/components/ExerciseList.tsx): the category
 * filter over the catalogue, and the per-bubble progress map with its
 * three-state toggle, optimistic write and rollback.
 */
module ExerciseList {
  import opened Common
  import opened Catalogue

  // ---------------------------------------------------------------------------
  // Category filter

  /** The seven fixed category buttons, in display order. */
  const CATEGORIES: seq<string> :=
    ["Algèbre Sup", "Algèbre Spé", "Analyse Sup", "Analyse Spé", "Probas Sup", "Probas Spé", "Oraux"]

  /** The probability chapter is named "Probas" on Sup pages and "Probabilités" on Spé pages. */
  predicate IsProbasChapter(chapter: string) {
    chapter == "Probas" || chapter == "Probabilités"
  }

  /**
   * The filter callback: `selected` is the selected label, None when nothing is
   * selected. The empty label is falsy, so it also keeps every sheet. A label
   * that is not one of the seven looks up nothing in the mapping object, and
   * `undefined === true` is false.
   */
  predicate Selects(selected: Option<string>, e: Exercise)
    ensures selected == None || selected == Some("") ==> Selects(selected, e)
    ensures Selects(selected, e) && selected.Some? && selected.value != "" ==> selected.value in CATEGORIES
    ensures Selects(selected, e) && selected.Some? && selected.value !in ["", "Oraux"] ==>
              e.niveau == "Sup" || e.niveau == "Spé"
  {
    if selected == None || selected == Some("") then true
    else if selected.value == "Oraux" then e.niveau == "Oral"
    else if selected.value == "Algèbre Sup" then e.chapter == "Algèbre" && e.niveau == "Sup"
    else if selected.value == "Algèbre Spé" then e.chapter == "Algèbre" && e.niveau == "Spé"
    else if selected.value == "Analyse Sup" then e.chapter == "Analyse" && e.niveau == "Sup"
    else if selected.value == "Analyse Spé" then e.chapter == "Analyse" && e.niveau == "Spé"
    else if selected.value == "Probas Sup" then IsProbasChapter(e.chapter) && e.niveau == "Sup"
    else if selected.value == "Probas Spé" then IsProbasChapter(e.chapter) && e.niveau == "Spé"
    else false
  }

  /** `initialExercises.filter(...)`: the sheets shown for the selected category. */
  function FilterExercises(catalogue: seq<Exercise>, selected: Option<string>): (r: seq<Exercise>)
    ensures |r| <= |catalogue|
    ensures forall e :: e in r ==> e in catalogue && Selects(selected, e)
    ensures forall e :: e in catalogue && Selects(selected, e) ==> e in r
    decreases |catalogue|
  {
    if catalogue == [] then []
    else
      var rest := FilterExercises(catalogue[1..], selected);
      if Selects(selected, catalogue[0]) then [catalogue[0]] + rest else rest
  }

  /** The shown sheets keep the catalogue's order: the result is a subsequence. */
  lemma {:induction false} FilterIsSubsequence(catalogue: seq<Exercise>, selected: Option<string>)
    ensures IsSubsequence(FilterExercises(catalogue, selected), catalogue)
    decreases |catalogue|
  {
    if catalogue != [] {
      var tail := catalogue[1..];
      FilterIsSubsequence(tail, selected);
      assert [catalogue[0]] + tail == catalogue;
      if Selects(selected, catalogue[0]) {
        ConsSubsequence(catalogue[0], FilterExercises(tail, selected), tail);
      } else {
        SkipSubsequence(catalogue[0], FilterExercises(tail, selected), tail);
      }
    }
  }

  /** With no category selected (null or the empty label) the catalogue is shown unchanged. */
  lemma {:induction false} NoSelectionShowsAll(catalogue: seq<Exercise>, selected: Option<string>)
    requires selected == None || selected == Some("")
    ensures FilterExercises(catalogue, selected) == catalogue
    decreases |catalogue|
  {
    if catalogue != [] {
      NoSelectionShowsAll(catalogue[1..], selected);
      assert [catalogue[0]] + catalogue[1..] == catalogue;
    }
  }

  /** Filtering the shown sheets again with the same label changes nothing. */
  lemma {:induction false} FilterIdempotent(catalogue: seq<Exercise>, selected: Option<string>)
    ensures FilterExercises(FilterExercises(catalogue, selected), selected) == FilterExercises(catalogue, selected)
    decreases |catalogue|
  {
    if catalogue != [] {
      var e := catalogue[0];
      var rest := FilterExercises(catalogue[1..], selected);
      FilterIdempotent(catalogue[1..], selected);
      if Selects(selected, e) {
        assert ([e] + rest)[0] == e;
        assert ([e] + rest)[1..] == rest;
      }
    }
  }

  /** "Oraux" shows exactly the oral sheets. */
  lemma OrauxShowsOralSheets(catalogue: seq<Exercise>, e: Exercise)
    ensures e in FilterExercises(catalogue, Some("Oraux")) <==> e in catalogue && e.niveau == "Oral"
  {
  }

  /**
   * A combined label shows a sheet exactly when its chapter and its niveau both
   * match; the two probability labels accept either chapter name.
   */
  lemma CombinedLabelShows(name: string, e: Exercise)
    requires name in CATEGORIES && name != "Oraux"
    ensures Selects(Some(name), e) <==>
              (if name == "Algèbre Sup" || name == "Algèbre Spé" then e.chapter == "Algèbre"
               else if name == "Analyse Sup" || name == "Analyse Spé" then e.chapter == "Analyse"
               else IsProbasChapter(e.chapter))
              && e.niveau == (if name in {"Algèbre Sup", "Analyse Sup", "Probas Sup"} then "Sup" else "Spé")
  {
  }

  /** A label outside the seven buttons (and not empty) shows nothing. */
  lemma UnknownLabelShowsNothing(catalogue: seq<Exercise>, name: string)
    requires name != "" && name !in CATEGORIES
    ensures FilterExercises(catalogue, Some(name)) == []
  {
    if FilterExercises(catalogue, Some(name)) != [] {
      assert false;
    }
  }

  /** The seven categories are disjoint: a sheet falls under at most one of them. */
  lemma AtMostOneCategory(e: Exercise, a: string, b: string)
    requires a in CATEGORIES && b in CATEGORIES
    requires Selects(Some(a), e) && Selects(Some(b), e)
    ensures a == b
  {
  }

  /** One Algèbre Sup sheet: shown under "Algèbre Sup", not under "Oraux". */
  lemma SingleSheetScenario()
    ensures var c := [Exercise(1, "Feuille", "Algèbre", "Sup", Some(3), false, "")];
            FilterExercises(c, Some("Algèbre Sup")) == c && FilterExercises(c, Some("Oraux")) == []
  {
  }

  // ---------------------------------------------------------------------------
  // Per-bubble progress

  /** The toggle cycle todo -> done -> review -> todo. */
  function NextStatus(s: Status): (n: Status)
    ensures n != s
    ensures s == Todo ==> n == Done
    ensures s == Done ==> n == Review
  {
    match s
    case Todo => Done
    case Done => Review
    case Review => Todo
  }

  /** The cycle has length three and passes through every status. */
  lemma StatusCycle(s: Status)
    ensures NextStatus(NextStatus(NextStatus(s))) == s
    ensures {s, NextStatus(s), NextStatus(NextStatus(s))} == {Todo, Done, Review}
  {
  }

  /** `userProgress[key] || 'todo'`: a key without an entry reads as todo. */
  function StatusIn(progress: map<BubbleKey, Status>, key: BubbleKey): Status {
    if key in progress then progress[key] else Todo
  }

  /** The optimistic write of one toggle. */
  function Toggled(progress: map<BubbleKey, Status>, key: BubbleKey): (r: map<BubbleKey, Status>)
    ensures StatusIn(r, key) == NextStatus(StatusIn(progress, key))
    ensures forall k :: k != key ==> StatusIn(r, k) == StatusIn(progress, k)
  {
    progress[key := NextStatus(StatusIn(progress, key))]
  }

  /** Three toggles of one bubble give back its status and leave every other bubble alone. */
  lemma ThreeTogglesRestore(progress: map<BubbleKey, Status>, key: BubbleKey, other: BubbleKey)
    ensures StatusIn(Toggled(Toggled(Toggled(progress, key), key), key), key) == StatusIn(progress, key)
    ensures other != key ==>
              StatusIn(Toggled(Toggled(Toggled(progress, key), key), key), other) == StatusIn(progress, other)
  {
    StatusCycle(StatusIn(progress, key));
  }

  /** `(p.status as ...) || 'todo'`: the status a loaded row stands for. */
  function StatusOrTodo(row: ProgressRow): Status {
    match row.status
    case Some(s) => s
    case None => Todo
  }

  /** The progress map the load loop builds: every row written in turn, so later rows win. */
  function ProgressFromRows(rows: seq<ProgressRow>): map<BubbleKey, Status>
    decreases |rows|
  {
    if rows == [] then map[]
    else
      var last := rows[|rows| - 1];
      ProgressFromRows(rows[..|rows| - 1])[KeyOf(last) := StatusOrTodo(last)]
  }

  /** Row `i` is the last row about bubble `key`. */
  predicate IsLastRowFor(rows: seq<ProgressRow>, key: BubbleKey, i: int) {
    0 <= i < |rows| && KeyOf(rows[i]) == key &&
    forall j :: i < j < |rows| ==> KeyOf(rows[j]) != key
  }

  /** A bubble has an entry after the load exactly when some row is about it. */
  lemma {:induction false} LoadedKeys(rows: seq<ProgressRow>, key: BubbleKey)
    ensures key in ProgressFromRows(rows) <==> exists i :: 0 <= i < |rows| && KeyOf(rows[i]) == key
    decreases |rows|
  {
    if rows != [] {
      var n := |rows| - 1;
      var init := rows[..n];
      LoadedKeys(init, key);
      assert ProgressFromRows(rows) == ProgressFromRows(init)[KeyOf(rows[n]) := StatusOrTodo(rows[n])];
      if KeyOf(rows[n]) != key {
        if exists i :: 0 <= i < |rows| && KeyOf(rows[i]) == key {
          var i :| 0 <= i < |rows| && KeyOf(rows[i]) == key;
          assert i < n && init[i] == rows[i];
        }
        if exists i :: 0 <= i < n && KeyOf(init[i]) == key {
          var i :| 0 <= i < n && KeyOf(init[i]) == key;
          assert init[i] == rows[i];
        }
      }
    }
  }

  /** A loaded entry holds the status (null read as todo) of the last row about its bubble. */
  lemma {:induction false} LoadedStatus(rows: seq<ProgressRow>, key: BubbleKey)
    requires key in ProgressFromRows(rows)
    ensures exists i :: IsLastRowFor(rows, key, i) && ProgressFromRows(rows)[key] == StatusOrTodo(rows[i])
    decreases |rows|
  {
    var n := |rows| - 1;
    var init := rows[..n];
    assert ProgressFromRows(rows) == ProgressFromRows(init)[KeyOf(rows[n]) := StatusOrTodo(rows[n])];
    if KeyOf(rows[n]) == key {
      assert IsLastRowFor(rows, key, n);
    } else {
      assert key in ProgressFromRows(init);
      LoadedStatus(init, key);
      var i :| IsLastRowFor(init, key, i) && ProgressFromRows(init)[key] == StatusOrTodo(init[i]);
      assert init[i] == rows[i];
      forall j | i < j < |rows|
        ensures KeyOf(rows[j]) != key
      {
        if j < n {
          assert rows[j] == init[j];
        }
      }
      assert IsLastRowFor(rows, key, i);
    }
  }

  /**
   * After the load, a bubble has an entry exactly when some row is about it,
   * and the entry is the status (null read as todo) of the last such row.
   */
  lemma LoadedProgressIsLastRow(rows: seq<ProgressRow>, key: BubbleKey)
    ensures key in ProgressFromRows(rows) <==> exists i :: 0 <= i < |rows| && KeyOf(rows[i]) == key
    ensures key in ProgressFromRows(rows) ==>
              exists i :: IsLastRowFor(rows, key, i) && ProgressFromRows(rows)[key] == StatusOrTodo(rows[i])
  {
    LoadedKeys(rows, key);
    if key in ProgressFromRows(rows) {
      LoadedStatus(rows, key);
    }
  }

  /** The `forEach` that fills `map` from the loaded rows. */
  method BuildProgressMap(rows: seq<ProgressRow>) returns (m: map<BubbleKey, Status>)
    ensures m == ProgressFromRows(rows)
  {
    m := map[];
    for i := 0 to |rows|
      invariant m == ProgressFromRows(rows[..i])
    {
      assert rows[..i + 1][..i] == rows[..i];
      m := m[KeyOf(rows[i]) := StatusOrTodo(rows[i])];
    }
    assert rows[..|rows|] == rows;
  }

  /** The upsert sent for one toggle. */
  datatype StatusUpsert = StatusUpsert(exerciseId: int, index: int, status: Status)

  /** A toggle whose upsert is in flight: what to restore if it throws. */
  datatype PendingToggle = PendingToggle(key: BubbleKey, previous: Status, request: StatusUpsert)

  /** The component's state: the catalogue it was given, the selected category and the progress map. */
  class ExerciseListView {
    const initialExercises: seq<Exercise>
    /** Whether the shared database client exists (it is null without configuration). */
    const clientConfigured: bool
    var selectedCategory: Option<string>
    var userProgress: map<BubbleKey, Status>

    constructor (initialExercises: seq<Exercise>, clientConfigured: bool)
      ensures this.initialExercises == initialExercises && this.clientConfigured == clientConfigured
      ensures selectedCategory == None && userProgress == map[]
    {
      this.initialExercises := initialExercises;
      this.clientConfigured := clientConfigured;
      selectedCategory := None;
      userProgress := map[];
    }

    function StatusOf(key: BubbleKey): Status
      reads this
    {
      StatusIn(userProgress, key)
    }

    /** The sheets rendered for the current selection. */
    function Shown(): (r: seq<Exercise>)
      reads this
      ensures IsSubsequence(r, initialExercises)
    {
      FilterIsSubsequence(initialExercises, selectedCategory);
      FilterExercises(initialExercises, selectedCategory)
    }

    /** A category button (a label) or the "all categories" button (None). */
    method SelectCategory(name: Option<string>)
      modifies this
      ensures selectedCategory == name && userProgress == old(userProgress)
    {
      selectedCategory := name;
    }

    /**
     * The progress part of the mount effect: with a configured client, a
     * signed-in user with an email and a non-empty catalogue, the loaded rows
     * (null read as no rows) replace the map.
     */
    method LoadProgress(userEmail: Option<string>, rows: Option<seq<ProgressRow>>)
      modifies this
      ensures selectedCategory == old(selectedCategory)
      ensures userProgress ==
                if clientConfigured && userEmail != None && userEmail != Some("") && |initialExercises| > 0
                then ProgressFromRows(if rows == None then [] else rows.value)
                else old(userProgress)
    {
      if clientConfigured && userEmail != None && userEmail != Some("") && |initialExercises| > 0 {
        var loaded := BuildProgressMap(if rows == None then [] else rows.value);
        userProgress := loaded;
      }
    }

    /**
     * `toggleBubble` up to the `await`: the next status is written at once.
     * Without a client nothing is sent and the optimistic value stays;
     * otherwise the returned record stands for the upsert in flight.
     */
    method ToggleBubble(exerciseId: int, index: int) returns (pending: Option<PendingToggle>)
      modifies this
      ensures selectedCategory == old(selectedCategory)
      ensures userProgress == Toggled(old(userProgress), BubbleKey(exerciseId, index))
      ensures pending ==
                if clientConfigured
                then Some(PendingToggle(BubbleKey(exerciseId, index), old(StatusOf(BubbleKey(exerciseId, index))),
                                        StatusUpsert(exerciseId, index, NextStatus(old(StatusOf(BubbleKey(exerciseId, index)))))))
                else None
    {
      var key := BubbleKey(exerciseId, index);
      var current := StatusIn(userProgress, key);
      var next := NextStatus(current);
      userProgress := userProgress[key := next];
      if !clientConfigured {
        return None;
      }
      pending := Some(PendingToggle(key, current, StatusUpsert(exerciseId, index, next)));
    }

    /**
     * The end of `toggleBubble`: when the upsert throws, the key is written
     * back to the status read before the toggle; otherwise nothing happens.
     */
    method SettleToggle(pending: PendingToggle, threw: bool)
      modifies this
      ensures selectedCategory == old(selectedCategory)
      ensures userProgress == if threw then old(userProgress)[pending.key := pending.previous] else old(userProgress)
    {
      if threw {
        userProgress := userProgress[pending.key := pending.previous];
      }
    }
  }

  /**
   * One whole toggle, awaited before the next one: the bubble ends at its next
   * status, or, when the upsert threw, at its old status; no other bubble moves.
   */
  method ToggleAndSettle(view: ExerciseListView, exerciseId: int, index: int, threw: bool)
    modifies view
    ensures view.StatusOf(BubbleKey(exerciseId, index)) ==
              if view.clientConfigured && threw then old(view.StatusOf(BubbleKey(exerciseId, index)))
              else NextStatus(old(view.StatusOf(BubbleKey(exerciseId, index))))
    ensures forall k :: k != BubbleKey(exerciseId, index) ==> view.StatusOf(k) == old(view.StatusOf(k))
  {
    var pending := view.ToggleBubble(exerciseId, index);
    if pending.Some? {
      view.SettleToggle(pending.value, threw);
    }
  }
}
