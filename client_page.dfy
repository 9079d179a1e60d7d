/**
 * The home page's progress summary (app/components/ClientPage.tsx): the map
 * from sheet id to its number of done bubbles, its immediate update, and the
 * totals derived from it: global, per chapter, and per chapter and level.
 */
module ClientPage {
  import opened Common
  import opened Catalogue
  import Text
  import ExerciseList

  // ---------------------------------------------------------------------------
  // The done-count map

  /** The number of rows with status done about sheet `id`. */
  function DoneRowCount(rows: seq<ProgressRow>, id: int): nat
    decreases |rows|
  {
    if rows == [] then 0
    else
      var last := rows[|rows| - 1];
      DoneRowCount(rows[..|rows| - 1], id) + (if last.exerciseId == id && IsDoneRow(last) then 1 else 0)
  }

  /**
   * `m` counts the done rows of every sheet: a sheet has an entry exactly when
   * it has a done row, and the entry is its number of done rows.
   */
  ghost predicate CountsDoneRows(rows: seq<ProgressRow>, m: map<int, int>) {
    forall id :: (id in m <==> DoneRowCount(rows, id) > 0) && (id in m ==> m[id] == DoneRowCount(rows, id))
  }

  /** `progressMap[id] || 0`: a sheet without an entry has no done bubble. */
  function DoneOf(progressMap: map<int, int>, id: int): int {
    if id in progressMap then progressMap[id] else 0
  }

  /** No count is negative. */
  ghost predicate NonNegative(progressMap: map<int, int>) {
    forall id :: id in progressMap ==> progressMap[id] >= 0
  }

  /** The `forEach` that fills `map` from the loaded rows (in the load effect and in the refresh). */
  method BuildDoneCounts(rows: seq<ProgressRow>) returns (m: map<int, int>)
    ensures CountsDoneRows(rows, m)
    ensures NonNegative(m)
  {
    m := map[];
    for i := 0 to |rows|
      invariant CountsDoneRows(rows[..i], m)
    {
      var row := rows[i];
      assert rows[..i + 1][..i] == rows[..i];
      if IsDoneRow(row) {
        m := m[row.exerciseId := DoneOf(m, row.exerciseId) + 1];
      }
      forall id
        ensures (id in m <==> DoneRowCount(rows[..i + 1], id) > 0) &&
                (id in m ==> m[id] == DoneRowCount(rows[..i + 1], id))
      {
        assert DoneRowCount(rows[..i + 1], id) ==
               DoneRowCount(rows[..i], id) + (if row.exerciseId == id && IsDoneRow(row) then 1 else 0);
      }
    }
    assert rows[..|rows|] == rows;
  }

  /** `onProgressChangeImmediate` as written: +1 on done, otherwise -1 unless already 0. */
  function ImmediateCount(progressMap: map<int, int>, id: int, status: Status): (r: map<int, int>)
    ensures forall other :: other != id ==> DoneOf(r, other) == DoneOf(progressMap, other)
    ensures status == Done ==> DoneOf(r, id) == DoneOf(progressMap, id) + 1
    ensures status != Done && DoneOf(progressMap, id) > 0 ==> DoneOf(r, id) == DoneOf(progressMap, id) - 1
    ensures status != Done && DoneOf(progressMap, id) <= 0 ==> r == progressMap
    ensures NonNegative(progressMap) ==> NonNegative(r)
  {
    if status == Done then progressMap[id := DoneOf(progressMap, id) + 1]
    else
      var current := DoneOf(progressMap, id);
      if current > 0 then progressMap[id := current - 1] else progressMap
  }

  /**
   * The update the comment in the source describes ("decrement when leaving
   * done"): it needs the status the bubble had before.
   */
  function TransitionCount(progressMap: map<int, int>, id: int, previous: Status, status: Status): (r: map<int, int>)
    ensures forall other :: other != id ==> DoneOf(r, other) == DoneOf(progressMap, other)
    ensures NonNegative(progressMap) ==> NonNegative(r)
  {
    var current := DoneOf(progressMap, id);
    if status == Done && previous != Done then progressMap[id := current + 1]
    else if previous == Done && status != Done && current > 0 then progressMap[id := current - 1]
    else progressMap
  }

  /**
   * As written, a full toggle cycle of one bubble (its statuses done, review,
   * todo) takes one off the sheet's count whenever the count is positive,
   * though every bubble is back at its old status.
   */
  lemma {:induction false} ImmediateCycleLosesOne(progressMap: map<int, int>, id: int)
    requires DoneOf(progressMap, id) >= 1
    ensures DoneOf(ImmediateCount(ImmediateCount(ImmediateCount(progressMap, id, Done), id, Review), id, Todo), id)
            == DoneOf(progressMap, id) - 1
  {
    var m1 := ImmediateCount(progressMap, id, Done);
    var m2 := ImmediateCount(m1, id, Review);
    assert DoneOf(m1, id) == DoneOf(progressMap, id) + 1;
    assert DoneOf(m2, id) == DoneOf(progressMap, id);
  }

  /**
   * A concrete run: sheet 1 has one done bubble; another of its bubbles goes
   * todo, done, review, todo; the count ends at 0 although one bubble is still done.
   */
  lemma ImmediateCycleExample()
    ensures ImmediateCount(ImmediateCount(ImmediateCount(map[1 := 1], 1, Done), 1, Review), 1, Todo) == map[1 := 0]
  {
  }

  /** The bubbles of sheet `id` that are done in a progress map of the exercise list. */
  ghost function DoneBubbles(progress: map<BubbleKey, Status>, id: int): set<BubbleKey> {
    set k | k in progress && k.exerciseId == id && progress[k] == Done
  }

  /**
   * With the previous status, the count follows the bubbles: if it equals the
   * number of done bubbles of the sheet before a toggle, it does after it.
   */
  lemma {:induction false} TransitionTracksDoneBubbles(
    progress: map<BubbleKey, Status>, progressMap: map<int, int>, key: BubbleKey)
    requires DoneOf(progressMap, key.exerciseId) == |DoneBubbles(progress, key.exerciseId)|
    ensures var previous := ExerciseList.StatusIn(progress, key);
            DoneOf(TransitionCount(progressMap, key.exerciseId, previous, ExerciseList.NextStatus(previous)), key.exerciseId)
            == |DoneBubbles(ExerciseList.Toggled(progress, key), key.exerciseId)|
  {
    var id := key.exerciseId;
    var previous := ExerciseList.StatusIn(progress, key);
    var after := ExerciseList.Toggled(progress, key);
    var before := DoneBubbles(progress, id);
    var now := DoneBubbles(after, id);
    match previous
    case Todo =>
      assert key !in before;
      assert now == before + {key};
    case Done =>
      assert key in before;
      assert now == before - {key};
    case Review =>
      assert key !in before;
      assert now == before;
  }

  /** With the previous status, a full toggle cycle leaves every count as it was. */
  lemma {:induction false} TransitionCycleRestores(progressMap: map<int, int>, id: int, s: Status)
    requires NonNegative(progressMap)
    requires s == Done ==> DoneOf(progressMap, id) > 0
    ensures var s1 := ExerciseList.NextStatus(s);
            var s2 := ExerciseList.NextStatus(s1);
            var s3 := ExerciseList.NextStatus(s2);
            DoneOf(TransitionCount(TransitionCount(TransitionCount(progressMap, id, s, s1), id, s1, s2), id, s2, s3), id)
            == DoneOf(progressMap, id)
  {
    ExerciseList.StatusCycle(s);
  }

  // ---------------------------------------------------------------------------
  // Totals

  /** A pair of sums: bubbles and done bubbles. */
  datatype Tally = Tally(bubbles: int, done: int) {
    function Plus(other: Tally): Tally {
      Tally(bubbles + other.bubbles, done + other.done)
    }
  }

  const ZERO: Tally := Tally(0, 0)

  /** What one sheet adds to the sums it is part of. */
  function Contribution(e: Exercise, progressMap: map<int, int>): Tally {
    Tally(BubblesOf(e), DoneOf(progressMap, e.id))
  }

  /** The two `reduce` folds: total bubbles and total done over `es`. */
  function Totals(es: seq<Exercise>, progressMap: map<int, int>): (t: Tally)
    ensures t.bubbles >= 0
    ensures NonNegative(progressMap) ==> t.done >= 0
    decreases |es|
  {
    if es == [] then ZERO
    else Totals(es[..|es| - 1], progressMap).Plus(Contribution(es[|es| - 1], progressMap))
  }

  /** Appending a sheet adds its contribution to the totals. */
  lemma TotalsSnoc(es: seq<Exercise>, e: Exercise, progressMap: map<int, int>)
    ensures Totals(es + [e], progressMap) == Totals(es, progressMap).Plus(Contribution(e, progressMap))
  {
    assert (es + [e])[..|es|] == es;
  }

  /** Where no sheet has more done bubbles than bubbles, neither do the totals. */
  lemma {:induction false} DoneWithinBubbles(es: seq<Exercise>, progressMap: map<int, int>)
    requires forall e :: e in es ==> DoneOf(progressMap, e.id) <= BubblesOf(e)
    ensures Totals(es, progressMap).done <= Totals(es, progressMap).bubbles
    decreases |es|
  {
    if es != [] {
      var init := es[..|es| - 1];
      assert forall e :: e in init ==> e in es;
      DoneWithinBubbles(init, progressMap);
    }
  }

  /**
   * The hypothesis above is not something the page checks: a sheet without an
   * exercise count contributes no bubbles, yet its done rows are still counted.
   */
  lemma UncountedSheetExceedsBubbles(e: Exercise, progressMap: map<int, int>)
    requires e.exerciseCount == None && DoneOf(progressMap, e.id) > 0
    ensures Totals([e], progressMap).done > Totals([e], progressMap).bubbles
  {
    assert [e][..0] == [];
  }

  /** The sheets of chapter bucket `ch`, in catalogue order. */
  function OfChapter(es: seq<Exercise>, ch: string): seq<Exercise>
    decreases |es|
  {
    if es == [] then []
    else
      var init := OfChapter(es[..|es| - 1], ch);
      var last := es[|es| - 1];
      if ChapterKey(last) == ch then init + [last] else init
  }

  /** A chapter's sheets are exactly the catalogue's sheets of that chapter bucket. */
  lemma {:induction false} OfChapterMembers(es: seq<Exercise>, ch: string, e: Exercise)
    ensures e in OfChapter(es, ch) <==> e in es && ChapterKey(e) == ch
    decreases |es|
  {
    if es != [] {
      var init := es[..|es| - 1];
      OfChapterMembers(init, ch, e);
      assert es == init + [es[|es| - 1]];
    }
  }

  /** Under the same per-sheet hypothesis, no chapter has more done bubbles than bubbles. */
  lemma ChapterDoneWithinBubbles(es: seq<Exercise>, progressMap: map<int, int>, ch: string)
    requires forall e :: e in es ==> DoneOf(progressMap, e.id) <= BubblesOf(e)
    ensures Totals(OfChapter(es, ch), progressMap).done <= Totals(OfChapter(es, ch), progressMap).bubbles
  {
    forall e | e in OfChapter(es, ch)
      ensures DoneOf(progressMap, e.id) <= BubblesOf(e)
    {
      OfChapterMembers(es, ch, e);
    }
    DoneWithinBubbles(OfChapter(es, ch), progressMap);
  }

  /** A chapter bucket no sheet falls in has no sheets. */
  lemma {:induction false} OfChapterAbsent(es: seq<Exercise>, ch: string)
    requires forall i :: 0 <= i < |es| ==> ChapterKey(es[i]) != ch
    ensures OfChapter(es, ch) == []
    decreases |es|
  {
    if es != [] {
      OfChapterAbsent(es[..|es| - 1], ch);
    }
  }

  /** `chapterTotals`: one entry per chapter bucket of the catalogue, holding the sums of its sheets. */
  ghost predicate IsChapterTotals(es: seq<Exercise>, progressMap: map<int, int>, byChapter: map<string, Tally>) {
    (forall ch :: ch in byChapter <==> exists e :: e in es && ChapterKey(e) == ch) &&
    (forall ch :: ch in byChapter ==> byChapter[ch] == Totals(OfChapter(es, ch), progressMap))
  }

  /** Extending the catalogue by one sheet extends the sums of its chapter by that sheet. */
  lemma OfChapterSnoc(es: seq<Exercise>, e: Exercise, progressMap: map<int, int>, ch: string)
    ensures Totals(OfChapter(es + [e], ch), progressMap) ==
            if ChapterKey(e) == ch then Totals(OfChapter(es, ch), progressMap).Plus(Contribution(e, progressMap))
            else Totals(OfChapter(es, ch), progressMap)
  {
    assert (es + [e])[..|es|] == es;
    if ChapterKey(e) == ch {
      var s := OfChapter(es, ch) + [e];
      assert s[..|s| - 1] == OfChapter(es, ch);
    }
  }

  /** The `forEach` that fills `byChapter`. */
  method ChapterTotals(es: seq<Exercise>, progressMap: map<int, int>) returns (byChapter: map<string, Tally>)
    ensures IsChapterTotals(es, progressMap, byChapter)
  {
    byChapter := map[];
    for i := 0 to |es|
      invariant forall ch :: ch in byChapter <==> exists e :: e in es[..i] && ChapterKey(e) == ch
      invariant forall ch :: ch in byChapter ==> byChapter[ch] == Totals(OfChapter(es[..i], ch), progressMap)
    {
      var e := es[i];
      assert es[..i + 1] == es[..i] + [e];
      var ch := ChapterKey(e);
      if ch !in byChapter {
        forall j | 0 <= j < i ensures ChapterKey(es[..i][j]) != ch {
          assert es[..i][j] in es[..i];
        }
        OfChapterAbsent(es[..i], ch);
        byChapter := byChapter[ch := ZERO];
      }
      byChapter := byChapter[ch := byChapter[ch].Plus(Contribution(e, progressMap))];
      forall c | c in byChapter
        ensures byChapter[c] == Totals(OfChapter(es[..i + 1], c), progressMap)
      {
        OfChapterSnoc(es[..i], e, progressMap, c);
      }
    }
    assert es[..|es|] == es;
  }

  /** The sums `f` gives to the keys listed in `ks`, added up. */
  function SumOf<K>(ks: seq<K>, f: K -> Tally): Tally
    decreases |ks|
  {
    if ks == [] then ZERO else f(ks[0]).Plus(SumOf(ks[1..], f))
  }

  /**
   * Adding `c` to the sum of one key `k` adds `c` to the total when `k` is
   * listed, once since no key is listed twice, and nothing otherwise.
   */
  lemma {:induction false} SumOfBump<K>(ks: seq<K>, f: K -> Tally, g: K -> Tally, k: K, c: Tally)
    requires NoDuplicates(ks)
    requires g(k) == f(k).Plus(c)
    requires forall x :: x != k ==> g(x) == f(x)
    ensures SumOf(ks, g) == SumOf(ks, f).Plus(if k in ks then c else ZERO)
    decreases |ks|
  {
    if ks != [] {
      SumOfBump(ks[1..], f, g, k, c);
      InHeadOrTail(k, ks);
    }
  }

  /** The sum of chapter `ch` over the catalogue. */
  function ChapterSum(es: seq<Exercise>, progressMap: map<int, int>): string -> Tally {
    ch => Totals(OfChapter(es, ch), progressMap)
  }

  /** The sums of the chapters listed in `chs`, each taken over the catalogue. */
  function SumOverChapters(es: seq<Exercise>, progressMap: map<int, int>, chs: seq<string>): Tally {
    SumOf(chs, ChapterSum(es, progressMap))
  }

  /** Keys whose sums are all zero add up to zero. */
  lemma {:induction false} SumOfZero<K>(ks: seq<K>, f: K -> Tally)
    requires forall k :: f(k) == ZERO
    ensures SumOf(ks, f) == ZERO
    decreases |ks|
  {
    if ks != [] {
      SumOfZero(ks[1..], f);
    }
  }

  /** Over an empty catalogue, every chapter's sum is zero, and so is their total. */
  lemma SumOverChaptersEmpty(progressMap: map<int, int>, chs: seq<string>)
    ensures SumOverChapters([], progressMap, chs) == ZERO
  {
    var f := ChapterSum([], progressMap);
    forall ch
      ensures f(ch) == ZERO
    {
      assert OfChapter([], ch) == [];
    }
    SumOfZero(chs, f);
  }

  /** One more sheet adds its contribution exactly once, to the chapter it belongs to. */
  lemma SumOverChaptersSnoc(es: seq<Exercise>, e: Exercise, progressMap: map<int, int>, chs: seq<string>)
    requires NoDuplicates(chs)
    ensures SumOverChapters(es + [e], progressMap, chs) ==
            SumOverChapters(es, progressMap, chs).Plus(if ChapterKey(e) in chs then Contribution(e, progressMap) else ZERO)
  {
    var f := ChapterSum(es, progressMap);
    var g := ChapterSum(es + [e], progressMap);
    forall ch
      ensures g(ch) == if ch == ChapterKey(e) then f(ch).Plus(Contribution(e, progressMap)) else f(ch)
    {
      OfChapterSnoc(es, e, progressMap, ch);
    }
    SumOfBump(chs, f, g, ChapterKey(e), Contribution(e, progressMap));
  }

  /**
   * The chapters partition the catalogue: over any list naming every chapter
   * bucket once, the chapter sums add up to the global totals.
   */
  lemma {:induction false} ChaptersSumToTotals(es: seq<Exercise>, progressMap: map<int, int>, chs: seq<string>)
    requires NoDuplicates(chs)
    requires forall e :: e in es ==> ChapterKey(e) in chs
    ensures SumOverChapters(es, progressMap, chs) == Totals(es, progressMap)
    decreases |es|
  {
    if es == [] {
      SumOverChaptersEmpty(progressMap, chs);
    } else {
      var init := es[..|es| - 1];
      var e := es[|es| - 1];
      assert forall x :: x in init ==> x in es;
      ChaptersSumToTotals(init, progressMap, chs);
      assert init + [e] == es;
      SumOverChaptersSnoc(init, e, progressMap, chs);
    }
  }

  /** The entries of `byChapter` for the chapters in `chs`, added up. */
  function SumEntries(byChapter: map<string, Tally>, chs: seq<string>): Tally
    requires forall ch :: ch in chs ==> ch in byChapter
    decreases |chs|
  {
    if chs == [] then ZERO else byChapter[chs[0]].Plus(SumEntries(byChapter, chs[1..]))
  }

  /** The per-chapter bars add up to the global bar: bubbles and done both. */
  lemma {:induction false} ChapterTotalsAddUp(
    es: seq<Exercise>, progressMap: map<int, int>, byChapter: map<string, Tally>, chs: seq<string>)
    requires IsChapterTotals(es, progressMap, byChapter)
    requires NoDuplicates(chs)
    requires forall ch :: ch in chs <==> ch in byChapter
    ensures SumEntries(byChapter, chs) == Totals(es, progressMap)
  {
    SumEntriesAreChapterSums(es, progressMap, byChapter, chs);
    forall e | e in es
      ensures ChapterKey(e) in chs
    {
      assert ChapterKey(e) in byChapter;
    }
    ChaptersSumToTotals(es, progressMap, chs);
  }

  lemma {:induction false} SumEntriesAreChapterSums(
    es: seq<Exercise>, progressMap: map<int, int>, byChapter: map<string, Tally>, chs: seq<string>)
    requires IsChapterTotals(es, progressMap, byChapter)
    requires forall ch :: ch in chs ==> ch in byChapter
    ensures SumEntries(byChapter, chs) == SumOverChapters(es, progressMap, chs)
    decreases |chs|
  {
    if chs != [] {
      SumEntriesAreChapterSums(es, progressMap, byChapter, chs[1..]);
    }
  }

  // ---------------------------------------------------------------------------
  // Levels

  /** The result of `normalizeNiveau`: 'sup', 'spe' or ''. */
  datatype LevelBucket = SupBucket | SpeBucket | NoBucket

  /** `normalizeNiveau`: accents and case folded, then the prefix decides. */
  function NormalizeNiveau(niveau: string): LevelBucket {
    if niveau == "" then NoBucket
    else
      var s := Text.Fold(niveau);
      if Text.IsPrefix("sup", s) then SupBucket
      else if Text.IsPrefix("spe", s) then SpeBucket
      else NoBucket
  }

  /**
   * The buckets: Sup exactly when the folded niveau starts with "sup", Spé
   * exactly when it starts with "spe"; an empty niveau is in neither.
   */
  lemma NormalizeNiveauBuckets(niveau: string)
    ensures niveau == "" ==> NormalizeNiveau(niveau) == NoBucket
    ensures NormalizeNiveau(niveau) == SupBucket <==> Text.IsPrefix("sup", Text.Fold(niveau))
    ensures NormalizeNiveau(niveau) == SpeBucket <==> Text.IsPrefix("spe", Text.Fold(niveau))
  {
  }

  /** The level rule ignores accents and case: a folded niveau lands in the same bucket. */
  lemma NormalizeNiveauIgnoresFolding(niveau: string)
    ensures NormalizeNiveau(Text.Fold(niveau)) == NormalizeNiveau(niveau)
  {
    Text.FoldIdempotent(niveau);
  }

  /** The niveau values the catalogue holds, in their usual spellings. */
  lemma NormalizeSup()
    ensures NormalizeNiveau("Sup") == SupBucket
  {
    assert Text.Fold("Sup") == "sup";
  }

  lemma NormalizeSpe()
    ensures NormalizeNiveau("Spé") == SpeBucket
  {
    var f := Text.Fold("Spé");
    assert f[0] == 's' && f[1] == 'p' && f[2] == 'e';
    assert f[..3] == "spe";
  }

  /** A diacritic in front of a niveau does not change its bucket. */
  lemma NormalizeIgnoresDiacritic(c: char, niveau: string)
    requires Text.IsDiacritic(c) && niveau != ""
    ensures NormalizeNiveau([c] + niveau) == NormalizeNiveau(niveau)
  {
    assert ([c] + niveau)[0] == c && ([c] + niveau)[1..] == niveau;
  }

  /** A stray grave accent before "Sup" is removed by the fold. */
  lemma NormalizeGraveSup()
    ensures NormalizeNiveau("`Sup") == SupBucket
  {
    NormalizeSup();
    NormalizeIgnoresDiacritic('`', "Sup");
    assert "`Sup" == ['`'] + "Sup";
  }

  lemma NormalizeOral()
    ensures NormalizeNiveau("Oral") == NoBucket
  {
    assert Text.Fold("Oral")[0] == 'o';
  }

  /** The sheets of chapter bucket `ch` whose niveau falls in `bucket`. */
  function OfChapterLevel(es: seq<Exercise>, ch: string, bucket: LevelBucket): seq<Exercise>
    decreases |es|
  {
    if es == [] then []
    else
      var init := OfChapterLevel(es[..|es| - 1], ch, bucket);
      var last := es[|es| - 1];
      if ChapterKey(last) == ch && NormalizeNiveau(last.niveau) == bucket then init + [last] else init
  }

  /** A chapter bucket no sheet falls in has no sheets at any level. */
  lemma {:induction false} OfChapterLevelAbsent(es: seq<Exercise>, ch: string, bucket: LevelBucket)
    requires forall i :: 0 <= i < |es| ==> ChapterKey(es[i]) != ch
    ensures OfChapterLevel(es, ch, bucket) == []
    decreases |es|
  {
    if es != [] {
      OfChapterLevelAbsent(es[..|es| - 1], ch, bucket);
    }
  }

  /** The Sup and Spé sums of one chapter. */
  datatype LevelTally = LevelTally(sup: Tally, spe: Tally)

  /** `chapterLevelTotals`: one entry per chapter bucket, holding its Sup and its Spé sums. */
  ghost predicate IsChapterLevelTotals(es: seq<Exercise>, progressMap: map<int, int>, result: map<string, LevelTally>) {
    (forall ch :: ch in result <==> exists e :: e in es && ChapterKey(e) == ch) &&
    (forall ch :: ch in result ==>
       result[ch] == LevelTally(Totals(OfChapterLevel(es, ch, SupBucket), progressMap),
                                Totals(OfChapterLevel(es, ch, SpeBucket), progressMap)))
  }

  lemma OfChapterLevelSnoc(es: seq<Exercise>, e: Exercise, progressMap: map<int, int>, ch: string, bucket: LevelBucket)
    ensures Totals(OfChapterLevel(es + [e], ch, bucket), progressMap) ==
            if ChapterKey(e) == ch && NormalizeNiveau(e.niveau) == bucket
            then Totals(OfChapterLevel(es, ch, bucket), progressMap).Plus(Contribution(e, progressMap))
            else Totals(OfChapterLevel(es, ch, bucket), progressMap)
  {
    assert (es + [e])[..|es|] == es;
    if ChapterKey(e) == ch && NormalizeNiveau(e.niveau) == bucket {
      var s := OfChapterLevel(es, ch, bucket) + [e];
      assert s[..|s| - 1] == OfChapterLevel(es, ch, bucket);
    }
  }

  /** The `forEach` that fills `result`; sheets outside both levels only create their chapter's entry. */
  method ChapterLevelTotals(es: seq<Exercise>, progressMap: map<int, int>) returns (result: map<string, LevelTally>)
    ensures IsChapterLevelTotals(es, progressMap, result)
  {
    result := map[];
    for i := 0 to |es|
      invariant forall ch :: ch in result <==> exists e :: e in es[..i] && ChapterKey(e) == ch
      invariant forall ch :: ch in result ==>
                  result[ch] == LevelTally(Totals(OfChapterLevel(es[..i], ch, SupBucket), progressMap),
                                           Totals(OfChapterLevel(es[..i], ch, SpeBucket), progressMap))
    {
      var e := es[i];
      assert es[..i + 1] == es[..i] + [e];
      var ch := ChapterKey(e);
      if ch !in result {
        forall j | 0 <= j < i ensures ChapterKey(es[..i][j]) != ch {
          assert es[..i][j] in es[..i];
        }
        OfChapterLevelAbsent(es[..i], ch, SupBucket);
        OfChapterLevelAbsent(es[..i], ch, SpeBucket);
        result := result[ch := LevelTally(ZERO, ZERO)];
      }
      var bucket := NormalizeNiveau(e.niveau);
      if bucket == SupBucket {
        result := result[ch := result[ch].(sup := result[ch].sup.Plus(Contribution(e, progressMap)))];
      } else if bucket == SpeBucket {
        result := result[ch := result[ch].(spe := result[ch].spe.Plus(Contribution(e, progressMap)))];
      }
      forall c | c in result
        ensures result[c] == LevelTally(Totals(OfChapterLevel(es[..i + 1], c, SupBucket), progressMap),
                                        Totals(OfChapterLevel(es[..i + 1], c, SpeBucket), progressMap))
      {
        OfChapterLevelSnoc(es[..i], e, progressMap, c, SupBucket);
        OfChapterLevelSnoc(es[..i], e, progressMap, c, SpeBucket);
      }
    }
    assert es[..|es|] == es;
  }

  /** Adding `c` to the one bucket it belongs to adds `c` to the sum of the three. */
  lemma SplitBump(sup: Tally, spe: Tally, none: Tally, c: Tally, bucket: LevelBucket)
    ensures (if bucket == SupBucket then sup.Plus(c) else sup)
              .Plus(if bucket == SpeBucket then spe.Plus(c) else spe)
              .Plus(if bucket == NoBucket then none.Plus(c) else none)
            == sup.Plus(spe).Plus(none).Plus(c)
  {
  }

  /** Every sheet of a chapter is in exactly one of the three level buckets of that chapter. */
  lemma {:induction false} LevelsSplitChapter(es: seq<Exercise>, progressMap: map<int, int>, ch: string)
    ensures Totals(OfChapterLevel(es, ch, SupBucket), progressMap)
              .Plus(Totals(OfChapterLevel(es, ch, SpeBucket), progressMap))
              .Plus(Totals(OfChapterLevel(es, ch, NoBucket), progressMap))
            == Totals(OfChapter(es, ch), progressMap)
    decreases |es|
  {
    if es == [] {
      assert Totals([], progressMap) == ZERO;
      assert OfChapter(es, ch) == [] && OfChapterLevel(es, ch, SupBucket) == [];
      assert OfChapterLevel(es, ch, SpeBucket) == [] && OfChapterLevel(es, ch, NoBucket) == [];
      assert ZERO.Plus(ZERO).Plus(ZERO) == ZERO;
    } else {
      var init := es[..|es| - 1];
      var e := es[|es| - 1];
      LevelsSplitChapter(init, progressMap, ch);
      if ChapterKey(e) == ch {
        var bucket := NormalizeNiveau(e.niveau);
        TotalsSnoc(OfChapter(init, ch), e, progressMap);
        TotalsSnoc(OfChapterLevel(init, ch, bucket), e, progressMap);
        SplitBump(Totals(OfChapterLevel(init, ch, SupBucket), progressMap),
                  Totals(OfChapterLevel(init, ch, SpeBucket), progressMap),
                  Totals(OfChapterLevel(init, ch, NoBucket), progressMap),
                  Contribution(e, progressMap), bucket);
      }
    }
  }

  /** Sup plus Spé never exceed the chapter: sheets of neither level count in neither. */
  lemma LevelsWithinChapter(es: seq<Exercise>, progressMap: map<int, int>, ch: string)
    requires NonNegative(progressMap)
    ensures var sup := Totals(OfChapterLevel(es, ch, SupBucket), progressMap);
            var spe := Totals(OfChapterLevel(es, ch, SpeBucket), progressMap);
            var all := Totals(OfChapter(es, ch), progressMap);
            sup.bubbles + spe.bubbles <= all.bubbles && sup.done + spe.done <= all.done
  {
    LevelsSplitChapter(es, progressMap, ch);
  }

  // ---------------------------------------------------------------------------
  // The component's state

  class ProgressSummary {
    const initialExercises: seq<Exercise>
    /** Whether the shared database client exists. */
    const clientConfigured: bool
    var userId: Option<string>
    var progressMap: map<int, int>

    ghost predicate Valid()
      reads this
    {
      NonNegative(progressMap)
    }

    constructor (initialExercises: seq<Exercise>, clientConfigured: bool)
      ensures Valid()
      ensures this.initialExercises == initialExercises && this.clientConfigured == clientConfigured
      ensures userId == None && progressMap == map[]
    {
      this.initialExercises := initialExercises;
      this.clientConfigured := clientConfigured;
      userId := None;
      progressMap := map[];
    }

    /**
     * The load effect: remember the user; with a user and a non-empty
     * catalogue, the loaded rows (null read as none) replace the map.
     */
    method LoadProgress(user: Option<string>, data: Option<seq<ProgressRow>>)
      requires Valid()
      modifies this
      ensures Valid()
      ensures !clientConfigured ==> userId == old(userId) && progressMap == old(progressMap)
      ensures clientConfigured ==> userId == (if user == Some("") then None else user)
      ensures clientConfigured && user != None && user != Some("") && |initialExercises| > 0 ==>
                CountsDoneRows(if data == None then [] else data.value, progressMap)
      ensures !(clientConfigured && user != None && user != Some("") && |initialExercises| > 0) ==>
                progressMap == old(progressMap)
    {
      if !clientConfigured {
        return;
      }
      userId := if user == Some("") then None else user;
      if userId == None || |initialExercises| == 0 {
        return;
      }
      var m := BuildDoneCounts(if data == None then [] else data.value);
      progressMap := m;
    }

    /** `refreshProgress`: the same query and loop, without touching the remembered user. */
    method RefreshProgress(user: Option<string>, data: Option<seq<ProgressRow>>)
      requires Valid()
      modifies this
      ensures Valid() && userId == old(userId)
      ensures clientConfigured && user != None && user != Some("") && |initialExercises| > 0 ==>
                CountsDoneRows(if data == None then [] else data.value, progressMap)
      ensures !(clientConfigured && user != None && user != Some("") && |initialExercises| > 0) ==>
                progressMap == old(progressMap)
    {
      if !clientConfigured || user == None || user == Some("") || |initialExercises| == 0 {
        return;
      }
      var m := BuildDoneCounts(if data == None then [] else data.value);
      progressMap := m;
    }

    /** `onProgressChangeImmediate`: a copy of the map with one count moved; never below zero. */
    method ApplyImmediate(exerciseId: int, status: Status)
      requires Valid()
      modifies this
      ensures Valid() && userId == old(userId)
      ensures progressMap == ImmediateCount(old(progressMap), exerciseId, status)
    {
      var next := progressMap;
      if status == Done {
        next := next[exerciseId := DoneOf(next, exerciseId) + 1];
      } else {
        var current := DoneOf(next, exerciseId);
        if current > 0 {
          next := next[exerciseId := current - 1];
        }
      }
      progressMap := next;
    }

    /** The corrected update: the count moves only when the bubble enters or leaves done. */
    method ApplyTransition(exerciseId: int, previous: Status, status: Status)
      requires Valid()
      modifies this
      ensures Valid() && userId == old(userId)
      ensures progressMap == TransitionCount(old(progressMap), exerciseId, previous, status)
    {
      progressMap := TransitionCount(progressMap, exerciseId, previous, status);
    }
  }
}
