/**
 * The exercise-count heuristic of scripts/count_pdf_exos.py and the decision
 * of which catalogue rows to update. The regular-expression engine and the
 * PDF download are inputs: an `Extraction` holds what the two patterns found
 * in a text, and `fetch` gives the outcome of downloading and reading a URL.
 */
module CountPdfExos {
  import opened Common

  // ---------------------------------------------------------------------------
  // Decimal numbers

  predicate IsDigit(c: char) {
    '0' <= c <= '9'
  }

  function DigitValue(c: char): nat
    requires IsDigit(c)
  {
    (c as int) - ('0' as int)
  }

  function DigitChar(d: nat): (c: char)
    requires d < 10
    ensures IsDigit(c) && DigitValue(c) == d
  {
    (('0' as int) + d) as char
  }

  predicate AllDigits(s: string) {
    forall i :: 0 <= i < |s| ==> IsDigit(s[i])
  }

  /** The value of a string of decimal digits, most significant first. */
  function DigitsValue(s: string): nat
    requires AllDigits(s)
    decreases |s|
  {
    if s == [] then 0 else DigitsValue(s[..|s| - 1]) * 10 + DigitValue(s[|s| - 1])
  }

  /** `int(group)`: None is the `except` path, taken when the group is not a decimal number. */
  function ParseDecimal(s: string): (r: Option<nat>)
    ensures r.Some? <==> s != [] && AllDigits(s)
  {
    if s != [] && AllDigits(s) then Some(DigitsValue(s)) else None
  }

  /** The decimal spelling of `n`, without leading zeros. */
  function ToDecimal(n: nat): (s: string)
    ensures s != [] && AllDigits(s)
    decreases n
  {
    if n < 10 then [DigitChar(n)] else ToDecimal(n / 10) + [DigitChar(n % 10)]
  }

  /** Parsing the spelling of a number gives the number back. */
  lemma {:induction false} ParseToDecimal(n: nat)
    ensures ParseDecimal(ToDecimal(n)) == Some(n)
    decreases n
  {
    var s := ToDecimal(n);
    if n >= 10 {
      ParseToDecimal(n / 10);
      assert s[..|s| - 1] == ToDecimal(n / 10);
      assert DigitsValue(s) == DigitsValue(ToDecimal(n / 10)) * 10 + n % 10;
    } else {
      assert s[..0] == [];
    }
  }

  /** Leading zeros do not change the value `int` gives. */
  lemma {:induction false} LeadingZeroIgnored(s: string)
    requires AllDigits(s)
    ensures DigitsValue("0" + s) == DigitsValue(s)
    decreases |s|
  {
    if s != [] {
      var init := s[..|s| - 1];
      assert ("0" + s)[..|s|] == "0" + init;
      LeadingZeroIgnored(init);
    }
  }

  // ---------------------------------------------------------------------------
  // The heuristic

  /**
   * What the patterns found in a text: the digit group of every match of
   * "Exercice N" (in order), the number of whole words "exercice(s)", and
   * whether the whole word "Correction" occurs.
   */
  datatype Extraction = Extraction(numberGroups: seq<string>, exerciceWordCount: nat, hasCorrection: bool)

  /** The numbers the loop collects: the groups that parse, in order. */
  function ParsedNumbers(groups: seq<string>): seq<nat>
    decreases |groups|
  {
    if groups == [] then []
    else
      var init := ParsedNumbers(groups[..|groups| - 1]);
      match ParseDecimal(groups[|groups| - 1])
      case Some(n) => init + [n]
      case None => init
  }

  /** Every collected number comes from a group, and every parsable group gives one. */
  lemma {:induction false} ParsedNumbersExactly(groups: seq<string>, n: nat)
    ensures n in ParsedNumbers(groups) <==> exists k :: 0 <= k < |groups| && ParseDecimal(groups[k]) == Some(n)
    decreases |groups|
  {
    if groups != [] {
      var last := |groups| - 1;
      ParsedNumbersExactly(groups[..last], n);
      if exists k :: 0 <= k < |groups| && ParseDecimal(groups[k]) == Some(n) {
        var k :| 0 <= k < |groups| && ParseDecimal(groups[k]) == Some(n);
        if k < last {
          assert groups[..last][k] == groups[k];
        }
      }
      if n in ParsedNumbers(groups[..last]) {
        var k :| 0 <= k < last && ParseDecimal(groups[..last][k]) == Some(n);
        assert groups[k] == groups[..last][k];
      }
    }
  }

  /** `max(numbers)` of a non-empty list. */
  function MaxOf(s: seq<nat>): (m: nat)
    requires s != []
    ensures m in s
    ensures forall i :: 0 <= i < |s| ==> s[i] <= m
    decreases |s|
  {
    if |s| == 1 then s[0]
    else
      var rest := MaxOf(s[1..]);
      if s[0] >= rest then s[0] else rest
  }

  /** `count_exercises_in_text`. */
  function Estimate(text: string, found: Extraction): (count: nat)
    ensures text == "" ==> count == 0
    ensures text != "" && ParsedNumbers(found.numberGroups) != [] ==>
              count in ParsedNumbers(found.numberGroups) &&
              forall n :: n in ParsedNumbers(found.numberGroups) ==> n <= count
    ensures text != "" && ParsedNumbers(found.numberGroups) == [] ==>
              (found.exerciceWordCount == 0 ==> count == 0) &&
              (found.exerciceWordCount > 0 && found.hasCorrection ==>
                 count >= 1 && count == (if found.exerciceWordCount / 2 >= 1 then found.exerciceWordCount / 2 else 1)) &&
              (!found.hasCorrection ==> count == found.exerciceWordCount)
  {
    if text == "" then 0
    else
      var numbers := ParsedNumbers(found.numberGroups);
      if numbers != [] then MaxOf(numbers)
      else if found.exerciceWordCount == 0 then 0
      else if found.hasCorrection then (if found.exerciceWordCount / 2 >= 1 then found.exerciceWordCount / 2 else 1)
      else found.exerciceWordCount
  }

  /** A text numbering its exercises up to 7 counts 7, even with the numbers out of order. */
  lemma NumberedSheetExample()
    ensures Estimate("Exercice 2 ... Exercice 7 ... Exercice 3", Extraction(["2", "7", "3"], 3, false)) == 7
  {
    var groups := ["2", "7", "3"];
    assert ParseDecimal("2") == Some(2) && ParseDecimal("7") == Some(7) && ParseDecimal("3") == Some(3);
    assert groups[..1] == ["2"] && groups[..2] == ["2", "7"];
    assert ["2"][..0] == [];
    assert ParsedNumbers(["2"]) == [2];
    assert ParsedNumbers(groups[..2]) == [2, 7];
    assert ParsedNumbers(groups) == [2, 7, 3];
  }

  /** The loop over the matches followed by the branches. */
  method CountExercisesInText(text: string, found: Extraction) returns (count: nat)
    ensures count == Estimate(text, found)
  {
    if text == "" {
      return 0;
    }
    var numbers: seq<nat> := [];
    var groups := found.numberGroups;
    for i := 0 to |groups|
      invariant numbers == ParsedNumbers(groups[..i])
    {
      assert groups[..i + 1][..i] == groups[..i];
      var parsed := ParseDecimal(groups[i]);
      if parsed.Some? {
        numbers := numbers + [parsed.value];
      }
    }
    assert groups[..|groups|] == groups;
    if numbers != [] {
      return MaxOf(numbers);
    }
    if found.exerciceWordCount == 0 {
      return 0;
    }
    if found.hasCorrection {
      return if found.exerciceWordCount / 2 >= 1 then found.exerciceWordCount / 2 else 1;
    }
    return found.exerciceWordCount;
  }

  // ---------------------------------------------------------------------------
  // Which rows get written

  /**
   * A row of the `exercises` table as the script reads it. `urlEnonce` is
   * None when the column is null or not a string; `exerciseCount` is None
   * when the column is null.
   */
  datatype StoredExercise = StoredExercise(id: int, urlEnonce: Option<string>, exerciseCount: Option<int>)

  /** The outcome of downloading a PDF and extracting its text. */
  datatype Fetch = FetchFailed | Fetched(text: string, found: Extraction)

  /** `update({"exercise_count": n}).eq("id", id)`. */
  datatype CountUpdate = CountUpdate(id: int, exerciseCount: nat)

  /** `not url or not isinstance(url, str)` is false. */
  predicate HasUrl(row: StoredExercise) {
    row.urlEnonce.Some? && row.urlEnonce.value != ""
  }

  /** What the loop does with one row: skip it, or issue one update. */
  function Decision(row: StoredExercise, fetch: string -> Fetch): (r: Option<CountUpdate>)
    ensures r.Some? <==>
              HasUrl(row) && fetch(row.urlEnonce.value).Fetched? &&
              row.exerciseCount != Some(Estimate(fetch(row.urlEnonce.value).text, fetch(row.urlEnonce.value).found))
    ensures r.Some? ==>
              r.value.id == row.id &&
              r.value.exerciseCount == Estimate(fetch(row.urlEnonce.value).text, fetch(row.urlEnonce.value).found)
  {
    if !HasUrl(row) then None
    else
      match fetch(row.urlEnonce.value)
      case FetchFailed => None
      case Fetched(text, found) =>
        var newCount := Estimate(text, found);
        if row.exerciseCount != Some(newCount) then Some(CountUpdate(row.id, newCount)) else None
  }

  /** The updates `process_all_exercises` issues, in row order. */
  function PlannedUpdates(rows: seq<StoredExercise>, fetch: string -> Fetch): seq<CountUpdate>
    decreases |rows|
  {
    if rows == [] then []
    else
      var init := PlannedUpdates(rows[..|rows| - 1], fetch);
      match Decision(rows[|rows| - 1], fetch)
      case Some(u) => init + [u]
      case None => init
  }

  /** The loop over the rows; a failed update is only logged. */
  method ProcessAllExercises(rows: seq<StoredExercise>, fetch: string -> Fetch) returns (updates: seq<CountUpdate>)
    ensures updates == PlannedUpdates(rows, fetch)
  {
    updates := [];
    for i := 0 to |rows|
      invariant updates == PlannedUpdates(rows[..i], fetch)
    {
      assert rows[..i + 1][..i] == rows[..i];
      var row := rows[i];
      if row.urlEnonce == None || row.urlEnonce.value == "" {
        continue;
      }
      var outcome := fetch(row.urlEnonce.value);
      if outcome.FetchFailed? {
        continue;
      }
      var newCount := CountExercisesInText(outcome.text, outcome.found);
      if row.exerciseCount != Some(newCount) {
        updates := updates + [CountUpdate(row.id, newCount)];
      }
    }
    assert rows[..|rows|] == rows;
  }

  /**
   * An update is issued exactly for the rows with a URL whose PDF could be
   * read and whose stored count differs from the new estimate.
   */
  lemma {:induction false} UpdatesExactly(rows: seq<StoredExercise>, fetch: string -> Fetch, u: CountUpdate)
    ensures u in PlannedUpdates(rows, fetch) <==> exists k :: 0 <= k < |rows| && Decision(rows[k], fetch) == Some(u)
    decreases |rows|
  {
    if rows != [] {
      var last := |rows| - 1;
      UpdatesExactly(rows[..last], fetch, u);
      if exists k :: 0 <= k < |rows| && Decision(rows[k], fetch) == Some(u) {
        var k :| 0 <= k < |rows| && Decision(rows[k], fetch) == Some(u);
        if k < last {
          assert rows[..last][k] == rows[k];
        }
      }
      if u in PlannedUpdates(rows[..last], fetch) {
        var k :| 0 <= k < last && Decision(rows[..last][k], fetch) == Some(u);
        assert rows[k] == rows[..last][k];
      }
    }
  }

  /** The ids are the primary key: no two rows share one. */
  predicate DistinctIds(rows: seq<StoredExercise>) {
    forall i, j :: 0 <= i < j < |rows| ==> rows[i].id != rows[j].id
  }

  /** The count the updates leave for `id`: the last update about it wins. */
  function UpdatedCount(updates: seq<CountUpdate>, id: int): Option<nat>
    decreases |updates|
  {
    if updates == [] then None
    else if updates[|updates| - 1].id == id then Some(updates[|updates| - 1].exerciseCount)
    else UpdatedCount(updates[..|updates| - 1], id)
  }

  /** The table after the updates have been applied. */
  function Applied(rows: seq<StoredExercise>, updates: seq<CountUpdate>): (r: seq<StoredExercise>)
    ensures |r| == |rows|
    ensures forall k :: 0 <= k < |rows| ==>
              r[k] == match UpdatedCount(updates, rows[k].id)
                      case Some(n) => rows[k].(exerciseCount := Some(n))
                      case None => rows[k]
  {
    seq(|rows|, k requires 0 <= k < |rows| =>
      match UpdatedCount(updates, rows[k].id)
      case Some(n) => rows[k].(exerciseCount := Some(n))
      case None => rows[k])
  }

  /** No update is about an id that is not in the table. */
  lemma {:induction false} UpdatedCountOutside(rows: seq<StoredExercise>, fetch: string -> Fetch, id: int)
    requires forall k :: 0 <= k < |rows| ==> rows[k].id != id
    ensures UpdatedCount(PlannedUpdates(rows, fetch), id) == None
    decreases |rows|
  {
    if rows != [] {
      var init := rows[..|rows| - 1];
      UpdatedCountOutside(init, fetch, id);
      var ups := PlannedUpdates(rows, fetch);
      if Decision(rows[|rows| - 1], fetch).Some? {
        assert ups[..|ups| - 1] == PlannedUpdates(init, fetch);
      }
    }
  }

  /** With distinct ids, the count the updates leave for a row is the one its own decision wrote. */
  lemma {:induction false} UpdatedCountOfRow(rows: seq<StoredExercise>, fetch: string -> Fetch, k: int)
    requires DistinctIds(rows)
    requires 0 <= k < |rows|
    ensures UpdatedCount(PlannedUpdates(rows, fetch), rows[k].id) ==
            match Decision(rows[k], fetch)
            case Some(u) => Some(u.exerciseCount)
            case None => None
    decreases |rows|
  {
    var last := |rows| - 1;
    var init := rows[..last];
    var ups := PlannedUpdates(rows, fetch);
    var d := Decision(rows[last], fetch);
    if d.Some? {
      assert ups[..|ups| - 1] == PlannedUpdates(init, fetch);
    }
    if k == last {
      if d.None? {
        UpdatedCountOutside(init, fetch, rows[k].id);
      }
    } else {
      assert init[k] == rows[k];
      UpdatedCountOfRow(init, fetch, k);
    }
  }

  /** Rows that all decide to skip give no updates. */
  lemma {:induction false} NoDecisionNoUpdates(rows: seq<StoredExercise>, fetch: string -> Fetch)
    requires forall k :: 0 <= k < |rows| ==> Decision(rows[k], fetch) == None
    ensures PlannedUpdates(rows, fetch) == []
    decreases |rows|
  {
    if rows != [] {
      NoDecisionNoUpdates(rows[..|rows| - 1], fetch);
    }
  }

  /**
   * Running the script a second time over the table it has just updated, with
   * the same PDFs, writes nothing: every row already holds its estimate.
   */
  lemma RerunWritesNothing(rows: seq<StoredExercise>, fetch: string -> Fetch)
    requires DistinctIds(rows)
    ensures PlannedUpdates(Applied(rows, PlannedUpdates(rows, fetch)), fetch) == []
  {
    var ups := PlannedUpdates(rows, fetch);
    var after := Applied(rows, ups);
    forall k | 0 <= k < |after|
      ensures Decision(after[k], fetch) == None
    {
      UpdatedCountOfRow(rows, fetch, k);
    }
    NoDecisionNoUpdates(after, fetch);
  }
}
