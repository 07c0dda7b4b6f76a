/**
 * The search flow of `AppFlow`: recovering the id list of a stored row,
 * preparing two id vectors for scoring, and picking the stored row whose
 * score against the query is the first maximum.
 *
 * The similarity score (cosine similarity on floating-point vectors) and the
 * filter applied to a stored row's ids are parameters. A score of `None`
 * stands for the `ValueError` the search catches.
 */
module App {
  import opened Wrappers
  import opened PyText
  import opened Vocabulary
  import opened Helper
  import Database

  // ---- Rows ----

  /**
   * `get_text_from_row(row)`: the integers of the whitespace-separated
   * tokens of the last `||` field; `None` when a token is not an integer
   * (the `ValueError` of `int`).
   */
  function GetTextFromRow(row: string): Option<seq<int>> {
    var fields := SplitOn(row, Database.InternalDelimiter);
    ParseInts(Words(fields[|fields| - 1]))
  }

  /** A row written by `interface_insert` gives back exactly the ids it was written with. */
  lemma RowRoundTrip(idx: int, uuid: string, ids: seq<int>)
    requires Database.NoBar(uuid)
    ensures GetTextFromRow(Database.MakeRow(idx, uuid, ids)) == Some(ids)
  {
    Database.RowFields(idx, uuid, ids);
    WordsJoin(IntsToStrings(ids));
    ParseIntsToStrings(ids);
  }

  // ---- Vectors ----

  function Max(a: int, b: int): int {
    if a < b then b else a
  }

  function Zeros(n: nat): (r: seq<int>)
    ensures |r| == n && forall i :: 0 <= i < n ==> r[i] == 0
  {
    seq(n, _ => 0)
  }

  /** `pad_arrays(v1, v2)`: zero-pads the shorter vector to the length of the longer one. */
  function PadArrays(v1: seq<int>, v2: seq<int>): (r: (seq<int>, seq<int>))
    ensures |r.0| == |r.1| == Max(|v1|, |v2|)
    ensures r.0[..|v1|] == v1 && r.1[..|v2|] == v2
    ensures forall i :: |v1| <= i < |r.0| ==> r.0[i] == 0
    ensures forall i :: |v2| <= i < |r.1| ==> r.1[i] == 0
    ensures |v1| >= |v2| ==> r.0 == v1
    ensures |v2| >= |v1| ==> r.1 == v2
  {
    if |v1| < |v2| then (v1 + Zeros(|v2| - |v1|), v2)
    else if |v2| < |v1| then (v1, v2 + Zeros(|v1| - |v2|))
    else (v1, v2)
  }

  /** Padding a pair that is already padded changes nothing. */
  lemma PadArraysIdempotent(v1: seq<int>, v2: seq<int>)
    ensures var r := PadArrays(v1, v2);
            PadArrays(r.0, r.1) == r
  {
  }

  /** The substitution of a size-zero vector by the one-element zero vector. */
  function NonEmptyOrZero(v: seq<int>): (r: seq<int>)
    ensures |r| >= 1
    ensures |v| > 0 ==> r == v
    ensures |v| == 0 ==> r == [0]
  {
    if |v| == 0 then [0] else v
  }

  /**
   * The two vectors handed to the score: each empty one replaced by `[0]`,
   * then both padded to a common length of at least one.
   */
  function PrepareVectors(query: seq<int>, other: seq<int>): (r: (seq<int>, seq<int>))
    ensures |r.0| == |r.1| == Max(Max(|query|, |other|), 1)
    ensures |query| > 0 ==> r.0[..|query|] == query
    ensures |other| > 0 ==> r.1[..|other|] == other
  {
    PadArrays(NonEmptyOrZero(query), NonEmptyOrZero(other))
  }

  // ---- Selection ----

  /** Index `i` holds the maximum of `s`, and no earlier index does (`np.argmax`). */
  predicate IsFirstMax(s: seq<real>, i: int) {
    && 0 <= i < |s|
    && (forall j :: 0 <= j < |s| ==> s[j] <= s[i])
    && (forall j :: 0 <= j < i ==> s[j] < s[i])
  }

  /** `np.argmax(s)`: the first index of the largest element. */
  function FirstArgMax(s: seq<real>): (r: nat)
    requires |s| > 0
    ensures IsFirstMax(s, r)
  {
    if |s| == 1 then 0
    else
      var m := FirstArgMax(s[..|s| - 1]);
      assert forall j :: 0 <= j < |s| - 1 ==> s[..|s| - 1][j] == s[j];
      if s[m] < s[|s| - 1] then |s| - 1 else m
  }

  /** What the search returns. */
  datatype SearchOutcome =
    | NoMatch              // `None`
    | Closest(row: string) // the stored row with the first maximal score
    | ScoreFailed          // a `ValueError` while scoring: the search returns -1
    | BadRow               // a stored row whose id field does not parse: the `ValueError` escapes

  /** How one stored row scores against the query ids. */
  datatype RowResult = Scored(value: real) | Unparsable | ScoreError

  /** Whether the row reaches the scoring branch, which re-runs `encode_text` on the query. */
  predicate ReachesScoring(row: string, filterEncoded: seq<int> -> seq<int>) {
    GetTextFromRow(row).Some? && |filterEncoded(GetTextFromRow(row).value)| > 0
  }

  /** The score of one row: 0 when its filtered ids are empty, otherwise the score of the prepared vectors. */
  function ScoreRow(row: string, queryIds: seq<int>, filterEncoded: seq<int> -> seq<int>,
                    score: (seq<int>, seq<int>) -> Option<real>): (r: RowResult)
    ensures r.Unparsable? <==> GetTextFromRow(row).None?
    ensures r.ScoreError? ==> ReachesScoring(row, filterEncoded)
    ensures GetTextFromRow(row).Some? && !ReachesScoring(row, filterEncoded) ==> r == Scored(0.0)
  {
    match GetTextFromRow(row)
    case None => Unparsable
    case Some(other) =>
      var kept := filterEncoded(other);
      if |kept| == 0 then Scored(0.0)
      else
        var vectors := PrepareVectors(queryIds, kept);
        match score(vectors.0, vectors.1)
        case None => ScoreError
        case Some(s) => Scored(s)
  }

  /** The state of the scoring loop: still scanning with the scores so far, or stopped early. */
  datatype Scan =
    | Scanning(scores: seq<real>, encoded: bool)
    | Stopped(outcome: SearchOutcome, encoded: bool)

  /** Every row before `n` scored. */
  predicate AllScored(rows: seq<string>, n: int, queryIds: seq<int>, filterEncoded: seq<int> -> seq<int>,
                      score: (seq<int>, seq<int>) -> Option<real>)
    requires 0 <= n <= |rows|
  {
    forall j :: 0 <= j < n ==> ScoreRow(rows[j], queryIds, filterEncoded, score).Scored?
  }

  /**
   * The loop over the stored rows: one score per row, in row order, until a
   * row fails to parse or to score. `encoded` records whether the query was
   * (re-)encoded on the way.
   */
  function ScanRows(rows: seq<string>, queryIds: seq<int>, filterEncoded: seq<int> -> seq<int>,
                    score: (seq<int>, seq<int>) -> Option<real>): (r: Scan)
    ensures r.Scanning? ==> |r.scores| == |rows|
    ensures r.Scanning? ==>
              forall i :: 0 <= i < |rows| ==> ScoreRow(rows[i], queryIds, filterEncoded, score) == Scored(r.scores[i])
    ensures r.Stopped? ==> r.outcome == BadRow || r.outcome == ScoreFailed
    decreases |rows|
  {
    if |rows| == 0 then Scanning([], false)
    else
      var init := rows[..|rows| - 1];
      var row := rows[|rows| - 1];
      assert forall j :: 0 <= j < |rows| - 1 ==> init[j] == rows[j];
      match ScanRows(init, queryIds, filterEncoded, score)
      case Stopped(o, enc) => Stopped(o, enc)
      case Scanning(scores, enc) =>
        match ScoreRow(row, queryIds, filterEncoded, score)
        case Unparsable => Stopped(BadRow, enc)
        case ScoreError => Stopped(ScoreFailed, true)
        case Scored(s) => Scanning(scores + [s], enc || ReachesScoring(row, filterEncoded))
  }

  /**
   * A stopped scan stopped at the first row that did not score: on a row
   * that does not parse it reports `BadRow`, on a failed score `ScoreFailed`
   * (after encoding the query).
   */
  lemma {:induction false} ScanStoppedAt(rows: seq<string>, queryIds: seq<int>, filterEncoded: seq<int> -> seq<int>,
                                         score: (seq<int>, seq<int>) -> Option<real>)
    requires ScanRows(rows, queryIds, filterEncoded, score).Stopped?
    ensures var r := ScanRows(rows, queryIds, filterEncoded, score);
            exists i :: 0 <= i < |rows| && AllScored(rows, i, queryIds, filterEncoded, score)
              && match ScoreRow(rows[i], queryIds, filterEncoded, score)
                 case Scored(_) => false
                 case Unparsable => r.outcome == BadRow
                 case ScoreError => r.outcome == ScoreFailed && r.encoded
    decreases |rows|
  {
    var r := ScanRows(rows, queryIds, filterEncoded, score);
    var init := rows[..|rows| - 1];
    assert forall j :: 0 <= j < |rows| - 1 ==> init[j] == rows[j];
    if ScanRows(init, queryIds, filterEncoded, score).Stopped? {
      ScanStoppedAt(init, queryIds, filterEncoded, score);
      var i :| 0 <= i < |init| && AllScored(init, i, queryIds, filterEncoded, score)
               && match ScoreRow(init[i], queryIds, filterEncoded, score)
                  case Scored(_) => false
                  case Unparsable => r.outcome == BadRow
                  case ScoreError => r.outcome == ScoreFailed && r.encoded;
      assert AllScored(rows, i, queryIds, filterEncoded, score);
    } else {
      assert AllScored(rows, |rows| - 1, queryIds, filterEncoded, score);
    }
  }

  /** A finished scan encoded the query exactly when some row reached scoring. */
  lemma {:induction false} ScanEncoded(rows: seq<string>, queryIds: seq<int>, filterEncoded: seq<int> -> seq<int>,
                                       score: (seq<int>, seq<int>) -> Option<real>)
    requires ScanRows(rows, queryIds, filterEncoded, score).Scanning?
    ensures ScanRows(rows, queryIds, filterEncoded, score).encoded
            <==> exists i :: 0 <= i < |rows| && ReachesScoring(rows[i], filterEncoded)
    decreases |rows|
  {
    if |rows| > 0 {
      var init := rows[..|rows| - 1];
      assert forall j :: 0 <= j < |rows| - 1 ==> init[j] == rows[j];
      ScanEncoded(init, queryIds, filterEncoded, score);
    }
  }

  /** Once the scan has stopped on a prefix it stays stopped with the same outcome. */
  lemma {:induction false} ScanStopped(rows: seq<string>, k: nat, queryIds: seq<int>,
                                       filterEncoded: seq<int> -> seq<int>,
                                       score: (seq<int>, seq<int>) -> Option<real>)
    requires k <= |rows|
    requires ScanRows(rows[..k], queryIds, filterEncoded, score).Stopped?
    ensures ScanRows(rows, queryIds, filterEncoded, score) == ScanRows(rows[..k], queryIds, filterEncoded, score)
    decreases |rows|
  {
    if k == |rows| {
      assert rows[..k] == rows;
    } else {
      var init := rows[..|rows| - 1];
      assert init[..k] == rows[..k];
      ScanStopped(init, k, queryIds, filterEncoded, score);
    }
  }

  lemma ScanSnoc(rows: seq<string>, n: nat, queryIds: seq<int>, filterEncoded: seq<int> -> seq<int>,
                 score: (seq<int>, seq<int>) -> Option<real>)
    requires n < |rows|
    ensures ScanRows(rows[..n + 1], queryIds, filterEncoded, score)
            == match ScanRows(rows[..n], queryIds, filterEncoded, score)
               case Stopped(o, enc) => Stopped(o, enc)
               case Scanning(scores, enc) =>
                 match ScoreRow(rows[n], queryIds, filterEncoded, score)
                 case Unparsable => Stopped(BadRow, enc)
                 case ScoreError => Stopped(ScoreFailed, true)
                 case Scored(s) => Scanning(scores + [s], enc || ReachesScoring(rows[n], filterEncoded))
  {
    assert rows[..n + 1][..n] == rows[..n];
  }

  /** The query as `encode_text` sees it: the filtered text, `None` when nothing is left of it. */
  function QueryEncoding(bow: Bow, text: PyValue, stop: set<string>): (r: Option<Encoding>)
    requires WellFormed(bow)
    ensures r.None? <==> FilterStopwordsInText(text, stop) == ""
  {
    Encode(bow, Str(FilterStopwordsInText(text, stop)))
  }

  /** Row `i` has the first maximal score among all rows, each of which scored. */
  predicate FirstBest(rows: seq<string>, i: int, queryIds: seq<int>, filterEncoded: seq<int> -> seq<int>,
                      score: (seq<int>, seq<int>) -> Option<real>)
  {
    && 0 <= i < |rows|
    && AllScored(rows, |rows|, queryIds, filterEncoded, score)
    && var best := ScoreRow(rows[i], queryIds, filterEncoded, score).value;
    && (forall j :: 0 <= j < |rows| ==> ScoreRow(rows[j], queryIds, filterEncoded, score).value <= best)
    && (forall j :: 0 <= j < i ==> ScoreRow(rows[j], queryIds, filterEncoded, score).value < best)
  }

  /**
   * `find_closest_articles_by_text(text)` over the stored rows and the
   * vocabulary at the start of the call: `None` when the filtered query is
   * empty or there are no rows, otherwise the row with the first maximal
   * score, unless a row fails first.
   */
  function Search(rows: seq<string>, bow: Bow, text: PyValue, stop: set<string>,
                  filterEncoded: seq<int> -> seq<int>, score: (seq<int>, seq<int>) -> Option<real>): (r: SearchOutcome)
    requires WellFormed(bow)
    ensures FilterStopwordsInText(text, stop) == "" ==> r == NoMatch
    ensures |rows| == 0 ==> r == NoMatch
    ensures r.Closest? ==> r.row in rows
  {
    match QueryEncoding(bow, text, stop)
    case None => NoMatch
    case Some(q) =>
      match ScanRows(rows, q.ids, filterEncoded, score)
      case Stopped(o, _) => o
      case Scanning(scores, _) =>
        if |scores| == 0 then NoMatch else Closest(rows[FirstArgMax(scores)])
  }

  /** A returned row is the first row with the maximal score, and every row scored. */
  lemma SearchClosest(rows: seq<string>, bow: Bow, text: PyValue, stop: set<string>,
                      filterEncoded: seq<int> -> seq<int>, score: (seq<int>, seq<int>) -> Option<real>)
    requires WellFormed(bow)
    requires Search(rows, bow, text, stop, filterEncoded, score).Closest?
    ensures QueryEncoding(bow, text, stop).Some?
    ensures exists i :: FirstBest(rows, i, QueryEncoding(bow, text, stop).value.ids, filterEncoded, score)
                        && rows[i] == Search(rows, bow, text, stop, filterEncoded, score).row
  {
    var q := QueryEncoding(bow, text, stop).value;
    var scan := ScanRows(rows, q.ids, filterEncoded, score);
    var i := FirstArgMax(scan.scores);
    assert FirstBest(rows, i, q.ids, filterEncoded, score);
  }

  /** When the query is not empty and every row scores, the search returns a row. */
  lemma SearchFindsRow(rows: seq<string>, bow: Bow, text: PyValue, stop: set<string>,
                       filterEncoded: seq<int> -> seq<int>, score: (seq<int>, seq<int>) -> Option<real>)
    requires WellFormed(bow)
    requires FilterStopwordsInText(text, stop) != "" && |rows| > 0
    requires AllScored(rows, |rows|, QueryEncoding(bow, text, stop).value.ids, filterEncoded, score)
    ensures Search(rows, bow, text, stop, filterEncoded, score).Closest?
  {
    var q := QueryEncoding(bow, text, stop).value;
    if ScanRows(rows, q.ids, filterEncoded, score).Stopped? {
      ScanStoppedAt(rows, q.ids, filterEncoded, score);
    }
  }

  /** `BadRow` names a stored row that does not parse; `ScoreFailed` one whose scoring failed. */
  lemma SearchFailure(rows: seq<string>, bow: Bow, text: PyValue, stop: set<string>,
                      filterEncoded: seq<int> -> seq<int>, score: (seq<int>, seq<int>) -> Option<real>)
    requires WellFormed(bow)
    ensures var r := Search(rows, bow, text, stop, filterEncoded, score);
            && (r.BadRow? ==> exists i :: 0 <= i < |rows| && GetTextFromRow(rows[i]).None?)
            && (r.ScoreFailed? ==> exists i :: 0 <= i < |rows| && ReachesScoring(rows[i], filterEncoded))
  {
    var r := Search(rows, bow, text, stop, filterEncoded, score);
    if r.BadRow? || r.ScoreFailed? {
      var q := QueryEncoding(bow, text, stop).value;
      ScanStoppedAt(rows, q.ids, filterEncoded, score);
    }
  }

  /** Whether the search ran `encode_text` on the query at all. */
  predicate SearchEncodes(rows: seq<string>, bow: Bow, text: PyValue, stop: set<string>,
                          filterEncoded: seq<int> -> seq<int>, score: (seq<int>, seq<int>) -> Option<real>)
    requires WellFormed(bow)
  {
    QueryEncoding(bow, text, stop).Some? && ScanRows(rows, QueryEncoding(bow, text, stop).value.ids, filterEncoded, score).encoded
  }

  /** The query's words are whitespace-free, so each is `Canonical`. */
  lemma QueryWordsCanonical(text: PyValue, stop: set<string>)
    requires FilterStopwordsInText(text, stop) != ""
    ensures var words := TokeniseRow(FilterStopwordsInText(text, stop)).value;
            forall k :: 0 <= k < |words| ==> Canonical(words[k])
  {
    var filtered := FilterStopwordsInText(text, stop);
    FilteredWords(text, stop);
    var words := TokeniseRow(filtered).value;
    forall k | 0 <= k < |words| ensures Canonical(words[k]) {
      TrimmedIsCanonical(words[k]);
    }
  }

  /**
   * Re-encoding the query against the vocabulary its first encoding left
   * gives the same ids and changes nothing, so every row is scored against
   * the same ids and only the first encoding can write the vocabulary.
   */
  lemma QueryStable(bow: Bow, text: PyValue, stop: set<string>)
    requires WellFormed(bow)
    requires QueryEncoding(bow, text, stop).Some?
    ensures var q := QueryEncoding(bow, text, stop).value;
            QueryEncoding(q.bow, text, stop) == Some(Encoding(q.ids, q.bow, false))
  {
    var filtered := FilterStopwordsInText(text, stop);
    QueryWordsCanonical(text, stop);
    EncodeIdempotent(bow, TokeniseRow(filtered).value);
  }

  /** A dense vocabulary stays dense through a search. */
  lemma SearchKeepsDense(bow: Bow, text: PyValue, stop: set<string>)
    requires Dense(bow)
    requires QueryEncoding(bow, text, stop).Some?
    ensures Dense(QueryEncoding(bow, text, stop).value.bow)
  {
    var filtered := FilterStopwordsInText(text, stop);
    QueryWordsCanonical(text, stop);
    EncodeKeepsDense(bow, TokeniseRow(filtered).value);
  }

  class AppFlow {
    const database: Database.Database
    /** The vocabulary as loaded when the object was created (never read again). */
    var vocabulary: Bow

    /** `AppFlow()`: opens the database and loads its vocabulary. */
    constructor (storedRows: seq<string>, storedBow: Bow)
      requires WellFormed(storedBow)
      ensures fresh(database) && database.Valid()
      ensures database.rows == storedRows && database.bow == storedBow && database.bowWrites == 0
      ensures database.currentIdx == |storedRows| + 1
      ensures vocabulary == storedBow
    {
      var db := new Database.Database(storedRows, storedBow);
      var b := db.LoadBow();
      database := db;
      vocabulary := b;
    }

    /**
     * `find_closest_articles_by_text(text)`: scores every stored row against
     * the filtered query and returns the row with the first maximal score.
     * The query is re-encoded for each row that reaches scoring, so the
     * vocabulary can change only on the first of those calls.
     */
    method FindClosestArticlesByText(text: PyValue, stop: set<string>, filterEncoded: seq<int> -> seq<int>,
                                     score: (seq<int>, seq<int>) -> Option<real>) returns (r: SearchOutcome)
      requires database.Valid()
      modifies database
      ensures database.Valid() && database.rows == old(database.rows)
      ensures database.currentIdx == old(database.currentIdx)
      ensures r == Search(old(database.rows), old(database.bow), text, stop, filterEncoded, score)
      ensures !SearchEncodes(old(database.rows), old(database.bow), text, stop, filterEncoded, score) ==>
                database.bow == old(database.bow) && database.bowWrites == old(database.bowWrites)
      ensures SearchEncodes(old(database.rows), old(database.bow), text, stop, filterEncoded, score) ==>
                var q := QueryEncoding(old(database.bow), text, stop).value;
                && database.bow == q.bow
                && database.bowWrites == old(database.bowWrites) + (if q.changed then 1 else 0)
    {
      var textList := database.QueryAllDocument();
      var textFiltered := FilterStopwordsInText(text, stop);
      if textFiltered == "" {
        return NoMatch;
      }
      ghost var q := QueryEncoding(old(database.bow), text, stop).value;
      QueryStable(old(database.bow), text, stop);
      var similarities: seq<real> := [];
      ghost var encoded := false;
      var i := 0;
      while i < |textList|
        invariant 0 <= i <= |textList|
        invariant database.Valid() && database.rows == old(database.rows)
        invariant database.currentIdx == old(database.currentIdx)
        invariant ScanRows(textList[..i], q.ids, filterEncoded, score) == Scanning(similarities, encoded)
        invariant !encoded ==> database.bow == old(database.bow) && database.bowWrites == old(database.bowWrites)
        invariant encoded ==>
                    database.bow == q.bow && database.bowWrites == old(database.bowWrites) + (if q.changed then 1 else 0)
      {
        ScanSnoc(textList, i, q.ids, filterEncoded, score);
        var otherText := GetTextFromRow(textList[i]);
        if otherText.None? {
          ScanStopped(textList, i + 1, q.ids, filterEncoded, score);
          return BadRow;
        }
        var otherTextFiltered := filterEncoded(otherText.value);
        var similarity: real;
        if |otherTextFiltered| == 0 {
          similarity := 0.0;
        } else {
          var textVector := database.EncodeText(Str(textFiltered));
          encoded := true;
          var vectors := PadArrays(NonEmptyOrZero(textVector.value), NonEmptyOrZero(otherTextFiltered));
          var s := score(vectors.0, vectors.1);
          if s.None? {
            ScanStopped(textList, i + 1, q.ids, filterEncoded, score);
            return ScoreFailed;
          }
          similarity := s.value;
        }
        similarities := similarities + [similarity];
        i := i + 1;
      }
      assert textList[..i] == textList;
      if |similarities| == 0 {
        return NoMatch;
      }
      var closestIndex := FirstArgMax(similarities);
      r := Closest(textList[closestIndex]);
    }
  }
}
