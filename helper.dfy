/**
 * The stop-word filter applied to a query before it is encoded. The
 * stop-word set is a parameter: the list the program loads from its
 * language library is not part of this model.
 */
module Helper {
  import opened PyText

  /** The words of `ws` that are not in `stop`, in their original order. */
  function Keep(ws: seq<string>, stop: set<string>): (r: seq<string>)
    ensures |r| <= |ws|
    ensures forall k :: 0 <= k < |r| ==> r[k] in ws && r[k] !in stop
    ensures forall k :: 0 <= k < |ws| && ws[k] !in stop ==> ws[k] in r
  {
    if |ws| == 0 then []
    else if ws[0] in stop then Keep(ws[1..], stop)
    else [ws[0]] + Keep(ws[1..], stop)
  }

  /** Filtering a list that holds no stop word keeps all of it. */
  lemma {:induction false} KeepAll(ws: seq<string>, stop: set<string>)
    requires forall k :: 0 <= k < |ws| ==> ws[k] !in stop
    ensures Keep(ws, stop) == ws
    decreases |ws|
  {
    if |ws| > 0 {
      assert forall k :: 0 <= k < |ws| - 1 ==> ws[1..][k] == ws[k + 1];
      KeepAll(ws[1..], stop);
      assert Keep(ws, stop) == [ws[0]] + ws[1..];
    }
  }

  /**
   * `filter_stopwords_in_text(text)`: the whitespace-separated words of a
   * string that are not stop words (compared exactly, without lower-casing),
   * joined by single spaces; any other value gives the empty string.
   */
  function FilterStopwordsInText(text: PyValue, stop: set<string>): (r: string)
    ensures !text.Str? ==> r == ""
    ensures text.Str? ==> Words(r) == Keep(Words(text.s), stop)
    ensures r == Join(Words(r), " ")
    ensures forall k :: 0 <= k < |Words(r)| ==> Words(r)[k] !in stop
    ensures text.Str? ==> (r == "" <==> forall k :: 0 <= k < |Words(text.s)| ==> Words(text.s)[k] in stop)
  {
    match text
    case Str(s) =>
      var kept := Keep(Words(s), stop);
      WordsJoin(kept);
      Join(kept, " ")
    case _ => ""
  }

  /** Filtering the filtered text again leaves it unchanged. */
  lemma FilterIdempotent(text: PyValue, stop: set<string>)
    ensures var r := FilterStopwordsInText(text, stop);
            FilterStopwordsInText(Str(r), stop) == r
  {
    var r := FilterStopwordsInText(text, stop);
    KeepAll(Words(r), stop);
  }

  /**
   * The words of a non-empty filtered text are exactly what `split(' ')`
   * returns on it, and each is free of whitespace, so its lower-cased form
   * is also the form the vocabulary stores.
   */
  lemma FilteredWords(text: PyValue, stop: set<string>)
    ensures var r := FilterStopwordsInText(text, stop);
            && (r != "" ==> SplitOn(r, " ") == Words(r))
            && forall k :: 0 <= k < |Words(r)| ==> NoSpace(Words(r)[k]) && Trimmed(Words(r)[k])
  {
    var r := FilterStopwordsInText(text, stop);
    var ws := Words(r);
    if |ws| > 0 {
      assert forall k, i :: 0 <= k < |ws| && 0 <= i < |ws[k]| ==> ws[k][i] != ' ' by {
        assert IsSpace(' ');
        forall k, i | 0 <= k < |ws| && 0 <= i < |ws[k]| ensures ws[k][i] != ' ' {
          assert NoSpace(ws[k]);
        }
      }
      SplitOnJoin(ws, " ");
    }
  }
}
