/**
 * The `Database` object of the vector store: a flat list of rows and the
 * shared vocabulary, both kept in files that every operation reloads and
 * rewrites. Here the two files are the fields `rows` and `bow`, and
 * `bowWrites` counts how many times the vocabulary file has been rewritten.
 */
module Database {
  import opened Wrappers
  import opened PyText
  import opened Vocabulary
  import opened Seqs

  /** The separator between the fields of a stored row. */
  const InternalDelimiter: string := "||"

  /** The row `interface_insert` stores: `str(idx) || uuid || "<ids joined by spaces>"`. */
  function MakeRow(idx: int, uuid: string, ids: seq<int>): string {
    IntToString(idx) + InternalDelimiter + uuid + InternalDelimiter + Join(IntsToStrings(ids), " ")
  }

  /** No `|` in `s`, as in the text of a uuid4 (hex digits and dashes). */
  predicate NoBar(s: string) {
    forall i :: 0 <= i < |s| ==> s[i] != '|'
  }

  /**
   * A row built by `interface_insert` splits on `||` into exactly three
   * fields: the row number, the uuid and the id text, because none of them
   * contains a `|`.
   */
  lemma RowFields(idx: int, uuid: string, ids: seq<int>)
    requires NoBar(uuid)
    ensures SplitOn(MakeRow(idx, uuid, ids), InternalDelimiter)
            == [IntToString(idx), uuid, Join(IntsToStrings(ids), " ")]
  {
    var fields := [IntToString(idx), uuid, Join(IntsToStrings(ids), " ")];
    IdTextNoBar(ids);
    JoinThree(fields[0], fields[1], fields[2], InternalDelimiter);
    assert forall k :: 0 <= k < |fields| ==> NoBar(fields[k]);
    SplitOnJoin(fields, InternalDelimiter);
  }

  /** The id text of a row holds digits, minus signs and spaces only. */
  lemma IdTextNoBar(ids: seq<int>)
    ensures NoBar(Join(IntsToStrings(ids), " "))
  {
    assert forall k :: 0 <= k < |ids| ==> NoBar(IntsToStrings(ids)[k]);
    JoinNoBar(IntsToStrings(ids));
  }

  lemma {:induction false} JoinNoBar(parts: seq<string>)
    requires forall k :: 0 <= k < |parts| ==> NoBar(parts[k])
    ensures NoBar(Join(parts, " "))
    decreases |parts|
  {
    if |parts| > 1 {
      assert forall k :: 0 <= k < |parts| - 1 ==> parts[1..][k] == parts[k + 1];
      JoinNoBar(parts[1..]);
    }
  }

  /**
   * The word loop of `encode_text`, from the vocabulary `start`: for each
   * word, reuse the truthy id of its lower-cased form, or store it under its
   * lower-cased, stripped form with the id `len(bow) + 1` and set the change
   * flag.
   */
  method EncodeLoop(start: Bow, words: seq<string>) returns (result: Encoding)
    requires WellFormed(start)
    ensures result == EncodeWords(start, words)
  {
    var ids: seq<int> := [];
    var vocab := start;
    var changed := false;
    var i := 0;
    while i < |words|
      invariant 0 <= i <= |words|
      invariant EncodeWords(start, words[..i]) == Encoding(ids, vocab, changed)
    {
      EncodeWordsSnoc(start, words, i);
      ids, vocab, changed := EncodeWord(ids, vocab, changed, words[i]);
      i := i + 1;
    }
    TakeAll(words);
    result := Encoding(ids, vocab, changed);
  }

  /**
   * One iteration of the word loop of `encode_text`, as the loop body
   * executes it. It is a method of its own only so that the loop's proof
   * stays small; it is proved equal to `EncodeStep`, the function that
   * specifies the iteration.
   */
  method EncodeWord(ids: seq<int>, vocab: Bow, changed: bool, word: string)
    returns (ids': seq<int>, vocab': Bow, changed': bool)
    requires WellFormed(vocab)
    ensures Encoding(ids', vocab', changed') == EncodeStep(Encoding(ids, vocab, changed), word)
  {
    var wordId := GetWordId(vocab, LookupKey(word));
    if Truthy(wordId) {
      ids', vocab', changed' := ids + [wordId.value], vocab, changed;
    } else {
      var newWordId := |vocab| + 1;
      ids', vocab', changed' := ids + [newWordId], Put(vocab, StoreKey(word), newWordId), true;
    }
  }

  class Database {
    /** The stored rows (the `vectors.pickle` file). */
    var rows: seq<string>
    /** The stored vocabulary (the `bow.pickle` file). */
    var bow: Bow
    /** How many times `dump_bow` has rewritten the vocabulary file. */
    var bowWrites: nat
    /** The row number computed once when the object is created; never read afterwards. */
    var currentIdx: int

    ghost predicate Valid()
      reads this
    {
      WellFormed(bow)
    }

    /**
     * `Database()`: opens the store over the stored rows and vocabulary
     * (empty ones when the files are empty).
     */
    constructor (storedRows: seq<string>, storedBow: Bow)
      requires WellFormed(storedBow)
      ensures Valid()
      ensures rows == storedRows && bow == storedBow && bowWrites == 0
      ensures currentIdx == |storedRows| + 1
    {
      rows := storedRows;
      bow := storedBow;
      bowWrites := 0;
      currentIdx := |storedRows| + 1;
    }

    /** `get_current_idx()`: the 1-based number the next inserted row receives. */
    function CurrentIdx(): (idx: int)
      reads this
      ensures idx >= 1 && idx - 1 == |rows|
    {
      |rows| + 1
    }

    /** `query_all_document()`: every stored row, in insertion order. */
    method QueryAllDocument() returns (all: seq<string>)
      ensures all == rows
    {
      all := rows;
    }

    /** `insert_into(data)`: appends one row and rewrites the row file. */
    method InsertInto(data: string)
      modifies this
      ensures rows == old(rows) + [data]
      ensures bow == old(bow) && bowWrites == old(bowWrites) && currentIdx == old(currentIdx)
    {
      var loaded := QueryAllDocument();
      rows := loaded + [data];
    }

    /** `load_bow()`. */
    method LoadBow() returns (b: Bow)
      ensures b == bow
    {
      b := bow;
    }

    /** `dump_bow(b)`: rewrites the vocabulary file with `b`. */
    method DumpBow(b: Bow)
      requires WellFormed(b)
      modifies this
      ensures Valid() && bow == b && bowWrites == old(bowWrites) + 1
      ensures rows == old(rows) && currentIdx == old(currentIdx)
    {
      bow := b;
      bowWrites := bowWrites + 1;
    }

    /**
     * `encode_text(text)`: the ids of the words of `text`, adding unseen
     * words to the vocabulary, which is rewritten exactly when the change
     * flag was set. On the error branches nothing changes.
     */
    method EncodeText(text: PyValue) returns (tokens: Option<seq<int>>)
      requires Valid()
      modifies this
      ensures Valid() && rows == old(rows) && currentIdx == old(currentIdx)
      ensures Encode(old(bow), text).None? ==>
                tokens.None? && bow == old(bow) && bowWrites == old(bowWrites)
      ensures Encode(old(bow), text).Some? ==>
                var e := Encode(old(bow), text).value;
                && tokens == Some(e.ids)
                && bow == e.bow
                && bowWrites == old(bowWrites) + (if e.changed then 1 else 0)
    {
      var words: seq<string>;
      match text {
        case Str(s) =>
          var tokenised := TokeniseRow(s);
          if tokenised.None? {
            return None;
          }
          words := tokenised.value;
        case StrList(items) =>
          words := items;
        case OtherValue =>
          return None;
      }
      if |words| == 0 {
        return None;
      }
      assert InputWords(text) == Some(words);
      var vocab := LoadBow();
      var result := EncodeLoop(vocab, words);
      if result.changed {
        DumpBow(result.bow);
      }
      tokens := Some(result.ids);
    }

    /**
     * `interface_insert(text)` with the uuid passed in: encodes the text and
     * appends the row `str(len(rows) + 1) || uuid || ids`; when encoding
     * fails nothing is stored.
     */
    method InterfaceInsert(text: PyValue, uuid: string) returns (ok: bool)
      requires Valid()
      modifies this
      ensures Valid() && currentIdx == old(currentIdx)
      ensures ok <==> Encode(old(bow), text).Some?
      ensures !ok ==> rows == old(rows) && bow == old(bow) && bowWrites == old(bowWrites)
      ensures ok ==>
                var e := Encode(old(bow), text).value;
                && rows == old(rows) + [MakeRow(|old(rows)| + 1, uuid, e.ids)]
                && bow == e.bow
                && bowWrites == old(bowWrites) + (if e.changed then 1 else 0)
    {
      var encoded := EncodeText(text);
      if encoded.None? {
        return false;
      }
      var encodedText := Join(IntsToStrings(encoded.value), " ");
      var idx := CurrentIdx();
      var insertData := IntToString(idx) + InternalDelimiter + uuid + InternalDelimiter + encodedText;
      InsertInto(insertData);
      ok := true;
    }

    /**
     * `convert_vector_to_text(vector)`: each id mapped back through the
     * inverted vocabulary and the words joined by single spaces; an id with
     * no entry is a `KeyError`, and a non-list argument gives `None`.
     */
    method ConvertVectorToText(vector: VectorArg) returns (r: Decoded)
      ensures r == ConvertVector(bow, vector)
    {
      var b := LoadBow();
      var reverseBow := Reverse(b);
      match vector {
        case OtherVector =>
          return NoneReturned;
        case IdList(ids) =>
          var appender: seq<string> := [];
          var i := 0;
          while i < |ids|
            invariant 0 <= i <= |ids|
            invariant DecodeIds(reverseBow, ids[..i]) == Some(appender)
          {
            if ids[i] !in reverseBow {
              assert DecodeIds(reverseBow, ids).None? by {
                assert 0 <= i < |ids| && ids[i] !in reverseBow;
              }
              return UnknownId;
            }
            DecodeIdsSnoc(reverseBow, ids, i);
            appender := appender + [reverseBow[ids[i]]];
            i := i + 1;
          }
          TakeAll(ids);
          return DecodedText(Join(appender, " "));
      }
    }
  }
}
