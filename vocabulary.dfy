/**
 * The word-to-id vocabulary ("bag of words") of the store, as the pure
 * functions that `Database.encode_text` and `Database.convert_vector_to_text`
 * compute over it.
 *
 * The vocabulary is a Python dict. It is modelled as its list of entries in
 * insertion order with distinct keys, so that `len`, `update` (replace in
 * place or append) and the inverse-map comprehension (a later key wins) all
 * behave as the dict does, including when two keys share an id.
 */
module Vocabulary {
  import opened Wrappers
  import opened PyText
  import opened Seqs

  datatype Entry = Entry(word: string, id: int)

  type Bow = seq<Entry>

  /** A dict never holds the same key twice. */
  predicate WellFormed(bow: Bow) {
    forall i, j :: 0 <= i < j < |bow| ==> bow[i].word != bow[j].word
  }

  /** The vocabulary as it is meant to be: distinct words with ids 1, 2, ..., len(bow) in insertion order. */
  predicate Dense(bow: Bow) {
    WellFormed(bow) && forall i :: 0 <= i < |bow| ==> bow[i].id == i + 1
  }

  /** Position of `key` among the entries, if present. */
  function Find(bow: Bow, key: string): (r: Option<nat>)
    ensures r.Some? ==> r.value < |bow| && bow[r.value].word == key
  {
    if |bow| == 0 then None
    else if bow[0].word == key then Some(0)
    else match Find(bow[1..], key)
      case Some(i) => Some(i + 1)
      case None => None
  }

  /** `key` is missing exactly when no entry holds it. */
  lemma {:induction false} FindNone(bow: Bow, key: string)
    ensures Find(bow, key).None? <==> forall i :: 0 <= i < |bow| ==> bow[i].word != key
    decreases |bow|
  {
    if |bow| > 0 {
      FindNone(bow[1..], key);
      assert forall i :: 0 < i < |bow| ==> bow[i] == bow[1..][i - 1];
    }
  }

  /** In a dict, the entry holding `key` is the one `Find` reports. */
  lemma {:induction false} FindAt(bow: Bow, key: string, i: nat)
    requires WellFormed(bow) && i < |bow| && bow[i].word == key
    ensures Find(bow, key) == Some(i)
    decreases i
  {
    if i > 0 {
      assert bow[1..][i - 1] == bow[i];
      FindAt(bow[1..], key, i - 1);
    }
  }

  /** `get_word_id(word, bow)`: `bow[word]`, or `None` on a `KeyError`. */
  function GetWordId(bow: Bow, word: string): (r: Option<int>)
    ensures r.Some? <==> Find(bow, word).Some?
    ensures r.Some? ==> r.value == bow[Find(bow, word).value].id
  {
    match Find(bow, word)
    case Some(i) => Some(bow[i].id)
    case None => None
  }

  /** Python's truth test `if word_id:` on a looked-up id. */
  predicate Truthy(id: Option<int>) {
    id.Some? && id.value != 0
  }

  /** `bow.update({key: id})`: overwrite in place when `key` is present, append otherwise. */
  function Put(bow: Bow, key: string, id: int): (r: Bow)
    requires WellFormed(bow)
    ensures WellFormed(r)
    ensures Find(bow, key).None? ==> r == bow + [Entry(key, id)]
    ensures Find(bow, key).Some? ==> |r| == |bow|
  {
    PutLookup(bow, key, id);
    match Find(bow, key)
    case Some(i) => bow[i := Entry(key, id)]
    case None => bow + [Entry(key, id)]
  }

  /** After `bow.update({key: id})`, `key` maps to `id` and every other key maps to what it did before. */
  lemma PutGet(bow: Bow, key: string, id: int)
    requires WellFormed(bow)
    ensures GetWordId(Put(bow, key, id), key) == Some(id)
    ensures forall k :: k != key ==> GetWordId(Put(bow, key, id), k) == GetWordId(bow, k)
  {
    PutLookup(bow, key, id);
  }

  lemma PutLookup(bow: Bow, key: string, id: int)
    requires WellFormed(bow)
    ensures var r := match Find(bow, key)
                     case Some(i) => bow[i := Entry(key, id)]
                     case None => bow + [Entry(key, id)];
            && WellFormed(r)
            && GetWordId(r, key) == Some(id)
            && forall k :: k != key ==> GetWordId(r, k) == GetWordId(bow, k)
  {
    var r := match Find(bow, key)
             case Some(i) => bow[i := Entry(key, id)]
             case None => bow + [Entry(key, id)];
    var at := if Find(bow, key).Some? then Find(bow, key).value else |bow|;
    FindNone(bow, key);
    assert |r| == |bow| || |r| == |bow| + 1;
    assert forall j :: 0 <= j < |r| && j != at ==> r[j] == bow[j];
    assert r[at] == Entry(key, id);
    FindAt(r, key, at);
    forall k | k != key ensures GetWordId(r, k) == GetWordId(bow, k) {
      FindNone(bow, k);
      FindNone(r, k);
      if Find(bow, k).Some? {
        FindAt(r, k, Find(bow, k).value);
      }
    }
  }

  /** The key a word is looked up under: `word.lower()`. */
  function LookupKey(word: string): string {
    Lower(word)
  }

  /** The key a new word is stored under: `word.lower().strip()`. */
  function StoreKey(word: string): string {
    Strip(Lower(word))
  }

  /** A word whose lower-cased form has no whitespace at either end. */
  predicate Canonical(word: string) {
    Trimmed(Lower(word))
  }

  /** Exactly the canonical words are stored under the key they are looked up by. */
  lemma CanonicalKeys(word: string)
    ensures Canonical(word) <==> StoreKey(word) == LookupKey(word)
  {
    StripFacts(Lower(word));
  }

  /** A word without whitespace at either end is `Canonical`. */
  lemma TrimmedIsCanonical(word: string)
    requires Trimmed(word)
    ensures Canonical(word)
  {
    LowerKeepsTrimmed(word);
  }

  /** The outcome of the encoding loop: the ids, the dict afterwards, and `bow_change_flag`. */
  datatype Encoding = Encoding(ids: seq<int>, bow: Bow, changed: bool)

  /**
   * One iteration of the loop of `encode_text`: a known word (truthy id under
   * its lower-cased form) reuses that id; any other word gets `len(bow) + 1`,
   * is stored under its lower-cased, stripped form and sets the change flag.
   */
  function EncodeStep(prev: Encoding, word: string): (r: Encoding)
    requires WellFormed(prev.bow)
    ensures WellFormed(r.bow)
    ensures |r.ids| == |prev.ids| + 1 && r.ids[..|prev.ids|] == prev.ids && r.ids[|prev.ids|] != 0
    ensures |prev.bow| <= |r.bow| <= |prev.bow| + 1
    ensures !r.changed ==> r.bow == prev.bow && !prev.changed
  {
    var found := GetWordId(prev.bow, LookupKey(word));
    if Truthy(found) then
      Encoding(prev.ids + [found.value], prev.bow, prev.changed)
    else
      var newId := |prev.bow| + 1;
      Encoding(prev.ids + [newId], Put(prev.bow, StoreKey(word), newId), true)
  }

  /**
   * The loop of `encode_text` over `words`, starting from the dict `bow`:
   * one non-zero id per word, and a dict that only changes when the change
   * flag is set and grows by at most one entry per word.
   */
  function EncodeWords(bow: Bow, words: seq<string>): (r: Encoding)
    requires WellFormed(bow)
    ensures WellFormed(r.bow)
    ensures |r.ids| == |words|
    ensures forall k :: 0 <= k < |words| ==> r.ids[k] != 0
    ensures !r.changed ==> r.bow == bow
    ensures |bow| <= |r.bow| <= |bow| + |words|
    decreases |words|
  {
    if |words| == 0 then Encoding([], bow, false)
    else
      var prev := EncodeWords(bow, words[..|words| - 1]);
      var r := EncodeStep(prev, words[|words| - 1]);
      assert forall k :: 0 <= k < |words| - 1 ==> r.ids[k] == r.ids[..|prev.ids|][k];
      r
  }

  /** Encoding one more word is one more loop iteration. */
  lemma EncodeWordsSnoc(bow: Bow, words: seq<string>, n: nat)
    requires WellFormed(bow) && n < |words|
    ensures EncodeWords(bow, words[..n + 1]) == EncodeStep(EncodeWords(bow, words[..n]), words[n])
  {
    TakeTake(words, n, n + 1);
  }

  /** `tokenise_row(text)`: `text.split(' ')` for non-empty text, `None` otherwise. */
  function TokeniseRow(text: string): (r: Option<seq<string>>)
    ensures r.None? <==> text == ""
    ensures r.Some? ==> |r.value| >= 1 && Join(r.value, " ") == text
  {
    if text != "" then
      JoinSplitOn(text, " ");
      Some(SplitOn(text, " "))
    else None
  }

  /** The word list `encode_text` works on, or `None` for each of its error branches. */
  function InputWords(text: PyValue): (r: Option<seq<string>>)
    ensures r.None? <==> text.OtherValue? || text == Str("") || text == StrList([])
    ensures r.Some? ==> |r.value| >= 1
    ensures text.StrList? && r.Some? ==> r.value == text.items
  {
    match text
    case Str(s) => TokeniseRow(s)
    case StrList(items) => if |items| == 0 then None else Some(items)
    case OtherValue => None
  }

  /**
   * `encode_text(text)` against the stored vocabulary `bow`: `None` is the
   * raised encoding error (non-str, non-list, empty text, empty list), which
   * leaves the vocabulary as it was.
   */
  function Encode(bow: Bow, text: PyValue): (r: Option<Encoding>)
    requires WellFormed(bow)
    ensures r.None? <==> text.OtherValue? || text == Str("") || text == StrList([])
    ensures r.Some? ==> |r.value.ids| >= 1 && WellFormed(r.value.bow)
  {
    match InputWords(text)
    case None => None
    case Some(words) => Some(EncodeWords(bow, words))
  }

  // ---- Properties of encoding ----

  /** Encoding a prefix of the words gives the matching prefix of the ids. */
  lemma {:induction false} EncodePrefix(bow: Bow, words: seq<string>, m: nat)
    requires WellFormed(bow) && m <= |words|
    ensures EncodeWords(bow, words[..m]).ids == EncodeWords(bow, words).ids[..m]
    decreases |words| - m
  {
    if m < |words| {
      EncodePrefix(bow, words, m + 1);
      EncodeWordsSnoc(bow, words, m);
      var prev := EncodeWords(bow, words[..m]);
      var next := EncodeStep(prev, words[m]);
      assert |prev.ids| == m;
      assert next.ids[..m] == prev.ids;
      var full := EncodeWords(bow, words).ids;
      TakeTake(full, m, m + 1);
    } else {
      TakeAll(words);
    }
  }

  /**
   * What happens to the word at position `k`: if its lower-cased form is
   * known (truthy) in the dict as it stands at that point, it gets that id and
   * the dict is not touched; otherwise it gets `len(bow) + 1` of that moment
   * and is stored under its lower-cased, stripped form.
   */
  lemma EncodeStepAt(bow: Bow, words: seq<string>, k: nat)
    requires WellFormed(bow) && k < |words|
    ensures var before := EncodeWords(bow, words[..k]);
            var after := EncodeWords(bow, words[..k + 1]);
            var found := GetWordId(before.bow, LookupKey(words[k]));
            && (Truthy(found) ==> EncodeWords(bow, words).ids[k] == found.value && after.bow == before.bow)
            && (!Truthy(found) ==>
                  && EncodeWords(bow, words).ids[k] == |before.bow| + 1
                  && GetWordId(after.bow, StoreKey(words[k])) == Some(|before.bow| + 1))
  {
    EncodePrefix(bow, words, k + 1);
    EncodeWordsSnoc(bow, words, k);
    var before := EncodeWords(bow, words[..k]);
    PutGet(before.bow, StoreKey(words[k]), |before.bow| + 1);
  }

  /** Each word's lower-cased form maps to its (non-zero) id in `bow`. */
  predicate IdsMatch(bow: Bow, words: seq<string>, ids: seq<int>) {
    |ids| == |words|
    && forall k :: 0 <= k < |words| ==> GetWordId(bow, LookupKey(words[k])) == Some(ids[k]) && ids[k] != 0
  }

  /** Every key known (truthy) in `before` has the same id in `after`. */
  ghost predicate KeepsKnown(before: Bow, after: Bow) {
    forall key :: Truthy(GetWordId(before, key)) ==> GetWordId(after, key) == GetWordId(before, key)
  }

  lemma KeepsKnownTransitive(a: Bow, b: Bow, c: Bow)
    requires KeepsKnown(a, b) && KeepsKnown(b, c)
    ensures KeepsKnown(a, c)
  {
  }

  /** A word that is already known keeps the dict as it is and gets its id. */
  lemma CanonicalStepKnown(prev: Encoding, words: seq<string>, n: nat)
    requires n < |words| && WellFormed(prev.bow) && IdsMatch(prev.bow, words[..n], prev.ids)
    requires Truthy(GetWordId(prev.bow, LookupKey(words[n])))
    ensures var r := EncodeStep(prev, words[n]);
            r.bow == prev.bow && IdsMatch(r.bow, words[..n + 1], r.ids)
  {
    var v := GetWordId(prev.bow, LookupKey(words[n])).value;
    var ids := prev.ids + [v];
    assert EncodeStep(prev, words[n]) == Encoding(ids, prev.bow, prev.changed);
    forall k | 0 <= k <= n
      ensures GetWordId(prev.bow, LookupKey(words[..n + 1][k])) == Some(ids[k]) && ids[k] != 0
    {
      if k < n {
        assert words[..n + 1][k] == words[..n][k];
      }
    }
  }

  /**
   * A canonical word that is not known is stored under its lookup key with a
   * fresh id; the keys of the earlier words, all known, are not touched.
   */
  lemma CanonicalStepNew(prev: Encoding, words: seq<string>, n: nat)
    requires n < |words| && WellFormed(prev.bow) && IdsMatch(prev.bow, words[..n], prev.ids)
    requires Canonical(words[n]) && !Truthy(GetWordId(prev.bow, LookupKey(words[n])))
    ensures var r := EncodeStep(prev, words[n]);
            IdsMatch(r.bow, words[..n + 1], r.ids) && KeepsKnown(prev.bow, r.bow)
  {
    var key := LookupKey(words[n]);
    var id := |prev.bow| + 1;
    var after := Put(prev.bow, key, id);
    var ids := prev.ids + [id];
    CanonicalKeys(words[n]);
    PutGet(prev.bow, key, id);
    assert EncodeStep(prev, words[n]) == Encoding(ids, after, true);
    forall k | 0 <= k <= n
      ensures GetWordId(after, LookupKey(words[..n + 1][k])) == Some(ids[k]) && ids[k] != 0
    {
      if k < n {
        assert words[..n + 1][k] == words[..n][k];
        assert GetWordId(prev.bow, LookupKey(words[..n][k])) == Some(prev.ids[k]);
      }
    }
  }

  /**
   * One step of encoding a canonical word keeps every earlier word's
   * lower-cased form mapped to its id, maps the new word to its own id, and
   * keeps every known entry.
   */
  lemma CanonicalStep(prev: Encoding, words: seq<string>, n: nat)
    requires n < |words| && WellFormed(prev.bow) && IdsMatch(prev.bow, words[..n], prev.ids)
    requires Canonical(words[n])
    ensures var r := EncodeStep(prev, words[n]);
            IdsMatch(r.bow, words[..n + 1], r.ids) && KeepsKnown(prev.bow, r.bow)
  {
    if Truthy(GetWordId(prev.bow, LookupKey(words[n]))) {
      CanonicalStepKnown(prev, words, n);
    } else {
      CanonicalStepNew(prev, words, n);
    }
  }

  lemma {:induction false} EncodeCanonicalLookupPrefix(bow: Bow, words: seq<string>, m: nat)
    requires WellFormed(bow) && m <= |words|
    requires forall k :: 0 <= k < |words| ==> Canonical(words[k])
    ensures var r := EncodeWords(bow, words[..m]);
            IdsMatch(r.bow, words[..m], r.ids) && KeepsKnown(bow, r.bow)
    decreases m
  {
    if m > 0 {
      EncodeCanonicalLookupPrefix(bow, words, m - 1);
      var prev := EncodeWords(bow, words[..m - 1]);
      EncodeWordsSnoc(bow, words, m - 1);
      CanonicalStep(prev, words, m - 1);
      KeepsKnownTransitive(bow, prev.bow, EncodeStep(prev, words[m - 1]).bow);
    }
  }

  /**
   * For canonical words, after encoding every word's lower-cased form maps to
   * the id the word received, and every entry that was already known keeps
   * its id.
   */
  lemma EncodeCanonicalLookup(bow: Bow, words: seq<string>)
    requires WellFormed(bow)
    requires forall k :: 0 <= k < |words| ==> Canonical(words[k])
    ensures var r := EncodeWords(bow, words);
            IdsMatch(r.bow, words, r.ids) && KeepsKnown(bow, r.bow)
  {
    EncodeCanonicalLookupPrefix(bow, words, |words|);
    TakeAll(words);
  }

  lemma {:induction false} EncodeKnownPrefix(bow: Bow, words: seq<string>, ids: seq<int>, m: nat)
    requires WellFormed(bow) && IdsMatch(bow, words, ids) && m <= |words|
    ensures EncodeWords(bow, words[..m]) == Encoding(ids[..m], bow, false)
    decreases m
  {
    if m > 0 {
      var n := m - 1;
      EncodeKnownPrefix(bow, words, ids, n);
      EncodeWordsSnoc(bow, words, n);
      assert GetWordId(bow, LookupKey(words[n])) == Some(ids[n]) && ids[n] != 0;
      assert EncodeStep(Encoding(ids[..n], bow, false), words[n]) == Encoding(ids[..n] + [ids[n]], bow, false);
      TakeSnoc(ids, n);
    }
  }

  /**
   * Encoding words that are all known (truthy under their lower-cased form)
   * returns exactly their ids and does not change, or flag a change of, the
   * vocabulary.
   */
  lemma EncodeKnownWords(bow: Bow, words: seq<string>, ids: seq<int>)
    requires WellFormed(bow) && IdsMatch(bow, words, ids)
    ensures EncodeWords(bow, words) == Encoding(ids, bow, false)
  {
    EncodeKnownPrefix(bow, words, ids, |words|);
    TakeAll(words);
    TakeAll(ids);
  }

  /**
   * Re-encoding canonical words against the vocabulary their first encoding
   * produced yields the same ids and neither changes nor flags a change of it.
   */
  lemma EncodeIdempotent(bow: Bow, words: seq<string>)
    requires WellFormed(bow)
    requires forall k :: 0 <= k < |words| ==> Canonical(words[k])
    ensures var r := EncodeWords(bow, words);
            EncodeWords(r.bow, words) == Encoding(r.ids, r.bow, false)
  {
    var r := EncodeWords(bow, words);
    EncodeCanonicalLookup(bow, words);
    EncodeKnownWords(r.bow, words, r.ids);
  }

  /**
   * A canonical word already in the vocabulary with a truthy id gets that id,
   * and its entry is left as it was.
   */
  lemma EncodeExistingWord(bow: Bow, words: seq<string>, k: nat)
    requires WellFormed(bow) && k < |words|
    requires forall j :: 0 <= j < |words| ==> Canonical(words[j])
    requires Truthy(GetWordId(bow, LookupKey(words[k])))
    ensures var r := EncodeWords(bow, words);
            && r.ids[k] == GetWordId(bow, LookupKey(words[k])).value
            && GetWordId(r.bow, LookupKey(words[k])) == GetWordId(bow, LookupKey(words[k]))
  {
    EncodeCanonicalLookup(bow, words);
  }

  /**
   * The id a word received is meant to point at its lower-cased form in the
   * new vocabulary, and to be new exactly when the old vocabulary `bow` did
   * not hold that form.
   */
  predicate DenseIdAt(bow: Bow, after: Bow, word: string, id: int) {
    && 1 <= id <= |after|
    && after[id - 1].word == LookupKey(word)
    && (id > |bow| <==> Find(bow, LookupKey(word)).None?)
  }

  /**
   * What encoding `words` from the dense vocabulary `bow` is meant to leave:
   * a dense vocabulary extending `bow`, a change flag set exactly when it
   * grew, and ids that point at each word's lower-cased form, new exactly
   * for the words `bow` did not know.
   */
  predicate DenseExtension(bow: Bow, words: seq<string>, r: Encoding) {
    && Dense(r.bow)
    && |bow| <= |r.bow| && r.bow[..|bow|] == bow
    && (r.changed <==> |r.bow| > |bow|)
    && |r.ids| == |words|
    && forall k :: 0 <= k < |words| ==> DenseIdAt(bow, r.bow, words[k], r.ids[k])
  }

  /** A known word reuses the id at its position in the dense vocabulary. */
  lemma DenseStepKnown(bow: Bow, words: seq<string>, n: nat, prev: Encoding)
    requires n < |words| && Dense(bow) && DenseExtension(bow, words[..n], prev)
    requires Truthy(GetWordId(prev.bow, LookupKey(words[n])))
    ensures DenseExtension(bow, words[..n + 1], EncodeStep(prev, words[n]))
  {
    var key := LookupKey(words[n]);
    var i := Find(prev.bow, key).value;
    var ids := prev.ids + [i + 1];
    assert EncodeStep(prev, words[n]) == Encoding(ids, prev.bow, prev.changed);
    assert DenseIdAt(bow, prev.bow, words[n], i + 1) by {
      if i < |bow| {
        assert prev.bow[i] == prev.bow[..|bow|][i];
        FindAt(bow, key, i);
      } else {
        forall j | 0 <= j < |bow| ensures bow[j].word != key {
          assert prev.bow[j] == prev.bow[..|bow|][j];
        }
        FindNone(bow, key);
      }
    }
    forall k | 0 <= k <= n ensures DenseIdAt(bow, prev.bow, words[..n + 1][k], ids[k]) {
      if k < n {
        assert words[..n + 1][k] == words[..n][k];
      }
    }
  }

  /** An id that points correctly into a vocabulary still does after entries are appended. */
  lemma DenseIdAtGrow(bow: Bow, before: Bow, after: Bow, word: string, id: int)
    requires |before| <= |after| && after[..|before|] == before
    requires DenseIdAt(bow, before, word, id)
    ensures DenseIdAt(bow, after, word, id)
  {
    assert after[id - 1] == after[..|before|][id - 1];
  }

  /** A new word is appended with the next id, extending the dense vocabulary. */
  lemma DenseAppend(bow: Bow, words: seq<string>, n: nat, prev: Encoding)
    requires n < |words| && Dense(bow) && DenseExtension(bow, words[..n], prev)
    requires Find(prev.bow, LookupKey(words[n])).None?
    ensures var id := |prev.bow| + 1;
            DenseExtension(bow, words[..n + 1],
                           Encoding(prev.ids + [id], prev.bow + [Entry(LookupKey(words[n]), id)], true))
  {
    var key := LookupKey(words[n]);
    var id := |prev.bow| + 1;
    var after := prev.bow + [Entry(key, id)];
    var ids := prev.ids + [id];
    AppendPrefix(prev.bow, Entry(key, id));
    PrefixOfPrefix(prev.bow, after, |bow|);
    FindNone(prev.bow, key);
    forall j | 0 <= j < |bow| ensures bow[j].word != key {
      assert prev.bow[j] == prev.bow[..|bow|][j];
    }
    FindNone(bow, key);
    forall k | 0 <= k <= n ensures DenseIdAt(bow, after, words[..n + 1][k], ids[k]) {
      if k < n {
        assert words[..n + 1][k] == words[..n][k];
        DenseIdAtGrow(bow, prev.bow, after, words[..n][k], prev.ids[k]);
      }
    }
  }

  /** A canonical word that is not known is stored under its lookup key, which is a plain append. */
  lemma DenseStepNew(bow: Bow, words: seq<string>, n: nat, prev: Encoding)
    requires n < |words| && Dense(bow) && DenseExtension(bow, words[..n], prev) && Canonical(words[n])
    requires !Truthy(GetWordId(prev.bow, LookupKey(words[n])))
    ensures DenseExtension(bow, words[..n + 1], EncodeStep(prev, words[n]))
  {
    var key := LookupKey(words[n]);
    var id := |prev.bow| + 1;
    assert Find(prev.bow, key).None?;
    assert EncodeStep(prev, words[n]) == Encoding(prev.ids + [id], prev.bow + [Entry(key, id)], true) by {
      CanonicalKeys(words[n]);
    }
    DenseAppend(bow, words, n, prev);
  }

  lemma {:induction false} EncodeKeepsDensePrefix(bow: Bow, words: seq<string>, m: nat)
    requires Dense(bow) && m <= |words|
    requires forall k :: 0 <= k < |words| ==> Canonical(words[k])
    ensures DenseExtension(bow, words[..m], EncodeWords(bow, words[..m]))
    decreases m
  {
    if m == 0 {
      DenseNoWords(bow, words[..m]);
    } else {
      EncodeKeepsDensePrefix(bow, words, m - 1);
      DensePrefixStep(bow, words, m - 1);
    }
  }

  /** Encoding one more canonical word keeps a dense extension of `bow` dense. */
  lemma DensePrefixStep(bow: Bow, words: seq<string>, n: nat)
    requires n < |words| && Dense(bow) && Canonical(words[n])
    requires DenseExtension(bow, words[..n], EncodeWords(bow, words[..n]))
    ensures DenseExtension(bow, words[..n + 1], EncodeWords(bow, words[..n + 1]))
  {
    EncodeWordsSnoc(bow, words, n);
    DenseStep(bow, words, n, EncodeWords(bow, words[..n]));
  }

  /** Encoding no words leaves a dense vocabulary as it was. */
  lemma DenseNoWords(bow: Bow, words: seq<string>)
    requires Dense(bow) && |words| == 0
    ensures DenseExtension(bow, words, EncodeWords(bow, words))
  {
    TakeAll(bow);
  }

  /** One step of encoding a canonical word keeps the encoding a dense extension of `bow`. */
  lemma DenseStep(bow: Bow, words: seq<string>, n: nat, prev: Encoding)
    requires n < |words| && Dense(bow) && DenseExtension(bow, words[..n], prev) && Canonical(words[n])
    ensures DenseExtension(bow, words[..n + 1], EncodeStep(prev, words[n]))
  {
    if Truthy(GetWordId(prev.bow, LookupKey(words[n]))) {
      DenseStepKnown(bow, words, n, prev);
    } else {
      DenseStepNew(bow, words, n, prev);
    }
  }

  /**
   * Starting from a dense vocabulary, encoding canonical words keeps it dense
   * and only appends: ids stay exactly 1..len(bow), the old entries are a
   * prefix of the new ones, each id points at the word's lower-cased form,
   * a word gets a new id exactly when it was not in the old vocabulary, and
   * the change flag is set exactly when the vocabulary grew.
   */
  lemma EncodeKeepsDense(bow: Bow, words: seq<string>)
    requires Dense(bow)
    requires forall k :: 0 <= k < |words| ==> Canonical(words[k])
    ensures DenseExtension(bow, words, EncodeWords(bow, words))
  {
    EncodeKeepsDensePrefix(bow, words, |words|);
    TakeAll(words);
  }

  /** With a dense vocabulary and canonical words, two words share an id exactly when they lower-case alike. */
  lemma EncodeIdsDistinguishWords(bow: Bow, words: seq<string>, i: nat, j: nat)
    requires Dense(bow)
    requires forall k :: 0 <= k < |words| ==> Canonical(words[k])
    requires i < |words| && j < |words|
    ensures var r := EncodeWords(bow, words);
            r.ids[i] == r.ids[j] <==> LookupKey(words[i]) == LookupKey(words[j])
  {
    var r := EncodeWords(bow, words);
    EncodeKeepsDense(bow, words);
    EncodeCanonicalLookup(bow, words);
    IdsOfTwoWords(bow, r.bow, words[i], r.ids[i], words[j], r.ids[j]);
  }

  /** Two ids that point at their words' keys, and that those keys map to, are equal exactly when the keys are. */
  lemma IdsOfTwoWords(bow: Bow, after: Bow, u: string, idU: int, w: string, idW: int)
    requires DenseIdAt(bow, after, u, idU) && GetWordId(after, LookupKey(u)) == Some(idU)
    requires DenseIdAt(bow, after, w, idW) && GetWordId(after, LookupKey(w)) == Some(idW)
    ensures idU == idW <==> LookupKey(u) == LookupKey(w)
  {
  }

  /**
   * The stripping hazard: the lookup key `"hello\n"` is not found, so the
   * word gets id 2 but is stored under `"hello"`, overwriting id 1 without
   * growing the dict; the next new word then gets id 2 as well. Two different
   * words share an id, and the vocabulary is no longer dense.
   */
  lemma StripHazard()
    ensures !Canonical("hello\n")
    ensures EncodeWords([Entry("hello", 1)], ["hello\n", "world"])
            == Encoding([2, 2], [Entry("hello", 2), Entry("world", 2)], true)
    ensures !Dense([Entry("hello", 2), Entry("world", 2)])
  {
    HazardKeys();
    CanonicalKeys("hello\n");
    HazardEncoding();
    var after := [Entry("hello", 2), Entry("world", 2)];
    assert after[0].id != 0 + 1;
  }

  /** The two loop iterations of the hazard, one word each. */
  lemma HazardEncoding()
    ensures EncodeWords([Entry("hello", 1)], ["hello\n", "world"])
            == Encoding([2, 2], [Entry("hello", 2), Entry("world", 2)], true)
  {
    var bow := [Entry("hello", 1)];
    var words := ["hello\n", "world"];
    HazardFirstWord();
    HazardSecondWord();
    assert words[..1] == ["hello\n"];
    assert words[..1][..0] == [];
    assert EncodeWords(bow, words[..1]) == Encoding([2], [Entry("hello", 2)], true);
    assert words[..2] == words;
  }

  /** The token misses its lookup and overwrites `hello` with the id 2. */
  lemma HazardFirstWord()
    ensures EncodeStep(Encoding([], [Entry("hello", 1)], false), "hello\n")
            == Encoding([2], [Entry("hello", 2)], true)
  {
    HazardKeys();
    assert Find([Entry("hello", 1)], "hello\n").None?;
    assert Find([Entry("hello", 1)], "hello") == Some(0);
  }

  /** The next new word gets the same id 2. */
  lemma HazardSecondWord()
    ensures EncodeStep(Encoding([2], [Entry("hello", 2)], true), "world")
            == Encoding([2, 2], [Entry("hello", 2), Entry("world", 2)], true)
  {
    var bow := [Entry("hello", 2)];
    HazardKeys();
    assert "hello"[0] != "world"[0];
    assert Find(bow, "world").None?;
  }

  /** The lookup and store keys of the two tokens. */
  lemma HazardKeys()
    ensures LookupKey("hello\n") == "hello\n" && StoreKey("hello\n") == "hello"
    ensures LookupKey("world") == "world" && StoreKey("world") == "world"
  {
    HazardLower();
    assert StripLeft("hello\n") == "hello\n";
    assert StripRight("hello\n") == "hello" by {
      assert "hello\n"[..5] == "hello";
    }
    assert Trimmed("world");
  }

  lemma HazardLower()
    ensures Lower("hello\n") == "hello\n" && Lower("world") == "world"
  {
    var a := "hello\n";
    var b := "world";
    forall i | 0 <= i < |a| ensures Lower(a)[i] == a[i] {
      LowerCharFacts(a[i]);
    }
    forall i | 0 <= i < |b| ensures Lower(b)[i] == b[i] {
      LowerCharFacts(b[i]);
    }
  }

  // ---- Decoding ----

  /** No later entry shares the id of entry `i`. */
  predicate LastWithId(bow: Bow, i: nat)
    requires i < |bow|
  {
    forall j :: i < j < |bow| ==> bow[j].id != bow[i].id
  }

  /**
   * `{value: key for key, value in bow.items()}`: every id in use maps to the
   * key of its last entry in insertion order.
   */
  function Reverse(bow: Bow): map<int, string> {
    if |bow| == 0 then map[]
    else Reverse(bow[..|bow| - 1])[bow[|bow| - 1].id := bow[|bow| - 1].word]
  }

  /**
   * Every id in use is mapped, nothing else is, and an id maps to the key of
   * its last entry in insertion order.
   */
  lemma {:induction false} ReverseFacts(bow: Bow)
    ensures forall i :: 0 <= i < |bow| ==> bow[i].id in Reverse(bow)
    ensures forall id :: id in Reverse(bow) ==> exists i :: 0 <= i < |bow| && bow[i].id == id
    ensures forall i :: 0 <= i < |bow| && LastWithId(bow, i) ==> Reverse(bow)[bow[i].id] == bow[i].word
    decreases |bow|
  {
    if |bow| > 0 {
      var init := bow[..|bow| - 1];
      var last := bow[|bow| - 1];
      ReverseFacts(init);
      var r := Reverse(bow);
      assert r == Reverse(init)[last.id := last.word];
      forall i | 0 <= i < |bow| ensures bow[i].id in r {
        if i < |bow| - 1 {
          assert init[i] == bow[i];
        }
      }
      forall id | id in r ensures exists i :: 0 <= i < |bow| && bow[i].id == id {
        if id != last.id {
          var i :| 0 <= i < |init| && init[i].id == id;
          assert bow[i] == init[i];
        } else {
          assert bow[|bow| - 1].id == id;
        }
      }
      forall i | 0 <= i < |bow| && LastWithId(bow, i) ensures r[bow[i].id] == bow[i].word {
        if i < |bow| - 1 {
          assert bow[i].id != last.id;
          assert init[i] == bow[i];
          forall j | i < j < |init| ensures init[j].id != init[i].id {
            assert init[j] == bow[j];
          }
          assert LastWithId(init, i);
        }
      }
    }
  }

  /** On a dense vocabulary the inverse map sends each id 1..len(bow) back to its word, and nothing else is mapped. */
  lemma ReverseDense(bow: Bow)
    requires Dense(bow)
    ensures forall id :: id in Reverse(bow) <==> 1 <= id <= |bow|
    ensures forall i :: 0 <= i < |bow| ==> Reverse(bow)[i + 1] == bow[i].word
  {
    var r := Reverse(bow);
    ReverseFacts(bow);
    forall i | 0 <= i < |bow| ensures i + 1 in r && r[i + 1] == bow[i].word {
      assert bow[i].id == i + 1;
      assert LastWithId(bow, i);
    }
    forall id | 1 <= id <= |bow| ensures id in r {
      assert bow[id - 1].id == id;
    }
  }

  /**
   * The loop of `convert_vector_to_text`: `reverse_bow[word]` for each id in
   * order; the first id without an entry is a `KeyError` (`None`).
   */
  function DecodeIds(rev: map<int, string>, ids: seq<int>): (r: Option<seq<string>>)
    ensures r.None? <==> exists i :: 0 <= i < |ids| && ids[i] !in rev
    ensures r.Some? ==> |r.value| == |ids| && forall i :: 0 <= i < |ids| ==> r.value[i] == rev[ids[i]]
  {
    if |ids| == 0 then Some([])
    else
      var init := ids[..|ids| - 1];
      assert forall i :: 0 <= i < |ids| - 1 ==> init[i] == ids[i];
      match DecodeIds(rev, init)
      case None => None
      case Some(ws) =>
        if ids[|ids| - 1] in rev then Some(ws + [rev[ids[|ids| - 1]]]) else None
  }

  /** Decoding one more id that has an entry appends its word. */
  lemma DecodeIdsSnoc(rev: map<int, string>, ids: seq<int>, n: nat)
    requires n < |ids| && DecodeIds(rev, ids[..n]).Some? && ids[n] in rev
    ensures DecodeIds(rev, ids[..n + 1]) == Some(DecodeIds(rev, ids[..n]).value + [rev[ids[n]]])
  {
    TakeTake(ids, n, n + 1);
  }

  /** The argument of `convert_vector_to_text`: a list of ids, or anything else. */
  datatype VectorArg = IdList(ids: seq<int>) | OtherVector

  /** What `convert_vector_to_text` does: the decoded text, a `KeyError`, or an implicit `None`. */
  datatype Decoded = DecodedText(text: string) | UnknownId | NoneReturned

  /** `convert_vector_to_text(vector)` against the stored vocabulary `bow`. */
  function ConvertVector(bow: Bow, vector: VectorArg): (r: Decoded)
    ensures vector.OtherVector? <==> r.NoneReturned?
    ensures vector.IdList? ==>
              (r.UnknownId? <==> exists i :: 0 <= i < |vector.ids| && vector.ids[i] !in Reverse(bow))
  {
    match vector
    case OtherVector => NoneReturned
    case IdList(ids) =>
      match DecodeIds(Reverse(bow), ids)
      case None => UnknownId
      case Some(ws) => DecodedText(Join(ws, " "))
  }

  /** `[w.lower() for w in words]`. */
  function LowerAll(words: seq<string>): (r: seq<string>)
    ensures |r| == |words| && forall i :: 0 <= i < |words| ==> r[i] == Lower(words[i])
  {
    seq(|words|, i requires 0 <= i < |words| => Lower(words[i]))
  }

  /**
   * Decoding what encoding produced gives back the lower-cased words, in
   * order, joined by single spaces (dense vocabulary, canonical words).
   */
  lemma DecodeEncoded(bow: Bow, words: seq<string>)
    requires Dense(bow)
    requires forall k :: 0 <= k < |words| ==> Canonical(words[k])
    ensures var r := EncodeWords(bow, words);
            && DecodeIds(Reverse(r.bow), r.ids) == Some(LowerAll(words))
            && ConvertVector(r.bow, IdList(r.ids)) == DecodedText(Join(LowerAll(words), " "))
  {
    var r := EncodeWords(bow, words);
    EncodeKeepsDense(bow, words);
    ReverseDense(r.bow);
    var d := DecodeIds(Reverse(r.bow), r.ids);
    forall i | 0 <= i < |words| ensures r.ids[i] in Reverse(r.bow) && Reverse(r.bow)[r.ids[i]] == Lower(words[i]) {
      assert r.bow[r.ids[i] - 1].word == LookupKey(words[i]);
    }
    assert d.Some?;
    assert d.value == LowerAll(words);
  }

  /** On a dense vocabulary, decoding fails exactly when some id lies outside 1..len(bow). */
  lemma DecodeUnknownId(bow: Bow, ids: seq<int>)
    requires Dense(bow)
    ensures ConvertVector(bow, IdList(ids)) == UnknownId <==> exists i :: 0 <= i < |ids| && !(1 <= ids[i] <= |bow|)
  {
    ReverseDense(bow);
  }
}
