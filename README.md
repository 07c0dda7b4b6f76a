# svdb: a small vector store, modelled in Dafny

svdb is a simple document store. It encodes free text into lists of integer
word ids using a vocabulary that only grows. It stores each document as a row
`index || uuid || ids`, and it answers "which stored document is closest to
this text?" by scoring every row against the encoded query.

This model covers four parts of the program:

- **The vocabulary** (`vocabulary.dfy`, module `Vocabulary`). The dict `bow` is
  an insertion-ordered list of `(word, id)` entries with distinct keys.
  `encode_text` and `convert_vector_to_text` are specified by pure functions
  over it. `EncodeWords` is the word loop. `Reverse` is the inverted
  dictionary. `DecodeIds` is the decoding loop.
- **The store** (`database.dfy`, class `Database.Database`). The two files
  the program keeps become fields. `rows` is the row list and `bow` the
  vocabulary. `bowWrites` counts the rewrites of the vocabulary file.
  `EncodeText`, `InterfaceInsert` and `ConvertVectorToText` are methods with
  the program's loops, each proved equal to the pure functions.
- **The search** (`app.dfy`, module `App`). It parses a row back into its
  ids, replaces an empty vector by `[0]`, zero-pads the two vectors and picks
  the first row with the maximal score. The scoring loop is the method
  `AppFlow.FindClosestArticlesByText`, proved against the function `Search`.
- **The stop-word filter** (`helper.dfy`, module `Helper`).

`pytext.dfy` (module `PyText`) models the Python string operations the code
relies on: `split()`, `split(sep)`, `strip()`, `lower()`, `join`, `str(int)`
and `int(str)`. `wrappers.dfy` holds the `Option` type.

The vocabulary has one hazard. A word is looked up under `word.lower()` but
stored under `word.lower().strip()`. Since `tokenise_row` splits only on
`' '`, a token such as `"hello\n"` misses its lookup. It then overwrites the
entry `"hello"` with the id `len(bow) + 1`, and the dict does not grow. The
next new word receives the same id. `Vocabulary.StripHazard` works this
example through. The properties about distinct ids, idempotent re-encoding
and decoding therefore assume `Canonical` words: words whose lower-cased
form has no whitespace at either end. The search always satisfies this for
its query, because the stop-word filter rejoins whitespace-free words
(`App.QueryWordsCanonical`).

Some behaviours of the code are easy to mistake for something else; the model
keeps them as the code has them:

- The code has no tables, column schemas, primary-key checks or locks. It
  keeps one flat row list.
- Decoding an unknown id raises `KeyError` (`UnknownId`).
- A search over no rows returns `None`.
- The search returns the single best row.
- Empty text or an empty list is an encoding error.
- Existing vocabulary entries can be reassigned through the strip hazard.
  They are append-only only for canonical words.

## Model

| member | source | states |
|---|---|---|
| Vocabulary.GetWordId | simple-db/svdb/database.py:93-98 | the id stored under the word when the key is present, `None` (the caught `KeyError`) exactly when it is absent |
| Vocabulary.FindNone | simple-db/svdb/database.py:93-98 | a key is missing, so that `bow[word]` raises `KeyError`, exactly when no entry holds it |
| Vocabulary.Put | simple-db/svdb/database.py:121 | `dict.update` keeps the keys distinct; a new key is appended at the end and an existing key is overwritten without growing the dict |
| Vocabulary.PutGet | simple-db/svdb/database.py:121 | after `dict.update` the key maps to the new id and every other key maps to what it did before |
| Vocabulary.CanonicalKeys | simple-db/svdb/database.py:115-121 | the store key `lower().strip()` equals the lookup key `lower()` exactly for canonical words |
| Vocabulary.TrimmedIsCanonical | simple-db/svdb/database.py:115-121 | a word without whitespace at either end is canonical |
| Vocabulary.EncodeStep | simple-db/svdb/database.py:114-122 | one loop iteration keeps the dict well formed, adds exactly one non-zero id, grows the dict by at most one entry and leaves it untouched unless the change flag is set |
| Vocabulary.EncodeWords | simple-db/svdb/database.py:110-128 | one non-zero id per word, the dict stays well formed, grows by at most one entry per word, and is unchanged when the change flag is clear |
| Vocabulary.TokeniseRow | simple-db/svdb/database.py:74-78 | `None` exactly for the empty string; otherwise a non-empty token list whose join with `' '` is the original text |
| Vocabulary.InputWords | simple-db/svdb/database.py:102-109 | fails exactly on a non-str non-list value, the empty string and the empty list; a list is used as it is |
| Vocabulary.Encode | simple-db/svdb/database.py:100-133 | fails exactly on the error branches; otherwise at least one id and a well-formed vocabulary |
| Vocabulary.EncodePrefix | simple-db/svdb/database.py:110-128 | the ids of a prefix of the words are the same prefix of the ids: order and duplicates are preserved |
| Vocabulary.EncodeStepAt | simple-db/svdb/database.py:114-122 | at each position, a word known with a truthy id gets that id and the dict is left alone; otherwise it gets `len(bow) + 1` of that moment, stored under its lower-cased, stripped form |
| Vocabulary.EncodeCanonicalLookup | simple-db/svdb/database.py:114-122 | for canonical words, after encoding each word's lower-cased form maps to the id it received, and every previously known key keeps its id |
| Vocabulary.EncodeKnownWords | simple-db/svdb/database.py:114-126 | words that are all known return their ids, with the dict unchanged and no rewrite |
| Vocabulary.EncodeIdempotent | simple-db/svdb/database.py:114-126 | re-encoding canonical words against the vocabulary their first encoding produced returns the same ids, adds nothing and does not rewrite the file |
| Vocabulary.EncodeExistingWord | simple-db/svdb/database.py:114-117 | a canonical word already present with a truthy id gets that id, and its entry is unchanged |
| Vocabulary.EncodeKeepsDense | simple-db/svdb/database.py:118-122 | from a dense vocabulary (ids exactly 1..len), canonical words give a dense vocabulary that extends the old one. New ids go exactly to words the old one lacked. Each id points at its word's lower-cased form. The change flag is set exactly when the vocabulary grew |
| Vocabulary.EncodeIdsDistinguishWords | simple-db/svdb/database.py:118-122 | with a dense vocabulary and canonical words, two words get the same id if and only if they lower-case alike |
| Vocabulary.StripHazard | simple-db/svdb/database.py:115-121 | `"hello\n"` is not canonical; encoding `["hello\n", "world"]` against `{hello: 1}` gives ids `[2, 2]` and a dict that is no longer dense |
| Vocabulary.HazardFirstWord | simple-db/svdb/database.py:115-121 | the whitespace-carrying token misses its lookup and overwrites `hello` with id 2 without growing the dict |
| Vocabulary.HazardSecondWord | simple-db/svdb/database.py:118-122 | the next new word then receives the same id 2 |
| Vocabulary.HazardKeys | simple-db/svdb/database.py:115-121 | the lookup and store keys of the token differ |
| Vocabulary.ReverseFacts | simple-db/svdb/database.py:148 | the inverted dict maps every id in use, and nothing else, to the key of its last entry |
| Vocabulary.ReverseDense | simple-db/svdb/database.py:148 | on a dense vocabulary the inverted dict has domain 1..len and sends each id to its word |
| Vocabulary.DecodeIds | simple-db/svdb/database.py:150-152 | fails exactly when some id has no entry; otherwise the words of the ids, position by position |
| Vocabulary.ConvertVector | simple-db/svdb/database.py:146-153 | `None` exactly for a non-list argument, and a `KeyError` exactly when some id is missing from the inverted dict |
| Vocabulary.DecodeEncoded | simple-db/svdb/database.py:146-153 | with a dense vocabulary and canonical words, decoding the encoded ids gives back the lower-cased words, joined by single spaces |
| Vocabulary.DecodeUnknownId | simple-db/svdb/database.py:152 | on a dense vocabulary decoding fails exactly when some id lies outside 1..len |
| PyText.StripFacts | simple-db/svdb/database.py:121 | `strip()` leaves no whitespace at either end, returns a trimmed string unchanged, and returns a slice of its input |
| PyText.JoinSplitOn | simple-db/svdb/database.py:77 | joining the pieces of `s.split(sep)` with `sep` gives `s` back |
| PyText.SplitOnJoin | simple-db/svdb/app.py:62 | splitting a join of pieces that do not contain the separator's first character gives the pieces back |
| PyText.WordsJoin | simple-db/svdb/helper.py:23 | `split()` on words joined by single spaces gives the words back |
| PyText.IntToString | simple-db/svdb/database.py:140 | `str(n)` is non-empty, starts with a minus sign exactly when `n` is negative, and is digits after that first character |
| PyText.ParseIntToString | simple-db/svdb/app.py:64 | `int(str(n)) == n` |
| PyText.ParseInts | simple-db/svdb/app.py:64 | `map(int, tokens)`: one integer per token, or a failure exactly when some token is not an integer |
| PyText.ParseIntsToStrings | simple-db/svdb/app.py:64 | parsing the printed ids gives the ids back |
| Database.RowFields | simple-db/svdb/database.py:140-143 | a row built by `interface_insert`, with a uuid free of vertical bars, splits on the double-bar delimiter into exactly the row number, the uuid and the id text |
| Database.Database.constructor | simple-db/svdb/database.py:19-25 | the store opens over the stored rows and vocabulary with the next row number `len(rows) + 1` |
| Database.Database.CurrentIdx | simple-db/svdb/database.py:135-136 | the next row number is one more than the number of stored rows |
| Database.Database.QueryAllDocument | simple-db/svdb/database.py:38-46 | returns all stored rows in order |
| Database.Database.InsertInto | simple-db/svdb/database.py:27-32 | appends exactly the given row and changes nothing else |
| Database.Database.LoadBow | simple-db/svdb/database.py:80-87 | returns the stored vocabulary |
| Database.Database.DumpBow | simple-db/svdb/database.py:89-91 | replaces the stored vocabulary and counts one rewrite |
| Database.EncodeWord | simple-db/svdb/database.py:114-122 | one iteration of the word loop, written with the lookup, the truth test and `update`, computes exactly `EncodeStep` |
| Database.EncodeLoop | simple-db/svdb/database.py:110-122 | the word loop of `encode_text` computes exactly `EncodeWords`: the ids, the dict afterwards and the change flag |
| Database.Database.EncodeText | simple-db/svdb/database.py:100-133 | returns the ids `Encode` specifies and leaves the vocabulary it specifies. The file is rewritten once exactly when the change flag is set, which includes an overwrite through the strip hazard that adds no key. On failure nothing changes |
| Database.Database.InterfaceInsert | simple-db/svdb/database.py:138-144 | on success exactly one row is appended and earlier rows are unchanged. The row holds the number `len(rows) + 1`, the uuid and the ids `encode_text` produced, separated by the double-bar delimiter. On failure nothing changes |
| Database.Database.ConvertVectorToText | simple-db/svdb/database.py:146-153 | the decoding loop returns exactly what `ConvertVector` specifies |
| App.RowRoundTrip | simple-db/svdb/app.py:61-64 | `get_text_from_row` on a row built by `interface_insert` returns exactly the ids it was built with |
| App.PadArrays | simple-db/svdb/app.py:66-76 | both outputs have length `max(len1, len2)`. Each input is a prefix of its output and only zeros are appended. The longer (or equal) vector is unchanged |
| App.PadArraysIdempotent | simple-db/svdb/app.py:66-76 | padding an already padded pair changes nothing |
| App.NonEmptyOrZero | simple-db/svdb/app.py:93-96 | an empty vector becomes `[0]`, a non-empty one is kept |
| App.PrepareVectors | simple-db/svdb/app.py:91-98 | the two scored vectors have the same length, at least 1, and start with the query ids and the row ids |
| App.FirstArgMax | simple-db/svdb/app.py:108 | `np.argmax`: the returned index holds the maximum, and every earlier element is strictly smaller |
| App.ScoreRow | simple-db/svdb/app.py:85-104 | an unparsable row fails to parse, a row with no filtered ids scores 0, and a scoring failure happens only on the scoring branch |
| App.ScanRows | simple-db/svdb/app.py:83-105 | a completed scan has one score per row, in row order, each the row's score against the same query ids |
| App.ScanStoppedAt | simple-db/svdb/app.py:84-104 | an interrupted scan stopped at the first row that did not score, with `BadRow` for a parse failure and `ScoreFailed` (after encoding) for a scoring failure |
| App.ScanEncoded | simple-db/svdb/app.py:84-91 | a completed scan encoded the query exactly when some row reached the scoring branch |
| App.QueryEncoding | simple-db/svdb/app.py:80-91 | the query encoding is absent exactly when the filtered query is empty |
| App.Search | simple-db/svdb/app.py:78-109 | `None` for an empty filtered query and for no rows; a returned row is one of the stored rows |
| App.SearchClosest | simple-db/svdb/app.py:84-109 | a returned row is the first row with the maximal score, and every row scored |
| App.SearchFindsRow | simple-db/svdb/app.py:84-109 | with a non-empty query, at least one row and every row scoring, a row is returned |
| App.SearchFailure | simple-db/svdb/app.py:85-104 | `BadRow` implies some row does not parse; `ScoreFailed` implies some row reached scoring |
| App.QueryWordsCanonical | simple-db/svdb/app.py:80-91 | the words `encode_text` receives from the filtered query are canonical |
| App.QueryStable | simple-db/svdb/app.py:91 | re-encoding the query after its first encoding gives the same ids and does not change or rewrite the vocabulary |
| App.SearchKeepsDense | simple-db/svdb/app.py:91 | a dense vocabulary stays dense through a search |
| App.AppFlow.constructor | simple-db/svdb/app.py:15-17 | opens the database over the stored rows and vocabulary, with the next row number `len(rows) + 1`, and loads its vocabulary |
| App.AppFlow.FindClosestArticlesByText | simple-db/svdb/app.py:78-109 | returns what `Search` specifies over the rows and vocabulary at the start. The rows and the next row number are unchanged. The vocabulary changes only to the query's first encoding, and it is rewritten at most once |
| Helper.Keep | simple-db/svdb/helper.py:23 | the kept words are input words that are not stop words, and every non-stop input word is kept |
| Helper.KeepAll | simple-db/svdb/helper.py:23 | filtering a list with no stop words keeps all of it |
| Helper.FilterStopwordsInText | simple-db/svdb/helper.py:11-23 | non-str input gives `""`. Otherwise the output's words are exactly the non-stop input words, in order, compared case-sensitively. The output is those words joined by single spaces. It is empty exactly when every word is a stop word |
| Helper.FilterIdempotent | simple-db/svdb/helper.py:23 | filtering the output again returns it unchanged |
| Helper.FilteredWords | simple-db/svdb/helper.py:23 | a non-empty filtered text splits on `' '` into its words, each free of whitespace |

## Left out

- Pickle files and `os.getcwd()` paths: the files are the fields `rows` and `bow`. An empty file, the `EOFError` branch, means an empty field. A missing file raises an error when the store is opened or the vocabulary is loaded. That error is not modelled.
- `uuid.uuid4()` is a parameter of `InterfaceInsert`. The round trip assumes it contains no `|`, as a printed uuid4 never does.
- `query_by_id` and `validate_row` are not modelled. They call `split` on a list and are never called.
- The exceptions' messages are not modelled. Every error branch is a plain failure outcome (`None`, `false`, `UnknownId`, `BadRow`).
- `fetch_from_url` and `write_to_db_from_url` are HTTP and HTML scraping.
- `cosine_similarity` and the numpy arrays are floating point. The score is a function parameter returning `Option<real>`, where `None` is the caught `ValueError`.
- `filter_stopwords_encoded` is not defined in the helper module. It is a function parameter on id lists.
- Loading the stop-word list from nltk is left out. The stop-word set is a parameter.
- The command-line interface (`main.py`), the script `test.py`, the exception classes of `errors.py` and the site configuration are not part of this model.
- Concurrency: the code has no threads or locks.
- PyText.Lower: lower-cases ASCII letters only, because full Unicode case mapping is not modelled.
- PyText.ParseInt: accepts an optional sign and ASCII digits only. Underscores, surrounding whitespace and non-ASCII digits, which `int()` also accepts, are not modelled.
- Database.Database.EncodeText: a list argument is modelled as a list of strings. A list holding non-strings, which fails in `lower()`, is not modelled.
- App.FirstArgMax: is on reals, so the behaviour of `np.argmax` on NaN scores is not modelled.
- App.AppFlow.FindClosestArticlesByText: the returned value -1 for a caught `ValueError` is the outcome `ScoreFailed`. A `ValueError` from `int()` in `get_text_from_row` escapes the search; it is the outcome `BadRow`.
