# Valluvan core in Dafny

Valluvan is a browser application for reading the Thirukkural. It keeps the 1330 couplets
(each with its number `kno`) in a DuckDB database and shows them by title, heading and
chapter. It also offers a semantic search: every couplet has a stored embedding, and a query
is answered by ranking the couplets by similarity to the query's embedding.

This project models the parts of the application that compute something:

- the decoding of stored embedding blobs into vectors (`processEmbeddingBinding`,
  `hexStringToFloatArray`);
- building the in-memory vector store (`singletonKurals`, `fetchAndStoreSingletonDb`) and
  ranking it against a query (`retrieveRelatedDocuments`, `searchSentences`);
- the quote escaping and select lists of the couplet queries;
- the influencer counting and node/edge construction of the relationship graph;
- the state the `App` component keeps, and its handlers: the accordion toggles, the chapter
  cache, the related-id normalisation, the search dispatch and the predefined searches.

Modules, one per file:

- `Wrappers`: `Option`.
- `JsText`: the JavaScript string built-ins the core uses. These are `\s` (white space and
  line terminators), `trim`, `split` and `join` on one character, global removal of a
  character, and integers in template literals.
- `JsNumber`: which strings `isNaN` accepts as numbers. This is the StringNumericLiteral
  grammar of section 7.1.4.1 of ECMA-262.
- `EmbeddingCodec`: blob cleaning, `parseInt(pair, 16)` with its `Uint8Array` conversion,
  `/.{1,2}/g`, padding, and the method over arrays. An encoder is included for the round
  trip.
- `VectorStore`: rows to records, the stable descending sort by score, `slice(0, topN)`, and
  the class `DbManager` holding `singletonDb`.
- `CoupletQueries`: `replace(/'/g, "''")` and how SQL reads such a literal back, plus the
  select lists.
- `NetworkGraph`: `influencerNodes` as a method with loops, and the class `GraphData`
  holding the node and edge lists.
- `App`: pure updaters and the class `AppState` whose methods are the handlers.

External services are parameters. Each handler receives what its call would return, with
`None` where the call throws. This covers:

- the database (`RowSource`, fetched rows);
- the embedding service (the query embedding);
- the explanation lookup and the related-couplet query (functions);
- the translation tables (the translated question, the preset categories).

The cosine similarity is a parameter `(Vector, Vector) -> real`.

Behaviour of the code the model keeps:

- `singletonKurals` catches a failing query and a missing database and returns `[]`.
  `fetchAndStoreSingletonDb` therefore replaces the store with an empty one, rather than
  keeping the previous store.
- `retrieveRelatedDocuments` does not reject `topN <= 0` or vectors of different lengths.
  `slice(0, topN)` with `topN <= 0` simply gives a shorter (possibly empty) list.
- Hex pairs that are not hexadecimal never make decoding fail. `parseInt` gives NaN or a
  partial value, and `Uint8Array` turns NaN into 0. Decoding fails only when
  `/.{1,2}/g` finds no match.
- When the embedding service fails, `searchSentences` gives `[]` and no error.
  `openAIResponse` then still opens the dialog, with `kno` undefined
  (`App.AppState.HandleSearchSubmit`, `App.FirstKno`).

## Model

| member | source | states |
|---|---|---|
| JsText.TrimStartSlice | src/App.js:119 | `trimStart` keeps a suffix, drops only white space and line terminators, and stops at the first other character |
| JsText.TrimEndSlice | src/App.js:119 | `trimEnd` keeps a prefix, drops only white space and line terminators, and stops at the last other character |
| JsText.TrimSlice | src/App.js:119 | the trim is a slice of the input with only white space or line terminators outside it and none at its ends |
| JsText.TrimKeepsChars | src/App.js:119 | trimming never introduces a character |
| JsText.Split | src/App.js:118 | `split` on one character gives one more field than there are separators, none containing it |
| JsText.SplitJoin | src/App.js:118-120 | splitting a join of separator-free parts gives the parts back |
| JsText.JoinSplit | src/App.js:118-120 | joining the fields of a split gives the string back |
| JsText.JoinCount | src/App.js:120 | a join holds one separator between neighbouring parts plus those in the parts |
| JsText.RemoveChar | src/App.js:121-122 | global removal leaves no occurrence of the character |
| JsText.RemoveCharCount | src/App.js:121-122 | removing one character keeps the count of every other character |
| JsText.RemoveCharSep | src/App.js:120-122 | removing a character other than the separator works on each side of the separator |
| JsText.NatToString | src/components/NetworkGraph.js:41 | `${i}` of a natural number is a non-empty string of digits without a leading zero |
| JsText.DecimalValueOfNatToString | src/components/NetworkGraph.js:41 | the decimal text of `n` reads back as `n` |
| JsText.NatToStringInjective | src/components/NetworkGraph.js:39-43 | different numbers have different texts |
| JsText.IntToStringInjective | src/components/NetworkGraph.js:48-49 | different integers (with sign) have different texts |
| JsNumber.StrNumericLiteralChars | src/App.js:187 | a string `isNaN` accepts is made only of digits, signs, `.`, exponent and radix letters, hexadecimal digits and the letters of `Infinity` |
| JsNumber.DigitsAreNumeric | src/App.js:187 | a non-empty run of decimal digits is a number for `isNaN` |
| EmbeddingCodec.RemoveFirstAt | src/utils/DbManager.js:131 | removing the first `Optional(x'` splices out exactly its first occurrence |
| EmbeddingCodec.RemoveFirstAbsent | src/utils/DbManager.js:131 | without an occurrence the text is unchanged |
| EmbeddingCodec.RemoveClosingAt | src/utils/DbManager.js:132 | `/'?\)/` removes the first `)` together with a quote right before it |
| EmbeddingCodec.RemoveClosingAbsent | src/utils/DbManager.js:132 | without `)` the text is unchanged |
| EmbeddingCodec.StripWhitespace | src/utils/DbManager.js:133 | the result holds no `\s` character |
| EmbeddingCodec.StripWhitespaceAppend | src/utils/DbManager.js:133 | stripping distributes over concatenation, so the kept characters stay in their order |
| EmbeddingCodec.StripWhitespaceKeeps | src/utils/DbManager.js:133 | every other character keeps its number of occurrences |
| EmbeddingCodec.ProcessEmbeddingBinding | src/utils/DbManager.js:128-151 | decoding gives no vector exactly when the cleaned blob is empty or is the single `x` the leading-`x` removal empties |
| EmbeddingCodec.ProcessEmbeddingBindingOfWrapped | src/utils/DbManager.js:128-151 | a blob printed as `Optional(x'<hex>')` decodes to the floats whose bytes the hex spells |
| EmbeddingCodec.HexDigitsPrefixLongest | src/utils/DbManager.js:162 | `parseInt` reads a prefix of the text that ends just before the first character that is not a hexadecimal digit |
| EmbeddingCodec.PairByteOfHexDigits | src/utils/DbManager.js:162 | a pair of hexadecimal digits gives the byte `16a + b` |
| EmbeddingCodec.PairByteOfDigitAndJunk | src/utils/DbManager.js:162 | a digit followed by a non-digit gives the digit's value (partial `parseInt`) |
| EmbeddingCodec.PairByteOfJunk | src/utils/DbManager.js:162 | a pair whose first character is no hexadecimal digit, sign or white space gives NaN, stored as byte 0 |
| EmbeddingCodec.DecodeBytesNone | src/utils/DbManager.js:161-163 | the byte conversion fails (the match is null and the thrown error is caught) exactly when the text has even length and is all line terminators, the empty text included |
| EmbeddingCodec.DecodeBytesOfHexDigits | src/utils/DbManager.js:156-163 | a hexadecimal string gives ceil(n/2) bytes, each the value of its pair after the `0` prefix of an odd length |
| EmbeddingCodec.PaddedLength | src/utils/DbManager.js:170 | `ceil(n/4)*4` is the least multiple of 4 not below n |
| EmbeddingCodec.PadTo4 | src/utils/DbManager.js:166-174 | the padded bytes are the bytes followed by zeros, unchanged when already a multiple of 4 |
| EmbeddingCodec.HexToFloats | src/utils/DbManager.js:153-183 | the result is present exactly when the bytes are, with one float per 4 padded bytes |
| EmbeddingCodec.HexStringToFloatArray | src/utils/DbManager.js:153-183 | the array-based conversion returns exactly `HexToFloats` of its input |
| EmbeddingCodec.HexToFloatsOfEncodeHex | src/utils/DbManager.js:153-183 | decoding the hex spelling of a non-empty float list gives the list back |
| EmbeddingCodec.OddLengthDecodesAsZeroPadded | src/utils/DbManager.js:156-159 | for an odd-length hexadecimal string, the first byte is the value of its first digit and each later byte the value of the two digits after it, as with a `0` in front |
| VectorStore.DecodeRow | src/utils/DbManager.js:199-209 | a row gives a record exactly when its blob is truthy and decodes, with the row's `kno` as id and the decoded vector |
| VectorStore.KeptRecordsAt | src/utils/DbManager.js:198-210 | the store is the records of the rows before a row, that row's record if it decodes, then those after it, in row order |
| VectorStore.KeptRecordsFromRows | src/utils/DbManager.js:198-210 | every store record is the decoding of some row |
| VectorStore.InsertByScorePerm | src/utils/DbManager.js:86-88 | an insertion step of the sort adds its index and loses none |
| VectorStore.SortByScore | src/utils/DbManager.js:86-88 | the sort is a permutation of its input |
| VectorStore.SortByScoreOrdered | src/utils/DbManager.js:86-88 | the sort orders indices by descending score and keeps ties in index order |
| VectorStore.SortByScoreDistinct | src/utils/DbManager.js:86-88 | sorting keeps distinct indices distinct |
| VectorStore.RankedIndices | src/utils/DbManager.js:83-90 | the result has the slice's length and is a ranking (`IsRanking`): distinct indices, ordered by descending score with ties in index order, no left-out index scores higher than a kept one, and a left-out index that ties a kept one comes after it in the store |
| VectorStore.RetrieveRelatedDocuments | src/utils/DbManager.js:74-93 | without a query embedding the result is empty; otherwise it has the slice's length |
| VectorStore.RetrieveRelatedDocumentsRanked | src/utils/DbManager.js:74-93 | for every store, the ids are those of a ranking of the store by similarity (best first, ties in store order, nothing better or earlier-tied left out), `min(topN, n)` of them when `topN >= 0`, each the id of some store entry; for a store with distinct ids they are all distinct |
| VectorStore.RankedIndicesExample | src/utils/DbManager.js:83-90 | scores 1.0, 0.0, 0.994 with `topN` 2 rank indices 0 and 2 |
| VectorStore.RankedIndicesTie | src/utils/DbManager.js:86-89 | of two equal scores the earlier index wins |
| VectorStore.DbManager.constructor | src/utils/DbManager.js:22 | the store starts empty |
| VectorStore.DbManager.FetchAndStoreSingletonDb | src/utils/DbManager.js:114-126 | the store is replaced by what `singletonKurals` gives, `[]` when the database is missing or the query fails |
| VectorStore.DbManager.SearchSentences | src/utils/DbManager.js:102-104 | the ids are those retrieved from the current store; empty for a missing embedding or an empty store |
| CoupletQueries.EscapeQuotes | src/utils/DbManager.js:361 | doubling quotes lengthens the text by its number of quotes |
| CoupletQueries.UnescapeEscapeQuotes | src/utils/DbManager.js:361 | undoubling gives the chapter name back |
| CoupletQueries.ReadQuotedBodyOfEscaped | src/utils/DbManager.js:361 | SQL reads the escaped name up to the closing quote as the original name, and leaves the rest of the query |
| CoupletQueries.SqlStringLiteralReadsBack | src/utils/DbManager.js:361 | the quoted, escaped chapter compared in `WHERE` is exactly the chapter name, whatever quotes it holds |
| CoupletQueries.SelectPartColumns | src/utils/DbManager.js:353-356 | the select list is `kno`, the first-line column and the second-line column only when there is one |
| CoupletQueries.RelatedSelectPartColumns | src/utils/DbManager.js:381-385 | the related select list is the same columns followed by the explanation column |
| NetworkGraph.Normalize | src/components/NetworkGraph.js:11-15 | a link's pair holds its two endpoints, smaller first |
| NetworkGraph.NormalizeLinks | src/components/NetworkGraph.js:9-16 | the first loop builds the normalised pair of every link, in link order |
| NetworkGraph.CountIdNormalizeAll | src/components/NetworkGraph.js:9-16 | for every id, the pairs built number the links whose smaller endpoint it is |
| NetworkGraph.SortByIdSpec | src/components/NetworkGraph.js:17 | the sort orders pairs by ascending id and keeps, for each id, the number of pairs |
| NetworkGraph.FindInfluencer | src/components/NetworkGraph.js:21-27 | `find` gives the first entry with the id, or none when no entry has it |
| NetworkGraph.CountedNew | src/components/NetworkGraph.js:20-23 | pushing a new id with count 1 keeps one ascending entry per id read, each counting its pairs |
| NetworkGraph.CountedAgain | src/components/NetworkGraph.js:24-28 | incrementing the found entry keeps the same invariant |
| NetworkGraph.CountSorted | src/components/NetworkGraph.js:19-29 | over sorted pairs, the second loop leaves one ascending entry per id read, each counting its pairs, counts summing to the number of pairs |
| NetworkGraph.InfluencerNodes | src/components/NetworkGraph.js:6-33 | one entry per distinct smaller endpoint, ids strictly ascending, each count the number of links starting there (at least 1), counts summing to the number of links |
| NetworkGraph.NodesWellFormed | src/components/NetworkGraph.js:39-43 | the 1331 node ids are distinct, each reads back as its number, each label is `Kno ` and the id |
| NetworkGraph.EdgesMatchLinks | src/components/NetworkGraph.js:45-52 | two edges share a source (target) exactly when their links share `from` (`to`), and a link between couplet numbers joins two of the nodes |
| NetworkGraph.GraphData.constructor | src/components/NetworkGraph.js:35-38 | the graph data starts with the links and no nodes or edges |
| NetworkGraph.GraphData.Populate | src/components/NetworkGraph.js:35-52 | the node list becomes the 1331 couplet nodes and the edge list one edge per link, in order |
| App.NormalizeRelatedIds | src/App.js:116-122 | the normalised list holds no `[` or `]` |
| App.JoinCleanAll | src/App.js:117-122 | removing the brackets from the trimmed fields joined by commas is joining the fields each trimmed and stripped of brackets |
| App.NormalizeRelatedIdsJoin | src/App.js:117-122 | the normalised list is the input's comma fields, trimmed and stripped of brackets, joined by commas |
| App.NormalizeRelatedIdsFields | src/App.js:117-122 | its comma fields are the input's fields cleaned one by one, and it has as many commas as the input |
| App.NormalizeRelatedIdsTrims | src/App.js:117-120 | for input without brackets its fields are the input's fields trimmed |
| App.SearchDispatch | src/App.js:186-200 | a blank term does nothing, a numeric one (by `isNaN`) is looked up as it was typed, any other is a semantic search for 5 |
| App.SearchDigits | src/App.js:187-191 | a couplet number, with or without surrounding blanks, opens its explanation |
| App.SearchText | src/App.js:192-198 | a term with a visible character that no number can contain is a semantic search for 5 |
| App.SearchUnpadded | src/App.js:187-198 | a term without surrounding blanks is looked up exactly when it is a numeric literal |
| App.SearchHexExample | src/App.js:187 | `0x1F` is looked up as a couplet number |
| App.SearchInfinityExample | src/App.js:187 | `-Infinity` is looked up as a couplet number |
| App.SearchSignExample | src/App.js:192 | a lone `-` is a semantic search |
| App.FindCategory | src/App.js:216-218 | the first category, in key order, listing the question, or none exactly when no category lists it |
| App.QuestionIds | src/App.js:221 | a question's ids are present exactly when the category lists it, and are that question's ids |
| App.MergeChapters | src/App.js:93-99 | the merge sets `chapters[title][heading]` and keeps every other title and every other heading of the title |
| App.ChapterKeyFields | src/App.js:151 | for titles and headings without `-`, splitting the key on `-` gives back the title, the heading and the chapter's fields |
| App.ChapterKeyInjective | src/App.js:151-152 | for such titles and headings, equal keys mean the same chapter name (see "## Left out" for what the caller passes) |
| App.FirstKno | src/App.js:204-208 | `relatedIds[0]`, undefined exactly for an empty list |
| App.AppState.constructor | src/App.js:15-45 | every piece of state starts at its initial value |
| App.AppState.FetchChapters | src/App.js:86-104 | a fetched chapter list is merged into the cache; a failure sets the error and keeps the cache; nothing else changes |
| App.AppState.FetchCouplets | src/App.js:106-114 | the fetched couplets, or `[]` with the error set |
| App.AppState.HandleChapterClick | src/App.js:150-159 | clicking the open chapter closes it; any other chapter opens, and the couplet cache then holds exactly that chapter's couplets |
| App.AppState.HandleTitleChange | src/App.js:165-170 | expanding opens the title; collapsing sets it to false and clears every heading |
| App.AppState.HandleHeadingChange | src/App.js:172-180 | only the title's heading entry changes (to the heading or false), and chapters are fetched only on expansion |
| App.AppState.LoadRelated | src/App.js:123-132 | for the normalised list: `[]` without a query when it is empty; otherwise the queried couplets, or on failure the error set and the previous couplets kept |
| App.AppState.FetchRelatedIds | src/App.js:116-133 | the related couplets of the normalised list; `[]` without a query for an empty list; on failure the error is set and they are kept |
| App.AppState.FetchExplanation | src/App.js:135-148 | the explanation found (loading its related couplets), or the empty explanation with the error set; the new related couplets and error are `RelatedAfterExplanation` of the kno |
| App.AppState.OpenAIResponse | src/App.js:202-212 | the dialog opens on the first id (undefined for none) with its explanation and the whole id list; the related couplets and error are those `fetchExplanation` leaves for that id |
| App.AppState.ExplainTerm | src/App.js:187-191 | the dialog opens on the typed term with its explanation and no id list; the related couplets and error are those `fetchExplanation` leaves for the term (a failed lookup sets the error) |
| App.AppState.SearchTerm | src/App.js:192-198 | the dialog opens on the store's ranking for the query embedding, with the first id's explanation and the whole id list; the related couplets and error are those `fetchExplanation` leaves for the first id |
| App.AppState.HandleSearchSubmit | src/App.js:186-200 | blank: nothing changes; numeric: the dialog opens on the typed term; otherwise it opens on the store's ranking with `topN` 5; in both search branches the related couplets and error are those `fetchExplanation` leaves for the chosen kno |
| App.AppState.HandlePredefinedSearch | src/App.js:214-226 | the search box shows the translation; the dialog opens on the question's ids of the first category listing it, with the related couplets and error `fetchExplanation` leaves for the first id, and nothing else happens when there is none |

## Left out

- Float interpretation. A `Float32` is kept as its four bytes in memory order; the IEEE 754
  value, `Number` conversion and the cosine similarity (square roots and division) are not
  modelled. The similarity is a parameter, assumed to give ordered reals, so NaN scores and
  their effect on `sort` are not modelled.
- `VectorStore.RetrieveRelatedDocuments`: does not model vectors of different lengths. When a
  stored vector is shorter than the query, the source reads `undefined` and scores NaN, which
  the real-valued parameter cannot express. When it is longer, its extra components enter only
  its magnitude.
- `String(embeddingBinding)` of a non-string blob is not modelled. Blobs are taken as the
  text DuckDB prints for them.
- Strings are sequences of Unicode scalar values, not UTF-16 code units. A surrogate pair
  counts as one character in `/.{1,2}/g` and in lengths.
- DuckDB (connecting, attaching, `initDB`, `ensureDbInitialized`, the query texts other than
  the escaping and select lists), the OpenAI embedding call (`generateEmbedding`), the API key
  prompt and `fetchHeadings`/`fetchCouplet` are not modelled. Their results are parameters.
- Asynchrony is not modelled. Handlers run to completion in order; `fetchChapters` and
  `fetchRelatedIDs`, which the source does not await, are modelled as finishing before the
  handler returns. The startup timer around `loadSingletonDb` is left out.
- `App.AppState.HandleChapterClick`, `App.ChapterKey` and `App.ChapterKeyInjective` take
  `chapter` as the chapter name. The only caller, `src/components/AdhigaramList.js:31-37`,
  passes an element of `chapters[title][heading]`, which `fetchChapters` fills with
  `{chapter, kno}` rows (`src/utils/DbManager.js:334-337`). As called, every key of a heading
  ends in `[object Object]`, so the keys of one heading collide, and `fetchCouplets` fails on
  `chapter.replace` (`src/utils/DbManager.js:361`) and sets "Failed to fetch couplets". The
  model does not capture that caller.
- `App.AppState.FetchRelatedIds`: does not model a `relatedRows` value that is not a string
  (its `split` throws outside any `try`). It also does not model the database manager's
  check for a missing database: `fetchRelatedCouplets` first awaits `ensureDbInitialized()`
  (`src/utils/DbManager.js:373-374`), which rejects when initialisation failed, so the source
  then sets "Failed to fetch related couplets" even for an empty list, where the model gives
  `[]` without a query.
- `getLanguageSpecificColumns`, `getHeadingTranslation` and `getTitlesByLanguage` are
  parameters (column names, the translated question). The language selector, loading flag,
  retry counter and headings state are not modelled.
- `src/utils/PresetSearch.js` is not transcribed. The preset categories are a parameter of
  `App.AppState.HandlePredefinedSearch`.
- The keyVals sort in `influencerNodes` is `Array.prototype.sort`, a library call. It is
  modelled as a stable sort function on a sequence, not in place.
- Cytoscape layout, styles and rendering, all JSX and the presentational components are not
  modelled. `data.links` is an input sequence.
