/** The application state of the Thirukkural browser: the expansion state of the title,
    heading and chapter accordions, the chapter cache, the search box and the couplet dialog,
    with the handlers that update them. Database queries, the embedding service and the
    translation tables are parameters: each handler receives what the call it makes would
    return (`None` where that call throws). */
module App {
  import opened Wrappers
  import opened JsText
  import opened JsNumber
  import opened EmbeddingCodec
  import opened VectorStore

  // ---------------------------------------------------------------------------------------
  // Related-id normalisation

  /** `related_rows.split(",").map(trim).join(",")` with every `]` and then every `[`
      removed: the list that goes into `kno IN (...)`. */
  function NormalizeRelatedIds(relatedRows: string): (r: string)
    ensures '[' !in r && ']' !in r
  {
    var noClose := RemoveChar(Join(TrimAll(Split(relatedRows, ',')), ','), ']');
    RemoveCharAbsent(noClose, '[', ']');
    RemoveChar(noClose, '[')
  }

  /** `fields.map((num) => num.trim())`. */
  function TrimAll(fields: seq<string>): (r: seq<string>)
    ensures |r| == |fields|
  {
    if fields == [] then [] else [Trim(fields[0])] + TrimAll(fields[1..])
  }

  /** Each field of `TrimAll(fields)` is the trimmed field of `fields`. */
  lemma {:induction false} TrimAllAt(fields: seq<string>, i: nat)
    requires i < |fields|
    ensures TrimAll(fields)[i] == Trim(fields[i])
  {
    var rest := TrimAll(fields[1..]);
    assert TrimAll(fields) == [Trim(fields[0])] + rest;
    if i > 0 {
      TrimAllAt(fields[1..], i - 1);
      assert TrimAll(fields)[i] == rest[i - 1];
    }
  }

  /** The field of the normalised list that comes from one comma field of the input. */
  function CleanField(field: string): string
  {
    RemoveChar(RemoveChar(Trim(field), ']'), '[')
  }

  /** The fields, each cleaned. */
  function CleanAll(fields: seq<string>): (clean: seq<string>)
    ensures |clean| == |fields|
  {
    if fields == [] then [] else [CleanField(fields[0])] + CleanAll(fields[1..])
  }

  /** Each field of `CleanAll(fields)` is the cleaned field of `fields`. */
  lemma {:induction false} CleanAllAt(fields: seq<string>, i: nat)
    requires i < |fields|
    ensures CleanAll(fields)[i] == CleanField(fields[i])
  {
    var rest := CleanAll(fields[1..]);
    assert CleanAll(fields) == [CleanField(fields[0])] + rest;
    if i > 0 {
      CleanAllAt(fields[1..], i - 1);
      assert CleanAll(fields)[i] == rest[i - 1];
    }
  }

  /** Removing the brackets from the trimmed fields joined by commas is joining the cleaned
      fields. */
  lemma {:induction false} JoinCleanAll(fields: seq<string>)
    ensures Join(CleanAll(fields), ',') == RemoveChar(RemoveChar(Join(TrimAll(fields), ','), ']'), '[')
  {
    if |fields| > 1 {
      var rest := fields[1..];
      JoinCleanAll(rest);
      assert TrimAll(fields)[1..] == TrimAll(rest);
      assert CleanAll(fields)[1..] == CleanAll(rest);
      var t := Join(TrimAll(rest), ',');
      assert Join(TrimAll(fields), ',') == Trim(fields[0]) + [','] + t;
      RemoveCharSep(Trim(fields[0]), ',', t, ']');
      RemoveCharSep(RemoveChar(Trim(fields[0]), ']'), ',', RemoveChar(t, ']'), '[');
    }
  }

  /** The normalised list is the cleaned comma fields of the input joined by commas, and no
      cleaned field holds a comma. */
  lemma NormalizeRelatedIdsJoin(relatedRows: string)
    ensures NormalizeRelatedIds(relatedRows) == Join(CleanAll(Split(relatedRows, ',')), ',')
    ensures forall f :: f in CleanAll(Split(relatedRows, ',')) ==> ',' !in f
  {
    var fields := Split(relatedRows, ',');
    JoinCleanAll(fields);
    forall f | f in CleanAll(fields)
      ensures ',' !in f
    {
      var i :| 0 <= i < |fields| && CleanAll(fields)[i] == f;
      CleanAllAt(fields, i);
      TrimKeepsChars(fields[i], ',');
      RemoveCharAbsent(Trim(fields[i]), ']', ',');
      RemoveCharAbsent(RemoveChar(Trim(fields[i]), ']'), '[', ',');
    }
  }

  /** Normalising keeps every comma and only those: the result's comma fields are the input's,
      each trimmed and stripped of brackets. */
  lemma NormalizeRelatedIdsFields(relatedRows: string)
    ensures Split(NormalizeRelatedIds(relatedRows), ',') == CleanAll(Split(relatedRows, ','))
    ensures CountChar(NormalizeRelatedIds(relatedRows), ',') == CountChar(relatedRows, ',')
  {
    var clean := CleanAll(Split(relatedRows, ','));
    NormalizeRelatedIdsJoin(relatedRows);
    assert forall i :: 0 <= i < |clean| ==> ',' !in clean[i];
    SplitJoin(clean, ',');
  }

  /** For input without brackets, the result's comma fields are the input's, each trimmed. */
  lemma NormalizeRelatedIdsTrims(relatedRows: string)
    requires '[' !in relatedRows && ']' !in relatedRows
    ensures Split(NormalizeRelatedIds(relatedRows), ',') == TrimAll(Split(relatedRows, ','))
  {
    NormalizeRelatedIdsFields(relatedRows);
    var fields := Split(relatedRows, ',');
    JoinSplit(relatedRows, ',');
    forall i | 0 <= i < |fields|
      ensures CleanAll(fields)[i] == TrimAll(fields)[i]
    {
      CleanAllAt(fields, i);
      TrimAllAt(fields, i);
      FieldOfJoinAbsent(fields, i, ',', '[');
      FieldOfJoinAbsent(fields, i, ',', ']');
      TrimKeepsChars(fields[i], '[');
      TrimKeepsChars(fields[i], ']');
      RemoveCharAbsentIdentity(Trim(fields[i]), ']');
      RemoveCharAbsentIdentity(RemoveChar(Trim(fields[i]), ']'), '[');
    }
  }

  /** A character absent from a joined string is absent from every part. */
  lemma {:induction false} FieldOfJoinAbsent(parts: seq<string>, i: nat, sep: char, c: char)
    requires i < |parts| && c !in Join(parts, sep)
    ensures c !in parts[i]
  {
    if |parts| > 1 {
      assert Join(parts, sep) == parts[0] + [sep] + Join(parts[1..], sep);
      if i > 0 {
        FieldOfJoinAbsent(parts[1..], i - 1, sep, c);
      }
    }
  }

  /** Removing a character that does not occur changes nothing. */
  lemma {:induction false} RemoveCharAbsentIdentity(s: string, c: char)
    requires c !in s
    ensures RemoveChar(s, c) == s
  {
    if s != [] {
      RemoveCharAbsentIdentity(s[1..], c);
      assert [s[0]] + s[1..] == s;
    }
  }

  // ---------------------------------------------------------------------------------------
  // Search dispatch

  /** What submitting the search box does. */
  datatype SearchAction =
    | NoSearch
    | ExplainKno(kno: string)
    | SemanticSearch(query: string, topN: int)

  /** The number of related couplets a free-text search asks for. */
  const SearchTopN := 5

  /** `handleSearchSubmit`'s choice: a term that is a number (by `isNaN`) and not blank is
      looked up as a couplet number; any other non-blank term is a semantic search. */
  function SearchDispatch(searchTerm: string): (a: SearchAction)
    ensures a.NoSearch? <==> Trim(searchTerm) == []
    ensures a.ExplainKno? ==> a.kno == searchTerm && IsStrNumericLiteral(Trim(searchTerm))
    ensures a.SemanticSearch? ==> a.query == searchTerm && a.topN == 5 && IsNaNString(searchTerm)
  {
    if !IsNaNString(searchTerm) && Trim(searchTerm) != [] then ExplainKno(searchTerm)
    else if Trim(searchTerm) != [] then SemanticSearch(searchTerm, SearchTopN)
    else NoSearch
  }

  /** A couplet number, with surrounding blanks or not, opens its explanation. */
  lemma SearchDigits(searchTerm: string)
    requires Trim(searchTerm) != [] && AllDigits(Trim(searchTerm))
    ensures SearchDispatch(searchTerm) == ExplainKno(searchTerm)
  {
    DigitsAreNumeric(Trim(searchTerm));
  }

  /** A term with any visible character that cannot occur in a number (any letter outside
      hexadecimal digits, radix and exponent letters and `Infinity`) is a semantic search for
      five couplets. */
  lemma SearchText(searchTerm: string, i: nat)
    requires i < |searchTerm| && !IsJsWhitespace(searchTerm[i]) && !IsNumericChar(searchTerm[i])
    ensures SearchDispatch(searchTerm) == SemanticSearch(searchTerm, 5)
  {
    var t, a := Trim(searchTerm), LeadingSpace(searchTerm);
    TrimSlice(searchTerm);
    assert a <= i < a + |t|;
    assert t[i - a] == searchTerm[i];
    if IsStrNumericLiteral(t) {
      StrNumericLiteralChars(t);
    }
  }

  /** A term without surrounding blanks is looked up exactly when it is a numeric literal. */
  lemma SearchUnpadded(searchTerm: string)
    requires searchTerm != [] && !IsJsWhitespace(searchTerm[0]) && !IsJsWhitespace(searchTerm[|searchTerm| - 1])
    ensures SearchDispatch(searchTerm)
         == if IsStrNumericLiteral(searchTerm) then ExplainKno(searchTerm) else SemanticSearch(searchTerm, 5)
  {
    TrimUnpadded(searchTerm);
  }

  /** A hexadecimal literal counts as a couplet number for the dispatch. */
  lemma SearchHexExample()
    ensures SearchDispatch("0x1F") == ExplainKno("0x1F")
  {
    assert IsNonDecimalInteger("0x1F");
    SearchUnpadded("0x1F");
  }

  /** So does `-Infinity`. */
  lemma SearchInfinityExample()
    ensures SearchDispatch("-Infinity") == ExplainKno("-Infinity")
  {
    assert "-Infinity"[1..] == "Infinity";
    SearchUnpadded("-Infinity");
  }

  /** A lone sign is not a number, so it is a semantic search. */
  lemma SearchSignExample()
    ensures SearchDispatch("-") == SemanticSearch("-", 5)
  {
    assert "-"[1..] == [];
    assert FirstIndex([], 'e', 'E') == 0;
    assert FirstIndex([], '.', '.') == 0;
    SearchUnpadded("-");
  }

  // ---------------------------------------------------------------------------------------
  // Predefined searches

  /** A category of predefined questions, each with the couplet numbers it shows, in key
      order. */
  datatype Category = Category(name: string, questions: seq<(string, seq<int>)>)

  predicate HasQuestion(category: Category, question: string) {
    exists k :: 0 <= k < |category.questions| && category.questions[k].0 == question
  }

  /** `Object.keys(defaultSearchOptions).find(...)`: the first category listing the question. */
  function FindCategory(presets: seq<Category>, question: string): (r: Option<nat>)
    ensures r.Some? ==> r.value < |presets| && HasQuestion(presets[r.value], question)
    ensures r.Some? ==> forall j :: 0 <= j < r.value ==> !HasQuestion(presets[j], question)
    ensures r.None? <==> forall j :: 0 <= j < |presets| ==> !HasQuestion(presets[j], question)
  {
    if presets == [] then None
    else if HasQuestion(presets[0], question) then Some(0)
    else match FindCategory(presets[1..], question)
      case None => None
      case Some(k) =>
        assert forall j :: 1 <= j <= k ==> presets[j] == presets[1..][j - 1];
        Some(k + 1)
  }

  /** `defaultSearchOptions[category][question]`: the ids of the question in its category. */
  function QuestionIds(questions: seq<(string, seq<int>)>, question: string): (ids: Option<seq<int>>)
    ensures ids.Some? <==> exists k :: 0 <= k < |questions| && questions[k].0 == question
    ensures ids.Some? ==> exists k :: 0 <= k < |questions| && questions[k] == (question, ids.value)
  {
    if questions == [] then None
    else if questions[0].0 == question then Some(questions[0].1)
    else
      var rest := QuestionIds(questions[1..], question);
      assert forall k :: 1 <= k < |questions| ==> questions[k] == questions[1..][k - 1];
      rest
  }

  // ---------------------------------------------------------------------------------------
  // Chapter cache and accordion state

  /** A row of `fetchChapters`: the chapter name and its last couplet number. */
  datatype ChapterRow = ChapterRow(chapter: string, kno: int)

  /** A couplet row as a query returns it: its number and its selected columns. */
  datatype CoupletRow = CoupletRow(kno: int, columns: seq<string>)

  /** `chapters` after a fetch: `{ ...prev, [title]: { ...prev[title], [heading]: rows } }`,
      where spreading a missing title gives no headings. */
  function MergeChapters(chapters: map<string, map<string, seq<ChapterRow>>>, title: string,
                         heading: string, rows: seq<ChapterRow>)
    : (r: map<string, map<string, seq<ChapterRow>>>)
    ensures r.Keys == chapters.Keys + {title}
    ensures r[title].Keys == (if title in chapters then chapters[title].Keys else {}) + {heading}
    ensures r[title][heading] == rows
    ensures forall t :: t in chapters && t != title ==> r[t] == chapters[t]
    ensures title in chapters ==> forall h :: h in chapters[title] && h != heading ==>
      r[title][h] == chapters[title][h]
  {
    var headings := if title in chapters then chapters[title] else map[];
    chapters[title := headings[heading := rows]]
  }

  /** `${title}-${heading}-${chapter}`. */
  function ChapterKey(title: string, heading: string, chapter: string): string
  {
    title + "-" + heading + "-" + chapter
  }

  /** For titles and headings without `-`, a key built from a chapter name names it:
      splitting the key on `-` gives back the title, the heading and the name's own fields,
      so different chapter names have different keys. */
  lemma ChapterKeyFields(title: string, heading: string, chapter: string)
    requires '-' !in title && '-' !in heading
    ensures Split(ChapterKey(title, heading, chapter), '-') == [title, heading] + Split(chapter, '-')
  {
    SplitPrefix(heading, chapter, '-');
    assert ChapterKey(title, heading, chapter) == title + (['-'] + (heading + (['-'] + chapter)));
    SplitPrefix(title, heading + (['-'] + chapter), '-');
  }

  lemma ChapterKeyInjective(t1: string, h1: string, c1: string, t2: string, h2: string, c2: string)
    requires '-' !in t1 && '-' !in h1 && '-' !in t2 && '-' !in h2
    requires ChapterKey(t1, h1, c1) == ChapterKey(t2, h2, c2)
    ensures t1 == t2 && h1 == h2 && c1 == c2
  {
    ChapterKeyFields(t1, h1, c1);
    ChapterKeyFields(t2, h2, c2);
    var f1 := Split(ChapterKey(t1, h1, c1), '-');
    assert f1[0] == t1 && f1[1] == h1 && f1[0] == t2 && f1[1] == h2;
    assert Split(c1, '-') == f1[2..] == Split(c2, '-');
    JoinSplit(c1, '-');
    JoinSplit(c2, '-');
  }

  // ---------------------------------------------------------------------------------------
  // The dialog

  /** The `kno` a dialog is opened with: the search text, an id from a list, or `undefined`
      when the list is empty. */
  datatype Kno = KnoText(text: string) | KnoNumber(n: int) | KnoUndefined

  /** What `fetchExplanation` resolves to. */
  datatype Explanation = Explanation(explanation: string, relatedRows: string)

  /** `selectedCouplet`: the couplet shown in the dialog, and the ids it came with when it was
      opened from a list. */
  datatype SelectedCouplet = SelectedCouplet(kno: Kno, explanation: Explanation, relatedIds: Option<seq<int>>)

  /** `relatedIds[0]`, or `undefined` for an empty list. */
  function FirstKno(relatedIds: seq<int>): (k: Kno)
    ensures k.KnoUndefined? <==> relatedIds == []
    ensures k.KnoNumber? ==> k.n == relatedIds[0]
  {
    if relatedIds == [] then KnoUndefined else KnoNumber(relatedIds[0])
  }

  /** The related couplets and the error that `fetchExplanation` leaves for `kno`, given the
      ones before it: a failed lookup keeps the couplets and sets the explanation error; a
      found explanation loads its normalised related list, where an empty list clears the
      couplets and a failed query keeps them and sets the related-couplets error. */
  function RelatedAfterExplanation(kno: Kno, lookup: Kno -> Option<Explanation>,
                                   queryRelated: string -> Option<seq<CoupletRow>>,
                                   related: seq<CoupletRow>, error: Option<string>)
    : (seq<CoupletRow>, Option<string>)
  {
    match lookup(kno)
    case None => (related, Some("Failed to fetch explanation"))
    case Some(found) =>
      var knos := NormalizeRelatedIds(found.relatedRows);
      if knos == [] then ([], error)
      else if queryRelated(knos).Some? then (queryRelated(knos).value, error)
      else (related, Some("Failed to fetch related couplets"))
  }

  /** The state `App` keeps between renders, with the database manager it searches. */
  class AppState {
    const db: DbManager
    var chapters: map<string, map<string, seq<ChapterRow>>>
    var searchTerm: string
    /** A title, or `false` (`None`). */
    var expandedTitle: Option<string>
    /** Per title, its expanded heading or `false` (`None`). */
    var expandedHeadings: map<string, Option<string>>
    /** A chapter key, or `null` (`None`). */
    var expandedChapter: Option<string>
    var expandedChapters: map<string, seq<CoupletRow>>
    var dialogOpen: bool
    var selectedCouplet: Option<SelectedCouplet>
    var relatedCouplets: seq<CoupletRow>
    var error: Option<string>

    /** The initial state of every `useState`. */
    constructor (db: DbManager)
      ensures this.db == db && chapters == map[] && searchTerm == []
      ensures expandedTitle == None && expandedHeadings == map[] && expandedChapter == None
      ensures expandedChapters == map[] && !dialogOpen && selectedCouplet == None
      ensures relatedCouplets == [] && error == None
    {
      this.db := db;
      chapters := map[];
      searchTerm := [];
      expandedTitle := None;
      expandedHeadings := map[];
      expandedChapter := None;
      expandedChapters := map[];
      dialogOpen := false;
      selectedCouplet := None;
      relatedCouplets := [];
      error := None;
    }

    /** `fetchChapters`: a successful fetch is merged into the cache; a failing one sets the
        error and leaves the cache. */
    method FetchChapters(title: string, heading: string, fetched: Option<seq<ChapterRow>>)
      modifies this
      ensures fetched.Some? ==> chapters == MergeChapters(old(chapters), title, heading, fetched.value)
      ensures fetched.Some? ==> error == old(error)
      ensures fetched.None? ==> chapters == old(chapters) && error == Some("Failed to fetch chapters")
      ensures searchTerm == old(searchTerm) && expandedTitle == old(expandedTitle)
      ensures expandedHeadings == old(expandedHeadings) && expandedChapter == old(expandedChapter)
      ensures expandedChapters == old(expandedChapters) && dialogOpen == old(dialogOpen)
      ensures selectedCouplet == old(selectedCouplet) && relatedCouplets == old(relatedCouplets)
    {
      match fetched
      case Some(rows) =>
        chapters := MergeChapters(chapters, title, heading, rows);
      case None =>
        error := Some("Failed to fetch chapters");
    }

    /** `fetchCouplets`: the rows, or `[]` after setting the error. */
    method FetchCouplets(fetched: Option<seq<CoupletRow>>) returns (couplets: seq<CoupletRow>)
      modifies this
      ensures couplets == fetched.GetOr([])
      ensures error == (if fetched.None? then Some("Failed to fetch couplets") else old(error))
      ensures chapters == old(chapters) && searchTerm == old(searchTerm)
      ensures expandedTitle == old(expandedTitle) && expandedHeadings == old(expandedHeadings)
      ensures expandedChapter == old(expandedChapter) && expandedChapters == old(expandedChapters)
      ensures dialogOpen == old(dialogOpen) && selectedCouplet == old(selectedCouplet)
      ensures relatedCouplets == old(relatedCouplets)
    {
      match fetched
      case Some(rows) =>
        couplets := rows;
      case None =>
        error := Some("Failed to fetch couplets");
        couplets := [];
    }

    /** `handleChapterClick`: clicking the open chapter closes it (its couplets stay cached);
        clicking any other chapter fetches its couplets, opens it and makes it the only cached
        chapter. */
    method HandleChapterClick(title: string, heading: string, chapter: string,
                              fetched: Option<seq<CoupletRow>>)
      modifies this
      ensures var key := ChapterKey(title, heading, chapter);
        if old(expandedChapter) == Some(key) then
          expandedChapter == None && expandedChapters == old(expandedChapters) && error == old(error)
        else
          expandedChapter == Some(key) && expandedChapters.Keys == {key} &&
          expandedChapters[key] == fetched.GetOr([]) &&
          error == (if fetched.None? then Some("Failed to fetch couplets") else old(error))
      ensures chapters == old(chapters) && searchTerm == old(searchTerm)
      ensures expandedTitle == old(expandedTitle) && expandedHeadings == old(expandedHeadings)
      ensures dialogOpen == old(dialogOpen) && selectedCouplet == old(selectedCouplet)
      ensures relatedCouplets == old(relatedCouplets)
    {
      var chapterKey := ChapterKey(title, heading, chapter);
      if expandedChapter == Some(chapterKey) {
        expandedChapter := None;
      } else {
        var couplets := FetchCouplets(fetched);
        expandedChapter := Some(chapterKey);
        expandedChapters := map[chapterKey := couplets];
      }
    }

    /** `handleTitleChange`: expanding opens the title; collapsing closes it and every
        heading. */
    method HandleTitleChange(title: string, isExpanded: bool)
      modifies this
      ensures expandedTitle == (if isExpanded then Some(title) else None)
      ensures expandedHeadings == (if isExpanded then old(expandedHeadings) else map[])
      ensures chapters == old(chapters) && searchTerm == old(searchTerm)
      ensures expandedChapter == old(expandedChapter) && expandedChapters == old(expandedChapters)
      ensures dialogOpen == old(dialogOpen) && selectedCouplet == old(selectedCouplet)
      ensures relatedCouplets == old(relatedCouplets) && error == old(error)
    {
      expandedTitle := if isExpanded then Some(title) else None;
      if !isExpanded {
        expandedHeadings := map[];
      }
    }

    /** `handleHeadingChange`: only the title's entry changes, to the heading or to `false`;
        the chapters are fetched only when the heading opens. */
    method HandleHeadingChange(title: string, heading: string, isExpanded: bool,
                               fetched: Option<seq<ChapterRow>>)
      modifies this
      ensures expandedHeadings.Keys == old(expandedHeadings).Keys + {title}
      ensures expandedHeadings[title] == (if isExpanded then Some(heading) else None)
      ensures forall t :: t in old(expandedHeadings) && t != title ==>
        expandedHeadings[t] == old(expandedHeadings)[t]
      ensures !isExpanded ==> chapters == old(chapters) && error == old(error)
      ensures isExpanded && fetched.Some? ==>
        chapters == MergeChapters(old(chapters), title, heading, fetched.value) && error == old(error)
      ensures isExpanded && fetched.None? ==>
        chapters == old(chapters) && error == Some("Failed to fetch chapters")
      ensures searchTerm == old(searchTerm) && expandedTitle == old(expandedTitle)
      ensures expandedChapter == old(expandedChapter) && expandedChapters == old(expandedChapters)
      ensures dialogOpen == old(dialogOpen) && selectedCouplet == old(selectedCouplet)
      ensures relatedCouplets == old(relatedCouplets)
    {
      expandedHeadings := expandedHeadings[title := if isExpanded then Some(heading) else None];
      if isExpanded {
        FetchChapters(title, heading, fetched);
      }
    }

    /** The query half of `fetchRelatedIDs`, given the normalised list: an empty list gives
        `[]` without a query (the database manager's own check); a failing query sets the
        error and keeps the previous related couplets. */
    method LoadRelated(knos: string, queryRelated: string -> Option<seq<CoupletRow>>)
      modifies this
      ensures knos == [] ==> relatedCouplets == [] && error == old(error)
      ensures knos != [] && queryRelated(knos).Some? ==>
        relatedCouplets == queryRelated(knos).value && error == old(error)
      ensures knos != [] && queryRelated(knos).None? ==>
        relatedCouplets == old(relatedCouplets) && error == Some("Failed to fetch related couplets")
      ensures chapters == old(chapters) && searchTerm == old(searchTerm)
      ensures expandedTitle == old(expandedTitle) && expandedHeadings == old(expandedHeadings)
      ensures expandedChapter == old(expandedChapter) && expandedChapters == old(expandedChapters)
      ensures dialogOpen == old(dialogOpen) && selectedCouplet == old(selectedCouplet)
    {
      if knos == [] {
        relatedCouplets := [];
      } else {
        var rows := queryRelated(knos);
        if rows.Some? {
          relatedCouplets := rows.value;
        } else {
          error := Some("Failed to fetch related couplets");
        }
      }
    }

    /** `fetchRelatedIDs`: normalises the list and loads the couplets it names. */
    method FetchRelatedIds(relatedRows: string, queryRelated: string -> Option<seq<CoupletRow>>)
      modifies this
      ensures var knos := NormalizeRelatedIds(relatedRows);
        if knos == [] then relatedCouplets == [] && error == old(error)
        else if queryRelated(knos).Some? then relatedCouplets == queryRelated(knos).value && error == old(error)
        else relatedCouplets == old(relatedCouplets) && error == Some("Failed to fetch related couplets")
      ensures chapters == old(chapters) && searchTerm == old(searchTerm)
      ensures expandedTitle == old(expandedTitle) && expandedHeadings == old(expandedHeadings)
      ensures expandedChapter == old(expandedChapter) && expandedChapters == old(expandedChapters)
      ensures dialogOpen == old(dialogOpen) && selectedCouplet == old(selectedCouplet)
    {
      LoadRelated(NormalizeRelatedIds(relatedRows), queryRelated);
    }

    /** `fetchExplanation`: a found explanation also loads its related couplets; a failing
        lookup sets the error and gives an empty explanation. */
    method FetchExplanation(kno: Kno, lookup: Kno -> Option<Explanation>,
                            queryRelated: string -> Option<seq<CoupletRow>>)
      returns (explanation: Explanation)
      modifies this
      ensures explanation == lookup(kno).GetOr(Explanation("", ""))
      ensures lookup(kno).None? ==> error == Some("Failed to fetch explanation")
      ensures lookup(kno).None? ==> relatedCouplets == old(relatedCouplets)
      ensures lookup(kno).Some? ==>
        var knos := NormalizeRelatedIds(lookup(kno).value.relatedRows);
        if knos == [] then relatedCouplets == [] && error == old(error)
        else if queryRelated(knos).Some? then relatedCouplets == queryRelated(knos).value && error == old(error)
        else relatedCouplets == old(relatedCouplets) && error == Some("Failed to fetch related couplets")
      ensures (relatedCouplets, error) ==
        RelatedAfterExplanation(kno, lookup, queryRelated, old(relatedCouplets), old(error))
      ensures chapters == old(chapters) && searchTerm == old(searchTerm)
      ensures expandedTitle == old(expandedTitle) && expandedHeadings == old(expandedHeadings)
      ensures expandedChapter == old(expandedChapter) && expandedChapters == old(expandedChapters)
      ensures dialogOpen == old(dialogOpen) && selectedCouplet == old(selectedCouplet)
    {
      match lookup(kno)
      case Some(found) =>
        FetchRelatedIds(found.relatedRows, queryRelated);
        explanation := found;
      case None =>
        error := Some("Failed to fetch explanation");
        explanation := Explanation("", "");
    }

    /** `openAIResponse`: opens the dialog on the first id of the list (`undefined` when the
        list is empty), with its explanation and the whole list. */
    method OpenAIResponse(relatedIds: seq<int>, lookup: Kno -> Option<Explanation>,
                          queryRelated: string -> Option<seq<CoupletRow>>)
      modifies this
      ensures dialogOpen
      ensures selectedCouplet == Some(SelectedCouplet(FirstKno(relatedIds),
        lookup(FirstKno(relatedIds)).GetOr(Explanation("", "")), Some(relatedIds)))
      ensures lookup(FirstKno(relatedIds)).None? ==> error == Some("Failed to fetch explanation")
      ensures (relatedCouplets, error) ==
        RelatedAfterExplanation(FirstKno(relatedIds), lookup, queryRelated, old(relatedCouplets), old(error))
      ensures chapters == old(chapters) && searchTerm == old(searchTerm)
      ensures expandedTitle == old(expandedTitle) && expandedHeadings == old(expandedHeadings)
      ensures expandedChapter == old(expandedChapter) && expandedChapters == old(expandedChapters)
    {
      var kno := FirstKno(relatedIds);
      var explanation := FetchExplanation(kno, lookup, queryRelated);
      dialogOpen := true;
      selectedCouplet := Some(SelectedCouplet(kno, explanation, Some(relatedIds)));
    }

    /** The numeric branch of `handleSearchSubmit`: opens the dialog on the typed term with
        its explanation, without an id list. */
    method ExplainTerm(term: string, lookup: Kno -> Option<Explanation>,
                       queryRelated: string -> Option<seq<CoupletRow>>)
      modifies this
      ensures dialogOpen
      ensures selectedCouplet == Some(SelectedCouplet(KnoText(term),
        lookup(KnoText(term)).GetOr(Explanation("", "")), None))
      ensures lookup(KnoText(term)).None? ==> error == Some("Failed to fetch explanation")
      ensures (relatedCouplets, error) ==
        RelatedAfterExplanation(KnoText(term), lookup, queryRelated, old(relatedCouplets), old(error))
      ensures chapters == old(chapters) && searchTerm == old(searchTerm)
      ensures expandedTitle == old(expandedTitle) && expandedHeadings == old(expandedHeadings)
      ensures expandedChapter == old(expandedChapter) && expandedChapters == old(expandedChapters)
    {
      var kno := KnoText(term);
      var explanation := FetchExplanation(kno, lookup, queryRelated);
      dialogOpen := true;
      selectedCouplet := Some(SelectedCouplet(kno, explanation, None));
    }

    /** The free-text branch of `handleSearchSubmit`: ranks the store against the query's
        embedding and opens the dialog on the result. */
    method SearchTerm(queryEmbedding: Option<Vector>, similarity: (Vector, Vector) -> real, topN: int,
                      lookup: Kno -> Option<Explanation>,
                      queryRelated: string -> Option<seq<CoupletRow>>)
      modifies this
      ensures var ids := RetrieveRelatedDocuments(db.singletonDb, queryEmbedding, similarity, topN);
        dialogOpen && selectedCouplet == Some(SelectedCouplet(FirstKno(ids),
          lookup(FirstKno(ids)).GetOr(Explanation("", "")), Some(ids))) &&
        (relatedCouplets, error) ==
          RelatedAfterExplanation(FirstKno(ids), lookup, queryRelated, old(relatedCouplets), old(error))
      ensures chapters == old(chapters) && searchTerm == old(searchTerm)
      ensures expandedTitle == old(expandedTitle) && expandedHeadings == old(expandedHeadings)
      ensures expandedChapter == old(expandedChapter) && expandedChapters == old(expandedChapters)
    {
      var relatedIds := db.SearchSentences(queryEmbedding, similarity, topN);
      OpenAIResponse(relatedIds, lookup, queryRelated);
    }

    /** `handleSearchSubmit`: a blank term changes nothing; a number opens that couplet's
        explanation; any other term opens the best of the five couplets the semantic search
        ranks first. `queryEmbedding` is the embedding service's answer for the term. */
    method HandleSearchSubmit(queryEmbedding: Option<Vector>, similarity: (Vector, Vector) -> real,
                              lookup: Kno -> Option<Explanation>,
                              queryRelated: string -> Option<seq<CoupletRow>>)
      modifies this
      ensures SearchDispatch(old(searchTerm)).NoSearch? ==>
        dialogOpen == old(dialogOpen) && selectedCouplet == old(selectedCouplet) &&
        relatedCouplets == old(relatedCouplets) && error == old(error)
      ensures SearchDispatch(old(searchTerm)).ExplainKno? ==>
        dialogOpen && selectedCouplet == Some(SelectedCouplet(KnoText(old(searchTerm)),
          lookup(KnoText(old(searchTerm))).GetOr(Explanation("", "")), None)) &&
        (relatedCouplets, error) ==
          RelatedAfterExplanation(KnoText(old(searchTerm)), lookup, queryRelated, old(relatedCouplets), old(error))
      ensures SearchDispatch(old(searchTerm)).SemanticSearch? ==>
        var ids := RetrieveRelatedDocuments(db.singletonDb, queryEmbedding, similarity, 5);
        dialogOpen && selectedCouplet == Some(SelectedCouplet(FirstKno(ids),
          lookup(FirstKno(ids)).GetOr(Explanation("", "")), Some(ids))) &&
        (relatedCouplets, error) ==
          RelatedAfterExplanation(FirstKno(ids), lookup, queryRelated, old(relatedCouplets), old(error))
      ensures chapters == old(chapters) && searchTerm == old(searchTerm)
      ensures expandedTitle == old(expandedTitle) && expandedHeadings == old(expandedHeadings)
      ensures expandedChapter == old(expandedChapter) && expandedChapters == old(expandedChapters)
    {
      var action := SearchDispatch(searchTerm);
      if action.ExplainKno? {
        ExplainTerm(action.kno, lookup, queryRelated);
      } else if action.SemanticSearch? {
        SearchTerm(queryEmbedding, similarity, action.topN, lookup, queryRelated);
      }
    }

    /** `handlePredefinedSearch`: shows the translated question in the search box and, when a
        category lists the question (and its name is not the empty, falsy, string), opens the
        dialog on that question's ids; otherwise nothing else changes. */
    method HandlePredefinedSearch(question: string, translated: string, presets: seq<Category>,
                                  lookup: Kno -> Option<Explanation>,
                                  queryRelated: string -> Option<seq<CoupletRow>>)
      modifies this
      ensures searchTerm == translated
      ensures var c := FindCategory(presets, question);
        if c.Some? && presets[c.value].name != [] then
          var ids := QuestionIds(presets[c.value].questions, question).value;
          dialogOpen && selectedCouplet == Some(SelectedCouplet(FirstKno(ids),
            lookup(FirstKno(ids)).GetOr(Explanation("", "")), Some(ids))) &&
          (relatedCouplets, error) ==
            RelatedAfterExplanation(FirstKno(ids), lookup, queryRelated, old(relatedCouplets), old(error))
        else
          dialogOpen == old(dialogOpen) && selectedCouplet == old(selectedCouplet) &&
          relatedCouplets == old(relatedCouplets) && error == old(error)
      ensures chapters == old(chapters)
      ensures expandedTitle == old(expandedTitle) && expandedHeadings == old(expandedHeadings)
      ensures expandedChapter == old(expandedChapter) && expandedChapters == old(expandedChapters)
    {
      searchTerm := translated;
      var category := FindCategory(presets, question);
      if category.Some? && presets[category.value].name != [] {
        var relatedIdList := QuestionIds(presets[category.value].questions, question).value;
        OpenAIResponse(relatedIdList, lookup, queryRelated);
      }
    }
  }
}
