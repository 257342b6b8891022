/** The text `DbManager` builds for its couplet queries: the quoted chapter name of
    `fetchCouplets` and the select lists of `fetchCouplets` and `fetchRelatedCouplets`. The
    column names come from the language table, which is not part of this model, and are
    parameters here; a missing second-line column is `None`. */
module CoupletQueries {
  import opened Wrappers
  import opened JsText

  /** `chapter.replace(/'/g, "''")`: every quote doubled. */
  function EscapeQuotes(s: string): (r: string)
    ensures |r| == |s| + CountChar(s, '\'')
  {
    if s == [] then []
    else (if s[0] == '\'' then "''" else [s[0]]) + EscapeQuotes(s[1..])
  }

  /** Replacing `''` by `'` from left to right. */
  function UnescapeQuotes(s: string): string
  {
    if s == [] then []
    else if |s| >= 2 && s[0] == '\'' && s[1] == '\'' then "'" + UnescapeQuotes(s[2..])
    else [s[0]] + UnescapeQuotes(s[1..])
  }

  /** Turning every `''` back into `'` restores the chapter name. */
  lemma {:induction false} UnescapeEscapeQuotes(s: string)
    ensures UnescapeQuotes(EscapeQuotes(s)) == s
  {
    if s != [] {
      var rest := EscapeQuotes(s[1..]);
      UnescapeEscapeQuotes(s[1..]);
      if s[0] == '\'' {
        assert EscapeQuotes(s) == "''" + rest;
        assert ("''" + rest)[2..] == rest;
      } else {
        assert EscapeQuotes(s) == [s[0]] + rest;
        assert ([s[0]] + rest)[1..] == rest;
      }
      assert [s[0]] + s[1..] == s;
    }
  }

  /** The quoted literal `fetchCouplets` places after `WHERE <chapter column> =`. */
  function SqlStringLiteral(s: string): string
  {
    "'" + EscapeQuotes(s) + "'"
  }

  /** How SQL reads the body of a string literal after its opening quote: `''` stands for one
      quote and a lone `'` ends the literal. Gives the value and the text after the closing
      quote, or `None` for an unterminated literal. */
  function ReadQuotedBody(t: string): Option<(string, string)>
  {
    if t == [] then None
    else if t[0] == '\'' then
      if |t| >= 2 && t[1] == '\'' then
        match ReadQuotedBody(t[2..])
        case None => None
        case Some((v, rest)) => Some(("'" + v, rest))
      else Some(([], t[1..]))
    else
      match ReadQuotedBody(t[1..])
      case None => None
      case Some((v, rest)) => Some(([t[0]] + v, rest))
  }

  lemma {:induction false} ReadQuotedBodyOfEscaped(s: string, rest: string)
    requires rest == [] || rest[0] != '\''
    ensures ReadQuotedBody(EscapeQuotes(s) + "'" + rest) == Some((s, rest))
  {
    if s == [] {
      var t := "'" + rest;
      assert EscapeQuotes(s) + "'" + rest == t;
      assert t[1..] == rest;
    } else {
      var tail := EscapeQuotes(s[1..]) + "'" + rest;
      var head := if s[0] == '\'' then "''" else [s[0]];
      calc {
        ReadQuotedBody(EscapeQuotes(s) + "'" + rest);
        { assert EscapeQuotes(s) == head + EscapeQuotes(s[1..]);
          assert EscapeQuotes(s) + "'" + rest == head + tail; }
        ReadQuotedBody(head + tail);
        { ReadQuotedBodyOfEscaped(s[1..], rest);
          ReadQuotedBodyStep(head, tail, s[0]); }
        Some(([s[0]] + s[1..], rest));
        { assert [s[0]] + s[1..] == s; }
        Some((s, rest));
      }
    }
  }

  lemma ReadQuotedBodyStep(head: string, tail: string, c: char)
    requires head == (if c == '\'' then "''" else [c])
    requires ReadQuotedBody(tail).Some?
    ensures ReadQuotedBody(head + tail)
         == Some(([c] + ReadQuotedBody(tail).value.0, ReadQuotedBody(tail).value.1))
  {
    var t := head + tail;
    if c == '\'' {
      assert t[2..] == tail;
    } else {
      assert t[1..] == tail;
    }
  }

  /** The quoted chapter name is one SQL literal whose value is exactly the chapter name,
      whatever quotes it contains, and the query text after it (which starts with a line
      break) is left outside the literal. */
  lemma SqlStringLiteralReadsBack(chapter: string, rest: string)
    requires rest == [] || rest[0] != '\''
    ensures var t := SqlStringLiteral(chapter) + rest;
      t[0] == '\'' && ReadQuotedBody(t[1..]) == Some((chapter, rest))
  {
    var t := SqlStringLiteral(chapter) + rest;
    assert t[1..] == EscapeQuotes(chapter) + "'" + rest;
    ReadQuotedBodyOfEscaped(chapter, rest);
  }

  /** JavaScript truthiness of an optional column name. */
  predicate IsPresent(column: Option<string>) {
    column.Some? && column.value != ""
  }

  /** The select list of `fetchCouplets`: `kno, <first line>`, then `, <second line>` only
      when the language has a second-line column. */
  function SelectPart(firstLine: string, secondLine: Option<string>): string
  {
    var selectPart := "kno, " + firstLine;
    if IsPresent(secondLine) then selectPart + ", " + secondLine.value else selectPart
  }

  /** The select list of `fetchRelatedCouplets` and `fetchCouplet`: the couplet columns, then
      the explanation column. */
  function RelatedSelectPart(firstLine: string, secondLine: Option<string>, explanation: string): string
  {
    SelectPart(firstLine, secondLine) + ", " + explanation
  }

  /** Read back at its commas, the select list names `kno`, the first-line column and the
      second-line column exactly when there is one. */
  lemma SelectPartColumns(firstLine: string, secondLine: Option<string>)
    requires ',' !in firstLine && (secondLine.Some? ==> ',' !in secondLine.value)
    ensures Split(SelectPart(firstLine, secondLine), ',')
         == ["kno", " " + firstLine] + (if IsPresent(secondLine) then [" " + secondLine.value] else [])
  {
    var first := " " + firstLine;
    assert ',' !in first;
    if IsPresent(secondLine) {
      var second := " " + secondLine.value;
      assert ',' !in second;
      calc {
        Split(SelectPart(firstLine, secondLine), ',');
        { assert SelectPart(firstLine, secondLine) == "kno" + ([','] + (first + ([','] + second))); }
        Split("kno" + ([','] + (first + ([','] + second))), ',');
        { SplitPrefix("kno", first + ([','] + second), ','); }
        ["kno"] + Split(first + ([','] + second), ',');
        { SplitPrefix(first, second, ','); SplitNoSep(second, ','); }
        ["kno"] + ([first] + [second]);
      }
    } else {
      calc {
        Split(SelectPart(firstLine, secondLine), ',');
        { assert SelectPart(firstLine, secondLine) == "kno" + ([','] + first); }
        Split("kno" + ([','] + first), ',');
        { SplitPrefix("kno", first, ','); SplitNoSep(first, ','); }
        ["kno"] + [first];
      }
    }
  }

  /** The related-couplet select list adds exactly one column, the explanation, at the end. */
  lemma RelatedSelectPartColumns(firstLine: string, secondLine: Option<string>, explanation: string)
    requires ',' !in firstLine && (secondLine.Some? ==> ',' !in secondLine.value) && ',' !in explanation
    ensures Split(RelatedSelectPart(firstLine, secondLine, explanation), ',')
         == Split(SelectPart(firstLine, secondLine), ',') + [" " + explanation]
  {
    var base := SelectPart(firstLine, secondLine);
    var last := " " + explanation;
    assert ',' !in last;
    SelectPartColumns(firstLine, secondLine);
    assert RelatedSelectPart(firstLine, secondLine, explanation) == base + ([','] + last);
    SplitAppendField(base, last);
  }

  /** Appending `,<field>` to a text adds `<field>` as its last comma field. */
  lemma {:induction false} SplitAppendField(s: string, field: string)
    requires ',' !in field
    ensures Split(s + ([','] + field), ',') == Split(s, ',') + [field]
  {
    if s == [] {
      assert s + ([','] + field) == [','] + field;
      SplitNoSep(field, ',');
      assert ([','] + field)[1..] == field;
    } else {
      assert (s + ([','] + field))[1..] == s[1..] + ([','] + field);
      SplitAppendField(s[1..], field);
    }
  }
}
