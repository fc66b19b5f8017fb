/** encoding/csv for one record, as section 2 of RFC 4180 has it: quoting, doubled quotes, and the
    reader's treatment of line ends. */
module Csv {
  import opened Strings

  datatype Result<+T> = Ok(value: T) | Err(message: string)

  const QUOTE := '\"'

  // ------------------------------------------------------------- the writer

  /** A field is quoted when it is the two characters that end a PostgreSQL copy, holds a comma, a quote or
      a line end, or starts with white space. */
  predicate NeedsQuotes(field: string) {
    && field != ""
    && (|| field == "\\."
        || ',' in field || QUOTE in field || '\n' in field || '\r' in field
        || IsSpace(field[0]))
  }

  function Escaped(field: string): string {
    if field == "" then ""
    else (if field[0] == QUOTE then [QUOTE, QUOTE] else [field[0]]) + Escaped(field[1..])
  }

  function WrittenField(field: string): string {
    if NeedsQuotes(field) then [QUOTE] + Escaped(field) + [QUOTE] else field
  }

  /** The record without its final line feed. */
  function WrittenFields(fields: seq<string>): string {
    if fields == [] then ""
    else if |fields| == 1 then WrittenField(fields[0])
    else WrittenField(fields[0]) + "," + WrittenFields(fields[1..])
  }

  function Written(fields: seq<string>): string {
    WrittenFields(fields) + "\n"
  }

  // ------------------------------------------------------------- the reader

  /** Every "\r\n" becomes "\n", and a "\r" at the very end is dropped. */
  function Normalised(s: string): string {
    if s == "" || s == "\r" then ""
    else if s[0] == '\r' && s[1] == '\n' then ['\n'] + Normalised(s[2..])
    else [s[0]] + Normalised(s[1..])
  }

  function SkipEmptyLines(s: string): string {
    if s != "" && s[0] == '\n' then SkipEmptyLines(s[1..]) else s
  }

  /** An unquoted field: up to a comma or the line end; a quote in it is an error. */
  function BareField(s: string): (r: Result<(string, string)>)
    ensures r.Ok? ==> |r.value.1| <= |s|
  {
    if s == "" || s[0] == ',' || s[0] == '\n' then Ok(("", s))
    else if s[0] == QUOTE then Err("bare quote in non-quoted field")
    else
      match BareField(s[1..])
      case Err(message) => Err(message)
      case Ok((field, rest)) => Ok(([s[0]] + field, rest))
  }

  /** A quoted field after its opening quote; it may span lines. */
  function QuotedField(s: string): (r: Result<(string, string)>)
    ensures r.Ok? ==> |r.value.1| <= |s|
  {
    if s == "" then Err("extraneous or missing quote in quoted field")
    else if s[0] != QUOTE then
      match QuotedField(s[1..])
      case Err(message) => Err(message)
      case Ok((field, rest)) => Ok(([s[0]] + field, rest))
    else if |s| > 1 && s[1] == QUOTE then
      match QuotedField(s[2..])
      case Err(message) => Err(message)
      case Ok((field, rest)) => Ok(([QUOTE] + field, rest))
    else if |s| == 1 || s[1] == ',' || s[1] == '\n' then Ok(("", s[1..]))
    else Err("extraneous or missing quote in quoted field")
  }

  function OneField(s: string): (r: Result<(string, string)>)
    ensures r.Ok? ==> |r.value.1| <= |s|
  {
    if s != "" && s[0] == QUOTE then QuotedField(s[1..]) else BareField(s)
  }

  function ReadFields(s: string): Result<seq<string>>
    decreases |s|
  {
    match OneField(s)
    case Err(message) => Err(message)
    case Ok((field, rest)) =>
      if rest == "" || rest[0] != ',' then Ok([field])
      else
        match ReadFields(rest[1..])
        case Err(message) => Err(message)
        case Ok(fields) => Ok([field] + fields)
  }

  /** The first record; anything after its line end is left unread. */
  function Read(s: string): Result<seq<string>> {
    var text := SkipEmptyLines(Normalised(s));
    if text == "" then Err("EOF") else ReadFields(text)
  }

  // ------------------------------------------------------------- round trips

  /** The text ends here, or the next field or line does. */
  predicate EndsField(rest: string) {
    rest == "" || rest[0] == ',' || rest[0] == '\n'
  }

  lemma {:induction false} QuotedRoundTrip(field: string, rest: string)
    requires EndsField(rest)
    ensures QuotedField(Escaped(field) + [QUOTE] + rest) == Ok((field, rest))
  {
    var s := Escaped(field) + [QUOTE] + rest;
    if field == "" {
      assert s == [QUOTE] + rest;
    } else {
      QuotedRoundTrip(field[1..], rest);
      var inner := Escaped(field[1..]) + [QUOTE] + rest;
      assert [field[0]] + field[1..] == field;
      if field[0] == QUOTE {
        assert s == [QUOTE, QUOTE] + inner;
        assert s[2..] == inner;
      } else {
        assert s == [field[0]] + inner;
        assert s[1..] == inner;
      }
    }
  }

  lemma {:induction false} BareRoundTrip(field: string, rest: string)
    requires EndsField(rest) && ',' !in field && '\n' !in field && QUOTE !in field
    ensures BareField(field + rest) == Ok((field, rest))
  {
    if field == "" {
      assert field + rest == rest;
    } else {
      assert field[0] in field;
      BareRoundTrip(field[1..], rest);
      assert (field + rest)[1..] == field[1..] + rest;
      assert [field[0]] + field[1..] == field;
    }
  }

  lemma QuotedFieldRoundTrip(field: string, rest: string)
    requires EndsField(rest)
    ensures OneField([QUOTE] + Escaped(field) + [QUOTE] + rest) == Ok((field, rest))
  {
    QuotedRoundTrip(field, rest);
    var inner := Escaped(field) + [QUOTE] + rest;
    OpeningQuote(inner);
    ConcatFour([QUOTE], Escaped(field), [QUOTE], rest);
  }

  lemma OpeningQuote(inner: string)
    ensures OneField([QUOTE] + inner) == QuotedField(inner)
  {
    assert ([QUOTE] + inner)[1..] == inner;
  }

  lemma BareFieldRoundTrip(field: string, rest: string)
    requires EndsField(rest) && !NeedsQuotes(field)
    ensures OneField(field + rest) == Ok((field, rest))
  {
    BareRoundTrip(field, rest);
    if field == "" {
      assert field + rest == rest;
    } else {
      assert (field + rest)[0] == field[0] && field[0] in field;
    }
  }

  /** What the reader's treatment of line ends makes of a field. */
  function Unbroken(field: string): string {
    if field == "" then ""
    else if |field| > 1 && field[0] == '\r' && field[1] == '\n' then ['\n'] + Unbroken(field[2..])
    else [field[0]] + Unbroken(field[1..])
  }

  function Unbrokens(fields: seq<string>): (r: seq<string>)
    ensures |r| == |fields| && forall i | 0 <= i < |fields| :: r[i] == Unbroken(fields[i])
  {
    seq(|fields|, i requires 0 <= i < |fields| => Unbroken(fields[i]))
  }

  /** A field as it stands in the normalised text. */
  function NormalField(field: string): string {
    if NeedsQuotes(field) then [QUOTE] + Escaped(Unbroken(field)) + [QUOTE] else field
  }

  /** Normalisation past the start of a text, where the start holds no line end. */
  lemma NormalisedHead(c: char, rest: string)
    requires c == '\r' ==> rest != "" && rest[0] != '\n'
    ensures Normalised([c] + rest) == [c] + Normalised(rest)
  {
    var s := [c] + rest;
    assert s[0] == c && s[1..] == rest;
    if c == '\r' {
      assert s[1] == rest[0] && |s| > 1;
    }
    assert s != "\r";
  }

  lemma NormalisedBreak(rest: string)
    ensures Normalised(['\r', '\n'] + rest) == ['\n'] + Normalised(rest)
  {
    assert (['\r', '\n'] + rest)[2..] == rest;
  }

  lemma NormalisedQuotes(rest: string)
    ensures Normalised([QUOTE, QUOTE] + rest) == [QUOTE, QUOTE] + Normalised(rest)
  {
    NormalisedHead(QUOTE, rest);
    NormalisedHead(QUOTE, [QUOTE] + rest);
    assert [QUOTE, QUOTE] + rest == [QUOTE] + ([QUOTE] + rest);
  }

  lemma {:induction false} NormalisedQuoted(field: string, rest: string)
    ensures Normalised(Escaped(field) + [QUOTE] + rest) == Escaped(Unbroken(field)) + [QUOTE] + Normalised(rest)
  {
    if field == "" {
      NormalisedHead(QUOTE, rest);
      assert Escaped("") + [QUOTE] + rest == [QUOTE] + rest;
    } else if |field| > 1 && field[0] == '\r' && field[1] == '\n' {
      NormalisedQuoted(field[2..], rest);
      NormalisedBreak(Escaped(field[2..]) + [QUOTE] + rest);
      EscapedBreak(field);
      ConcatFour(['\r', '\n'], Escaped(field[2..]), [QUOTE], rest);
      ConcatFour(['\n'], Escaped(Unbroken(field[2..])), [QUOTE], Normalised(rest));
    } else {
      NormalisedQuoted(field[1..], rest);
      NormalisedStep(field, Escaped(field[1..]) + [QUOTE] + rest);
      EscapedStep(field);
      var head := if field[0] == QUOTE then [QUOTE, QUOTE] else [field[0]];
      ConcatFour(head, Escaped(field[1..]), [QUOTE], rest);
      ConcatFour(head, Escaped(Unbroken(field[1..])), [QUOTE], Normalised(rest));
    }
  }

  lemma NormalisedStep(field: string, inner: string)
    requires field != "" && !(|field| > 1 && field[0] == '\r' && field[1] == '\n')
    requires exists rest :: inner == Escaped(field[1..]) + [QUOTE] + rest
    ensures var head := if field[0] == QUOTE then [QUOTE, QUOTE] else [field[0]];
            Normalised(head + inner) == head + Normalised(inner)
  {
    if field[0] == QUOTE {
      NormalisedQuotes(inner);
    } else {
      NormalisedHead(field[0], inner);
    }
  }

  lemma EscapedBreak(field: string)
    requires |field| > 1 && field[0] == '\r' && field[1] == '\n'
    ensures Escaped(field) == ['\r', '\n'] + Escaped(field[2..])
    ensures Escaped(Unbroken(field)) == ['\n'] + Escaped(Unbroken(field[2..]))
  {
    assert field[1..][1..] == field[2..];
    assert (['\n'] + Unbroken(field[2..]))[1..] == Unbroken(field[2..]);
  }

  lemma EscapedStep(field: string)
    requires field != "" && !(|field| > 1 && field[0] == '\r' && field[1] == '\n')
    ensures var head := if field[0] == QUOTE then [QUOTE, QUOTE] else [field[0]];
            && Escaped(field) == head + Escaped(field[1..])
            && Escaped(Unbroken(field)) == head + Escaped(Unbroken(field[1..]))
  {
    assert ([field[0]] + Unbroken(field[1..]))[1..] == Unbroken(field[1..]);
  }

  lemma {:induction false} UnbrokenBare(field: string)
    requires '\r' !in field
    ensures Unbroken(field) == field
  {
    if field != "" {
      assert field[0] in field && forall c | c in field[1..] :: c in field;
      UnbrokenBare(field[1..]);
      assert [field[0]] + field[1..] == field;
    }
  }

  lemma {:induction false} NormalisedBare(field: string, rest: string)
    requires '\r' !in field
    ensures Normalised(field + rest) == field + Normalised(rest)
  {
    if field == "" {
      assert field + rest == rest;
    } else {
      var c, tail := field[0], field[1..];
      assert field == [c] + tail && c in field;
      NormalisedBare(tail, rest);
      NormalisedHead(c, tail + rest);
      TwoParts(c, tail, rest);
      TwoParts(c, tail, Normalised(rest));
    }
  }

  lemma TwoParts(c: char, tail: string, rest: string)
    ensures ([c] + tail) + rest == [c] + (tail + rest)
  {
  }

  lemma NormalisedField(field: string, rest: string)
    ensures Normalised(WrittenField(field) + rest) == NormalField(field) + Normalised(rest)
    ensures !NeedsQuotes(field) ==> Unbroken(field) == field
  {
    if NeedsQuotes(field) {
      NormalisedQuoted(field, rest);
      var inner := Escaped(field) + [QUOTE] + rest;
      ConcatFour([QUOTE], Escaped(field), [QUOTE], rest);
      assert ([QUOTE] + inner)[1..] == inner;
    } else {
      NormalisedBare(field, rest);
      UnbrokenBare(field);
    }
  }

  lemma NormalFieldRoundTrip(field: string, rest: string)
    requires EndsField(rest)
    ensures OneField(NormalField(field) + rest) == Ok((Unbroken(field), rest))
  {
    if NeedsQuotes(field) {
      QuotedFieldRoundTrip(Unbroken(field), rest);
    } else {
      UnbrokenBare(field);
      BareFieldRoundTrip(field, rest);
    }
  }

  lemma ReadOneMore(field: string, tail: string, fields: seq<string>)
    requires ReadFields(Normalised(tail)) == Ok(fields)
    ensures ReadFields(Normalised(WrittenField(field) + ("," + tail))) == Ok([Unbroken(field)] + fields)
  {
    NormalisedField(field, "," + tail);
    NormalisedHead(',', tail);
    NormalFieldRoundTrip(field, "," + Normalised(tail));
    assert ("," + Normalised(tail))[1..] == Normalised(tail);
  }

  /** Reading what was written gives back the fields, whatever they hold, up to the line ends. */
  lemma {:induction false} FieldsRoundTrip(fields: seq<string>)
    requires fields != []
    ensures ReadFields(Normalised(WrittenFields(fields))) == Ok(Unbrokens(fields))
  {
    if |fields| == 1 {
      ReadTheLast(fields[0]);
      assert [Unbroken(fields[0])] == Unbrokens(fields);
    } else {
      FieldsRoundTrip(fields[1..]);
      ReadOneMore(fields[0], WrittenFields(fields[1..]), Unbrokens(fields[1..]));
      WrittenCons(fields);
      UnbrokenCons(fields);
    }
  }

  lemma ReadTheLast(field: string)
    ensures ReadFields(Normalised(WrittenField(field))) == Ok([Unbroken(field)])
  {
    NormalisedField(field, "");
    NormalFieldRoundTrip(field, "");
    assert WrittenField(field) + "" == WrittenField(field);
  }

  lemma WrittenCons(fields: seq<string>)
    requires |fields| > 1
    ensures WrittenFields(fields) == WrittenField(fields[0]) + ("," + WrittenFields(fields[1..]))
  {
  }

  lemma UnbrokenCons(fields: seq<string>)
    requires fields != []
    ensures [Unbroken(fields[0])] + Unbrokens(fields[1..]) == Unbrokens(fields)
  {
  }

  lemma WrittenStarts(fields: seq<string>)
    requires fields != [] && fields[0] != ""
    ensures var s := WrittenFields(fields); s != "" && !IsSpace(s[0])
  {
    var first := WrittenField(fields[0]);
    assert first != "" && !IsSpace(first[0]);
    if |fields| > 1 {
      assert WrittenFields(fields) == first + ("," + WrittenFields(fields[1..]));
    }
  }

  lemma WrittenIsNotEmpty(fields: seq<string>)
    requires fields != [] && fields != [""]
    ensures var s := WrittenFields(fields); s != "" && s[0] != '\r' && s[0] != '\n'
  {
    if fields[0] == "" {
      assert WrittenFields(fields) == "" + "," + WrittenFields(fields[1..]);
    } else {
      WrittenStarts(fields);
    }
  }

  /** A written record is read back, whatever its fields hold, up to the line ends in them; only a record without
      fields, or with a single empty one, is an empty line, and not read as a record. */
  lemma WrittenReadsBack(fields: seq<string>)
    ensures Read(WrittenFields(fields)) == Ok(Unbrokens(fields)) <==> fields != [] && fields != [""]
  {
    if fields != [] && fields != [""] {
      WrittenIsNotEmpty(fields);
      FieldsRoundTrip(fields);
      var s := WrittenFields(fields);
      assert Normalised(s) == [s[0]] + Normalised(s[1..]);
    } else {
      assert WrittenFields(fields) == "";
    }
  }

  // ------------------------------------------------------------- exactly what is written, and what is read

  /** Which fields the writer leaves bare; all others stand in quotes with their quotes doubled. */
  lemma WrittenExactly(field: string)
    ensures WrittenField(field)
            == if || field == "\\."
                  || (field != "" && IsSpace(field[0]))
                  || exists c | c in field :: c == ',' || c == '\"' || c == '\n' || c == '\r'
               then "\"" + Escaped(field) + "\""
               else field
  {
  }

  /** Doubling touches nothing but quotes. */
  lemma EscapedExactly(before: string, after: string)
    requires '\"' !in before
    ensures Escaped(before) == before
    ensures Escaped(before + "\"" + after) == before + "\"\"" + Escaped(after)
  {
    EscapedBare(before);
    EscapedInFront(before, [QUOTE] + after);
    EscapedQuote(after);
    assert before + "\"" + after == before + ([QUOTE] + after);
    assert before + "\"\"" + Escaped(after) == before + ([QUOTE, QUOTE] + Escaped(after));
  }

  lemma EscapedQuote(after: string)
    ensures Escaped([QUOTE] + after) == [QUOTE, QUOTE] + Escaped(after)
  {
    assert ([QUOTE] + after)[1..] == after;
  }

  lemma {:induction false} EscapedBare(before: string)
    requires QUOTE !in before
    ensures Escaped(before) == before
  {
    if before != "" {
      assert before[0] in before && forall c | c in before[1..] :: c in before;
      EscapedBare(before[1..]);
      assert [before[0]] + before[1..] == before;
    }
  }

  lemma {:induction false} EscapedInFront(before: string, after: string)
    requires QUOTE !in before
    ensures Escaped(before + after) == before + Escaped(after)
  {
    if before == "" {
      assert before + after == after;
    } else {
      var c, tail := before[0], before[1..];
      assert before == [c] + tail && c in before && forall d | d in tail :: d in before;
      EscapedInFront(tail, after);
      TwoParts(c, tail, after);
      TwoParts(c, tail, Escaped(after));
      assert ([c] + (tail + after))[1..] == tail + after;
    }
  }

  /** A text of one field: bare, without commas, quotes and line feeds, or in quotes with its quotes doubled. */
  ghost predicate Denotes(text: string, field: string) {
    || (text == field && ',' !in text && '\n' !in text && QUOTE !in text)
    || text == [QUOTE] + Escaped(field) + [QUOTE]
  }

  lemma DenotedIsRead(text: string, field: string, rest: string)
    requires Denotes(text, field) && EndsField(rest)
    ensures OneField(text + rest) == Ok((field, rest))
  {
    if text == [QUOTE] + Escaped(field) + [QUOTE] {
      QuotedFieldRoundTrip(field, rest);
    } else {
      BareRoundTrip(field, rest);
      if field == "" {
        assert field + rest == rest;
      } else {
        assert (field + rest)[0] == field[0] && field[0] in field;
      }
    }
  }

  lemma {:induction false} BareIsDenoted(s: string)
    requires BareField(s).Ok?
    ensures var (field, rest) := BareField(s).value;
            s == field + rest && EndsField(rest) && ',' !in field && '\n' !in field && QUOTE !in field
  {
    if s != "" && s[0] != ',' && s[0] != '\n' {
      BareIsDenoted(s[1..]);
      assert s == [s[0]] + s[1..];
    }
  }

  lemma {:induction false} QuotedIsDenoted(s: string)
    requires QuotedField(s).Ok?
    ensures var (field, rest) := QuotedField(s).value;
            s == Escaped(field) + [QUOTE] + rest && EndsField(rest)
    decreases |s|
  {
    if s[0] != QUOTE {
      QuotedIsDenoted(s[1..]);
      QuotedStep(s, [s[0]], s[1..], s[0]);
    } else if |s| > 1 && s[1] == QUOTE {
      QuotedIsDenoted(s[2..]);
      QuotedStep(s, [QUOTE, QUOTE], s[2..], QUOTE);
    } else {
      assert s == [QUOTE] + s[1..] && Escaped("") + [QUOTE] + s[1..] == [QUOTE] + s[1..];
    }
  }

  lemma QuotedStep(s: string, head: string, tail: string, c: char)
    requires s == head + tail && head == (if c == QUOTE then [QUOTE, QUOTE] else [c])
    requires QuotedField(tail).Ok?
    requires var (field, rest) := QuotedField(tail).value; tail == Escaped(field) + [QUOTE] + rest
    ensures var (field, rest) := QuotedField(tail).value; s == Escaped([c] + field) + [QUOTE] + rest
  {
    var (field, rest) := QuotedField(tail).value;
    assert ([c] + field)[1..] == field;
    ConcatFour(head, Escaped(field), [QUOTE], rest);
  }

  lemma ReadIsDenoted(s: string) returns (text: string)
    requires OneField(s).Ok?
    ensures var (field, rest) := OneField(s).value; s == text + rest && EndsField(rest) && Denotes(text, field)
  {
    var (field, rest) := OneField(s).value;
    if s != "" && s[0] == QUOTE {
      QuotedIsDenoted(s[1..]);
      text := [QUOTE] + Escaped(field) + [QUOTE];
      ConcatFour([QUOTE], Escaped(field), [QUOTE], rest);
      assert s == [QUOTE] + s[1..];
    } else {
      BareIsDenoted(s);
      text := field;
    }
  }

  /** The grammar of one record: texts of fields with commas between them, up to the end of the text or of the line. */
  ghost predicate IsRecordWith(s: string, fields: seq<string>, texts: seq<string>, rest: string) {
    && fields != [] && |texts| == |fields| && (rest == "" || rest[0] == '\n')
    && s == Join(texts, ",") + rest
    && forall i | 0 <= i < |fields| :: Denotes(texts[i], fields[i])
  }

  ghost predicate IsRecord(s: string, fields: seq<string>) {
    exists texts, rest :: IsRecordWith(s, fields, texts, rest)
  }

  lemma {:induction false} RecordsAreRead(s: string, fields: seq<string>, texts: seq<string>, rest: string)
    requires IsRecordWith(s, fields, texts, rest)
    ensures ReadFields(s) == Ok(fields)
    decreases |fields|
  {
    if |fields| == 1 {
      DenotedIsRead(texts[0], fields[0], rest);
      assert [fields[0]] == fields;
    } else {
      var tail := Join(texts[1..], ",") + rest;
      RecordTail(fields, texts, rest);
      RecordsAreRead(tail, fields[1..], texts[1..], rest);
      ReadStep(texts[0], fields[0], tail, fields[1..]);
      assert s == texts[0] + ("," + tail);
      assert [fields[0]] + fields[1..] == fields;
    }
  }

  lemma ReadStep(text: string, field: string, tail: string, fields: seq<string>)
    requires Denotes(text, field) && ReadFields(tail) == Ok(fields)
    ensures ReadFields(text + ("," + tail)) == Ok([field] + fields)
  {
    DenotedIsRead(text, field, "," + tail);
    assert ("," + tail)[1..] == tail;
  }

  lemma RecordTail(fields: seq<string>, texts: seq<string>, rest: string)
    requires |fields| > 1 && IsRecordWith(Join(texts, ",") + rest, fields, texts, rest)
    ensures IsRecordWith(Join(texts[1..], ",") + rest, fields[1..], texts[1..], rest)
  {
  }

  lemma {:induction false} ReadAreRecords(s: string) returns (texts: seq<string>, rest: string)
    requires ReadFields(s).Ok?
    ensures IsRecordWith(s, ReadFields(s).value, texts, rest)
    decreases |s|
  {
    var text := ReadIsDenoted(s);
    var (field, after) := OneField(s).value;
    if after == "" || after[0] != ',' {
      texts, rest := [text], after;
    } else {
      var more, end := ReadAreRecords(after[1..]);
      texts, rest := [text] + more, end;
      RecordCons(text, field, after, ReadFields(after[1..]).value, more, end);
    }
  }

  lemma RecordCons(text: string, field: string, after: string, fields: seq<string>, texts: seq<string>, rest: string)
    requires Denotes(text, field) && after != "" && after[0] == ','
    requires IsRecordWith(after[1..], fields, texts, rest)
    ensures IsRecordWith(text + after, [field] + fields, [text] + texts, rest)
  {
    assert after == "," + after[1..];
    assert ([text] + texts)[1..] == texts;
    assert text + after == Join([text] + texts, ",") + rest;
    forall i | 0 <= i < |fields| + 1 ensures Denotes(([text] + texts)[i], ([field] + fields)[i]) {
      assert i > 0 ==> Denotes(texts[i - 1], fields[i - 1]);
    }
  }

  /** The reader accepts exactly the texts that the grammar gives, and reads what they denote. */
  lemma ReadsExactly(s: string, fields: seq<string>)
    ensures ReadFields(s) == Ok(fields) <==> IsRecord(s, fields)
  {
    if ReadFields(s) == Ok(fields) {
      var texts, rest := ReadAreRecords(s);
    }
    if IsRecord(s, fields) {
      var texts, rest :| IsRecordWith(s, fields, texts, rest);
      RecordsAreRead(s, fields, texts, rest);
    }
  }

  /** Line ends before the reader sees them: CR LF becomes LF, and one CR at the very end goes. */
  lemma LineEndsExactly(s: string, rest: string)
    requires '\r' !in s
    ensures Normalised(s) == s && Normalised(s + "\r") == s
    ensures Normalised(s + ("\r\n" + rest)) == s + ("\n" + Normalised(rest))
  {
    NormalisedBare(s, "");
    NormalisedBare(s, "\r");
    NormalisedBreak(rest);
    NormalisedBare(s, "\r\n" + rest);
    assert s + "" == s;
  }

  /** All line feeds in front of a text are skipped, and nothing else. */
  lemma {:induction false} SkipsExactly(lines: string, s: string)
    requires (forall c | c in lines :: c == '\n') && (s != "" ==> s[0] != '\n')
    ensures SkipEmptyLines(lines + s) == s
  {
    if lines == "" {
      assert lines + s == s;
    } else {
      assert lines[0] in lines && forall c | c in lines[1..] :: c in lines;
      assert (lines + s)[1..] == lines[1..] + s;
      SkipsExactly(lines[1..], s);
    }
  }
}
