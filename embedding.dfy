/**
 * The embedding text codec of `Embedding`: an embedding (`Array<FloatArray>`)
 * is stored as Kotlin's nested list text `[[a, b], [c, d]]` and read back by
 * trimming brackets and splitting on `"], ["` and `","`.
 *
 * Float rendering (`Float.toString`) and float parsing (`String.toFloat`)
 * are parameters `fmt` and `parse`; the round trip is proved for every pair
 * satisfying `FloatText`.
 */
module EmbeddingCodec {
  import opened Wrappers
  import opened Text

  /** An embedding: rows of floats, in practice a single row of the model's output size. */
  type Matrix = seq<seq<real>>

  /** The delimiter between rows after the outer brackets are trimmed. */
  const ROW_DELIMITER: string := "], ["

  /** The delimiter between the values of one row. */
  const VALUE_DELIMITER: string := ","

  /** The characters `trim('[', ']')` removes. */
  predicate IsBracket(c: char)
  {
    c == '[' || c == ']'
  }

  /**
   * What the round trip assumes of the float formatter and parser:
   * a rendered float parses back with or without one leading space (Java's
   * `parseFloat` ignores surrounding white space), a rendering holds no
   * bracket and no comma, and the empty token does not parse.
   */
  ghost predicate FloatText(fmt: real -> string, parse: string -> Option<real>)
  {
    && (forall x {:trigger fmt(x)} :: parse(fmt(x)) == Some(x))
    && (forall x {:trigger fmt(x)} :: parse(" " + fmt(x)) == Some(x))
    && (forall x {:trigger fmt(x)} :: '[' !in fmt(x) && ']' !in fmt(x) && ',' !in fmt(x))
    && parse("") == None
  }

  /** What `FloatText` says of one value; a rendering is never empty, since the empty token does not parse. */
  lemma FloatTextAt(x: real, fmt: real -> string, parse: string -> Option<real>)
    requires FloatText(fmt, parse)
    ensures parse(fmt(x)) == Some(x) && parse(" " + fmt(x)) == Some(x)
    ensures '[' !in fmt(x) && ']' !in fmt(x) && ',' !in fmt(x)
    ensures fmt(x) != ""
  {
    assert parse(fmt(x)) == Some(x) && parse("") == None;
  }

  /** Every value of a row, rendered. */
  function FormatValues(row: seq<real>, fmt: real -> string): (r: seq<string>)
    ensures |r| == |row|
  {
    if |row| == 0 then [] else [fmt(row[0])] + FormatValues(row[1..], fmt)
  }

  /** Every row rendered as a list: `[a, b]`. */
  function FormatRowList(rows: Matrix, fmt: real -> string): (r: seq<string>)
    ensures |r| == |rows|
  {
    if |rows| == 0 then [] else [ListToString(FormatValues(rows[0], fmt))] + FormatRowList(rows[1..], fmt)
  }

  /** `embeddingStringFromJavaObject`: the list of row lists, rendered by `List.toString`. */
  function Format(rows: Matrix, fmt: real -> string): string
  {
    ListToString(FormatRowList(rows, fmt))
  }

  /** `toFloat` on every token of a row, stopping at the first that does not parse. */
  function ParseTokens(tokens: seq<string>, parse: string -> Option<real>): (r: Result<seq<real>, string>)
    ensures r.Success? <==> forall i :: 0 <= i < |tokens| ==> parse(tokens[i]).Some?
    ensures r.Success? ==>
      (|r.value| == |tokens| && forall i :: 0 <= i < |tokens| ==> parse(tokens[i]) == Some(r.value[i]))
    ensures r.Failure? ==> r.error in tokens && parse(r.error) == None
  {
    if |tokens| == 0 then Success([])
    else match parse(tokens[0])
      case None => Failure(tokens[0])
      case Some(v) =>
        match ParseTokens(tokens[1..], parse)
        case Failure(bad) => Failure(bad)
        case Success(vs) => Success([v] + vs)
  }

  /** Every row text split on `","` and parsed, stopping at the first bad token. */
  function ParseRows(rowTexts: seq<string>, parse: string -> Option<real>): (r: Result<Matrix, string>)
    ensures r.Success? ==>
      (|r.value| == |rowTexts| && forall i :: 0 <= i < |rowTexts| ==>
        ParseTokens(Split(rowTexts[i], VALUE_DELIMITER), parse) == Success(r.value[i]))
  {
    if |rowTexts| == 0 then Success([])
    else match ParseTokens(Split(rowTexts[0], VALUE_DELIMITER), parse)
      case Failure(bad) => Failure(bad)
      case Success(row) =>
        match ParseRows(rowTexts[1..], parse)
        case Failure(bad) => Failure(bad)
        case Success(rows) => Success([row] + rows)
  }

  /** The text between the outer brackets, as `trim('[', ']')` leaves it. */
  function Inner(text: string): string
  {
    Trim(text, IsBracket)
  }

  /**
   * `embeddingStringToJavaObject`: trim the brackets, split into rows on
   * `"], ["`, split each row on `","`, parse every token. A token that does
   * not parse is the `NumberFormatException` the source throws.
   */
  function Parse(text: string, parse: string -> Option<real>): (r: Result<Matrix, string>)
    ensures r.Success? ==> |r.value| == |Split(Inner(text), ROW_DELIMITER)| >= 1
  {
    ParseRows(Split(Inner(text), ROW_DELIMITER), parse)
  }

  // ----- the round trip -----

  /** The rows' bodies, each the row's values joined by `", "`. */
  function RowBodies(rows: Matrix, fmt: real -> string): (r: seq<string>)
    ensures |r| == |rows|
  {
    if |rows| == 0 then [] else [Join(FormatValues(rows[0], fmt), ", ")] + RowBodies(rows[1..], fmt)
  }

  /** The rendering is the row bodies joined by the row delimiter inside two pairs of brackets. */
  lemma {:induction false} FormatShape(rows: Matrix, fmt: real -> string)
    requires |rows| >= 1
    ensures Join(FormatRowList(rows, fmt), ", ") == "[" + Join(RowBodies(rows, fmt), ROW_DELIMITER) + "]"
    decreases |rows|
  {
    if |rows| > 1 {
      FormatShape(rows[1..], fmt);
      assert FormatRowList(rows, fmt)[1..] == FormatRowList(rows[1..], fmt);
      assert RowBodies(rows, fmt)[1..] == RowBodies(rows[1..], fmt);
    }
  }

  /** A rendered row splits on `","` into its rendered values, every one after the first behind a space. */
  lemma {:induction false} RowRoundTrip(row: seq<real>, pre: string, fmt: real -> string, parse: string -> Option<real>)
    requires FloatText(fmt, parse)
    requires |row| >= 1 && (pre == "" || pre == " ")
    ensures ParseTokens(Split(pre + Join(FormatValues(row, fmt), ", "), VALUE_DELIMITER), parse) == Success(row)
    decreases |row|
  {
    var first := pre + fmt(row[0]);
    FloatTextAt(row[0], fmt, parse);
    assert ',' !in first;
    if pre == "" {
      assert first == fmt(row[0]);
    } else {
      assert first == " " + fmt(row[0]);
    }
    assert parse(first) == Some(row[0]);
    if |row| == 1 {
      assert FormatValues(row, fmt) == [fmt(row[0])];
      assert pre + Join(FormatValues(row, fmt), ", ") == first;
      SplitWhole(first, VALUE_DELIMITER);
      assert [first][1..] == [];
      assert ParseTokens([first], parse) == Success([row[0]] + []);
      assert [row[0]] + [] == row;
    } else {
      var rest := Join(FormatValues(row[1..], fmt), ", ");
      assert FormatValues(row, fmt)[1..] == FormatValues(row[1..], fmt);
      assert pre + Join(FormatValues(row, fmt), ", ") == first + ("," + (" " + rest));
      SplitAfterToken(first, " " + rest);
      RowRoundTrip(row[1..], " ", fmt, parse);
      var tokens := Split(pre + Join(FormatValues(row, fmt), ", "), VALUE_DELIMITER);
      assert tokens == [first] + Split(" " + rest, VALUE_DELIMITER);
      assert tokens[1..] == Split(" " + rest, VALUE_DELIMITER);
      assert [row[0]] + row[1..] == row;
    }
  }

  /** A token without a comma, then a comma: the token comes out whole and splitting goes on after the comma. */
  lemma SplitAfterToken(first: string, rest: string)
    requires ',' !in first
    ensures Split(first + ("," + rest), VALUE_DELIMITER) == [first] + Split(rest, VALUE_DELIMITER)
  {
    SplitPrefix(first, "," + rest, VALUE_DELIMITER);
    SplitLeading(rest, VALUE_DELIMITER);
    var st := Split("," + rest, VALUE_DELIMITER);
    assert VALUE_DELIMITER + rest == "," + rest;
    assert st == [""] + Split(rest, VALUE_DELIMITER);
    assert first + st[0] == first;
    assert st[1..] == Split(rest, VALUE_DELIMITER);
  }

  /** No row body holds a closing bracket. */
  lemma {:induction false} BodiesHaveNoBracket(rows: Matrix, fmt: real -> string, parse: string -> Option<real>)
    requires FloatText(fmt, parse)
    ensures forall i :: 0 <= i < |rows| ==> ']' !in RowBodies(rows, fmt)[i]
    decreases |rows|
  {
    if |rows| > 0 {
      var vs := FormatValues(rows[0], fmt);
      forall i | 0 <= i < |vs| ensures ']' !in vs[i] {
        ValueAt(rows[0], i, fmt);
        FloatTextAt(rows[0][i], fmt, parse);
      }
      JoinAvoids(vs, ", ", ']');
      BodiesHaveNoBracket(rows[1..], fmt, parse);
    }
  }

  lemma {:induction false} ValueAt(row: seq<real>, i: nat, fmt: real -> string)
    requires i < |row|
    ensures FormatValues(row, fmt)[i] == fmt(row[i])
    decreases i
  {
    if i > 0 {
      ValueAt(row[1..], i - 1, fmt);
    }
  }

  /** Parsing the row bodies gives the rows back. */
  lemma {:induction false} RowsRoundTrip(rows: Matrix, fmt: real -> string, parse: string -> Option<real>)
    requires FloatText(fmt, parse)
    requires forall i :: 0 <= i < |rows| ==> |rows[i]| >= 1
    ensures ParseRows(RowBodies(rows, fmt), parse) == Success(rows)
    decreases |rows|
  {
    if |rows| > 0 {
      RowRoundTrip(rows[0], "", fmt, parse);
      assert "" + Join(FormatValues(rows[0], fmt), ", ") == RowBodies(rows, fmt)[0];
      RowsRoundTrip(rows[1..], fmt, parse);
      assert RowBodies(rows, fmt)[1..] == RowBodies(rows[1..], fmt);
      assert [rows[0]] + rows[1..] == rows;
    }
  }

  /** The text between the outer brackets starts and ends with a rendered float. */
  lemma InnerEnds(rows: Matrix, fmt: real -> string, parse: string -> Option<real>)
    requires FloatText(fmt, parse)
    requires |rows| >= 1 && forall i :: 0 <= i < |rows| ==> |rows[i]| >= 1
    ensures var inner := Join(RowBodies(rows, fmt), ROW_DELIMITER);
      |inner| > 0 && !IsBracket(inner[0]) && !IsBracket(inner[|inner| - 1])
  {
    InnerStart(rows, fmt, parse);
    InnerLast(rows, fmt, parse);
  }

  lemma InnerStart(rows: Matrix, fmt: real -> string, parse: string -> Option<real>)
    requires FloatText(fmt, parse)
    requires |rows| >= 1 && |rows[0]| >= 1
    ensures var inner := Join(RowBodies(rows, fmt), ROW_DELIMITER);
      |inner| > 0 && !IsBracket(inner[0])
  {
    var bodies := RowBodies(rows, fmt);
    var first := FormatValues(rows[0], fmt);
    var v := fmt(rows[0][0]);
    FloatTextAt(rows[0][0], fmt, parse);
    ValueAt(rows[0], 0, fmt);
    JoinHead(first, ", ");
    var body := Join(first, ", ");
    assert body[..|v|] == v;
    assert body[0] == v[0];
    assert bodies[0] == body;
    JoinHead(bodies, ROW_DELIMITER);
    var inner := Join(bodies, ROW_DELIMITER);
    assert inner[..|body|] == body;
    assert inner[0] == v[0];
    assert v[0] in v;
  }

  lemma InnerLast(rows: Matrix, fmt: real -> string, parse: string -> Option<real>)
    requires FloatText(fmt, parse)
    requires |rows| >= 1 && |rows[|rows| - 1]| >= 1
    ensures var inner := Join(RowBodies(rows, fmt), ROW_DELIMITER);
      |inner| > 0 && !IsBracket(inner[|inner| - 1])
  {
    var lastRow := rows[|rows| - 1];
    var last := FormatValues(lastRow, fmt);
    var v := fmt(lastRow[|lastRow| - 1]);
    FloatTextAt(lastRow[|lastRow| - 1], fmt, parse);
    assert v[|v| - 1] in v;
    ValueAt(lastRow, |lastRow| - 1, fmt);
    JoinLastChar(last, ", ");
    var body := Join(last, ", ");
    LastBody(rows, fmt);
    JoinLastChar(RowBodies(rows, fmt), ROW_DELIMITER);
  }

  lemma {:induction false} LastBody(rows: Matrix, fmt: real -> string)
    requires |rows| >= 1
    ensures RowBodies(rows, fmt)[|rows| - 1] == Join(FormatValues(rows[|rows| - 1], fmt), ", ")
    decreases |rows|
  {
    if |rows| > 1 {
      LastBody(rows[1..], fmt);
    }
  }

  /**
   * The codec round trip: every non-empty embedding whose rows are all
   * non-empty parses back from its rendering, row for row and value for value.
   */
  lemma RoundTrip(rows: Matrix, fmt: real -> string, parse: string -> Option<real>)
    requires FloatText(fmt, parse)
    requires |rows| >= 1 && forall i :: 0 <= i < |rows| ==> |rows[i]| >= 1
    ensures Parse(Format(rows, fmt), parse) == Success(rows)
  {
    var bodies := RowBodies(rows, fmt);
    var inner := Join(bodies, ROW_DELIMITER);
    FormatShape(rows, fmt);
    assert Format(rows, fmt) == "[[" + inner + "]]";
    InnerEnds(rows, fmt, parse);
    TrimWrapped("[[", inner, "]]", IsBracket);
    assert Inner(Format(rows, fmt)) == inner;
    BodiesHaveNoBracket(rows, fmt, parse);
    SplitJoin(bodies, ROW_DELIMITER);
    RowsRoundTrip(rows, fmt, parse);
  }

  // ----- how the parser reads other texts -----

  /** Any number of extra brackets around the text are ignored: `[[[1.0]]]` reads as `[[1.0]]`. */
  lemma ExtraBracketsIgnored(text: string, parse: string -> Option<real>)
    ensures Parse("[" + text + "]", parse) == Parse(text, parse)
  {
    TrimDropsLeading('[', text + "]", IsBracket);
    assert "[" + text + "]" == ['['] + (text + "]");
    TrimDropsTrailing(text, ']', IsBracket);
  }

  /** The number of rows is one more than the number of `"], ["` between the outer brackets. */
  lemma RowCount(text: string, parse: string -> Option<real>)
    requires Parse(text, parse).Success?
    ensures |Parse(text, parse).value| == 1 + Count(Inner(text), ROW_DELIMITER)
  {
    assert ROW_DELIMITER[1..] == ", [";
    SplitCount(Inner(text), ROW_DELIMITER);
  }

  /** Texts that are brackets only (`""`, `"[]"`, `"[[]]"`) leave an empty token and do not parse. */
  lemma BracketsOnlyFail(text: string, fmt: real -> string, parse: string -> Option<real>)
    requires FloatText(fmt, parse)
    requires forall i :: 0 <= i < |text| ==> IsBracket(text[i])
    ensures Parse(text, parse).Failure?
  {
    TrimStartAll(text);
    assert Inner(text) == "";
    assert Split("", ROW_DELIMITER) == [""];
    assert Split("", VALUE_DELIMITER) == [""];
  }

  lemma {:induction false} TrimStartAll(text: string)
    requires forall i :: 0 <= i < |text| ==> IsBracket(text[i])
    ensures TrimStart(text, IsBracket) == ""
    decreases |text|
  {
    if |text| > 0 {
      TrimStartAll(text[1..]);
    }
  }

  /**
   * A row that ends in a comma leaves an empty last token, and `"".toFloat()`
   * throws: any text with such a row, `[[1.0,]]` for one, does not parse.
   */
  lemma TrailingCommaFails(text: string, i: nat, parse: string -> Option<real>)
    requires parse("") == None
    requires i < |Split(Inner(text), ROW_DELIMITER)|
    requires var row := Split(Inner(text), ROW_DELIMITER)[i]; |row| > 0 && row[|row| - 1] == ','
    ensures Parse(text, parse).Failure?
  {
    var row := Split(Inner(text), ROW_DELIMITER)[i];
    SplitTrailing(row, ',');
    var tokens := Split(row, VALUE_DELIMITER);
    assert parse(tokens[|tokens| - 1]) == None;
    assert ParseTokens(tokens, parse).Failure?;
  }

}
