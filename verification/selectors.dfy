/** The selector parser: `col_letter_to_index`, `parse_columns` and
    `parse_rows` (app.py lines 29-44), which turn the form fields
    `"A,c,F"` and `"2,5-9,12"` into column and row indices.
 */
module Selectors {
  import opened Results
  import opened Text
  import opened Decimal
  import opened Ordered

  // ---------------------------------------------------------------- columns

  predicate IsLetter(c: char) {
    'A' <= c <= 'Z' || 'a' <= c <= 'z'
  }

  /** `str.upper()` on one ASCII character. */
  function Upper(c: char): char {
    if 'a' <= c <= 'z' then (c as int - 32) as char else c
  }

  /** `str.lower()` on one ASCII character. */
  function Lower(c: char): char {
    if 'A' <= c <= 'Z' then (c as int + 32) as char else c
  }

  /** The spreadsheet letter of column `n` (A is column 1). */
  function ColumnLetter(n: int): (c: char)
    requires 1 <= n <= 26
    ensures 'A' <= c <= 'Z'
  {
    (64 + n) as char
  }

  /** `col_letter_to_index`: `ord(letter.upper()) - 64` for a one-letter
      token; any other token is refused. */
  function ColLetterToIndex(token: string): (r: Result<int>)
    ensures r.Ok? <==> |token| == 1 && IsLetter(token[0])
    ensures r.Ok? ==> 1 <= r.value <= 26 && ColumnLetter(r.value) == Upper(token[0])
    ensures r.Err? ==> r.error == BadColumn(token)
  {
    if |token| == 1 && IsLetter(token[0]) then Ok(Upper(token[0]) as int - 64)
    else Err(BadColumn(token))
  }

  /** The letter of a column, in either case, reads back as that column. */
  lemma ColumnLetterRoundTrip(n: int)
    requires 1 <= n <= 26
    ensures ColLetterToIndex([ColumnLetter(n)]) == Ok(n)
    ensures ColLetterToIndex([Lower(ColumnLetter(n))]) == Ok(n)
  {
  }

  /** The pieces `parse_columns` keeps: every comma-separated piece trimmed,
      blank ones dropped, order and repetitions kept. */
  function NonBlank(pieces: seq<string>): (r: seq<string>)
    ensures |r| <= |pieces|
    ensures forall k :: 0 <= k < |r| ==> |r[k]| > 0 && !IsSpace(r[k][0]) && !IsSpace(r[k][|r[k]| - 1])
    decreases |pieces|
  {
    if |pieces| == 0 then []
    else
      var t := Trim(pieces[0]);
      var rest := NonBlank(pieces[1..]);
      if |t| == 0 then rest else [t] + rest
  }

  /** Filtering distributes over concatenation: each piece is judged on its own. */
  lemma {:induction false} NonBlankAppend(a: seq<string>, b: seq<string>)
    ensures NonBlank(a + b) == NonBlank(a) + NonBlank(b)
    decreases |a|
  {
    if |a| == 0 {
      assert a + b == b;
    } else {
      assert (a + b)[0] == a[0];
      assert (a + b)[1..] == a[1..] + b;
      NonBlankAppend(a[1..], b);
    }
  }

  /** Each piece is judged on its own: wherever it stands, a blank piece is
      dropped and any other piece is kept, trimmed, in its place. */
  lemma NonBlankPiece(a: seq<string>, p: string, b: seq<string>)
    ensures NonBlank(a + [p] + b) == NonBlank(a) + (if AllSpace(p) then [] else [Trim(p)]) + NonBlank(b)
  {
    var mid: seq<string> := if AllSpace(p) then [] else [Trim(p)];
    assert NonBlank([p]) == mid by {
      TrimBlank(p, StrSpaces);
      assert [p][1..] == [];
      assert NonBlank([p][1..]) == [];
    }
    NonBlankAppend(a, [p]);
    NonBlankAppend(a + [p], b);
  }

  /** Pieces that are already trimmed and non-blank are all kept, unchanged. */
  lemma {:induction false} NonBlankKeepsClean(pieces: seq<string>)
    requires forall k :: 0 <= k < |pieces| ==> |pieces[k]| > 0 && !IsSpace(pieces[k][0]) && !IsSpace(pieces[k][|pieces[k]| - 1])
    ensures NonBlank(pieces) == pieces
    decreases |pieces|
  {
    if |pieces| > 0 {
      TrimNoop(pieces[0], StrSpaces);
      NonBlankKeepsClean(pieces[1..]);
      assert pieces == [pieces[0]] + pieces[1..];
    }
  }

  /** Pieces that are blank after trimming are all dropped. */
  lemma {:induction false} NonBlankDropsBlank(pieces: seq<string>)
    requires forall k :: 0 <= k < |pieces| ==> AllSpace(pieces[k])
    ensures NonBlank(pieces) == []
    decreases |pieces|
  {
    if |pieces| > 0 {
      var t := Trim(pieces[0]);
      TrimFrames(pieces[0], StrSpaces);
      NonBlankDropsBlank(pieces[1..]);
    }
  }

  /** The non-blank trimmed tokens of a column selector, in order. */
  function ColumnTokens(text: string): seq<string> {
    NonBlank(Split(text, ','))
  }

  /** `parse_columns`: every non-blank token must be one letter, and the
      result lists their column indices in input order, repetitions kept. */
  function ParseColumns(text: string): (r: Result<seq<int>>)
    ensures var toks := ColumnTokens(text);
      r.Ok? <==> forall k :: 0 <= k < |toks| ==> |toks[k]| == 1 && IsLetter(toks[k][0])
    ensures var toks := ColumnTokens(text);
      r.Ok? ==> (|r.value| == |toks|
        && forall k :: 0 <= k < |toks| ==> 1 <= r.value[k] <= 26 && ColumnLetter(r.value[k]) == Upper(toks[k][0]))
  {
    MapAll(ColLetterToIndex, ColumnTokens(text))
  }

  /** The one-letter pieces of a column list. */
  function LetterPieces(cols: seq<int>): (r: seq<string>)
    requires forall k :: 0 <= k < |cols| ==> 1 <= cols[k] <= 26
    ensures |r| == |cols|
    ensures forall k :: 0 <= k < |cols| ==> r[k] == [ColumnLetter(cols[k])]
    decreases |cols|
  {
    if |cols| == 0 then [] else [[ColumnLetter(cols[0])]] + LetterPieces(cols[1..])
  }

  /** A column list written back as comma-separated letters. */
  function RenderColumns(cols: seq<int>): string
    requires forall k :: 0 <= k < |cols| ==> 1 <= cols[k] <= 26
  {
    Join(LetterPieces(cols), ',')
  }

  /** Parsing the letters of a column list gives the list back. */
  lemma ColumnsRoundTrip(cols: seq<int>)
    requires forall k :: 0 <= k < |cols| ==> 1 <= cols[k] <= 26
    ensures ParseColumns(RenderColumns(cols)) == Ok(cols)
  {
    var pieces := LetterPieces(cols);
    if |cols| == 0 {
      assert Split(RenderColumns(cols), ',') == [""];
      assert ColumnTokens(RenderColumns(cols)) == [];
    } else {
      forall k | 0 <= k < |pieces|
        ensures ',' !in pieces[k]
        ensures |pieces[k]| > 0 && !IsSpace(pieces[k][0]) && !IsSpace(pieces[k][|pieces[k]| - 1])
        ensures ColLetterToIndex(pieces[k]) == Ok(cols[k])
      {
        ColumnLetterRoundTrip(cols[k]);
      }
      SplitJoin(pieces, ',');
      NonBlankKeepsClean(pieces);
      assert ColumnTokens(RenderColumns(cols)) == pieces;
      ColumnTokensValues(pieces, cols);
    }
  }

  /** Tokens that each read as the matching column parse to the column list. */
  lemma ColumnTokensValues(tokens: seq<string>, cols: seq<int>)
    requires |tokens| == |cols|
    requires forall k :: 0 <= k < |tokens| ==> ColLetterToIndex(tokens[k]) == Ok(cols[k])
    ensures MapAll(ColLetterToIndex, tokens) == Ok(cols)
  {
    var r := MapAll(ColLetterToIndex, tokens);
    assert r.Ok?;
    assert r.value == cols;
  }

  // ---------------------------------------------------------------- rows

  /** What one row token denotes: a single row, or the inclusive range `lo-hi`. */
  datatype RowSpec = Single(n: nat) | Span(lo: nat, hi: nat)

  /** The rows a token adds to the set; `range(lo, hi + 1)` is empty when `lo > hi`. */
  function SpecRows(sp: RowSpec): set<int> {
    match sp
    case Single(n) => {n}
    case Span(lo, hi) => Interval(lo, hi)
  }

  /** The integers from `lo` to `hi` inclusive, as `range(lo, hi + 1)` yields them. */
  function Interval(lo: int, hi: int): (r: set<int>)
    ensures forall x :: x in r <==> lo <= x <= hi
    decreases hi - lo
  {
    if lo > hi then {} else {lo} + Interval(lo + 1, hi)
  }

  /** `int(s)` on unsigned decimal text, with the whitespace `int()` skips
      allowed around it. */
  function ParseInt(s: string): (r: Result<nat>)
    ensures r.Ok? <==> |Strip(s, IntSpaces)| > 0 && AllDigits(Strip(s, IntSpaces))
    ensures r.Ok? ==> r.value == ValueOf(Strip(s, IntSpaces))
    ensures r.Err? ==> r.error == BadInteger(s)
  {
    match ParseNat(Strip(s, IntSpaces))
    case Some(n) => Ok(n)
    case None => Err(BadInteger(s))
  }

  /** `int(s)` where a sign may lead the digits, as for the `marks` field:
      `"-5"`, `"+5"` and `" 7 "` are accepted, a bare sign is not. */
  function ParseSigned(s: string): (r: Result<int>)
    ensures var t := Strip(s, IntSpaces);
      r.Ok? <==> (|t| > 0 && AllDigits(t))
                 || (|t| > 1 && (t[0] == '-' || t[0] == '+') && AllDigits(t[1..]))
    ensures var t := Strip(s, IntSpaces);
      r.Ok? && t[0] == '-' ==> r.value == -(ValueOf(t[1..]) as int)
    ensures var t := Strip(s, IntSpaces);
      r.Ok? && t[0] == '+' ==> r.value == ValueOf(t[1..])
    ensures ParseInt(s).Ok? ==> r == Ok(ParseInt(s).value)
    ensures r.Err? ==> r.error == BadInteger(s)
  {
    var t := Strip(s, IntSpaces);
    if |t| > 1 && (t[0] == '-' || t[0] == '+') then
      match ParseNat(t[1..])
      case Some(n) => Ok(if t[0] == '-' then -(n as int) else n)
      case None => Err(BadInteger(s))
    else
      match ParseNat(t)
      case Some(n) => Ok(n)
      case None => Err(BadInteger(s))
  }

  /** `int()` does not skip the separator U+001C, although `strip()` does:
      marks `"\x1c5"` are refused. */
  lemma MarksSeparatorRejected()
    ensures ParseSigned([28 as char, '5']).Err?
  {
    var c: char := 28 as char;
    var s := [c, '5'];
    assert !IsDigit(c) && c != '-' && c != '+';
    assert !IsSpaceIn(c, IntSpaces) && !IsSpaceIn('5', IntSpaces);
    TrimNoop(s, IntSpaces);
  }

  /** The row token `"5\x1c-9"` is refused: `strip()` keeps the separator
      inside it, and `int("5\x1c")` does not skip it. */
  lemma RowSeparatorRejected()
    ensures ParseRowToken(['5', 28 as char, '-', '9']).Err?
  {
    var c: char := 28 as char;
    var a := ['5', c];
    var s := ['5', c, '-', '9'];
    SeparatorHalves();
    assert Trim(s) == s && Split(s, '-') == [a, "9"];
    assert !IsDigit(c) && c != '-';
    assert !IsSpaceIn('5', IntSpaces) && !IsSpaceIn(c, IntSpaces);
    TrimNoop(a, IntSpaces);
  }

  /** `"5\x1c-9"` is its own `strip()` and splits at the dash into `"5\x1c"`
      and `"9"`. */
  lemma SeparatorHalves()
    ensures var s := ['5', 28 as char, '-', '9'];
      Trim(s) == s && '-' in s && Split(s, '-') == [['5', 28 as char], "9"]
  {
    var c: char := 28 as char;
    var a := ['5', c];
    var s := ['5', c, '-', '9'];
    assert !IsSpaceIn('5', StrSpaces) && !IsSpaceIn('9', StrSpaces);
    TrimNoop(s, StrSpaces);
    assert '-' !in a && '-' !in "9";
    assert Join([a, "9"], '-') == s;
    SplitJoin([a, "9"], '-');
    assert s[2] == '-';
  }

  /** `str(n)` for any integer: a minus sign before the digits of `-n`. */
  function SignedDigits(n: int): string {
    if n < 0 then "-" + Digits(-n) else Digits(n)
  }

  /** `int(str(n)) == n` for every integer. */
  lemma SignedRoundTrip(n: int)
    ensures ParseSigned(SignedDigits(n)) == Ok(n)
  {
    if n < 0 {
      var m: nat := -n;
      assert SignedDigits(n) == "-" + Digits(m);
      NegativeRoundTrip(m);
    } else {
      assert SignedDigits(n) == Digits(n);
      DigitsParse(n);
    }
  }

  lemma NegativeRoundTrip(m: nat)
    ensures ParseSigned("-" + Digits(m)) == Ok(-(m as int))
  {
    var d := Digits(m);
    var s := "-" + d;
    assert s[0] == '-' && s[1..] == d && s[|s| - 1] == d[|d| - 1];
    TrimNoop(s, IntSpaces);
    DigitsRoundTrip(m);
  }

  /** One trimmed token of `parse_rows`: with a `-` it must split into exactly
      two integers, otherwise it must be one integer. */
  function ParseRowToken(part: string): (r: Result<RowSpec>)
    ensures r.Ok? ==> (r.value.Span? <==> '-' in Trim(part))
    ensures |Trim(part)| == 0 ==> r == Err(BadInteger(""))
  {
    var p := Trim(part);
    if '-' in p then
      var halves := Split(p, '-');
      if |halves| != 2 then Err(BadRange(p))
      else
        var lo :- ParseInt(halves[0]);
        var hi :- ParseInt(halves[1]);
        Ok(Span(lo, hi))
    else
      var n :- ParseInt(p);
      Ok(Single(n))
  }

  /** When a row token is accepted: without a `-` it must be one integer, with
      one it must split into exactly two integers. */
  lemma RowTokenCases(part: string)
    ensures var p := Trim(part); var r := ParseRowToken(part);
      '-' !in p ==> (r.Ok? <==> ParseInt(p).Ok?) && (r.Ok? ==> r.value == Single(ParseInt(p).value))
    ensures var p := Trim(part); var r := ParseRowToken(part); var halves := Split(p, '-');
      '-' in p ==> (r.Ok? <==> |halves| == 2 && ParseInt(halves[0]).Ok? && ParseInt(halves[1]).Ok?)
    ensures var p := Trim(part); var r := ParseRowToken(part); var halves := Split(p, '-');
      r.Ok? && '-' in p ==> r.value == Span(ParseInt(halves[0]).value, ParseInt(halves[1]).value)
  {
  }

  /** The row set `parse_rows` accumulates. */
  function UnionRows(specs: seq<RowSpec>): (r: set<int>)
    ensures forall x :: x in r <==> exists k :: 0 <= k < |specs| && x in SpecRows(specs[k])
    decreases |specs|
  {
    if |specs| == 0 then {}
    else
      var rest := UnionRows(specs[1..]);
      assert forall x :: x in rest <==> exists k :: 1 <= k < |specs| && x in SpecRows(specs[k]) by {
        forall x | x in rest
          ensures exists k :: 1 <= k < |specs| && x in SpecRows(specs[k])
        {
          var k :| 0 <= k < |specs| - 1 && x in SpecRows(specs[1..][k]);
          assert x in SpecRows(specs[k + 1]);
        }
        forall x, k | 1 <= k < |specs| && x in SpecRows(specs[k])
          ensures x in rest
        {
          assert x in SpecRows(specs[1..][k - 1]);
        }
      }
      SpecRows(specs[0]) + rest
  }

  /** Row `x` is denoted by some token of `parts`. */
  ghost predicate Selects(parts: seq<string>, x: int) {
    exists k :: 0 <= k < |parts| && ParseRowToken(parts[k]).Ok? && x in SpecRows(ParseRowToken(parts[k]).value)
  }

  /** `parse_rows`: fails exactly when some comma-separated token (blank ones
      included) is malformed; otherwise lists, ascending and without
      repetition, exactly the rows some token denotes. */
  function ParseRows(text: string): (r: Result<seq<int>>)
    ensures var parts := Split(text, ',');
      r.Ok? <==> forall k :: 0 <= k < |parts| ==> ParseRowToken(parts[k]).Ok?
    ensures r.Ok? ==> StrictlyIncreasing(r.value)
    ensures r.Ok? ==> forall x :: x in r.value <==> Selects(Split(text, ','), x)
  {
    var parts := Split(text, ',');
    var parsed := MapAll(ParseRowToken, parts);
    TokensParse(parts);
    match parsed
    case Err(e) => Err(e)
    case Ok(specs) =>
      var rows := SortedSeq(UnionRows(specs));
      UnionSelects(parts, specs);
      assert forall x :: x in rows <==> Selects(parts, x);
      Ok(rows)
  }

  /** The tokens parse together exactly when each one parses. */
  lemma TokensParse(parts: seq<string>)
    ensures MapAll(ParseRowToken, parts).Ok? <==> forall k :: 0 <= k < |parts| ==> ParseRowToken(parts[k]).Ok?
  {
  }

  /** The union of the parsed tokens holds exactly the rows the text selects. */
  lemma UnionSelects(parts: seq<string>, specs: seq<RowSpec>)
    requires MapAll(ParseRowToken, parts) == Ok(specs)
    ensures forall x :: x in UnionRows(specs) <==> Selects(parts, x)
  {
    forall x
      ensures x in UnionRows(specs) <==> Selects(parts, x)
    {
      if x in UnionRows(specs) {
        var k :| 0 <= k < |specs| && x in SpecRows(specs[k]);
        assert ParseRowToken(parts[k]) == Ok(specs[k]);
      }
      if Selects(parts, x) {
        var k :| 0 <= k < |parts| && ParseRowToken(parts[k]).Ok? && x in SpecRows(ParseRowToken(parts[k]).value);
        assert ParseRowToken(parts[k]) == Ok(specs[k]);
      }
    }
  }

  /** A row token written back as text: `n` or `lo-hi`. */
  function RenderSpec(sp: RowSpec): string {
    match sp
    case Single(n) => Digits(n)
    case Span(lo, hi) => Digits(lo) + "-" + Digits(hi)
  }

  /** The rendered tokens of a row selector. */
  function SpecPieces(specs: seq<RowSpec>): (r: seq<string>)
    ensures |r| == |specs|
    ensures forall k :: 0 <= k < |specs| ==> r[k] == RenderSpec(specs[k])
    decreases |specs|
  {
    if |specs| == 0 then [] else [RenderSpec(specs[0])] + SpecPieces(specs[1..])
  }

  /** Row tokens written back as a comma-separated selector. */
  function RenderRows(specs: seq<RowSpec>): string {
    Join(SpecPieces(specs), ',')
  }

  /** A rendered token holds digits and at most a dash, never a comma. */
  lemma RenderSpecNoComma(sp: RowSpec)
    ensures ',' !in RenderSpec(sp)
  {
    match sp
    case Single(n) =>
      var s := Digits(n);
      assert forall i :: 0 <= i < |s| ==> IsDigit(s[i]);
    case Span(lo, hi) =>
      var a, b := Digits(lo), Digits(hi);
      assert forall i :: 0 <= i < |a| ==> IsDigit(a[i]);
      assert forall i :: 0 <= i < |b| ==> IsDigit(b[i]);
      assert ',' !in a && ',' !in b;
  }

  /** Parsing a rendered token gives the token back. */
  lemma RowTokenRoundTrip(sp: RowSpec)
    ensures ParseRowToken(RenderSpec(sp)) == Ok(sp)
  {
    match sp
    case Single(n) => SingleRoundTrip(n);
    case Span(lo, hi) => SpanRoundTrip(lo, hi);
  }

  lemma SingleRoundTrip(n: nat)
    ensures ParseRowToken(Digits(n)) == Ok(Single(n))
  {
    var s := Digits(n);
    TrimNoop(s, StrSpaces);
    DigitsParse(n);
    assert '-' !in s by {
      assert forall i :: 0 <= i < |s| ==> IsDigit(s[i]);
    }
  }

  lemma SpanRoundTrip(lo: nat, hi: nat)
    ensures ParseRowToken(Digits(lo) + "-" + Digits(hi)) == Ok(Span(lo, hi))
  {
    DigitsParse(lo);
    DigitsParse(hi);
    SpanToken(Digits(lo), Digits(hi), lo, hi);
  }

  /** `int(str(n)) == n`. */
  lemma DigitsParse(n: nat)
    ensures ParseInt(Digits(n)) == Ok(n)
  {
    TrimNoop(Digits(n), IntSpaces);
    DigitsRoundTrip(n);
  }

  lemma SpanToken(a: string, b: string, lo: nat, hi: nat)
    requires |a| > 0 && AllDigits(a) && |b| > 0 && AllDigits(b)
    requires ParseInt(a) == Ok(lo) && ParseInt(b) == Ok(hi)
    ensures ParseRowToken(a + "-" + b) == Ok(Span(lo, hi))
  {
    SpanText(a, b);
  }

  /** `a-b` for two digit strings is its own trim and splits at its dash. */
  lemma SpanText(a: string, b: string)
    requires |a| > 0 && AllDigits(a) && |b| > 0 && AllDigits(b)
    ensures var s := a + "-" + b; Trim(s) == s && '-' in s && Split(s, '-') == [a, b]
  {
    var s := a + "-" + b;
    assert s[0] == a[0] && s[|s| - 1] == b[|b| - 1];
    TrimNoop(s, StrSpaces);
    assert s[|a|] == '-';
    assert '-' !in a by {
      assert forall i :: 0 <= i < |a| ==> IsDigit(a[i]);
    }
    assert '-' !in b by {
      assert forall i :: 0 <= i < |b| ==> IsDigit(b[i]);
    }
    assert Join([a, b], '-') == s;
    SplitJoin([a, b], '-');
  }

  /** Parsing a rendered selector gives its tokens back, so the row list is
      exactly the union of what they denote. */
  lemma RowsRoundTrip(specs: seq<RowSpec>)
    requires |specs| >= 1
    ensures MapAll(ParseRowToken, Split(RenderRows(specs), ',')) == Ok(specs)
    ensures ParseRows(RenderRows(specs)).Ok?
    ensures forall x :: x in ParseRows(RenderRows(specs)).value <==> exists k :: 0 <= k < |specs| && x in SpecRows(specs[k])
  {
    var pieces := SpecPieces(specs);
    forall k | 0 <= k < |specs|
      ensures ',' !in pieces[k] && ParseRowToken(pieces[k]) == Ok(specs[k])
    {
      RenderSpecNoComma(specs[k]);
      RowTokenRoundTrip(specs[k]);
    }
    SplitJoin(pieces, ',');
    var r := MapAll(ParseRowToken, pieces);
    assert r.Ok?;
    assert r.value == specs;
    var rows := ParseRows(RenderRows(specs)).value;
    forall x
      ensures x in rows <==> exists k :: 0 <= k < |specs| && x in SpecRows(specs[k])
    {
      if x in rows {
        var k :| 0 <= k < |pieces| && ParseRowToken(pieces[k]).Ok? && x in SpecRows(ParseRowToken(pieces[k]).value);
        assert x in SpecRows(specs[k]);
      }
      if exists k :: 0 <= k < |specs| && x in SpecRows(specs[k]) {
        var k :| 0 <= k < |specs| && x in SpecRows(specs[k]);
        assert Selects(pieces, x);
      }
    }
  }

  /** An empty row selector is an error: its single piece is `int("")`. */
  lemma EmptyRowsRejected()
    ensures ParseRows("") == Err(BadInteger(""))
  {
    assert Split("", ',') == [""];
  }
}
