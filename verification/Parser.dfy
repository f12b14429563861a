/** Ingestion: one table row of cell texts becomes a set of records, the
    rows of the listing are filtered and unioned into the registry, and the
    registry replaces the stored table. */
module CountryCodeParser {
  import opened Wrappers
  import opened Strings
  import opened Domain
  import opened CountryCodePersistence
  import opened CountryCodeService

  const CodeSeparator: char := ','
  const ExtraStart: char := '('
  const ExtraEnd: char := ')'

  /** What parsing a row can throw: Integer.parseInt rejecting a token
      (NumberFormatException), or a `(` with no `)` after it, which makes
      String.substring fail (StringIndexOutOfBoundsException). */
  datatype RowError = NumberFormat(token: string) | IndexOutOfBounds

  // ---------------------------------------------------------------------
  // tokens to records

  /** Parses every token in order; the first token that does not parse is
      the failure. */
  function ParseAll(tokens: seq<string>): (r: Result<seq<int>, RowError>)
    ensures r.Success? <==> forall i :: 0 <= i < |tokens| ==> ParseInt(tokens[i]).Some?
    ensures r.Success? ==>
              && |r.value| == |tokens|
              && forall i :: 0 <= i < |tokens| ==> ParseInt(tokens[i]) == Some(r.value[i])
    ensures r.Failure? ==>
              exists i :: && 0 <= i < |tokens| && ParseInt(tokens[i]).None?
                          && r.error == NumberFormat(tokens[i])
                          && forall j :: 0 <= j < i ==> ParseInt(tokens[j]).Some?
    decreases |tokens|
  {
    if |tokens| == 0 then Success([])
    else
      match ParseInt(tokens[0])
      case None => Failure(NumberFormat(tokens[0]))
      case Some(v) =>
        match ParseAll(tokens[1..])
        case Failure(e) => Failure(e)
        case Success(vs) => Success([v] + vs)
  }

  /** One record per parsed token, all for `country`; duplicates collapse. */
  function Records(country: string, tokens: seq<string>): (r: Result<set<CountryCode>, RowError>)
    ensures r.Success? <==> forall i :: 0 <= i < |tokens| ==> ParseInt(tokens[i]).Some?
    ensures r.Success? ==> forall x :: x in r.value <==>
              x.country == country && exists i :: 0 <= i < |tokens| && ParseInt(tokens[i]) == Some(x.code)
    ensures r.Failure? ==> exists i :: 0 <= i < |tokens| && r.error == NumberFormat(tokens[i])
  {
    match ParseAll(tokens)
    case Failure(e) => Failure(e)
    case Success(vs) =>
      var rs := set i | 0 <= i < |vs| :: CountryCode(country, vs[i]);
      assert forall i :: 0 <= i < |vs| ==> CountryCode(country, vs[i]) in rs;
      Success(rs)
  }

  // ---------------------------------------------------------------------
  // the three shapes of a code cell

  /** Bare list: each comma-separated field, trimmed. */
  function ListTokens(code: string): (ts: seq<string>)
    ensures |ts| == |Split(code, CodeSeparator)|
    ensures forall i :: 0 <= i < |ts| ==> ts[i] == Trim(Split(code, CodeSeparator)[i])
  {
    var parts := Split(code, CodeSeparator);
    seq(|parts|, i requires 0 <= i < |parts| => Trim(parts[i]))
  }

  /** Parenthetical extension: the trimmed text before the first `(`
      followed by each trimmed comma-separated field between that `(` and
      the first `)`. Without a `)` after the `(` the substring fails. */
  function ExtensionTokens(code: string): (r: Result<seq<string>, RowError>)
    requires ExtraStart in code
    ensures r.Failure? <==> ExtraEnd !in code || IndexOf(code, ExtraEnd) < IndexOf(code, ExtraStart)
    ensures r.Failure? ==> r.error == IndexOutOfBounds
    ensures r.Success? ==>
              var cutStart := IndexOf(code, ExtraStart);
              var cutEnd := IndexOf(code, ExtraEnd);
              var parts := Split(code[cutStart + 1..cutEnd], CodeSeparator);
              && |r.value| == |parts|
              && forall i :: 0 <= i < |parts| ==> r.value[i] == Trim(code[..cutStart]) + Trim(parts[i])
  {
    var cutStart := IndexOf(code, ExtraStart);
    var cutEnd := IndexOf(code, ExtraEnd);
    if cutEnd < cutStart + 1 then Failure(IndexOutOfBounds)
    else
      var baseCode := Trim(code[..cutStart]);
      var parts := Split(code[cutStart + 1..cutEnd], CodeSeparator);
      Success(seq(|parts|, i requires 0 <= i < |parts| => baseCode + Trim(parts[i])))
  }

  /** Single integer: exactly one record, whose code is the whole trimmed
      cell parsed, or the failure of that parse. */
  function ParseSimple(country: string, code: string): (r: Result<set<CountryCode>, RowError>)
    ensures r.Success? <==> ParseInt(code).Some?
    ensures r.Success? ==> r.value == {CountryCode(country, ParseInt(code).value)}
    ensures r.Failure? ==> r.error == NumberFormat(code)
  {
    var r := Records(country, [code]);
    assert r.Success? ==> forall x :: x in r.value <==> x == CountryCode(country, ParseInt(code).value);
    r
  }

  /** Bare list: one record per comma-separated field, each trimmed and
      parsed on its own, with no base prefix; any field that does not parse
      fails the row. */
  function ParseList(country: string, code: string): (r: Result<set<CountryCode>, RowError>)
    ensures r.Success? <==> forall i :: 0 <= i < |Split(code, CodeSeparator)| ==>
                              ParseInt(Trim(Split(code, CodeSeparator)[i])).Some?
    ensures r.Success? ==> forall x :: x in r.value <==>
              && x.country == country
              && exists i :: 0 <= i < |Split(code, CodeSeparator)|
                          && ParseInt(Trim(Split(code, CodeSeparator)[i])) == Some(x.code)
  {
    Records(country, ListTokens(code))
  }

  /** Parenthetical extension: a missing `)` fails the row; otherwise one
      record per comma-separated suffix, whose code is the parse of the base
      text followed by the trimmed suffix. */
  function ParseExtension(country: string, code: string): (r: Result<set<CountryCode>, RowError>)
    requires ExtraStart in code
    ensures ExtensionTokens(code).Failure? ==> r == Failure(IndexOutOfBounds)
    ensures ExtensionTokens(code).Success? ==>
              && (r.Success? <==> forall i :: 0 <= i < |ExtensionTokens(code).value| ==>
                                    ParseInt(ExtensionTokens(code).value[i]).Some?)
              && (r.Success? ==> forall x :: x in r.value <==>
                    && x.country == country
                    && exists i :: 0 <= i < |ExtensionTokens(code).value|
                                && ParseInt(ExtensionTokens(code).value[i]) == Some(x.code))
  {
    match ExtensionTokens(code)
    case Failure(e) => Failure(e)
    case Success(tokens) => Records(country, tokens)
  }

  /** parseElement: the country is the trimmed first cell; the trimmed
      second cell is read as a parenthetical extension when the cell holds
      a `(`, even when it also holds commas; as a bare list only when it
      holds a comma and no `(`; and as a single integer otherwise. */
  function ParseElement(row: seq<string>): (r: Result<set<CountryCode>, RowError>)
    requires |row| >= 2
    ensures r.Success? ==> forall x :: x in r.value ==> x.country == Trim(row[0])
    ensures ExtraStart in row[1] ==> ExtraStart in Trim(row[1]) && r == ParseExtension(Trim(row[0]), Trim(row[1]))
    ensures ExtraStart !in row[1] && CodeSeparator in row[1] ==> r == ParseList(Trim(row[0]), Trim(row[1]))
    ensures ExtraStart !in row[1] && CodeSeparator !in row[1] ==> r == ParseSimple(Trim(row[0]), Trim(row[1]))
  {
    var country := Trim(row[0]);
    var code := Trim(row[1]);
    TrimKeeps(row[1], ExtraStart);
    TrimKeeps(row[1], CodeSeparator);
    if ExtraStart in row[1] then ParseExtension(country, code)
    else if CodeSeparator in code then ParseList(country, code)
    else ParseSimple(country, code)
  }

  // ---------------------------------------------------------------------
  // parse: rows to registry

  /** The rows that reach parseElement: those with at least two cells. */
  predicate Usable(row: seq<string>) {
    |row| >= 2
  }

  /** What one row contributes: nothing for a row that is skipped, the
      outcome of parseElement otherwise. */
  function RowResult(row: seq<string>): Result<set<CountryCode>, RowError> {
    if Usable(row) then ParseElement(row) else Success({})
  }

  /** Unions per-row outcomes in order; the first failure wins. */
  function Union(results: seq<Result<set<CountryCode>, RowError>>): (r: Result<set<CountryCode>, RowError>)
    ensures r.Success? <==> forall i :: 0 <= i < |results| ==> results[i].Success?
    ensures r.Success? ==> forall x :: x in r.value <==>
              exists i :: 0 <= i < |results| && results[i].Success? && x in results[i].value
    ensures r.Failure? ==> exists i :: && 0 <= i < |results| && results[i] == Failure(r.error)
                                       && forall j :: 0 <= j < i ==> results[j].Success?
    decreases |results|
  {
    if |results| == 0 then Success({})
    else
      var rest := Union(results[1..]);
      assert forall i :: 0 < i < |results| ==> results[i] == results[1..][i - 1];
      match results[0]
      case Failure(e) => Failure(e)
      case Success(first) =>
        match rest
        case Failure(e) =>
          assert exists i :: && 0 <= i < |results| && results[i] == Failure(e)
                             && forall j :: 0 <= j < i ==> results[j].Success? by {
            var i :| && 0 <= i < |results[1..]| && results[1..][i] == Failure(e)
                     && forall j :: 0 <= j < i ==> results[1..][j].Success?;
            assert forall j :: 0 < j < i + 1 ==> results[j] == results[1..][j - 1];
            assert results[i + 1] == Failure(e);
          }
          Failure(e)
        case Success(others) => Success(first + others)
  }

  /** Union is insensitive to the order and repetition of its operands: two
      outcome lists holding the same outcomes both succeed or both fail, and
      agree on the records. */
  lemma UnionIgnoresOrderAndRepetition(results1: seq<Result<set<CountryCode>, RowError>>,
                                       results2: seq<Result<set<CountryCode>, RowError>>)
    requires forall o :: o in results1 <==> o in results2
    ensures Union(results1).Success? <==> Union(results2).Success?
    ensures Union(results1).Success? ==> Union(results1).value == Union(results2).value
  {
    forall i | 0 <= i < |results1| ensures exists j :: 0 <= j < |results2| && results2[j] == results1[i] {
      assert results1[i] in results2;
    }
    forall j | 0 <= j < |results2| ensures exists i :: 0 <= i < |results1| && results1[i] == results2[j] {
      assert results2[j] in results1;
    }
  }

  /** The registry built from the rows: header and decoration rows (fewer
      than two cells) are skipped, every other row is parsed, and the
      per-row sets are unioned. A row that fails aborts the whole build with
      the failure of the first such row. */
  function Build(rows: seq<seq<string>>): (r: Result<set<CountryCode>, RowError>)
    ensures r.Success? <==> forall i :: 0 <= i < |rows| ==> RowResult(rows[i]).Success?
    ensures r.Success? ==> forall x :: x in r.value <==>
              exists i :: 0 <= i < |rows| && RowResult(rows[i]).Success? && x in RowResult(rows[i]).value
    ensures r.Failure? ==> exists i :: && 0 <= i < |rows| && RowResult(rows[i]) == Failure(r.error)
                                       && forall j :: 0 <= j < i ==> RowResult(rows[j]).Success?
  {
    Union(Outcomes(rows))
  }

  /** The outcome of each row, in row order. */
  function Outcomes(rows: seq<seq<string>>): (results: seq<Result<set<CountryCode>, RowError>>)
    ensures |results| == |rows|
    ensures forall i :: 0 <= i < |rows| ==> results[i] == RowResult(rows[i])
  {
    seq(|rows|, i requires 0 <= i < |rows| => RowResult(rows[i]))
  }

  /** The registry depends only on which rows occur: reordering or repeating
      rows changes neither whether the build succeeds nor what it yields. */
  lemma BuildIgnoresOrderAndRepetition(rows1: seq<seq<string>>, rows2: seq<seq<string>>)
    requires forall row :: row in rows1 <==> row in rows2
    ensures Build(rows1).Success? <==> Build(rows2).Success?
    ensures Build(rows1).Success? ==> Build(rows1).value == Build(rows2).value
  {
    var results1, results2 := Outcomes(rows1), Outcomes(rows2);
    forall o ensures o in results1 <==> o in results2 {
      if o in results1 {
        var i :| 0 <= i < |results1| && results1[i] == o;
        assert rows1[i] in rows2;
        var j :| 0 <= j < |rows2| && rows2[j] == rows1[i];
        assert results2[j] == o;
      }
      if o in results2 {
        var j :| 0 <= j < |results2| && results2[j] == o;
        assert rows2[j] in rows1;
        var i :| 0 <= i < |rows1| && rows1[i] == rows2[j];
        assert results1[i] == o;
      }
    }
    UnionIgnoresOrderAndRepetition(results1, results2);
  }


  /** parse, from the rows onwards: a failing build throws before saveToDB,
      so the stored table is left as it was; otherwise the table becomes
      exactly the built registry. */
  method Parse(store: Store, rows: seq<seq<string>>) returns (r: Store, err: Option<RowError>)
    ensures err.Some? <==> Build(rows).Failure?
    ensures err.Some? ==> r == store && err.value == Build(rows).error
    ensures err.None? ==> forall x :: x in r.table <==>
              exists i :: 0 <= i < |rows| && RowResult(rows[i]).Success? && x in RowResult(rows[i]).value
  {
    match Build(rows)
    case Failure(e) =>
      r, err := store, Some(e);
    case Success(countryCodes) =>
      r := SaveToDb(store, countryCodes);
      err := None;
  }

  // ---------------------------------------------------------------------
  // well-formed code expressions and the records they stand for

  /** The three shapes of a code cell, as the listing writes them. */
  datatype CodeExpr =
    | Simple(code: string)
    | Extension(base: string, suffixes: seq<string>)
    | BareList(codes: seq<string>)

  /** A non-empty digit string whose value fits in a Java `int`. */
  predicate IsCode(s: string) {
    |s| > 0 && IsDigits(s) && Value(s) <= MaxInt
  }

  predicate WellFormed(e: CodeExpr) {
    match e
    case Simple(c) => IsCode(c)
    case Extension(b, ss) =>
      && IsCode(b) && |ss| >= 1
      && forall i :: 0 <= i < |ss| ==> IsCode(ss[i]) && IsCode(b + ss[i])
    case BareList(cs) =>
      |cs| >= 1 && forall i :: 0 <= i < |cs| ==> IsCode(cs[i])
  }

  /** Every token after the first gets a leading space: `a, b, c`. */
  function Spaced(ts: seq<string>): (r: seq<string>)
    ensures |r| == |ts|
  {
    seq(|ts|, i requires 0 <= i < |ts| => if i == 0 then ts[0] else " " + ts[i])
  }

  /** The cell text of an expression, as in `44 (1481, 1534)` or `1, 225`. */
  function Render(e: CodeExpr): string {
    match e
    case Simple(c) => c
    case Extension(b, ss) => b + " (" + Join(Spaced(ss), [CodeSeparator]) + ")"
    case BareList(cs) => Join(Spaced(cs), [CodeSeparator])
  }

  /** One record per code text, under `country`. */
  function CodeRecords(country: string, cs: seq<string>): set<CountryCode>
    requires forall i :: 0 <= i < |cs| ==> IsCode(cs[i])
  {
    set i | 0 <= i < |cs| && IsDigits(cs[i]) :: CountryCode(country, Value(cs[i]))
  }

  /** Each suffix with the base text in front of it. */
  function Prefixed(b: string, ss: seq<string>): (r: seq<string>)
    ensures |r| == |ss|
  {
    seq(|ss|, i requires 0 <= i < |ss| => b + ss[i])
  }

  /** The records an expression stands for: extension codes are the base
      digits followed by the suffix digits (string concatenation), list
      codes are taken as they are. */
  function Denote(country: string, e: CodeExpr): set<CountryCode>
    requires WellFormed(e)
  {
    match e
    case Simple(c) => {CountryCode(country, Value(c))}
    case Extension(b, ss) => CodeRecords(country, Prefixed(b, ss))
    case BareList(cs) => CodeRecords(country, cs)
  }

  /** A spaced token trims back to the token. */
  lemma TrimSpaced(ts: seq<string>, i: nat)
    requires i < |ts| && IsDigits(ts[i])
    ensures Trim(Spaced(ts)[i]) == ts[i]
  {
    TrimDigits(ts[i]);
    if i > 0 {
      assert (" " + ts[i])[1..] == ts[i];
    }
  }

  /** Splitting the spaced join of digit tokens yields the spaced tokens. */
  lemma SplitSpaced(ts: seq<string>)
    requires |ts| >= 1 && forall i :: 0 <= i < |ts| ==> |ts[i]| > 0 && IsDigits(ts[i])
    ensures Split(Join(Spaced(ts), [CodeSeparator]), CodeSeparator) == Spaced(ts)
    ensures ExtraStart !in Join(Spaced(ts), [CodeSeparator])
    ensures ExtraEnd !in Join(Spaced(ts), [CodeSeparator])
    ensures |ts| >= 2 ==> CodeSeparator in Join(Spaced(ts), [CodeSeparator])
  {
    var sp := Spaced(ts);
    forall i | 0 <= i < |sp| ensures CodeSeparator !in sp[i] && ExtraStart !in sp[i] && ExtraEnd !in sp[i] {
      assert forall j :: 0 <= j < |ts[i]| ==> IsDigit(ts[i][j]);
    }
    assert sp[|sp| - 1] != "";
    SplitOfJoin(sp, CodeSeparator);
    JoinChars(sp, [CodeSeparator], ExtraStart);
    JoinChars(sp, [CodeSeparator], ExtraEnd);
    if |ts| >= 2 {
      JoinHasSeparator(sp, CodeSeparator);
    }
  }

  /** The records of a row are the ones its expression stands for: parsing
      the rendered cell of any well-formed expression gives back exactly
      its denotation, under the trimmed country name. */
  lemma {:induction false} ParseRendered(country: string, e: CodeExpr)
    requires WellFormed(e)
    ensures ParseElement([country, Render(e)]) == Success(Denote(Trim(country), e))
  {
    match e
    case Simple(c) =>
      TrimDigits(c);
    case BareList(cs) =>
      ParseRenderedList(country, cs);
    case Extension(b, ss) =>
      ParseRenderedExtension(country, b, ss);
  }

  lemma ParseRenderedList(country: string, cs: seq<string>)
    requires WellFormed(BareList(cs))
    ensures ParseElement([country, Render(BareList(cs))]) == Success(Denote(Trim(country), BareList(cs)))
  {
    var text := Render(BareList(cs));
    var row := [country, text];
    assert row[0] == country && row[1] == text;
    ListText(cs);
    if |cs| == 1 {
      SameRecords(Trim(country), [cs[0]], cs);
    } else {
      SameRecords(Trim(country), ListTokens(text), cs);
    }
  }

  /** The rendered list is already trimmed, has no `(`, has a comma when it
      has two codes or more, and its list tokens are the codes. */
  lemma ListText(cs: seq<string>)
    requires WellFormed(BareList(cs))
    ensures Trim(Render(BareList(cs))) == Render(BareList(cs))
    ensures ExtraStart !in Render(BareList(cs))
    ensures |cs| == 1 ==> Render(BareList(cs)) == cs[0]
    ensures |cs| >= 2 ==> CodeSeparator in Render(BareList(cs)) && ListTokens(Render(BareList(cs))) == cs
  {
    var text := Render(BareList(cs));
    SplitSpaced(cs);
    JoinEnds(Spaced(cs), [CodeSeparator]);
    TrimOfTrimmed(text);
    assert Trim(text) == text;
    assert ExtraStart !in text;
    assert |cs| == 1 ==> text == cs[0];
    if |cs| >= 2 {
      ListTokensOfRender(cs);
    }
  }

  lemma ListTokensOfRender(cs: seq<string>)
    requires |cs| >= 1 && forall i :: 0 <= i < |cs| ==> |cs[i]| > 0 && IsDigits(cs[i])
    ensures ListTokens(Join(Spaced(cs), [CodeSeparator])) == cs
  {
    var text := Join(Spaced(cs), [CodeSeparator]);
    SplitSpaced(cs);
    var tokens := ListTokens(text);
    assert |tokens| == |cs|;
    forall i | 0 <= i < |cs| ensures tokens[i] == cs[i] {
      TrimSpaced(cs, i);
    }
  }

  /** Where the `(` and the `)` of a rendered extension sit. */
  lemma ExtensionCuts(b: string, inner: string)
    requires IsDigits(b) && |b| > 0
    requires ExtraStart !in inner && ExtraEnd !in inner
    ensures ExtraStart in b + " (" + inner + ")"
    ensures IndexOf(b + " (" + inner + ")", ExtraStart) == |b| + 1
    ensures IndexOf(b + " (" + inner + ")", ExtraEnd) == |b| + 2 + |inner|
  {
    assert ExtraStart !in b && ExtraEnd !in b by {
      assert forall j :: 0 <= j < |b| ==> IsDigit(b[j]);
    }
    var text := b + " (" + inner + ")";
    var head := b + " ";
    var body := head + [ExtraStart] + inner;
    assert b + " (" == head + [ExtraStart];
    assert |body| == |b| + 2 + |inner|;
    assert text == body + [ExtraEnd];
    assert body + [ExtraEnd] == head + [ExtraStart] + (inner + ")");
    OpenCut(head, inner + ")");
    assert ExtraEnd !in body;
    CloseCut(body);
  }

  lemma OpenCut(head: string, tail: string)
    requires ExtraStart !in head
    ensures IndexOf(head + [ExtraStart] + tail, ExtraStart) == |head|
  {
    var text := head + [ExtraStart] + tail;
    assert text[..|head|] == head;
    IndexOfAt(text, ExtraStart, |head|);
  }

  lemma CloseCut(body: string)
    requires ExtraEnd !in body
    ensures IndexOf(body + [ExtraEnd], ExtraEnd) == |body|
  {
    var text := body + [ExtraEnd];
    assert text[..|body|] == body;
    IndexOfAt(text, ExtraEnd, |body|);
  }

  lemma ParseRenderedExtension(country: string, b: string, ss: seq<string>)
    requires WellFormed(Extension(b, ss))
    ensures ParseElement([country, Render(Extension(b, ss))]) == Success(Denote(Trim(country), Extension(b, ss)))
  {
    var text := Render(Extension(b, ss));
    var row := [country, text];
    assert row[0] == country && row[1] == text;
    var joined := Prefixed(b, ss);
    ExtensionText(b, ss, joined);
    SameRecords(Trim(country), joined, joined);
  }

  /** The rendered extension is already trimmed, holds a `(`, and its
      extension tokens are the base followed by each suffix. */
  lemma ExtensionText(b: string, ss: seq<string>, joined: seq<string>)
    requires IsDigits(b) && |b| > 0
    requires |ss| >= 1 && forall i :: 0 <= i < |ss| ==> |ss[i]| > 0 && IsDigits(ss[i])
    requires joined == Prefixed(b, ss)
    ensures Trim(Render(Extension(b, ss))) == Render(Extension(b, ss))
    ensures ExtraStart in Render(Extension(b, ss))
    ensures ExtensionTokens(Render(Extension(b, ss))) == Success(joined)
  {
    var inner := Join(Spaced(ss), [CodeSeparator]);
    SplitSpaced(ss);
    ExtensionPieces(b, inner);
    ExtensionTextTokens(b + " (" + inner + ")", b, ss, joined);
  }

  /** The extension tokens of a text whose pieces are `b` and the spaced
      join of `ss` are the base followed by each suffix. */
  lemma ExtensionTextTokens(code: string, b: string, ss: seq<string>, joined: seq<string>)
    requires |ss| >= 1 && forall i :: 0 <= i < |ss| ==> |ss[i]| > 0 && IsDigits(ss[i])
    requires ExtraStart in code
    requires IndexOf(code, ExtraStart) < IndexOf(code, ExtraEnd)
    requires Trim(code[..IndexOf(code, ExtraStart)]) == b
    requires code[IndexOf(code, ExtraStart) + 1..IndexOf(code, ExtraEnd)] == Join(Spaced(ss), [CodeSeparator])
    requires joined == Prefixed(b, ss)
    ensures ExtensionTokens(code) == Success(joined)
  {
    ListTokensOfRender(ss);
    ExtensionTokensOf(code, b, Join(Spaced(ss), [CodeSeparator]), ss);
    var tokens := ExtensionTokens(code).value;
    assert |tokens| == |joined|;
    forall i | 0 <= i < |ss| ensures tokens[i] == joined[i] {
    }
    assert tokens == joined;
  }

  /** When the text before the first `(` trims to `b` and the text between
      it and the first `)` is `inner`, the extension tokens are `b` followed
      by each list token of `inner`. */
  lemma ExtensionTokensOf(code: string, b: string, inner: string, listed: seq<string>)
    requires ExtraStart in code
    requires IndexOf(code, ExtraStart) < IndexOf(code, ExtraEnd)
    requires Trim(code[..IndexOf(code, ExtraStart)]) == b
    requires code[IndexOf(code, ExtraStart) + 1..IndexOf(code, ExtraEnd)] == inner
    requires listed == ListTokens(inner)
    ensures ExtensionTokens(code).Success?
    ensures |ExtensionTokens(code).value| == |listed|
    ensures forall i :: 0 <= i < |listed| ==> ExtensionTokens(code).value[i] == b + listed[i]
  {
    assert ExtraEnd in code;
    var r := ExtensionTokens(code);
    assert r.Success?;
    var tokens := r.value;
    var parts := Split(inner, CodeSeparator);
    assert |tokens| == |parts|;
    assert forall i :: 0 <= i < |parts| ==> tokens[i] == b + Trim(parts[i]);
    forall i | 0 <= i < |listed| ensures tokens[i] == b + listed[i] {
    }
  }

  /** The pieces parseElement cuts out of `b (inner)`: the text is already
      trimmed, the `(` and `)` sit right after `b ` and right after the
      inner text, the trimmed base is `b` and the text between is `inner`. */
  lemma ExtensionPieces(b: string, inner: string)
    requires IsDigits(b) && |b| > 0
    requires ExtraStart !in inner && ExtraEnd !in inner
    ensures Trim(b + " (" + inner + ")") == b + " (" + inner + ")"
    ensures ExtraStart in b + " (" + inner + ")"
    ensures IndexOf(b + " (" + inner + ")", ExtraStart) == |b| + 1
    ensures IndexOf(b + " (" + inner + ")", ExtraEnd) == |b| + 2 + |inner|
    ensures Trim((b + " (" + inner + ")")[..|b| + 1]) == b
    ensures (b + " (" + inner + ")")[|b| + 2..|b| + 2 + |inner|] == inner
  {
    var text := b + " (" + inner + ")";
    ExtensionCuts(b, inner);
    assert text[0] == b[0] && text[|text| - 1] == ExtraEnd;
    TrimOfTrimmed(text);
    ExtensionSlices(b, inner);
    TrimAppendSpace(b);
  }

  /** The base and the inner text of a rendered extension. */
  lemma ExtensionSlices(b: string, inner: string)
    ensures (b + " (" + inner + ")")[..|b| + 1] == b + " "
    ensures (b + " (" + inner + ")")[|b| + 2..|b| + 2 + |inner|] == inner
  {
  }

  /** Records over well-formed tokens are the records of their values. */
  lemma SameRecords(country: string, tokens: seq<string>, cs: seq<string>)
    requires tokens == cs
    requires forall i :: 0 <= i < |cs| ==> IsCode(cs[i])
    ensures Records(country, tokens) == Success(CodeRecords(country, cs))
  {
    var want := CodeRecords(country, cs);
    forall i | 0 <= i < |cs| ensures ParseInt(cs[i]) == Some(Value(cs[i])) {
    }
    var got := Records(country, tokens).value;
    forall x | x in got ensures x in want {
      var i :| 0 <= i < |tokens| && ParseInt(tokens[i]) == Some(x.code);
      assert IsDigits(cs[i]);
    }
    forall x | x in want ensures x in got {
      var i :| 0 <= i < |cs| && IsDigits(cs[i]) && x == CountryCode(country, Value(cs[i]));
      assert ParseInt(tokens[i]) == Some(x.code);
    }
    assert got == want;
  }
}
