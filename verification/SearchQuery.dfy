/**
  * Compiling a search query into a parameterised WHERE clause. A clause is a list of conditions
  * with numbered slots; builder and binder are separate, and what the clause selects with the
  * bound values is compared with what the query asks for.
  */
module SearchQuery {
  import opened Catalogue
  import opened CatalogueRuns
  import opened MetadataNormalization
  import opened SearchExpression
  import opened Wrappers

  datatype SortField = ByTitle | ByAuthor | ByDateAdded

  /** `format` is the name of the book format as the catalogue spells it. */
  datatype Query = Query(
    text: Text,
    author: Option<Text>,
    languages: seq<Text>,
    series: Option<Text>,
    tags: seq<Text>,
    genres: seq<Text>,
    format: Option<Text>,
    sortBy: Option<SortField>,
    isDescending: bool,
    offset: nat,
    limit: nat)

  function HasText(q: Query): bool {
    q.text != []
  }

  // ---------------------------------------------------------------------------------------
  // Clauses and what they mean
  // ---------------------------------------------------------------------------------------

  /** One `AND ...` of the clause; an IN condition has the text of its list. */
  datatype Condition =
    | IndexMatches
    | AuthorIs
    | LanguageIn(list: string)
    | SeriesIs
    | HasTag
    | HasGenreIn(list: string)
    | FormatIs

  /** Which tables the FROM clause joins to books. */
  datatype Joins = Joins(index: bool, author: bool)

  /** A row of the FROM clause: a book, and one of its author links if authors are joined. */
  datatype Row = Row(book: BookId, author: Option<nat>)

  /** Every question mark in the text of a clause is a placeholder for one value. */
  function Marks(text: string): nat {
    if text == [] then 0 else Marks(text[..|text| - 1]) + if text[|text| - 1] == '?' then 1 else 0
  }

  lemma {:induction false} MarksOfConcat(a: string, b: string)
    ensures Marks(a + b) == Marks(a) + Marks(b)
  {
    if b == [] {
      assert a + b == a;
    } else {
      assert (a + b)[..|a + b| - 1] == a + b[..|b| - 1];
      MarksOfConcat(a, b[..|b| - 1]);
    }
  }

  /** The list of an IN condition up to its placeholder number `count`. */
  function OpenList(count: nat): string {
    if count == 0 then "(" else OpenList(count - 1) + if count > 1 then ", ?" else "?"
  }

  lemma {:induction false} MarksOfOpenList(count: nat)
    ensures Marks(OpenList(count)) == count
  {
    assert Marks("(") == 0 && Marks("?") == 1;
    assert ", ?"[..2] == ", " && ", "[..1] == ",";
    if count > 0 {
      MarksOfOpenList(count - 1);
      MarksOfConcat(OpenList(count - 1), if count > 1 then ", ?" else "?");
    }
  }

  function InList(count: nat): (text: string)
    ensures Marks(text) == count
  {
    MarksOfOpenList(count);
    MarksOfConcat(OpenList(count), ")");
    assert Marks(")") == 0;
    OpenList(count) + ")"
  }

  function Slots(c: Condition): nat {
    match c
    case LanguageIn(list) => Marks(list)
    case HasGenreIn(list) => Marks(list)
    case _ => 1
  }

  function SlotCount(sql: seq<Condition>): nat {
    if sql == [] then 0 else Slots(sql[0]) + SlotCount(sql[1..])
  }

  /** What MATCH decides from the expression and the postings of one document. */
  type Matcher = (Text, set<Posting>) -> bool

  function FromRows(t: Tables, joins: Joins): set<Row> {
    if joins.author then set l | l in t.authors.links && l.0 in t.books :: Row(l.0, Some(l.1))
    else set id | id in t.books :: Row(id, None)
  }

  predicate Holds(matcher: Matcher, t: Tables, joins: Joins, row: Row, c: Condition, args: seq<Text>)
    requires row.book in t.books && |args| == Slots(c)
  {
    match c
    case IndexMatches => joins.index && matcher(args[0], PostingsAt(t, row.book))
    case AuthorIs => row.author.Some? && row.author.value < |t.authors.entities|
                     && t.authors.entities[row.author.value].normalized == args[0]
    case LanguageIn(_) => t.books[row.book].language in args
    case SeriesIs => t.books[row.book].series == Some(args[0])
    case HasTag => args[0] in StoredNames(t.tags, row.book)
    case HasGenreIn(_) => exists i :: 0 <= i < |args| && args[i] in StoredNames(t.genres, row.book)
    case FormatIs => t.books[row.book].format == args[0]
  }

  /** The conditions take their values from the front of the list, in order. */
  predicate AllHold(matcher: Matcher, t: Tables, joins: Joins, row: Row, sql: seq<Condition>, args: seq<Text>)
    requires row.book in t.books && |args| == SlotCount(sql)
  {
    sql == []
    || (Holds(matcher, t, joins, row, sql[0], args[..Slots(sql[0])])
        && AllHold(matcher, t, joins, row, sql[1..], args[Slots(sql[0])..]))
  }

  // ---------------------------------------------------------------------------------------
  // What the query asks for
  // ---------------------------------------------------------------------------------------

  predicate IsSelected(matcher: Matcher, t: Tables, q: Query, withLanguages: bool, withGenres: bool, id: BookId)
    requires id in t.books
  {
    && (q.author.Some? ==> NormalizeText(q.author.value) in StoredNames(t.authors, id))
    && PassesOtherFilters(matcher, t, q, withLanguages, withGenres, id)
  }

  /** All filters but the one on authors. */
  predicate PassesOtherFilters(matcher: Matcher, t: Tables, q: Query, withLanguages: bool, withGenres: bool, id: BookId)
    requires id in t.books
  {
    && (q.text != [] ==> matcher(FtsQuery(q.text), PostingsAt(t, id)))
    && (withLanguages && q.languages != [] ==> t.books[id].language in q.languages)
    && (q.series.Some? ==> t.books[id].series == q.series)
    && HasAllTags(t, id, q.tags)
    && PassesGenres(t, q, withGenres, id)
    && (q.format.Some? ==> t.books[id].format == q.format.value)
  }

  /** The normalized names of a list, one by one. */
  function Normalized(names: seq<Text>): (r: seq<Text>)
    ensures |r| == |names| && forall i :: 0 <= i < |r| ==> r[i] == NormalizeText(names[i])
  {
    if names == [] then [] else Normalized(names[..|names| - 1]) + [NormalizeText(names[|names| - 1])]
  }

  // ---------------------------------------------------------------------------------------
  // The compiled clause, part by part
  // ---------------------------------------------------------------------------------------

  /** A piece of the clause with the values that the binder supplies for it. */
  datatype Clause = Clause(sql: seq<Condition>, args: seq<Text>)

  predicate Fits(c: Clause) {
    |c.args| == SlotCount(c.sql)
  }

  function Then(a: Clause, b: Clause): Clause {
    Clause(a.sql + b.sql, a.args + b.args)
  }

  predicate Accepts(matcher: Matcher, t: Tables, joins: Joins, row: Row, c: Clause)
    requires row.book in t.books
  {
    Fits(c) && AllHold(matcher, t, joins, row, c.sql, c.args)
  }

  function When(present: bool, c: Condition, args: seq<Text>): Clause {
    if present then Clause([c], args) else Clause([], [])
  }

  function TextPart(q: Query): Clause { When(HasText(q), IndexMatches, [FtsQuery(q.text)]) }

  function AuthorPart(q: Query): Clause {
    if q.author.Some? then Clause([AuthorIs], [NormalizeText(q.author.value)]) else Clause([], [])
  }

  function LanguagePart(q: Query, withLanguages: bool): Clause {
    When(withLanguages && q.languages != [], LanguageIn(InList(|q.languages|)), q.languages)
  }

  function SeriesPart(q: Query): Clause {
    if q.series.Some? then Clause([SeriesIs], [q.series.value]) else Clause([], [])
  }

  function TagPart(tags: seq<Text>): Clause {
    if tags == [] then Clause([], [])
    else Then(TagPart(tags[..|tags| - 1]), Clause([HasTag], [NormalizeText(tags[|tags| - 1])]))
  }

  function GenrePart(q: Query, withGenres: bool): Clause {
    When(withGenres && q.genres != [], HasGenreIn(InList(|q.genres|)), Normalized(q.genres))
  }

  function FormatPart(q: Query): Clause {
    if q.format.Some? then Clause([FormatIs], [q.format.value]) else Clause([], [])
  }

  function Compiled(q: Query, withLanguages: bool, withGenres: bool): Clause {
    Then(Then(Then(FrontPart(q, withLanguages), TagPart(q.tags)), GenrePart(q, withGenres)), FormatPart(q))
  }

  function FrontPart(q: Query, withLanguages: bool): Clause {
    Then(Then(Then(TextPart(q), AuthorPart(q)), LanguagePart(q, withLanguages)), SeriesPart(q))
  }

  /** AppendFilterJoins. */
  function FilterJoins(q: Query): Joins {
    Joins(HasText(q), q.author.Some?)
  }

  // ---------------------------------------------------------------------------------------
  // Builder and binder
  // ---------------------------------------------------------------------------------------

  /** The list is printed with one placeholder for every value that will be bound. */
  method BuildIdInClause(count: nat) returns (sql: string)
    ensures sql == InList(count) && Marks(sql) == count
  {
    sql := "(";
    for index := 0 to count
      invariant sql == OpenList(index)
    {
      if index > 0 {
        sql := sql + ", ";
      }
      sql := sql + "?";
      assert index > 0 ==> OpenList(index) + ", " + "?" == OpenList(index) + ", ?";
    }
    sql := sql + ")";
  }

  method AppendFilterAndConditions(q: Query, includeLanguages: bool, includeGenres: bool) returns (sql: seq<Condition>)
    ensures sql == Compiled(q, includeLanguages, includeGenres).sql
  {
    sql := AppendFront(q, includeLanguages);
    sql := AppendTags(q.tags, sql);
    ghost var built := Then(FrontPart(q, includeLanguages), TagPart(q.tags));
    assert sql == built.sql;
    if includeGenres && q.genres != [] {
      var list := BuildIdInClause(|q.genres|);
      sql := sql + [HasGenreIn(list)];
    }
    built := Then(built, GenrePart(q, includeGenres));
    assert sql == built.sql;
    if q.format.Some? {
      sql := sql + [FormatIs];
    }
    built := Then(built, FormatPart(q));
    assert sql == built.sql;
  }

  method AppendFront(q: Query, includeLanguages: bool) returns (sql: seq<Condition>)
    ensures sql == FrontPart(q, includeLanguages).sql
  {
    sql := [];
    if HasText(q) {
      sql := sql + [IndexMatches];
    }
    ghost var built := TextPart(q);
    assert sql == built.sql;
    if q.author.Some? {
      sql := sql + [AuthorIs];
    }
    built := Then(built, AuthorPart(q));
    assert sql == built.sql;
    if includeLanguages && q.languages != [] {
      var list := BuildIdInClause(|q.languages|);
      sql := sql + [LanguageIn(list)];
    }
    built := Then(built, LanguagePart(q, includeLanguages));
    assert sql == built.sql;
    if q.series.Some? {
      sql := sql + [SeriesIs];
    }
    built := Then(built, SeriesPart(q));
    assert sql == built.sql;
  }

  method AppendTags(tags: seq<Text>, start: seq<Condition>) returns (sql: seq<Condition>)
    ensures sql == start + TagPart(tags).sql
  {
    sql := start;
    for i := 0 to |tags|
      invariant sql == start + TagPart(tags[..i]).sql
    {
      assert tags[..i + 1][..i] == tags[..i];
      sql := sql + [HasTag];
    }
    assert tags[..|tags|] == tags;
  }

  method BindFilterWhereParams(q: Query, includeLanguages: bool, includeGenres: bool) returns (args: seq<Text>)
    ensures args == Compiled(q, includeLanguages, includeGenres).args
  {
    args := [];
    if HasText(q) {
      var expression := BuildFtsQuery(q.text);
      args := args + [expression];
    }
    ghost var built := TextPart(q);
    assert args == built.args;
    if q.author.Some? {
      var author := Normalize(q.author.value);
      args := args + [author];
    }
    built := Then(built, AuthorPart(q));
    assert args == built.args;
    if includeLanguages {
      args := BindPlain(q.languages, args);
    }
    built := Then(built, LanguagePart(q, includeLanguages));
    assert args == built.args;
    if q.series.Some? {
      args := args + [q.series.value];
    }
    built := Then(built, SeriesPart(q));
    assert args == built.args;
    args := BindNormalized(q.tags, args);
    TagValues(q.tags);
    built := Then(built, TagPart(q.tags));
    assert args == built.args;
    if includeGenres {
      args := BindNormalized(q.genres, args);
    }
    built := Then(built, GenrePart(q, includeGenres));
    assert args == built.args;
    if q.format.Some? {
      args := args + [q.format.value];
    }
    built := Then(built, FormatPart(q));
    assert args == built.args;
  }

  method BindPlain(values: seq<Text>, start: seq<Text>) returns (args: seq<Text>)
    ensures args == start + values
  {
    args := start;
    for i := 0 to |values|
      invariant args == start + values[..i]
    {
      args := args + [values[i]];
    }
    assert values[..|values|] == values;
  }

  method BindNormalized(values: seq<Text>, start: seq<Text>) returns (args: seq<Text>)
    ensures args == start + Normalized(values)
  {
    args := start;
    for i := 0 to |values|
      invariant args == start + Normalized(values[..i])
    {
      assert values[..i + 1][..i] == values[..i];
      var value := Normalize(values[i]);
      args := args + [value];
    }
    assert values[..|values|] == values;
  }

  lemma {:induction false} TagValues(tags: seq<Text>)
    ensures TagPart(tags).args == Normalized(tags)
  {
    if tags != [] {
      TagValues(tags[..|tags| - 1]);
    }
  }

  // ---------------------------------------------------------------------------------------
  // The clause selects what the query asks for
  // ---------------------------------------------------------------------------------------

  lemma {:induction false} SlotsOfThen(a: Clause, b: Clause)
    requires Fits(a) && Fits(b)
    ensures Fits(Then(a, b))
    decreases |a.sql|
  {
    if a.sql == [] {
      assert a.sql + b.sql == b.sql;
    } else {
      var rest := Clause(a.sql[1..], a.args[Slots(a.sql[0])..]);
      SlotsOfThen(rest, b);
      assert (a.sql + b.sql)[1..] == rest.sql + b.sql;
    }
  }

  lemma {:induction false} MeaningOfThen(matcher: Matcher, t: Tables, joins: Joins, row: Row, a: Clause, b: Clause)
    requires row.book in t.books && Fits(a) && Fits(b)
    ensures Accepts(matcher, t, joins, row, Then(a, b))
       <==> Accepts(matcher, t, joins, row, a) && Accepts(matcher, t, joins, row, b)
    decreases |a.sql|
  {
    SlotsOfThen(a, b);
    if a.sql == [] {
      assert a.sql + b.sql == b.sql && a.args + b.args == b.args;
    } else {
      var n := Slots(a.sql[0]);
      var rest := Clause(a.sql[1..], a.args[n..]);
      MeaningOfThen(matcher, t, joins, row, rest, b);
      SlotsOfThen(rest, b);
      assert (a.sql + b.sql)[1..] == rest.sql + b.sql;
      assert (a.args + b.args)[..n] == a.args[..n] && (a.args + b.args)[n..] == rest.args + b.args;
    }
  }

  lemma MeaningOfOne(matcher: Matcher, t: Tables, joins: Joins, row: Row, c: Condition, args: seq<Text>)
    requires row.book in t.books && |args| == Slots(c)
    ensures Fits(Clause([c], args))
    ensures Accepts(matcher, t, joins, row, Clause([c], args)) <==> Holds(matcher, t, joins, row, c, args)
  {
    var sql := [c];
    assert sql[0] == c && sql[1..] == [] && SlotCount(sql) == Slots(c);
    assert args[..Slots(sql[0])] == args;
    assert AllHold(matcher, t, joins, row, sql[1..], args[Slots(sql[0])..]);
  }

  predicate HasAllTags(t: Tables, id: BookId, tags: seq<Text>) {
    forall i :: 0 <= i < |tags| ==> NormalizeText(tags[i]) in StoredNames(t.tags, id)
  }

  lemma OneTagMore(t: Tables, id: BookId, tags: seq<Text>)
    requires tags != []
    ensures var last := |tags| - 1;
            HasAllTags(t, id, tags) <==> HasAllTags(t, id, tags[..last]) && NormalizeText(tags[last]) in StoredNames(t.tags, id)
  {
  }

  lemma {:induction false} MeaningOfTags(matcher: Matcher, t: Tables, joins: Joins, row: Row, tags: seq<Text>)
    requires row.book in t.books
    ensures Fits(TagPart(tags))
    ensures Accepts(matcher, t, joins, row, TagPart(tags))
       <==> HasAllTags(t, row.book, tags)
  {
    if tags != [] {
      var last := |tags| - 1;
      var before, one := TagPart(tags[..last]), Clause([HasTag], [NormalizeText(tags[last])]);
      MeaningOfTags(matcher, t, joins, row, tags[..last]);
      MeaningOfOne(matcher, t, joins, row, HasTag, one.args);
      MeaningOfThen(matcher, t, joins, row, before, one);
      SlotsOfThen(before, one);
      OneTagMore(t, row.book, tags);
    }
  }

  lemma MeaningOfWhen(matcher: Matcher, t: Tables, joins: Joins, row: Row, present: bool, c: Condition, args: seq<Text>)
    requires row.book in t.books && (present ==> |args| == Slots(c))
    ensures Fits(When(present, c, args))
    ensures Accepts(matcher, t, joins, row, When(present, c, args)) <==> (present ==> Holds(matcher, t, joins, row, c, args))
  {
    if present {
      MeaningOfOne(matcher, t, joins, row, c, args);
    }
  }

  /** What the pieces for text, author, language and series say about one row. */
  predicate PassesFront(matcher: Matcher, t: Tables, q: Query, withLanguages: bool, row: Row)
    requires row.book in t.books
  {
    && (HasText(q) ==> matcher(FtsQuery(q.text), PostingsAt(t, row.book)))
    && (q.author.Some? ==> Holds(matcher, t, FilterJoins(q), row, AuthorIs, [NormalizeText(q.author.value)]))
    && (withLanguages && q.languages != [] ==> t.books[row.book].language in q.languages)
    && (q.series.Some? ==> t.books[row.book].series == q.series)
  }

  lemma MeaningOfSingles(matcher: Matcher, t: Tables, q: Query, row: Row)
    requires row.book in t.books
    ensures var joins := FilterJoins(q);
            && Fits(AuthorPart(q)) && Fits(SeriesPart(q)) && Fits(FormatPart(q))
            && (Accepts(matcher, t, joins, row, AuthorPart(q)) <==>
                  (q.author.Some? ==> Holds(matcher, t, joins, row, AuthorIs, [NormalizeText(q.author.value)])))
            && (Accepts(matcher, t, joins, row, SeriesPart(q)) <==> (q.series.Some? ==> t.books[row.book].series == q.series))
            && (Accepts(matcher, t, joins, row, FormatPart(q)) <==> (q.format.Some? ==> t.books[row.book].format == q.format.value))
  {
    var joins := FilterJoins(q);
    if q.author.Some? {
      MeaningOfOne(matcher, t, joins, row, AuthorIs, [NormalizeText(q.author.value)]);
    }
    if q.series.Some? {
      MeaningOfOne(matcher, t, joins, row, SeriesIs, [q.series.value]);
    }
    if q.format.Some? {
      MeaningOfOne(matcher, t, joins, row, FormatIs, [q.format.value]);
    }
  }

  lemma MeaningOfFront(matcher: Matcher, t: Tables, q: Query, withLanguages: bool, row: Row)
    requires row.book in t.books
    ensures Fits(FrontPart(q, withLanguages))
    ensures Accepts(matcher, t, FilterJoins(q), row, FrontPart(q, withLanguages)) <==> PassesFront(matcher, t, q, withLanguages, row)
  {
    var joins := FilterJoins(q);
    var a, b, c, d := TextPart(q), AuthorPart(q), LanguagePart(q, withLanguages), SeriesPart(q);
    MeaningOfWhen(matcher, t, joins, row, HasText(q), IndexMatches, [FtsQuery(q.text)]);
    MeaningOfWhen(matcher, t, joins, row, withLanguages && q.languages != [], LanguageIn(InList(|q.languages|)), q.languages);
    MeaningOfSingles(matcher, t, q, row);
    MeaningOfThree(matcher, t, joins, row, a, b, c);
    MeaningOfThen(matcher, t, joins, row, Then(Then(a, b), c), d);
    SlotsOfThen(Then(Then(a, b), c), d);
  }

  lemma MeaningOfThree(matcher: Matcher, t: Tables, joins: Joins, row: Row, a: Clause, b: Clause, c: Clause)
    requires row.book in t.books && Fits(a) && Fits(b) && Fits(c)
    ensures Fits(Then(Then(a, b), c))
    ensures Accepts(matcher, t, joins, row, Then(Then(a, b), c))
       <==> Accepts(matcher, t, joins, row, a) && Accepts(matcher, t, joins, row, b) && Accepts(matcher, t, joins, row, c)
  {
    SlotsOfThen(a, b);
    SlotsOfThen(Then(a, b), c);
    MeaningOfThen(matcher, t, joins, row, a, b);
    MeaningOfThen(matcher, t, joins, row, Then(a, b), c);
  }

  predicate PassesGenres(t: Tables, q: Query, withGenres: bool, id: BookId) {
    withGenres && q.genres != [] ==> exists i :: 0 <= i < |q.genres| && NormalizeText(q.genres[i]) in StoredNames(t.genres, id)
  }

  lemma MeaningOfGenres(matcher: Matcher, t: Tables, q: Query, withGenres: bool, row: Row)
    requires row.book in t.books
    ensures Fits(GenrePart(q, withGenres))
    ensures Accepts(matcher, t, FilterJoins(q), row, GenrePart(q, withGenres)) <==> PassesGenres(t, q, withGenres, row.book)
  {
    MeaningOfWhen(matcher, t, FilterJoins(q), row, withGenres && q.genres != [], HasGenreIn(InList(|q.genres|)), Normalized(q.genres));
  }

  /**
    * Builder and binder are aligned: there are as many slots as values, and a row passes the
    * clause exactly if each filter of the query accepts it with its own value.
    */
  lemma MeaningOfCompiled(matcher: Matcher, t: Tables, q: Query, withLanguages: bool, withGenres: bool, row: Row)
    requires row.book in t.books
    ensures var c := Compiled(q, withLanguages, withGenres);
            && Fits(c)
            && (Accepts(matcher, t, FilterJoins(q), row, c) <==>
                  && PassesFront(matcher, t, q, withLanguages, row)
                  && HasAllTags(t, row.book, q.tags)
                  && PassesGenres(t, q, withGenres, row.book)
                  && (q.format.Some? ==> t.books[row.book].format == q.format.value))
  {
    var joins := FilterJoins(q);
    var front, tags, genres := FrontPart(q, withLanguages), TagPart(q.tags), GenrePart(q, withGenres);
    MeaningOfFront(matcher, t, q, withLanguages, row);
    MeaningOfTags(matcher, t, joins, row, q.tags);
    MeaningOfGenres(matcher, t, q, withGenres, row);
    MeaningOfSingles(matcher, t, q, row);
    MeaningOfThree(matcher, t, joins, row, front, tags, genres);
    MeaningOfThen(matcher, t, joins, row, Then(Then(front, tags), genres), FormatPart(q));
    SlotsOfThen(Then(Then(front, tags), genres), FormatPart(q));
  }

  // ---------------------------------------------------------------------------------------
  // What a compiled query selects
  // ---------------------------------------------------------------------------------------

  function SelectedBy(matcher: Matcher, t: Tables, q: Query, withLanguages: bool, withGenres: bool): set<Row> {
    set r | r in FromRows(t, FilterJoins(q)) && r.book in t.books
            && Accepts(matcher, t, FilterJoins(q), r, Compiled(q, withLanguages, withGenres))
  }

  function BooksOf(rows: set<Row>): set<BookId> {
    set r | r in rows :: r.book
  }

  function WantedBooks(matcher: Matcher, t: Tables, q: Query, withLanguages: bool, withGenres: bool): set<BookId> {
    set id | id in t.books && IsSelected(matcher, t, q, withLanguages, withGenres, id)
  }

  /** The joined row of a wanted book: the link to the author asked for, if one is. */
  lemma WantedBookHasRow(matcher: Matcher, t: Tables, q: Query, withLanguages: bool, withGenres: bool, id: BookId)
    requires id in WantedBooks(matcher, t, q, withLanguages, withGenres)
    ensures id in BooksOf(SelectedBy(matcher, t, q, withLanguages, withGenres))
  {
    var row := Row(id, None);
    if q.author.Some? {
      var l :| l in t.authors.links && l.0 == id && l.1 < |t.authors.entities|
               && t.authors.entities[l.1].normalized == NormalizeText(q.author.value);
      row := Row(id, Some(l.1));
      assert row in FromRows(t, FilterJoins(q)) by {
        assert l in t.authors.links && l.0 in t.books;
      }
    }
    MeaningOfCompiled(matcher, t, q, withLanguages, withGenres, row);
    assert row in SelectedBy(matcher, t, q, withLanguages, withGenres);
  }

  /** Evaluating the compiled clause over any catalogue selects exactly the books asked for. */
  lemma CompiledSelectsWanted(matcher: Matcher, t: Tables, q: Query, withLanguages: bool, withGenres: bool)
    ensures BooksOf(SelectedBy(matcher, t, q, withLanguages, withGenres)) == WantedBooks(matcher, t, q, withLanguages, withGenres)
  {
    var rows := SelectedBy(matcher, t, q, withLanguages, withGenres);
    forall r | r in rows ensures r.book in WantedBooks(matcher, t, q, withLanguages, withGenres) {
      SelectedRowIsWanted(matcher, t, q, withLanguages, withGenres, r);
    }
    forall id | id in WantedBooks(matcher, t, q, withLanguages, withGenres) ensures id in BooksOf(rows) {
      WantedBookHasRow(matcher, t, q, withLanguages, withGenres, id);
    }
  }

  lemma SelectedRowIsWanted(matcher: Matcher, t: Tables, q: Query, withLanguages: bool, withGenres: bool, r: Row)
    requires r in SelectedBy(matcher, t, q, withLanguages, withGenres)
    ensures r.book in WantedBooks(matcher, t, q, withLanguages, withGenres)
  {
    MeaningOfCompiled(matcher, t, q, withLanguages, withGenres, r);
    if q.author.Some? {
      assert (r.book, r.author.value) in t.authors.links;
    }
  }

  /** The join on authors never repeats a book: normalized names and links are unique. */
  lemma OneRowPerBook(matcher: Matcher, t: Tables, q: Query, withLanguages: bool, withGenres: bool, r: Row, r': Row)
    requires IsCatalogue(t) && r.book == r'.book
    requires r in SelectedBy(matcher, t, q, withLanguages, withGenres) && r' in SelectedBy(matcher, t, q, withLanguages, withGenres)
    ensures r == r'
  {
    MeaningOfCompiled(matcher, t, q, withLanguages, withGenres, r);
    MeaningOfCompiled(matcher, t, q, withLanguages, withGenres, r');
  }

  lemma {:induction false} CountOfBooks(rows: set<Row>)
    requires forall r, r' :: r in rows && r' in rows && r.book == r'.book ==> r == r'
    ensures |BooksOf(rows)| == |rows|
  {
    if rows != {} {
      var r :| r in rows;
      var rest := rows - {r};
      CountOfBooks(rest);
      assert BooksOf(rows) == BooksOf(rest) + {r.book};
      assert r.book !in BooksOf(rest);
    }
  }

  // ---------------------------------------------------------------------------------------
  // Facets
  // ---------------------------------------------------------------------------------------

  /** The rows that ListAvailableLanguages counts for one language. */
  function LanguageRows(matcher: Matcher, t: Tables, q: Query, language: Text): set<Row> {
    set r | r in SelectedBy(matcher, t, q, false, true) && r.book in t.books && t.books[r.book].language == language
  }

  /** COUNT(*) over the joined rows of a language is the number of its books. */
  lemma LanguageFacetCountsBooks(matcher: Matcher, t: Tables, q: Query, language: Text)
    requires IsCatalogue(t)
    ensures |LanguageRows(matcher, t, q, language)|
         == |set id | id in WantedBooks(matcher, t, q, false, true) && t.books[id].language == language|
  {
    var rows := LanguageRows(matcher, t, q, language);
    forall r, r' | r in rows && r' in rows && r.book == r'.book ensures r == r' {
      OneRowPerBook(matcher, t, q, false, true, r, r');
    }
    CountOfBooks(rows);
    CompiledSelectsWanted(matcher, t, q, false, true);
    var wanted := set id | id in WantedBooks(matcher, t, q, false, true) && t.books[id].language == language;
    forall id | id in wanted ensures id in BooksOf(rows) {
      var r :| r in SelectedBy(matcher, t, q, false, true) && r.book == id;
      assert r in rows;
    }
    assert BooksOf(rows) == wanted;
  }

  /** ListAvailableGenres joins every selected row with the genre links of its book. */
  datatype GenreRow = GenreRow(row: Row, genre: nat)

  function GenreRows(matcher: Matcher, t: Tables, q: Query, display: Text): set<GenreRow> {
    PairedWithGenre(t, SelectedBy(matcher, t, q, true, false), display)
  }

  predicate HasGenre(t: Tables, id: BookId, display: Text) {
    exists l :: l in t.genres.links && l.0 == id && l.1 < |t.genres.entities| && t.genres.entities[l.1].display == display
  }

  lemma {:induction false} CountOfRows(pairs: set<GenreRow>, rows: set<Row>)
    requires forall p, p' :: p in pairs && p' in pairs && p.row == p'.row ==> p == p'
    requires rows == set p | p in pairs :: p.row
    ensures |rows| == |pairs|
    decreases pairs
  {
    if pairs != {} {
      var p :| p in pairs;
      CountOfRows(pairs - {p}, rows - {p.row});
    }
  }

  /** Grouping by display name is safe although only normalized names are declared unique. */
  lemma GenreFacetCountsBooks(matcher: Matcher, t: Tables, q: Query, display: Text)
    requires IsCatalogue(t)
    ensures |GenreRows(matcher, t, q, display)|
         == |set id | id in WantedBooks(matcher, t, q, true, false) && HasGenre(t, id, display)|
  {
    var pairs := GenreRows(matcher, t, q, display);
    var rows := set p | p in pairs :: p.row;
    forall p, p' | p in pairs && p' in pairs && p.row == p'.row ensures p == p' {
      assert IsEntity(t.genres.entities[p.genre]) && IsEntity(t.genres.entities[p'.genre]);
    }
    CountOfRows(pairs, rows);
    forall r, r' | r in rows && r' in rows && r.book == r'.book ensures r == r' {
      OneRowPerBook(matcher, t, q, true, false, r, r');
    }
    CountOfBooks(rows);
    CompiledSelectsWanted(matcher, t, q, true, false);
    GenreBooks(t, SelectedBy(matcher, t, q, true, false), display);
  }

  function PairedWithGenre(t: Tables, rows: set<Row>, display: Text): set<GenreRow> {
    set r, l | r in rows && l in t.genres.links
               && l.0 == r.book && l.1 < |t.genres.entities| && t.genres.entities[l.1].display == display :: GenreRow(r, l.1)
  }

  /** The books of the joined rows are those of the rows that have the genre. */
  lemma GenreBooks(t: Tables, rows: set<Row>, display: Text)
    ensures BooksOf(set p | p in PairedWithGenre(t, rows, display) :: p.row) == set id | id in BooksOf(rows) && HasGenre(t, id, display)
  {
    var pairs := PairedWithGenre(t, rows, display);
    var joined := set p | p in pairs :: p.row;
    forall id | id in BooksOf(rows) && HasGenre(t, id, display) ensures id in BooksOf(joined) {
      var r :| r in rows && r.book == id;
      var l :| l in t.genres.links && l.0 == id && l.1 < |t.genres.entities| && t.genres.entities[l.1].display == display;
      assert GenreRow(r, l.1) in pairs;
      assert r in joined;
    }
  }
}
