/**
  * The catalogue as values: the relational tables, the postings of the contentless full-text
  * index, and what each repository operation does to them when it runs to completion.
  */
module Catalogue {
  import opened MetadataNormalization
  import opened Wrappers

  type BookId = int
  type Term = Text

  /** The index tokenizer is a parameter; only the law below is used of it. */
  type Tokenizer = Text -> set<Term>

  /** The terms of texts joined by a blank are the terms of the parts. */
  ghost predicate IsLawful(tokens: Tokenizer) {
    tokens([]) == {} && forall a, b :: tokens(a + [SPACE] + b) == tokens(a) + tokens(b)
  }

  // ---------------------------------------------------------------------------------------
  // Tables
  // ---------------------------------------------------------------------------------------

  datatype Metadata = Metadata(
    title: Text,
    language: Text,
    series: Option<Text>,
    description: Option<Text>,
    authors: seq<Text>,
    tags: seq<Text>,
    genres: seq<Text>)

  datatype Book = Book(
    id: BookId,
    metadata: Metadata,
    format: Text,
    managedPath: Text,
    coverPath: Option<Text>,
    sha256: Text)

  datatype BookRow = BookRow(
    title: Text,
    normalizedTitle: Text,
    language: Text,
    series: Option<Text>,
    description: Option<Text>,
    format: Text,
    managedPath: Text,
    coverPath: Option<Text>,
    sha256: Text)

  /** A row of authors, tags or genres. Rows are never deleted, so their ids are consecutive. */
  datatype Entity = Entity(normalized: Text, display: Text)

  /** An entity table with its link table; a link is a book id and an entity index. */
  datatype Relation = Relation(entities: seq<Entity>, links: set<(BookId, nat)>)

  datatype Column = TitleColumn | AuthorsColumn | TagsColumn | GenresColumn | DescriptionColumn
  datatype Posting = Posting(term: Term, column: Column, rowid: BookId)

  datatype Tables = Tables(
    books: map<BookId, BookRow>,
    nextId: int,
    authors: Relation,
    tags: Relation,
    genres: Relation,
    postings: set<Posting>)

  function RowOf(b: Book): BookRow {
    BookRow(b.metadata.title, NormalizeText(b.metadata.title), b.metadata.language, b.metadata.series,
            b.metadata.description, b.format, b.managedPath, b.coverPath, b.sha256)
  }

  /** Column by column, the row shows this book. */
  predicate ShowsBook(row: BookRow, b: Book) {
    && row.title == b.metadata.title
    && row.normalizedTitle == NormalizeText(b.metadata.title)
    && row.language == b.metadata.language
    && row.series == b.metadata.series
    && row.description == b.metadata.description
    && row.format == b.format
    && row.managedPath == b.managedPath
    && row.coverPath == b.coverPath
    && row.sha256 == b.sha256
  }

  /** One row has come to the others. */
  predicate IsWithRow(before: map<BookId, BookRow>, after: map<BookId, BookRow>, id: BookId) {
    id !in before && id in after && after - {id} == before
  }

  // ---------------------------------------------------------------------------------------
  // Entities and links
  // ---------------------------------------------------------------------------------------

  /** The index of the row with this normalized name. */
  function FindEntity(entities: seq<Entity>, normalized: Text): (r: Option<nat>)
    ensures r.Some? ==> r.value < |entities| && entities[r.value].normalized == normalized
    ensures r.None? ==> forall i :: 0 <= i < |entities| ==> entities[i].normalized != normalized
  {
    if entities == [] then None
    else
      var last := |entities| - 1;
      if entities[last].normalized == normalized then Some(last) else FindEntity(entities[..last], normalized)
  }

  /** ResolveEntityId: an insert that does nothing on conflict. The first display name stays. */
  function Resolved(entities: seq<Entity>, normalized: Text, display: Text): seq<Entity> {
    if FindEntity(entities, normalized).Some? then entities else entities + [Entity(normalized, display)]
  }

  function LinkName(r: Relation, book: BookId, name: Text): Relation {
    var normalized := NormalizeText(name);
    var entities := Resolved(r.entities, normalized, name);
    match FindEntity(entities, normalized)
    case Some(e) => Relation(entities, r.links + {(book, e)})
    case None => r
  }

  /** The distinct normalized names in a list, without the empty one. */
  function NormalSet(names: seq<Text>): set<Text> {
    (set i | 0 <= i < |names| :: NormalizeText(names[i])) - {[]}
  }

  /** Whether name `i` is linked: it is not empty and no earlier name normalizes like it. */
  predicate IsFirstOfItsName(names: seq<Text>, i: nat)
    requires i < |names|
  {
    NormalizeText(names[i]) != [] && NormalizeText(names[i]) !in NormalSet(names[..i])
  }

  /** InsertAuthors, InsertTags and InsertGenres: the relation after linking the names in order. */
  function Linked(r: Relation, book: BookId, names: seq<Text>): Relation {
    if names == [] then r
    else
      var last := |names| - 1;
      var before := Linked(r, book, names[..last]);
      if IsFirstOfItsName(names, last) then LinkName(before, book, names[last]) else before
  }

  /** The normalized names linked to a book. */
  function StoredNames(r: Relation, book: BookId): set<Text> {
    set l | l in r.links && l.0 == book && l.1 < |r.entities| :: r.entities[l.1].normalized
  }

  function WithoutBooks(r: Relation, ids: set<BookId>): Relation {
    r.(links := set l | l in r.links && l.0 !in ids)
  }

  /** UNIQUE and NOT NULL constraints, and the foreign keys towards books and entities. */
  ghost predicate IsRelation(r: Relation, ids: set<BookId>) {
    && (forall i :: 0 <= i < |r.entities| ==> IsEntity(r.entities[i]))
    && (forall i, j :: 0 <= i < j < |r.entities| ==> r.entities[i].normalized != r.entities[j].normalized)
    && (forall l :: l in r.links ==> l.0 in ids && l.1 < |r.entities|)
  }

  ghost predicate IsEntity(e: Entity) {
    e.normalized != [] && e.normalized == NormalizeText(e.display)
  }

  lemma LinkNameKeepsRelation(r: Relation, ids: set<BookId>, book: BookId, name: Text)
    requires IsRelation(r, ids) && book in ids && NormalizeText(name) != []
    ensures var r' := LinkName(r, book, name);
            && IsRelation(r', ids)
            && r.entities <= r'.entities
            && exists e: nat :: e < |r'.entities| && r'.entities[e].normalized == NormalizeText(name)
                                && r'.links == r.links + {(book, e)}
  {
    var n := NormalizeText(name);
    var e := FindEntity(LinkName(r, book, name).entities, n).value;
    assert LinkName(r, book, name).links == r.links + {(book, e)};
    assert IsEntity(Entity(n, name));
  }

  lemma LinkNameMeaning(r: Relation, ids: set<BookId>, book: BookId, name: Text)
    requires IsRelation(r, ids) && book in ids && NormalizeText(name) != []
    ensures var r' := LinkName(r, book, name);
            && IsRelation(r', ids)
            && r.entities <= r'.entities
            && StoredNames(r', book) == StoredNames(r, book) + {NormalizeText(name)}
            && (forall other :: other != book ==> StoredNames(r', other) == StoredNames(r, other))
  {
    var n := NormalizeText(name);
    var r' := LinkName(r, book, name);
    LinkNameKeepsRelation(r, ids, book, name);
    var e: nat :| e < |r'.entities| && r'.entities[e].normalized == n && r'.links == r.links + {(book, e)};
    forall id: BookId
      ensures StoredNames(r', id) == StoredNames(r, id) + if id == book then {n} else {}
    {
      StoredNamesOfAddedLink(r, r', book, e, id);
    }
  }

  lemma StoredNamesOfAddedLink(r: Relation, r': Relation, book: BookId, e: nat, id: BookId)
    requires r.entities <= r'.entities && e < |r'.entities| && r'.links == r.links + {(book, e)}
    requires forall l :: l in r.links ==> l.1 < |r.entities|
    ensures StoredNames(r', id) == StoredNames(r, id) + if id == book then {r'.entities[e].normalized} else {}
  {
  }

  lemma NormalSetStep(names: seq<Text>)
    requires names != []
    ensures var last := |names| - 1;
            NormalSet(names) == NormalSet(names[..last]) + ({NormalizeText(names[last])} - {[]})
  {
    var last := |names| - 1;
    forall x | x in NormalSet(names) ensures x in NormalSet(names[..last]) + {NormalizeText(names[last])} {
      var i :| 0 <= i < |names| && x == NormalizeText(names[i]);
      if i < last {
        assert names[..last][i] == names[i];
      }
    }
    forall x | x in NormalSet(names[..last]) ensures x in NormalSet(names) {
      var i :| 0 <= i < last && x == NormalizeText(names[..last][i]);
      assert names[i] == names[..last][i];
    }
  }

  /**
    * Linking a list of names to a book without links stores exactly the distinct non-empty
    * normalized names of the list, and leaves the names of every other book alone.
    */
  lemma {:induction false} LinkedMeaning(r: Relation, ids: set<BookId>, book: BookId, names: seq<Text>)
    requires IsRelation(r, ids) && book in ids && forall l :: l in r.links ==> l.0 != book
    ensures var r' := Linked(r, book, names);
            && IsRelation(r', ids)
            && r.entities <= r'.entities
            && StoredNames(r', book) == NormalSet(names)
            && (forall other :: other != book ==> StoredNames(r', other) == StoredNames(r, other))
  {
    if names != [] {
      var last := |names| - 1;
      LinkedMeaning(r, ids, book, names[..last]);
      NormalSetStep(names);
      if IsFirstOfItsName(names, last) {
        LinkNameMeaning(Linked(r, book, names[..last]), ids, book, names[last]);
      }
    }
  }

  // ---------------------------------------------------------------------------------------
  // The full-text index
  // ---------------------------------------------------------------------------------------

  /** JoinNormalizedText: the non-empty normalized values with a blank between them. */
  function JoinNormalized(values: seq<Text>): Text {
    if values == [] then []
    else
      var joined := JoinNormalized(values[..|values| - 1]);
      var normalized := NormalizeText(values[|values| - 1]);
      if normalized == [] then joined
      else if joined == [] then normalized
      else joined + [SPACE] + normalized
  }

  function InColumn(terms: set<Term>, column: Column, rowid: BookId): set<Posting> {
    set t | t in terms :: Posting(t, column, rowid)
  }

  function NormalizedDescription(d: Option<Text>): Text {
    if d.None? then [] else NormalizeText(d.value)
  }

  /** The postings that one insert into the index creates, from the lists the caller passed. */
  function MetadataPostings(tokens: Tokenizer, rowid: BookId, title: Text, description: Option<Text>,
                            authors: seq<Text>, tags: seq<Text>, genres: seq<Text>): set<Posting> {
    InColumn(tokens(NormalizeText(title)), TitleColumn, rowid)
    + InColumn(tokens(JoinNormalized(authors)), AuthorsColumn, rowid)
    + InColumn(tokens(JoinNormalized(tags)), TagsColumn, rowid)
    + InColumn(tokens(JoinNormalized(genres)), GenresColumn, rowid)
    + InColumn(tokens(NormalizedDescription(description)), DescriptionColumn, rowid)
  }

  function BookPostings(tokens: Tokenizer, rowid: BookId, m: Metadata): set<Posting> {
    MetadataPostings(tokens, rowid, m.title, m.description, m.authors, m.tags, m.genres)
  }

  function TermsOfNames(tokens: Tokenizer, names: set<Text>): set<Term> {
    set n, x | n in names && x in tokens(n) :: x
  }

  /** The postings a book should have, computed from the relational tables alone. */
  function StoredPostings(tokens: Tokenizer, t: Tables, id: BookId): set<Posting>
    requires id in t.books
  {
    InColumn(tokens(NormalizeText(t.books[id].title)), TitleColumn, id)
    + InColumn(TermsOfNames(tokens, StoredNames(t.authors, id)), AuthorsColumn, id)
    + InColumn(TermsOfNames(tokens, StoredNames(t.tags, id)), TagsColumn, id)
    + InColumn(TermsOfNames(tokens, StoredNames(t.genres, id)), GenresColumn, id)
    + InColumn(tokens(NormalizedDescription(t.books[id].description)), DescriptionColumn, id)
  }

  function PostingsAt(t: Tables, id: BookId): set<Posting> {
    set p | p in t.postings && p.rowid == id
  }

  /** Joining loses nothing for the index: duplicates and order do not matter to the terms. */
  lemma {:induction false} TermsOfJoined(tokens: Tokenizer, values: seq<Text>)
    requires IsLawful(tokens)
    ensures tokens(JoinNormalized(values)) == TermsOfNames(tokens, NormalSet(values))
  {
    if values != [] {
      var last := |values| - 1;
      var joined, n := JoinNormalized(values[..last]), NormalizeText(values[last]);
      TermsOfJoined(tokens, values[..last]);
      NormalSetStep(values);
      TermsOfNamesStep(tokens, NormalSet(values[..last]), n);
      if n != [] && joined != [] {
        assert tokens(joined + [SPACE] + n) == tokens(joined) + tokens(n);
      }
    }
  }

  lemma TermsOfNamesStep(tokens: Tokenizer, names: set<Text>, n: Text)
    ensures TermsOfNames(tokens, names + {n}) == TermsOfNames(tokens, names) + tokens(n)
  {
  }

  // ---------------------------------------------------------------------------------------
  // A lawful tokenizer exists: the one that cuts text at white space
  // ---------------------------------------------------------------------------------------

  predicate IsText(w: seq<int>) {
    forall i :: 0 <= i < |w| ==> 0 <= w[i] < 0x100
  }

  function WordTerms(text: Text): set<Term> {
    set w | w in Words(text) && IsText(w) :: w
  }

  lemma WordsStep(s: seq<int>)
    requires s != [] && !IsWhitespace(s[0])
    ensures |s| == 1 || IsWhitespace(s[1]) ==> Words(s) == [[s[0]]] + Words(s[1..])
    ensures |s| > 1 && !IsWhitespace(s[1]) ==>
              Words(s[1..]) != [] && Words(s) == [[s[0]] + Words(s[1..])[0]] + Words(s[1..])[1..]
  {
  }

  lemma {:induction false} WordsAcrossBlank(a: seq<int>, b: seq<int>)
    ensures Words(a + [0x20] + b) == Words(a) + Words(b)
  {
    var s := a + [0x20] + b;
    if a == [] {
      assert s[1..] == b;
    } else {
      var rest := Words(a[1..]);
      assert s[1..] == a[1..] + [0x20] + b;
      WordsAcrossBlank(a[1..], b);
      if !IsWhitespace(a[0]) {
        WordsStep(s);
        WordsStep(a);
        if |a| > 1 && !IsWhitespace(a[1]) {
          assert (rest + Words(b))[1..] == rest[1..] + Words(b);
        } else {
          assert [[a[0]]] + (rest + Words(b)) == [[a[0]]] + rest + Words(b);
        }
      }
    }
  }

  lemma WordTermsIsLawful()
    ensures IsLawful(WordTerms)
  {
    forall a: Text, b: Text ensures WordTerms(a + [SPACE] + b) == WordTerms(a) + WordTerms(b) {
      WordsAcrossBlank(a, b);
    }
  }
}
