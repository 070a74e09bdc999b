/**
  * Every repository operation as a function on the tables, the invariants they keep, and the
  * agreement of the full-text index with the tables over whole runs.
  */
module CatalogueRuns {
  import opened Catalogue
  import opened MetadataNormalization
  import opened Wrappers

  // ---------------------------------------------------------------------------------------
  // Operations
  // ---------------------------------------------------------------------------------------

  function Smallest(s: set<int>): (m: int)
    requires s != {}
    ensures m in s && forall x :: x in s ==> m <= x
  {
    SmallestExists(s);
    var m :| m in s && forall x :: x in s ==> m <= x;
    m
  }

  lemma SmallestExists(s: set<int>)
    requires s != {}
    ensures exists m :: m in s && forall x :: x in s ==> m <= x
  {
    var y := Any(s);
    if s != {y} {
      SmallestExists(s - {y});
      var m :| m in s - {y} && forall x :: x in s - {y} ==> m <= x;
      assert forall x :: x in s ==> x == y || x in s - {y};
      assert (if y < m then y else m) in s;
    }
  }

  function Greatest(s: set<int>): (m: int)
    requires s != {}
    ensures m in s && forall x :: x in s ==> x <= m
  {
    GreatestExists(s);
    var m :| m in s && forall x :: x in s ==> x <= m;
    m
  }

  lemma GreatestExists(s: set<int>)
    requires s != {}
    ensures exists m :: m in s && forall x :: x in s ==> x <= m
  {
    var y := Any(s);
    if s != {y} {
      GreatestExists(s - {y});
      var m :| m in s - {y} && forall x :: x in s - {y} ==> x <= m;
      assert forall x :: x in s ==> x == y || x in s - {y};
      assert (if y > m then y else m) in s;
    }
  }

  /** The books that share a content hash. */
  function HashMatches(t: Tables, sha256: Text): set<BookId> {
    set id | id in t.books && t.books[id].sha256 == sha256
  }

  /** The row id of a new book: its own, or the one SQLite picks for a row without an id. */
  function TargetId(t: Tables, b: Book): BookId {
    if b.id > 0 then b.id
    else if t.books.Keys == {} then 1
    else Greatest(t.books.Keys) + 1
  }

  /** DoAddBook run to completion: the row, its links and its postings. */
  function Inserted(tokens: Tokenizer, t: Tables, b: Book): Tables {
    var id := TargetId(t, b);
    Tables(t.books[id := RowOf(b)],
           t.nextId,
           Linked(t.authors, id, b.metadata.authors),
           Linked(t.tags, id, b.metadata.tags),
           Linked(t.genres, id, b.metadata.genres),
           t.postings + BookPostings(tokens, id, b.metadata))
  }

  datatype BatchEntry = BatchEntry(book: Book, forceAdd: bool)
  datatype BatchResult = Imported(bookId: BookId) | RejectedDuplicate(conflictingBookId: BookId) | Failed

  predicate IsDuplicate(t: Tables, e: BatchEntry) {
    !e.forceAdd && e.book.sha256 != [] && HashMatches(t, e.book.sha256) != {}
  }

  /**
    * Add or ForceAdd of one entry: the tables afterwards and the answer. `faulted` says that a
    * statement of this call failed, which undoes all the others.
    */
  function AddOne(tokens: Tokenizer, t: Tables, e: BatchEntry, faulted: bool): (Tables, BatchResult) {
    if faulted then (t, Failed)
    else if IsDuplicate(t, e) then (t, RejectedDuplicate(Smallest(HashMatches(t, e.book.sha256))))
    else if TargetId(t, e.book) in t.books then (t, Failed)
    else (Inserted(tokens, t, e.book), Imported(TargetId(t, e.book)))
  }

  /** The entries one after the other, each with its own failure flag. */
  function AddAll(tokens: Tokenizer, t: Tables, es: seq<BatchEntry>, faults: seq<bool>): (r: (Tables, seq<BatchResult>))
    requires |es| == |faults|
    ensures |r.1| == |es|
  {
    if es == [] then (t, [])
    else
      var last := |es| - 1;
      var before := AddAll(tokens, t, es[..last], faults[..last]);
      var one := AddOne(tokens, before.0, es[last], faults[last]);
      (one.0, before.1 + [one.1])
  }

  lemma AddAllStep(tokens: Tokenizer, t: Tables, es: seq<BatchEntry>, i: nat, faults: seq<bool>, faulted: bool)
    requires i < |es| && |faults| == i
    ensures var before := AddAll(tokens, t, es[..i], faults);
            var one := AddOne(tokens, before.0, es[i], faulted);
            AddAll(tokens, t, es[..i + 1], faults + [faulted]) == (one.0, before.1 + [one.1])
  {
    assert es[..i + 1][..i] == es[..i] && (faults + [faulted])[..i] == faults;
  }

  lemma AddAllOfOne(tokens: Tokenizer, t: Tables, e: BatchEntry, faulted: bool)
    ensures AddAll(tokens, t, [e], [faulted]) == (AddOne(tokens, t, e, faulted).0, [AddOne(tokens, t, e, faulted).1])
  {
    var es, faults := [e], [faulted];
    var before := AddAll(tokens, t, es[..0], faults[..0]);
    assert es[..0] == [] && before == (t, []);
    assert es[|es| - 1] == e && faults[|es| - 1] == faulted;
    assert before.1 + [AddOne(tokens, t, e, faulted).1] == [AddOne(tokens, t, e, faulted).1];
  }

  /** DELETE of book rows, which cascades to the link tables but not to the index. */
  function RowsRemoved(t: Tables, ids: set<BookId>): Tables {
    t.(books := t.books - ids,
       authors := WithoutBooks(t.authors, ids),
       tags := WithoutBooks(t.tags, ids),
       genres := WithoutBooks(t.genres, ids))
  }

  /** Remove: the index forgets what the tables say about the book, then the row goes. */
  function Removed(tokens: Tokenizer, t: Tables, id: BookId): Tables {
    if id !in t.books then t else RowsRemoved(Unindexed(tokens, t, id), {id})
  }

  function Unindexed(tokens: Tokenizer, t: Tables, id: BookId): Tables
    requires id in t.books
  {
    t.(postings := t.postings - StoredPostings(tokens, t, id))
  }

  /** RebuildAll run to completion. */
  function Rebuilt(tokens: Tokenizer, t: Tables): Tables {
    t.(postings := set id, p | id in t.books && p in StoredPostings(tokens, t, id) :: p)
  }

  function Reserved(t: Tables, count: nat): Tables {
    t.(nextId := t.nextId + count)
  }

  // ---------------------------------------------------------------------------------------
  // Invariants of the tables
  // ---------------------------------------------------------------------------------------

  ghost predicate IsCatalogue(t: Tables) {
    && IsRelation(t.authors, t.books.Keys)
    && IsRelation(t.tags, t.books.Keys)
    && IsRelation(t.genres, t.books.Keys)
    && forall id :: id in t.books ==> t.books[id].normalizedTitle == NormalizeText(t.books[id].title)
  }

  /** The index holds exactly the postings of every live book. */
  ghost predicate Agrees(tokens: Tokenizer, t: Tables) {
    forall id :: id in t.books ==> PostingsAt(t, id) == StoredPostings(tokens, t, id)
  }

  lemma RelationGrows(r: Relation, ids: set<BookId>, more: set<BookId>)
    requires IsRelation(r, ids) && ids <= more
    ensures IsRelation(r, more)
  {
  }

  lemma InsertedNames(tokens: Tokenizer, t: Tables, b: Book)
    requires IsCatalogue(t) && TargetId(t, b) !in t.books
    ensures var id := TargetId(t, b);
            var t' := Inserted(tokens, t, b);
            && IsCatalogue(t')
            && t'.books == t.books[id := RowOf(b)]
            && StoredNames(t'.authors, id) == NormalSet(b.metadata.authors)
            && StoredNames(t'.tags, id) == NormalSet(b.metadata.tags)
            && StoredNames(t'.genres, id) == NormalSet(b.metadata.genres)
            && forall other :: other != id ==>
                 && StoredNames(t'.authors, other) == StoredNames(t.authors, other)
                 && StoredNames(t'.tags, other) == StoredNames(t.tags, other)
                 && StoredNames(t'.genres, other) == StoredNames(t.genres, other)
  {
    var id := TargetId(t, b);
    var ids := t.books.Keys + {id};
    assert (t.books[id := RowOf(b)]).Keys == ids;
    RelationGrows(t.authors, t.books.Keys, ids);
    RelationGrows(t.tags, t.books.Keys, ids);
    RelationGrows(t.genres, t.books.Keys, ids);
    LinkedMeaning(t.authors, ids, id, b.metadata.authors);
    LinkedMeaning(t.tags, ids, id, b.metadata.tags);
    LinkedMeaning(t.genres, ids, id, b.metadata.genres);
  }

  lemma NewRow(rows: map<BookId, BookRow>, id: BookId, row: BookRow)
    requires id !in rows
    ensures IsWithRow(rows, rows[id := row], id)
  {
  }

  lemma BookPostingsAreAt(tokens: Tokenizer, id: BookId, m: Metadata)
    ensures forall p :: p in BookPostings(tokens, id, m) ==> p.rowid == id
  {
  }

  /** A term of one of these names, as they are normalized. */
  ghost predicate IsTermOfNames(tokens: Tokenizer, names: seq<Text>, x: Term) {
    exists i :: 0 <= i < |names| && x in tokens(NormalizeText(names[i]))
  }

  /** Which terms a book is found under in each column: those of its title, of its names, of its description. */
  ghost predicate IsIndexedUnder(tokens: Tokenizer, m: Metadata, x: Term, column: Column) {
    match column
    case TitleColumn => x in tokens(NormalizeText(m.title))
    case AuthorsColumn => IsTermOfNames(tokens, m.authors, x)
    case TagsColumn => IsTermOfNames(tokens, m.tags, x)
    case GenresColumn => IsTermOfNames(tokens, m.genres, x)
    case DescriptionColumn => m.description.Some? && x in tokens(NormalizeText(m.description.value))
  }

  lemma TermsOfNamesMeaning(tokens: Tokenizer, names: seq<Text>, x: Term)
    requires IsLawful(tokens)
    ensures x in TermsOfNames(tokens, NormalSet(names)) <==> IsTermOfNames(tokens, names, x)
  {
    if x in TermsOfNames(tokens, NormalSet(names)) {
      var n :| n in NormalSet(names) && x in tokens(n);
      var i :| 0 <= i < |names| && NormalizeText(names[i]) == n;
      assert x in tokens(NormalizeText(names[i]));
    }
    if IsTermOfNames(tokens, names, x) {
      var i :| 0 <= i < |names| && x in tokens(NormalizeText(names[i]));
      assert NormalizeText(names[i]) != [] && NormalizeText(names[i]) in NormalSet(names);
    }
  }

  lemma PostingsByColumn(tokens: Tokenizer, id: BookId, m: Metadata, x: Term, column: Column)
    ensures Posting(x, column, id) in BookPostings(tokens, id, m) <==>
              match column
              case TitleColumn => x in tokens(NormalizeText(m.title))
              case AuthorsColumn => x in tokens(JoinNormalized(m.authors))
              case TagsColumn => x in tokens(JoinNormalized(m.tags))
              case GenresColumn => x in tokens(JoinNormalized(m.genres))
              case DescriptionColumn => x in tokens(NormalizedDescription(m.description))
  {
  }

  /** The postings of a book are those of its terms, column by column. */
  lemma BookPostingsMeaning(tokens: Tokenizer, id: BookId, m: Metadata, x: Term, column: Column)
    requires IsLawful(tokens)
    ensures Posting(x, column, id) in BookPostings(tokens, id, m) <==> IsIndexedUnder(tokens, m, x, column)
  {
    PostingsByColumn(tokens, id, m, x, column);
    match column
    case TitleColumn =>
    case AuthorsColumn =>
      TermsOfJoined(tokens, m.authors);
      TermsOfNamesMeaning(tokens, m.authors, x);
    case TagsColumn =>
      TermsOfJoined(tokens, m.tags);
      TermsOfNamesMeaning(tokens, m.tags, x);
    case GenresColumn =>
      TermsOfJoined(tokens, m.genres);
      TermsOfNamesMeaning(tokens, m.genres, x);
    case DescriptionColumn =>
  }

  /** A book keeps the id it brings, and one without gets the id after the last. */
  lemma TargetMeaning(t: Tables, b: Book)
    ensures b.id > 0 ==> TargetId(t, b) == b.id
    ensures b.id <= 0 ==> TargetId(t, b) !in t.books && forall id :: id in t.books ==> id < TargetId(t, b)
    ensures b.id <= 0 ==> TargetId(t, b) - 1 in t.books || (TargetId(t, b) == 1 && t.books == map[])
  {
    if b.id <= 0 && t.books.Keys == {} {
      assert forall id :: id !in t.books.Keys;
    }
  }

  lemma InsertedPostings(tokens: Tokenizer, t: Tables, b: Book)
    ensures var id := TargetId(t, b);
            && PostingsAt(Inserted(tokens, t, b), id) == PostingsAt(t, id) + BookPostings(tokens, id, b.metadata)
            && forall other :: other != id ==> PostingsAt(Inserted(tokens, t, b), other) == PostingsAt(t, other)
  {
    BookPostingsAreAt(tokens, TargetId(t, b), b.metadata);
  }

  /** The tables give a new book the very postings that its metadata was indexed under. */
  lemma StoredEqualsIndexed(tokens: Tokenizer, t: Tables, id: BookId, b: Book)
    requires IsLawful(tokens) && id in t.books && t.books[id] == RowOf(b)
    requires StoredNames(t.authors, id) == NormalSet(b.metadata.authors)
    requires StoredNames(t.tags, id) == NormalSet(b.metadata.tags)
    requires StoredNames(t.genres, id) == NormalSet(b.metadata.genres)
    ensures StoredPostings(tokens, t, id) == BookPostings(tokens, id, b.metadata)
  {
    TermsOfJoined(tokens, b.metadata.authors);
    TermsOfJoined(tokens, b.metadata.tags);
    TermsOfJoined(tokens, b.metadata.genres);
  }

  /** What an insert stores for the new book is what it indexed for it; nothing else changes. */
  lemma InsertedMeaning(tokens: Tokenizer, t: Tables, b: Book)
    requires IsLawful(tokens) && IsCatalogue(t) && TargetId(t, b) !in t.books
    ensures var id := TargetId(t, b);
            var t' := Inserted(tokens, t, b);
            && IsCatalogue(t')
            && IsWithRow(t.books, t'.books, id) && ShowsBook(t'.books[id], b)
            && t'.books == t.books[id := t'.books[id]]
            && StoredPostings(tokens, t', id) == BookPostings(tokens, id, b.metadata)
            && PostingsAt(t', id) == PostingsAt(t, id) + BookPostings(tokens, id, b.metadata)
            && forall other :: other in t.books ==>
                 StoredPostings(tokens, t', other) == StoredPostings(tokens, t, other)
                 && PostingsAt(t', other) == PostingsAt(t, other)
  {
    var id, t' := TargetId(t, b), Inserted(tokens, t, b);
    InsertedNames(tokens, t, b);
    NewRow(t.books, id, RowOf(b));
    InsertedPostings(tokens, t, b);
    StoredEqualsIndexed(tokens, t', id, b);
    forall other | other in t.books ensures StoredPostings(tokens, t', other) == StoredPostings(tokens, t, other) {
      SamePostings(tokens, t, t', other);
    }
  }

  lemma SamePostings(tokens: Tokenizer, t: Tables, t': Tables, id: BookId)
    requires id in t.books && id in t'.books && t.books[id] == t'.books[id]
    requires StoredNames(t.authors, id) == StoredNames(t'.authors, id)
    requires StoredNames(t.tags, id) == StoredNames(t'.tags, id)
    requires StoredNames(t.genres, id) == StoredNames(t'.genres, id)
    ensures StoredPostings(tokens, t, id) == StoredPostings(tokens, t', id)
  {
  }

  /**
    * An insert keeps the index in agreement exactly when the postings that an earlier owner of
    * the row id left behind are also postings of the new book.
    */
  lemma InsertAgreesIff(tokens: Tokenizer, t: Tables, b: Book)
    requires IsLawful(tokens) && IsCatalogue(t) && Agrees(tokens, t) && TargetId(t, b) !in t.books
    ensures Agrees(tokens, Inserted(tokens, t, b))
       <==> PostingsAt(t, TargetId(t, b)) <= BookPostings(tokens, TargetId(t, b), b.metadata)
  {
    InsertedMeaning(tokens, t, b);
    var id := TargetId(t, b);
    var t' := Inserted(tokens, t, b);
    if Agrees(tokens, t') {
      assert PostingsAt(t', id) == StoredPostings(tokens, t', id);
    }
  }

  lemma StoredNamesWithoutBooks(r: Relation, ids: set<BookId>, id: BookId)
    requires id !in ids
    ensures StoredNames(WithoutBooks(r, ids), id) == StoredNames(r, id)
  {
  }

  lemma RowsRemovedMeaning(tokens: Tokenizer, t: Tables, ids: set<BookId>)
    requires IsCatalogue(t)
    ensures var t' := RowsRemoved(t, ids);
            && IsCatalogue(t')
            && t'.books.Keys == t.books.Keys - ids
            && t'.postings == t.postings
            && forall id :: id in t'.books ==> StoredPostings(tokens, t', id) == StoredPostings(tokens, t, id)
  {
    var t' := RowsRemoved(t, ids);
    forall id | id in t'.books ensures StoredPostings(tokens, t', id) == StoredPostings(tokens, t, id) {
      StoredNamesWithoutBooks(t.authors, ids, id);
      StoredNamesWithoutBooks(t.tags, ids, id);
      StoredNamesWithoutBooks(t.genres, ids, id);
    }
  }

  lemma RemovedRow(tokens: Tokenizer, t: Tables, id: BookId)
    requires IsCatalogue(t)
    ensures IsCatalogue(Removed(tokens, t, id)) && Removed(tokens, t, id).books == t.books - {id}
  {
    if id in t.books {
      RowsRemovedMeaning(tokens, Unindexed(tokens, t, id), {id});
    }
  }

  /** Remove takes exactly the postings of its book out of an index that agrees. */
  lemma RemovedMeaning(tokens: Tokenizer, t: Tables, id: BookId)
    requires IsCatalogue(t) && Agrees(tokens, t)
    ensures var t' := Removed(tokens, t, id);
            && IsCatalogue(t') && Agrees(tokens, t')
            && t'.books.Keys == t.books.Keys - {id}
            && (id in t.books ==> PostingsAt(t', id) == {})
            && (forall other :: other != id ==> PostingsAt(t', other) == PostingsAt(t, other))
            && t'.postings == if id in t.books then t.postings - PostingsAt(t, id) else t.postings
  {
    if id in t.books {
      assert PostingsAt(t, id) == StoredPostings(tokens, t, id);
      var indexed := t.(postings := t.postings - StoredPostings(tokens, t, id));
      forall other | other != id ensures PostingsAt(indexed, other) == PostingsAt(t, other) {
      }
      forall other | other in t.books ensures StoredPostings(tokens, indexed, other) == StoredPostings(tokens, t, other) {
      }
      RowsRemovedMeaning(tokens, indexed, {id});
      assert PostingsAt(indexed, id) == {} by {
        forall p | p in t.postings && p.rowid == id ensures p !in indexed.postings {
          assert p in PostingsAt(t, id);
        }
      }
    }
  }

  /**
    * Removing a book takes exactly what inserting it had added, although the insert indexed the
    * names as they were given and the removal reads them back from the tables without duplicates.
    */
  lemma RemoveUndoesInsert(tokens: Tokenizer, t: Tables, b: Book)
    requires IsLawful(tokens) && IsCatalogue(t) && TargetId(t, b) !in t.books && PostingsAt(t, TargetId(t, b)) == {}
    ensures var id, t' := TargetId(t, b), Inserted(tokens, t, b);
            && t'.postings - Removed(tokens, t', id).postings == BookPostings(tokens, id, b.metadata)
            && Removed(tokens, t', id).postings == t.postings
            && Removed(tokens, t', id).books == t.books
  {
    var id, t' := TargetId(t, b), Inserted(tokens, t, b);
    InsertedMeaning(tokens, t, b);
    BookPostingsAreAt(tokens, id, b.metadata);
    RemovedRow(tokens, t', id);
    assert forall p :: p in t.postings ==> p !in PostingsAt(t, id);
    AddedAndTaken(t.postings, BookPostings(tokens, id, b.metadata));
  }

  lemma AddedAndTaken<T>(s: set<T>, added: set<T>)
    requires s !! added
    ensures s + added - added == s && (s + added) - s == added
  {
  }

  /** A rebuild that completes repairs the index, whatever state it was in. */
  lemma RebuiltAgrees(tokens: Tokenizer, t: Tables)
    requires IsCatalogue(t)
    ensures IsCatalogue(Rebuilt(tokens, t)) && Agrees(tokens, Rebuilt(tokens, t))
    ensures forall p :: p in Rebuilt(tokens, t).postings ==> p.rowid in t.books
  {
    var t' := Rebuilt(tokens, t);
    forall id | id in t.books
      ensures (forall p :: p in StoredPostings(tokens, t, id) ==> p.rowid == id)
      ensures StoredPostings(tokens, t', id) == StoredPostings(tokens, t, id)
    {
      SamePostings(tokens, t, t', id);
    }
    forall id | id in t.books ensures PostingsAt(t', id) == StoredPostings(tokens, t', id) {
      forall p | p in StoredPostings(tokens, t, id) ensures p in PostingsAt(t', id) {
      }
    }
  }

  // ---------------------------------------------------------------------------------------
  // Compaction that is interrupted: the rebuild is not one transaction
  // ---------------------------------------------------------------------------------------

  /** The old postings are gone and only the books in `done` have been indexed again. */
  function PartlyRebuilt(tokens: Tokenizer, t: Tables, done: set<BookId>): Tables {
    t.(postings := PostingsOfBooks(tokens, t, done))
  }

  function PostingsOfBooks(tokens: Tokenizer, t: Tables, ids: set<BookId>): set<Posting> {
    set id, p | id in ids && id in t.books && p in StoredPostings(tokens, t, id) :: p
  }

  /** An interrupted rebuild loses agreement unless every book it missed has nothing to index. */
  lemma InterruptedRebuildAgreesIff(tokens: Tokenizer, t: Tables, done: set<BookId>)
    requires IsCatalogue(t)
    ensures IsCatalogue(PartlyRebuilt(tokens, t, done))
    ensures Agrees(tokens, PartlyRebuilt(tokens, t, done))
       <==> forall id :: id in t.books && id !in done ==> StoredPostings(tokens, t, id) == {}
  {
    var t' := PartlyRebuilt(tokens, t, done);
    forall id | id in t.books
      ensures (forall p :: p in StoredPostings(tokens, t, id) ==> p.rowid == id)
      ensures StoredPostings(tokens, t', id) == StoredPostings(tokens, t, id)
    {
      SamePostings(tokens, t, t', id);
    }
    forall id | id in t.books
      ensures PostingsAt(t', id) == if id in done then StoredPostings(tokens, t, id) else {}
    {
      if id in done {
        forall p | p in StoredPostings(tokens, t, id) ensures p in PostingsAt(t', id) {
        }
      }
    }
  }

  /** A rebuild is safe wherever it may be interrupted exactly if no live book has anything to index. */
  lemma EveryInterruptionAgreesIff(tokens: Tokenizer, t: Tables)
    requires IsCatalogue(t)
    ensures (forall done :: Agrees(tokens, PartlyRebuilt(tokens, t, done)))
       <==> forall id :: id in t.books ==> StoredPostings(tokens, t, id) == {}
  {
    forall done | forall id :: id in t.books ==> StoredPostings(tokens, t, id) == {}
      ensures Agrees(tokens, PartlyRebuilt(tokens, t, done))
    {
      InterruptedRebuildAgreesIff(tokens, t, done);
    }
    InterruptedRebuildAgreesIff(tokens, t, {});
    assert (forall done :: Agrees(tokens, PartlyRebuilt(tokens, t, done))) ==> Agrees(tokens, PartlyRebuilt(tokens, t, {}));
  }

  // ---------------------------------------------------------------------------------------
  // Runs
  // ---------------------------------------------------------------------------------------

  /** The tables and the reserved ids that no imported book has used up yet. */
  datatype State = State(tables: Tables, handedOut: set<BookId>)

  datatype Operation =
    | Reserve(count: nat)
    | Add(entry: BatchEntry, faulted: bool)
    | AddBatch(entries: seq<BatchEntry>, faults: seq<bool>)
    | Remove(id: BookId)
    | RemoveBatch(ids: seq<BookId>)
    | Compact
    | InterruptedCompact(done: set<BookId>)

  /** Callers insert under reserved ids only. */
  ghost predicate IsLegal(s: State, op: Operation) {
    match op
    case Add(e, _) => e.book.id in s.handedOut
    case AddBatch(es, faults) => |es| == |faults| && forall i :: 0 <= i < |es| ==> es[i].book.id in s.handedOut
    case _ => true
  }

  function ImportedIds(results: seq<BatchResult>): set<BookId> {
    set i | 0 <= i < |results| && results[i].Imported? :: results[i].bookId
  }

  function FreshIds(t: Tables, count: nat): (ids: set<BookId>)
    ensures forall id :: id in ids <==> t.nextId <= id < t.nextId + count
  {
    if count == 0 then {} else FreshIds(t, count - 1) + {t.nextId + count - 1}
  }

  ghost function Step(tokens: Tokenizer, s: State, op: Operation): State
    requires IsLegal(s, op)
  {
    match op
    case Reserve(count) => State(Reserved(s.tables, count), s.handedOut + FreshIds(s.tables, count))
    case Add(e, faulted) =>
      var (t, r) := AddOne(tokens, s.tables, e, faulted);
      State(t, s.handedOut - ImportedIds([r]))
    case AddBatch(es, faults) =>
      var (t, rs) := AddAll(tokens, s.tables, es, faults);
      State(t, s.handedOut - ImportedIds(rs))
    case Remove(id) => s.(tables := Removed(tokens, s.tables, id))
    case RemoveBatch(ids) => s.(tables := RowsRemoved(s.tables, set i | 0 <= i < |ids| :: ids[i]))
    case Compact => s.(tables := Rebuilt(tokens, s.tables))
    case InterruptedCompact(done) => s.(tables := PartlyRebuilt(tokens, s.tables, done))
  }

  /** Every id in use is below the sequence, and reserved ids have neither a row nor a posting. */
  ghost predicate IsSound(s: State) {
    && IsCatalogue(s.tables)
    && 0 < s.tables.nextId
    && (forall id :: id in s.tables.books ==> id < s.tables.nextId)
    && (forall p :: p in s.tables.postings ==> p.rowid < s.tables.nextId)
    && (forall id :: id in s.handedOut ==>
          0 < id < s.tables.nextId && id !in s.tables.books && PostingsAt(s.tables, id) == {})
  }

  /** What adding entries to `s` may have led to: tables, and the reserved ids still unused. */
  ghost predicate IsGrowth(tokens: Tokenizer, s: State, t: Tables, used: set<BookId>) {
    && IsSound(State(t, s.handedOut - used))
    && (Agrees(tokens, s.tables) ==> Agrees(tokens, t))
    && (forall id :: id in s.tables.books ==> id in t.books)
    && (forall id :: id in t.books && id !in s.tables.books ==> id in s.handedOut)
    && (forall id :: id in used ==> id in t.books)
    && t.nextId == s.tables.nextId
  }

  /** Soundness looks at the tables only through these facts about an insert. */
  lemma SoundAfterInsert(s: State, t: Tables, id: BookId, added: set<Posting>)
    requires IsSound(s) && id in s.handedOut && IsCatalogue(t) && t.nextId == s.tables.nextId
    requires t.books.Keys == s.tables.books.Keys + {id}
    requires t.postings == s.tables.postings + added && forall p :: p in added ==> p.rowid == id
    ensures IsSound(State(t, s.handedOut - {id}))
  {
    forall other | other in s.handedOut && other != id ensures PostingsAt(t, other) == {} {
      forall p | p in t.postings ensures p.rowid != other {
        assert p in s.tables.postings ==> p !in PostingsAt(s.tables, other);
      }
    }
  }

  lemma InsertGrows(tokens: Tokenizer, s: State, b: Book)
    requires IsLawful(tokens) && IsSound(s) && b.id in s.handedOut
    ensures IsGrowth(tokens, s, Inserted(tokens, s.tables, b), {b.id})
  {
    var t := Inserted(tokens, s.tables, b);
    InsertedNames(tokens, s.tables, b);
    BookPostingsAreAt(tokens, b.id, b.metadata);
    SoundAfterInsert(s, t, b.id, BookPostings(tokens, b.id, b.metadata));
    if Agrees(tokens, s.tables) {
      InsertAgreesIff(tokens, s.tables, b);
    }
  }

  lemma AddOneIsSound(tokens: Tokenizer, s: State, e: BatchEntry, faulted: bool)
    requires IsLawful(tokens) && IsSound(s)
    requires e.book.id in s.handedOut || (e.book.id > 0 && e.book.id in s.tables.books)
    ensures var (t, r) := AddOne(tokens, s.tables, e, faulted);
            IsGrowth(tokens, s, t, ImportedIds([r]))
  {
    var (t, r) := AddOne(tokens, s.tables, e, faulted);
    if r.Imported? {
      assert [r][0] == r;
      assert ImportedIds([r]) == {e.book.id};
      InsertGrows(tokens, s, e.book);
    } else {
      assert ImportedIds([r]) == {};
      assert s.handedOut - {} == s.handedOut;
    }
  }

  lemma GrowthIsTransitive(tokens: Tokenizer, s: State, t: Tables, used: set<BookId>, t': Tables, more: set<BookId>)
    requires IsGrowth(tokens, s, t, used) && IsGrowth(tokens, State(t, s.handedOut - used), t', more)
    ensures IsGrowth(tokens, s, t', used + more)
  {
    assert s.handedOut - used - more == s.handedOut - (used + more);
  }

  lemma ImportedIdsStep(rs: seq<BatchResult>, r: BatchResult)
    ensures ImportedIds(rs + [r]) == ImportedIds(rs) + ImportedIds([r])
  {
    var all := rs + [r];
    forall x | x in ImportedIds(rs) + ImportedIds([r]) ensures x in ImportedIds(all) {
      if x in ImportedIds(rs) {
        var i :| 0 <= i < |rs| && rs[i].Imported? && rs[i].bookId == x;
        assert all[i] == rs[i];
      } else {
        assert all[|rs|] == [r][0];
      }
    }
  }

  lemma {:induction false} AddAllIsSound(tokens: Tokenizer, s: State, es: seq<BatchEntry>, faults: seq<bool>)
    requires IsLawful(tokens) && IsSound(s) && IsLegal(s, AddBatch(es, faults))
    ensures var (t, rs) := AddAll(tokens, s.tables, es, faults);
            IsGrowth(tokens, s, t, ImportedIds(rs))
  {
    if es == [] {
      assert ImportedIds([]) == {};
      assert s.handedOut - {} == s.handedOut;
    } else {
      var last := |es| - 1;
      var (t0, rs0) := AddAll(tokens, s.tables, es[..last], faults[..last]);
      AddAllIsSound(tokens, s, es[..last], faults[..last]);
      var (t1, r1) := AddOne(tokens, t0, es[last], faults[last]);
      AddOneIsSound(tokens, State(t0, s.handedOut - ImportedIds(rs0)), es[last], faults[last]);
      GrowthIsTransitive(tokens, s, t0, ImportedIds(rs0), t1, ImportedIds([r1]));
      ImportedIdsStep(rs0, r1);
    }
  }

  /** One operation keeps the catalogue sound; all but an interrupted rebuild keep agreement. */
  lemma StepIsSound(tokens: Tokenizer, s: State, op: Operation)
    requires IsLawful(tokens) && IsSound(s) && IsLegal(s, op)
    ensures IsSound(Step(tokens, s, op))
    ensures Agrees(tokens, s.tables) && !op.InterruptedCompact? ==> Agrees(tokens, Step(tokens, s, op).tables)
    ensures op.Compact? ==> Agrees(tokens, Step(tokens, s, op).tables)
  {
    match op
    case Reserve(count) => ReserveIsSound(tokens, s, count);
    case Add(e, faulted) => AddOneIsSound(tokens, s, e, faulted);
    case AddBatch(es, faults) => AddAllIsSound(tokens, s, es, faults);
    case Remove(id) => RemoveIsSound(tokens, s, id);
    case RemoveBatch(ids) =>
      var removed := set i | 0 <= i < |ids| :: ids[i];
      RowsRemovedMeaning(tokens, s.tables, removed);
      RowsRemovedPostings(s.tables, removed);
    case Compact =>
      RebuiltAgrees(tokens, s.tables);
    case InterruptedCompact(done) =>
      InterruptedRebuildAgreesIff(tokens, s.tables, done);
      PartialPostings(tokens, s.tables, done);
  }

  lemma ReserveIsSound(tokens: Tokenizer, s: State, count: nat)
    requires IsSound(s)
    ensures IsSound(Step(tokens, s, Reserve(count)))
    ensures Agrees(tokens, s.tables) ==> Agrees(tokens, Step(tokens, s, Reserve(count)).tables)
  {
    var t' := Reserved(s.tables, count);
    forall id | id in s.tables.books ensures StoredPostings(tokens, t', id) == StoredPostings(tokens, s.tables, id) {
      SamePostings(tokens, s.tables, t', id);
    }
    assert forall id :: PostingsAt(t', id) == PostingsAt(s.tables, id);
    forall id | id in FreshIds(s.tables, count) ensures PostingsAt(s.tables, id) == {} {
    }
  }

  lemma RemoveIsSound(tokens: Tokenizer, s: State, id: BookId)
    requires IsSound(s)
    ensures IsSound(Step(tokens, s, Remove(id)))
    ensures Agrees(tokens, s.tables) ==> Agrees(tokens, Step(tokens, s, Remove(id)).tables)
  {
    if id in s.tables.books {
      var indexed := s.tables.(postings := s.tables.postings - StoredPostings(tokens, s.tables, id));
      RowsRemovedMeaning(tokens, indexed, {id});
      assert IsCatalogue(Removed(tokens, s.tables, id));
      forall other | PostingsAt(s.tables, other) == {} ensures PostingsAt(Removed(tokens, s.tables, id), other) == {} {
        forall p | p in indexed.postings ensures p.rowid != other {
          assert p !in PostingsAt(s.tables, other);
        }
      }
      if Agrees(tokens, s.tables) {
        RemovedMeaning(tokens, s.tables, id);
      }
    }
  }

  lemma RowsRemovedPostings(t: Tables, ids: set<BookId>)
    ensures forall id :: PostingsAt(RowsRemoved(t, ids), id) == PostingsAt(t, id)
  {
  }

  lemma PartialPostings(tokens: Tokenizer, t: Tables, done: set<BookId>)
    ensures forall p :: p in PartlyRebuilt(tokens, t, done).postings ==> p.rowid in t.books
  {
  }

  ghost predicate IsLegalRun(tokens: Tokenizer, s: State, ops: seq<Operation>)
    decreases |ops|
  {
    ops == [] || (IsLegal(s, ops[0]) && IsLegalRun(tokens, Step(tokens, s, ops[0]), ops[1..]))
  }

  ghost function Run(tokens: Tokenizer, s: State, ops: seq<Operation>): State
    requires IsLegalRun(tokens, s, ops)
    decreases |ops|
  {
    if ops == [] then s else Run(tokens, Step(tokens, s, ops[0]), ops[1..])
  }

  /** Whether the index can be relied on after `ops`: no interrupted rebuild is still unrepaired. */
  function IsTrusted(ops: seq<Operation>, atStart: bool): bool {
    if ops == [] then atStart
    else IsTrusted(ops[1..], ops[0].Compact? || (atStart && !ops[0].InterruptedCompact?))
  }

  /**
    * Search-index agreement. After any run of operations on reserved ids, whatever failed in
    * between, the postings of live books are those of the tables, provided that the last
    * interrupted rebuild, if there was one, has been followed by a completed one.
    */
  lemma {:induction false} RunKeepsIndexAgreement(tokens: Tokenizer, s: State, ops: seq<Operation>, atStart: bool)
    requires IsLawful(tokens) && IsSound(s) && IsLegalRun(tokens, s, ops)
    requires atStart ==> Agrees(tokens, s.tables)
    ensures IsSound(Run(tokens, s, ops))
    ensures IsTrusted(ops, atStart) ==> Agrees(tokens, Run(tokens, s, ops).tables)
    decreases |ops|
  {
    if ops != [] {
      StepIsSound(tokens, s, ops[0]);
      RunKeepsIndexAgreement(tokens, Step(tokens, s, ops[0]), ops[1..],
                             ops[0].Compact? || (atStart && !ops[0].InterruptedCompact?));
    }
  }

  /** An id that was handed out and is neither live nor still reserved. */
  ghost predicate IsRetired(s: State, id: BookId) {
    0 < id < s.tables.nextId && id !in s.tables.books && id !in s.handedOut
  }

  lemma StepKeepsRetired(tokens: Tokenizer, s: State, op: Operation, id: BookId)
    requires IsLawful(tokens) && IsSound(s) && IsLegal(s, op) && IsRetired(s, id)
    ensures IsRetired(Step(tokens, s, op), id)
  {
    match op
    case Add(e, faulted) => AddOneIsSound(tokens, s, e, faulted);
    case AddBatch(es, faults) => AddAllIsSound(tokens, s, es, faults);
    case _ =>
  }

  /** Row ids whose postings were left behind never become live again. */
  lemma {:induction false} RunKeepsRetired(tokens: Tokenizer, s: State, ops: seq<Operation>, id: BookId)
    requires IsLawful(tokens) && IsSound(s) && IsLegalRun(tokens, s, ops) && IsRetired(s, id)
    ensures IsRetired(Run(tokens, s, ops), id)
    decreases |ops|
  {
    if ops != [] {
      StepIsSound(tokens, s, ops[0]);
      StepKeepsRetired(tokens, s, ops[0], id);
      RunKeepsRetired(tokens, Step(tokens, s, ops[0]), ops[1..], id);
    }
  }

  /** Postings of a row that is gone belong to retired ids, so they stay harmless. */
  lemma StalePostingsAreRetired(s: State, p: Posting)
    requires IsSound(s) && p in s.tables.postings && p.rowid > 0 && p.rowid !in s.tables.books
    ensures IsRetired(s, p.rowid)
  {
    assert p in PostingsAt(s.tables, p.rowid);
  }

  // ---------------------------------------------------------------------------------------
  // Books without a reserved id
  // ---------------------------------------------------------------------------------------

  const EMPTY_TABLES: Tables := Tables(map[], 1, Relation([], {}), Relation([], {}), Relation([], {}), {})

  const UNTITLED: Book := Book(0, Metadata([], [], None, None, [], [], []), [], [], None, [])

  function Titled(id: BookId, title: Text): Book {
    UNTITLED.(id := id, metadata := UNTITLED.metadata.(title := title))
  }

  /**
    * A book added without an id can get the row id of a book that a batch removed, and then the
    * stale postings of the removed book match it: agreement is lost.
    */
  lemma UnreservedIdRevivesPostings(tokens: Tokenizer, title: Text)
    requires IsLawful(tokens) && tokens(NormalizeText(title)) != {}
    ensures var before := Inserted(tokens, EMPTY_TABLES, Titled(1, title));
            var emptied := RowsRemoved(before, {1});
            && Agrees(tokens, emptied)
            && TargetId(emptied, UNTITLED) == 1
            && !Agrees(tokens, Inserted(tokens, emptied, UNTITLED))
  {
    var before := Inserted(tokens, EMPTY_TABLES, Titled(1, title));
    var emptied := RowsRemoved(before, {1});
    InsertedMeaning(tokens, EMPTY_TABLES, Titled(1, title));
    RowsRemovedMeaning(tokens, before, {1});
    RowsRemovedPostings(before, {1});
    var x :| x in tokens(NormalizeText(title));
    assert Posting(x, TitleColumn, 1) in PostingsAt(before, 1);
    assert NormalizeText([]) == [];
    assert Posting(x, TitleColumn, 1) !in BookPostings(tokens, 1, UNTITLED.metadata);
    InsertAgreesIff(tokens, emptied, UNTITLED);
  }

  /** A new library is where runs start. */
  lemma EmptyLibraryIsSound(tokens: Tokenizer)
    ensures IsSound(State(EMPTY_TABLES, {})) && Agrees(tokens, EMPTY_TABLES)
  {
  }

  /** From a new library on, every trusted run on reserved ids keeps the index in agreement. */
  lemma NewLibraryKeepsIndexAgreement(tokens: Tokenizer, ops: seq<Operation>)
    requires IsLawful(tokens) && IsLegalRun(tokens, State(EMPTY_TABLES, {}), ops)
    ensures IsSound(Run(tokens, State(EMPTY_TABLES, {}), ops))
    ensures IsTrusted(ops, true) ==> Agrees(tokens, Run(tokens, State(EMPTY_TABLES, {}), ops).tables)
  {
    EmptyLibraryIsSound(tokens);
    RunKeepsIndexAgreement(tokens, State(EMPTY_TABLES, {}), ops, true);
  }

  /** One book with a title is enough for an interrupted rebuild to lose agreement. */
  lemma InterruptedRebuildForgetsBook(tokens: Tokenizer, title: Text)
    requires IsLawful(tokens) && tokens(NormalizeText(title)) != {}
    ensures var t := Inserted(tokens, EMPTY_TABLES, Titled(1, title));
            IsCatalogue(t) && Agrees(tokens, t) && t.books.Keys == {1} && !Agrees(tokens, PartlyRebuilt(tokens, t, {}))
  {
    var t := Inserted(tokens, EMPTY_TABLES, Titled(1, title));
    InsertedMeaning(tokens, EMPTY_TABLES, Titled(1, title));
    var x :| x in tokens(NormalizeText(title));
    assert Posting(x, TitleColumn, 1) in BookPostings(tokens, 1, Titled(1, title).metadata);
    InterruptedRebuildAgreesIff(tokens, t, {});
  }

  // ---------------------------------------------------------------------------------------
  // Content hashes
  // ---------------------------------------------------------------------------------------

  ghost predicate HashesAreUnique(t: Tables) {
    forall a, b :: a in t.books && b in t.books && a != b && t.books[a].sha256 != [] ==>
      t.books[a].sha256 != t.books[b].sha256
  }

  lemma AddOneKeepsHashesUnique(tokens: Tokenizer, t: Tables, e: BatchEntry, faulted: bool)
    requires HashesAreUnique(t) && !e.forceAdd
    ensures HashesAreUnique(AddOne(tokens, t, e, faulted).0)
  {
    assert e.book.sha256 != [] && !IsDuplicate(t, e) ==>
        forall id :: id in t.books ==> t.books[id].sha256 != e.book.sha256 by {
      if e.book.sha256 != [] && !IsDuplicate(t, e) {
        forall id | id in t.books ensures t.books[id].sha256 != e.book.sha256 {
          assert id !in HashMatches(t, e.book.sha256);
        }
      }
    }
  }

  /** Without forced adds no two books ever share a hash, not even two entries of one batch. */
  lemma {:induction false} AddAllKeepsHashesUnique(tokens: Tokenizer, t: Tables, es: seq<BatchEntry>, faults: seq<bool>)
    requires HashesAreUnique(t) && |es| == |faults|
    requires forall i :: 0 <= i < |es| ==> !es[i].forceAdd
    ensures HashesAreUnique(AddAll(tokens, t, es, faults).0)
  {
    if es != [] {
      var last := |es| - 1;
      AddAllKeepsHashesUnique(tokens, t, es[..last], faults[..last]);
      AddOneKeepsHashesUnique(tokens, AddAll(tokens, t, es[..last], faults[..last]).0, es[last], faults[last]);
    }
  }

  /**
    * What each answer means. An import has added one row, which shows the book column by column; a
    * rejection names an older book with the hash; a failure has its fault or a taken id.
    */
  lemma AnswerMeaning(tokens: Tokenizer, t: Tables, e: BatchEntry, faulted: bool)
    ensures var (t', r) := AddOne(tokens, t, e, faulted);
            && (r.Imported? <==> t' != t)
            && (r.Imported? ==> IsWithRow(t.books, t'.books, r.bookId) && ShowsBook(t'.books[r.bookId], e.book)
                                && (e.book.id > 0 ==> r.bookId == e.book.id))
            && (r.RejectedDuplicate? ==> !e.forceAdd && e.book.sha256 != [] && r.conflictingBookId in t.books
                                         && t.books[r.conflictingBookId].sha256 == e.book.sha256)
            && (r.Failed? ==> faulted || (e.book.id > 0 && e.book.id in t.books))
            && (!faulted && !e.forceAdd && HasHash(t, e.book.sha256) ==> r.RejectedDuplicate?)
  {
    if !faulted && !IsDuplicate(t, e) && TargetId(t, e.book) !in t.books {
      NewRow(t.books, TargetId(t, e.book), RowOf(e.book));
    }
    HasHashIff(t, e.book.sha256);
  }

  /** Some book has this content hash, and it is not the empty one. */
  predicate HasHash(t: Tables, sha256: Text) {
    sha256 != [] && exists id :: id in t.books && t.books[id].sha256 == sha256
  }

  lemma HasHashIff(t: Tables, sha256: Text)
    ensures HasHash(t, sha256) <==> sha256 != [] && HashMatches(t, sha256) != {}
  {
    if HasHash(t, sha256) {
      var id :| id in t.books && t.books[id].sha256 == sha256;
      assert id in HashMatches(t, sha256);
    }
    if HashMatches(t, sha256) != {} {
      var id := Any(HashMatches(t, sha256));
      assert id in t.books && t.books[id].sha256 == sha256;
    }
  }

  lemma AddOneKeepsHashes(tokens: Tokenizer, t: Tables, e: BatchEntry, faulted: bool, sha256: Text)
    requires HasHash(t, sha256)
    ensures HasHash(AddOne(tokens, t, e, faulted).0, sha256)
  {
    AnswerMeaning(tokens, t, e, faulted);
    var id :| id in t.books && t.books[id].sha256 == sha256;
    var t' := AddOne(tokens, t, e, faulted).0;
    assert id in t'.books && t'.books[id] == t.books[id];
  }

  /** Once an entry has been imported, its hash is in the catalogue after every longer batch. */
  lemma {:induction false} ImportedHashStays(tokens: Tokenizer, t: Tables, es: seq<BatchEntry>, faults: seq<bool>, i: nat)
    requires |es| == |faults| && i < |es| && es[i].book.sha256 != []
    requires AddAll(tokens, t, es, faults).1[i].Imported?
    ensures HasHash(AddAll(tokens, t, es, faults).0, es[i].book.sha256)
    decreases |es|
  {
    var last := |es| - 1;
    var before := AddAll(tokens, t, es[..last], faults[..last]);
    if i == last {
      AnswerMeaning(tokens, before.0, es[last], faults[last]);
      var t', id := AddAll(tokens, t, es, faults).0, AddAll(tokens, t, es, faults).1[i].bookId;
      assert id in t'.books && t'.books[id].sha256 == es[i].book.sha256;
    } else {
      ImportedHashStays(tokens, t, es[..last], faults[..last], i);
      AddOneKeepsHashes(tokens, before.0, es[last], faults[last], es[i].book.sha256);
    }
  }

  /** Of the entries of a batch with one hash, none is imported after another unless it is forced. */
  lemma {:induction false} SameHashIsImportedOnce(tokens: Tokenizer, t: Tables, es: seq<BatchEntry>, faults: seq<bool>, i: nat, j: nat)
    requires |es| == |faults| && i < j < |es| && !es[j].forceAdd
    requires es[i].book.sha256 == es[j].book.sha256 != []
    ensures var rs := AddAll(tokens, t, es, faults).1;
            rs[i].Imported? ==> if faults[j] then rs[j].Failed? else rs[j].RejectedDuplicate?
    decreases |es|
  {
    var last := |es| - 1;
    var before := AddAll(tokens, t, es[..last], faults[..last]);
    assert AddAll(tokens, t, es, faults).1 == before.1 + [AddOne(tokens, before.0, es[last], faults[last]).1];
    if j < last {
      SameHashIsImportedOnce(tokens, t, es[..last], faults[..last], i, j);
    } else if before.1[i].Imported? {
      ImportedHashStays(tokens, t, es[..last], faults[..last], i);
      AnswerMeaning(tokens, before.0, es[last], faults[last]);
    }
  }

  lemma {:induction false} RunKeepsHashesUnique(tokens: Tokenizer, s: State, ops: seq<Operation>)
    requires IsLegalRun(tokens, s, ops) && HashesAreUnique(s.tables)
    requires forall i :: 0 <= i < |ops| ==> AddsUnforced(ops[i])
    ensures HashesAreUnique(Run(tokens, s, ops).tables)
    decreases |ops|
  {
    if ops != [] {
      assert AddsUnforced(ops[0]);
      match ops[0] {
        case Add(e, faulted) => AddOneKeepsHashesUnique(tokens, s.tables, e, faulted);
        case AddBatch(es, faults) => AddAllKeepsHashesUnique(tokens, s.tables, es, faults);
        case _ =>
      }
      RunKeepsHashesUnique(tokens, Step(tokens, s, ops[0]), ops[1..]);
    }
  }

  ghost predicate AddsUnforced(op: Operation) {
    match op
    case Add(e, _) => !e.forceAdd
    case AddBatch(es, _) => forall i :: 0 <= i < |es| ==> !es[i].forceAdd
    case _ => true
  }
}
