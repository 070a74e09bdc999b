/**
  * The SQLite book repository: statements that may fail, a stack of savepoints, and the
  * methods that use them. Every method is proved against the functions of CatalogueRuns.
  */
module BookDatabase {
  import opened Catalogue
  import opened CatalogueRuns
  import opened MetadataNormalization
  import opened Wrappers

  datatype Kind = AuthorNames | TagNames | GenreNames

  function RelationOf(t: Tables, k: Kind): Relation {
    match k
    case AuthorNames => t.authors
    case TagNames => t.tags
    case GenreNames => t.genres
  }

  function WithRelation(t: Tables, k: Kind, r: Relation): Tables {
    match k
    case AuthorNames => t.(authors := r)
    case TagNames => t.(tags := r)
    case GenreNames => t.(genres := r)
  }

  function NamesOf(m: Metadata, k: Kind): seq<Text> {
    match k
    case AuthorNames => m.authors
    case TagNames => m.tags
    case GenreNames => m.genres
  }

  lemma OneNameMore(r: Relation, book: BookId, names: seq<Text>, i: nat)
    requires i < |names|
    ensures var before, n := Linked(r, book, names[..i]), NormalizeText(names[i]);
            && Linked(r, book, names[..i + 1]) == (if n == [] || n in NormalSet(names[..i]) then before else LinkName(before, book, names[i]))
            && NormalSet(names[..i + 1]) == NormalSet(names[..i]) + (if n == [] then {} else {n})
  {
    var more := names[..i + 1];
    assert more[..i] == names[..i] && more[i] == names[i];
    NormalSetStep(more);
  }

  method JoinNormalizedText(values: seq<Text>) returns (joined: Text)
    ensures joined == JoinNormalized(values)
  {
    joined := [];
    for i := 0 to |values|
      invariant joined == JoinNormalized(values[..i])
    {
      assert values[..i + 1][..i] == values[..i];
      var normalized := Normalize(values[i]);
      if normalized == [] {
        continue;
      }
      if joined != [] {
        joined := joined + [SPACE];
      }
      joined := joined + normalized;
    }
    assert values[..|values|] == values;
  }

  class Database {
    const tokens: Tokenizer
    /** Decides for every statement, by its number in the life of the connection, whether it fails. */
    const fails: nat -> bool

    var clock: nat
    var tables: Tables
    /** What BEGIN and each SAVEPOINT would restore, outermost first. */
    var saved: seq<Tables>

    constructor (tokens: Tokenizer, fails: nat -> bool, tables: Tables)
      ensures this.tokens == tokens && this.fails == fails
      ensures this.tables == tables && saved == [] && clock == 0
    {
      this.tokens := tokens;
      this.fails := fails;
      this.tables := tables;
      clock := 0;
      saved := [];
    }

    /** One of the statements with these numbers failed. */
    ghost predicate FailsBetween(from: nat, to: nat) {
      exists n :: from <= n < to && fails(n)
    }

    /** Each faulty entry had a statement of its own that failed, between its mark and the next. */
    ghost predicate FaultsAreOwn(faults: seq<bool>, marks: seq<nat>, from: nat, to: nat) {
      && |marks| == |faults| + 1 && from <= marks[0] && marks[|faults|] <= to
      && (forall i :: 0 <= i < |faults| ==> marks[i] <= marks[i + 1])
      && (forall i :: 0 <= i < |faults| && faults[i] ==> FailsBetween(marks[i], marks[i + 1]))
    }

    lemma OneMoreMark(faults: seq<bool>, marks: seq<nat>, from: nat, faulted: bool, to: nat)
      requires |marks| == |faults| + 1 && FaultsAreOwn(faults, marks, from, marks[|faults|])
      requires marks[|faults|] <= to && (faulted ==> FailsBetween(marks[|faults|], to))
      ensures FaultsAreOwn(faults + [faulted], marks + [to], from, to)
    {
    }

    /** Runs one statement as far as the failure oracle is concerned. */
    method Execute() returns (ok: bool)
      modifies this`clock
      ensures ok <==> !fails(old(clock))
      ensures clock == old(clock) + 1
      ensures !ok ==> FailsBetween(old(clock), clock)
    {
      ok := !fails(clock);
      clock := clock + 1;
    }

    /** BEGIN IMMEDIATE or SAVEPOINT. */
    method Save() returns (ok: bool)
      modifies this`clock, this`saved
      ensures saved == if ok then old(saved) + [tables] else old(saved)
      ensures clock == old(clock) + 1 && (ok <==> !fails(old(clock))) && (!ok ==> FailsBetween(old(clock), clock))
    {
      ok := Execute();
      if ok {
        saved := saved + [tables];
      }
    }

    /** RELEASE, or COMMIT when it names the only entry. */
    method Release() returns (ok: bool)
      requires saved != []
      modifies this`clock, this`saved
      ensures saved == if ok then old(saved)[..|old(saved)| - 1] else old(saved)
      ensures clock == old(clock) + 1 && (ok <==> !fails(old(clock))) && (!ok ==> FailsBetween(old(clock), clock))
    {
      ok := Execute();
      if ok {
        saved := saved[..|saved| - 1];
      }
    }

    /** ROLLBACK TO the innermost savepoint, which stays open. */
    method RollbackTo() returns (ok: bool)
      requires saved != []
      modifies this`clock, this`tables
      ensures tables == if ok then saved[|saved| - 1] else old(tables)
      ensures clock == old(clock) + 1 && (ok <==> !fails(old(clock))) && (!ok ==> FailsBetween(old(clock), clock))
    {
      ok := Execute();
      if ok {
        tables := saved[|saved| - 1];
      }
    }

    /** The destructor of an uncommitted transaction. */
    method Abandon()
      requires saved != []
      modifies this`saved, this`tables
      ensures saved == [] && tables == old(saved)[0]
    {
      tables := saved[0];
      saved := [];
    }

    /** ResolveEntityId and the link to the entity it finds. */
    method InsertName(bookId: BookId, name: Text, normalized: Text, k: Kind) returns (ok: bool)
      requires normalized == NormalizeText(name)
      modifies this`clock, this`tables
      ensures ok ==> tables == WithRelation(old(tables), k, LinkName(RelationOf(old(tables), k), bookId, name))
      ensures old(clock) <= clock && (!ok ==> FailsBetween(old(clock), clock))
    {
      var before := RelationOf(tables, k);
      ok := Execute();
      if !ok {
        return;
      }
      var entities := Resolved(before.entities, normalized, name);
      tables := WithRelation(tables, k, Relation(entities, before.links));
      ok := Execute();
      if !ok {
        return;
      }
      var entity := FindEntity(entities, normalized);
      ok := Execute();
      if !ok {
        return;
      }
      tables := WithRelation(tables, k, Relation(entities, before.links + {(bookId, entity.value)}));
    }

    /** InsertAuthors, InsertTags or InsertGenres; a failure leaves a prefix of the names linked. */
    method InsertNames(bookId: BookId, names: seq<Text>, k: Kind) returns (ok: bool)
      modifies this`clock, this`tables
      ensures ok ==> tables == WithRelation(old(tables), k, Linked(RelationOf(old(tables), k), bookId, names))
      ensures old(clock) <= clock && (!ok ==> FailsBetween(old(clock), clock))
    {
      var inserted: set<Text> := {};
      ghost var start := RelationOf(tables, k);
      for i := 0 to |names|
        invariant old(clock) <= clock
        invariant inserted == NormalSet(names[..i])
        invariant tables == WithRelation(old(tables), k, Linked(start, bookId, names[..i]))
      {
        OneNameMore(start, bookId, names, i);
        var normalized := Normalize(names[i]);
        if normalized == [] || normalized in inserted {
          continue;
        }
        inserted := inserted + {normalized};
        ok := InsertName(bookId, names[i], normalized, k);
        if !ok {
          return false;
        }
      }
      assert names[..|names|] == names;
      return true;
    }

    /** The insert into the contentless index. */
    method InsertIntoIndex(bookId: BookId, m: Metadata) returns (ok: bool)
      modifies this`clock, this`tables
      ensures tables == if ok then old(tables).(postings := old(tables).postings + BookPostings(tokens, bookId, m)) else old(tables)
      ensures clock == old(clock) + 1 && (ok <==> !fails(old(clock))) && (!ok ==> FailsBetween(old(clock), clock))
    {
      var title := Normalize(m.title);
      var authors := JoinNormalizedText(m.authors);
      var tags := JoinNormalizedText(m.tags);
      var genres := JoinNormalizedText(m.genres);
      var description := [];
      if m.description.Some? {
        description := Normalize(m.description.value);
      }
      ok := Execute();
      if ok {
        tables := tables.(postings := tables.postings
            + (InColumn(tokens(title), TitleColumn, bookId)
               + InColumn(tokens(authors), AuthorsColumn, bookId)
               + InColumn(tokens(tags), TagsColumn, bookId)
               + InColumn(tokens(genres), GenresColumn, bookId)
               + InColumn(tokens(description), DescriptionColumn, bookId)));
      }
    }

    /** DoAddBook. A failure, including a taken row id, leaves the tables half written. */
    method DoAddBook(book: Book) returns (bookId: Option<BookId>)
      modifies this`clock, this`tables
      ensures TargetId(old(tables), book) in old(tables).books ==> bookId.None?
      ensures bookId.Some? ==> bookId.value == TargetId(old(tables), book) && tables == Inserted(tokens, old(tables), book)
      ensures old(clock) <= clock
      ensures bookId.None? ==> TargetId(old(tables), book) in old(tables).books || FailsBetween(old(clock), clock)
    {
      var id := TargetId(tables, book);
      var ok := Execute();
      if !ok || id in tables.books {
        return None;
      }
      tables := tables.(books := tables.books[id := RowOf(book)]);
      ok := InsertNames(id, book.metadata.authors, AuthorNames);
      if !ok {
        return None;
      }
      ok := InsertNames(id, book.metadata.tags, TagNames);
      if !ok {
        return None;
      }
      ok := InsertNames(id, book.metadata.genres, GenreNames);
      if !ok {
        return None;
      }
      ok := InsertIntoIndex(id, book.metadata);
      if !ok {
        return None;
      }
      return Some(id);
    }

    /**
      * Add (or ForceAdd) in a transaction of its own. `faulted` reports whether a statement
      * failed, that is, whether the call threw something other than the duplicate exception
      * or the primary-key violation.
      */
    method AddBook(e: BatchEntry) returns (r: BatchResult, ghost faulted: bool)
      requires saved == []
      modifies this`clock, this`tables, this`saved
      ensures saved == []
      ensures (tables, r) == AddOne(tokens, old(tables), e, faulted)
      ensures old(clock) <= clock && (faulted ==> FailsBetween(old(clock), clock))
    {
      var begun := Save();
      if !begun {
        return Failed, true;
      }
      if !e.forceAdd && e.book.sha256 != [] {
        var ok := Execute();
        if !ok {
          Abandon();
          return Failed, true;
        }
        var matches := HashMatches(tables, e.book.sha256);
        if matches != {} {
          Abandon();
          return RejectedDuplicate(Smallest(matches)), false;
        }
      }
      faulted := TargetId(tables, e.book) !in tables.books;
      var bookId := DoAddBook(e.book);
      if bookId.None? {
        Abandon();
        return Failed, faulted;
      }
      var committed := Release();
      if !committed {
        Abandon();
        return Failed, true;
      }
      return Imported(bookId.value), false;
    }

    /** The default AddBatch of the repository interface: one transaction per entry. */
    method AddBatchSequentially(es: seq<BatchEntry>) returns (results: seq<BatchResult>, ghost faults: seq<bool>, ghost marks: seq<nat>)
      requires saved == []
      modifies this`clock, this`tables, this`saved
      ensures saved == [] && |faults| == |es|
      ensures (tables, results) == AddAll(tokens, old(tables), es, faults)
      ensures FaultsAreOwn(faults, marks, old(clock), clock)
    {
      results, faults, marks := [], [], [clock];
      for i := 0 to |es|
        invariant saved == [] && |faults| == i && old(clock) <= clock
        invariant FaultsAreOwn(faults, marks, old(clock), clock) && marks[i] == clock
        invariant (tables, results) == AddAll(tokens, old(tables), es[..i], faults)
      {
        var r, faulted := AddBook(es[i]);
        AddAllStep(tokens, old(tables), es, i, faults, faulted);
        OneMoreMark(faults, marks, old(clock), faulted, clock);
        results, faults, marks := results + [r], faults + [faulted], marks + [clock];
      }
      assert es[..|es|] == es;
    }

    /** One entry of the batch, between its savepoint and the release; None if it throws. */
    method AddUnderSavepoint(e: BatchEntry) returns (r: Option<BatchResult>, ghost faulted: bool)
      requires |saved| == 1
      modifies this`clock, this`tables, this`saved
      ensures saved != [] && saved[0] == old(saved)[0]
      ensures r.Some? ==> saved == old(saved) && (tables, r.value) == AddOne(tokens, old(tables), e, faulted)
      ensures old(clock) <= clock && (faulted || r.None? ==> FailsBetween(old(clock), clock))
    {
      faulted := true;
      var isOpen := Save();
      if !isOpen {
        // Rolling back to a savepoint that was never set fails as well, and that escapes.
        return None, true;
      }
      var outcome := Failed;
      label attempt: {
        if !e.forceAdd && e.book.sha256 != [] {
          var ok := Execute();
          if !ok {
            break attempt;
          }
          var matches := HashMatches(tables, e.book.sha256);
          if matches != {} {
            faulted := false;
            outcome := RejectedDuplicate(Smallest(matches));
            break attempt;
          }
        }
        faulted := TargetId(tables, e.book) !in tables.books;
        var bookId := DoAddBook(e.book);
        if bookId.None? {
          break attempt;
        }
        faulted := true;
        var released := Release();
        if released {
          return Some(Imported(bookId.value)), false;
        }
      }
      var undone := RollbackTo();
      if !undone {
        return None, faulted;
      }
      var released := Release();
      if !released {
        return None, faulted;
      }
      return Some(outcome), faulted;
    }

    /**
      * AddBatch with one savepoint per entry inside one transaction. When it returns, tables and
      * answers are those of adding the entries one by one; when it throws, nothing has changed.
      */
    method AddBatch(es: seq<BatchEntry>) returns (results: Option<seq<BatchResult>>, ghost faults: seq<bool>, ghost marks: seq<nat>)
      requires saved == []
      modifies this`clock, this`tables, this`saved
      ensures saved == []
      ensures results.Some? ==> |faults| == |es| && (tables, results.value) == AddAll(tokens, old(tables), es, faults)
      ensures results.None? ==> tables == old(tables)
      ensures FaultsAreOwn(faults, marks, old(clock), clock)
      ensures results.None? ==> FailsBetween(old(clock), clock)
    {
      faults, marks := [], [clock];
      if es == [] {
        return Some([]), [], marks;
      }
      var begun := Save();
      if !begun {
        return None, [], marks;
      }
      marks := [clock];
      var collected: seq<BatchResult> := [];
      for i := 0 to |es|
        invariant saved == [old(tables)] && |faults| == i && old(clock) <= clock
        invariant FaultsAreOwn(faults, marks, old(clock), clock) && marks[i] == clock
        invariant (tables, collected) == AddAll(tokens, old(tables), es[..i], faults)
      {
        var r, faulted := AddUnderSavepoint(es[i]);
        if r.None? {
          Abandon();
          return None, faults, marks;
        }
        AddAllStep(tokens, old(tables), es, i, faults, faulted);
        OneMoreMark(faults, marks, old(clock), faulted, clock);
        collected, faults, marks := collected + [r.value], faults + [faulted], marks + [clock];
      }
      assert es[..|es|] == es;
      var committed := Release();
      if !committed {
        Abandon();
        return None, faults, marks;
      }
      return Some(collected), faults, marks;
    }

    /** ReserveIds: the ids are handed out even if they are never used. */
    method ReserveIds(count: nat) returns (ids: Option<seq<BookId>>)
      requires saved == []
      modifies this`clock, this`tables, this`saved
      ensures saved == []
      ensures ids.Some? ==> tables == Reserved(old(tables), count) && |ids.value| == count
                            && forall i :: 0 <= i < count ==> ids.value[i] == old(tables).nextId + i
      ensures ids.None? ==> tables == old(tables) && FailsBetween(old(clock), clock)
      ensures old(clock) <= clock
    {
      if count == 0 {
        return Some([]);
      }
      var begun := Save();
      if !begun {
        return None;
      }
      var read := Execute();
      if !read {
        Abandon();
        return None;
      }
      var nextId := tables.nextId;
      var written := Execute();
      if !written {
        Abandon();
        return None;
      }
      tables := tables.(nextId := nextId + count);
      var committed := Release();
      if !committed {
        Abandon();
        return None;
      }
      return Some(seq(count, i => nextId + i));
    }

    /** The display names linked to a book, each once; their order is left open. */
    method ReadRelatedEntityNames(k: Kind, id: BookId) returns (names: seq<Text>)
      requires IsCatalogue(tables)
      ensures NormalSet(names) == StoredNames(RelationOf(tables, k), id)
    {
      var r := RelationOf(tables, k);
      var remaining := set l | l in r.links && l.0 == id;
      ghost var read: set<(BookId, nat)> := {};
      names := [];
      assert NormalSet([]) == {};
      while remaining != {}
        invariant remaining !! read && remaining + read == set l | l in r.links && l.0 == id
        invariant NormalSet(names) == set l | l in read && l.1 < |r.entities| :: r.entities[l.1].normalized
        decreases remaining
      {
        var l :| l in remaining;
        assert l.1 < |r.entities| && IsEntity(r.entities[l.1]);
        NormalSetStep(names + [r.entities[l.1].display]);
        assert (names + [r.entities[l.1].display])[..|names|] == names;
        names := names + [r.entities[l.1].display];
        remaining, read := remaining - {l}, read + {l};
      }
      assert read == set l | l in r.links && l.0 == id;
    }

    /** ReadStoredMetadata together with the postings that index maintenance derives from it. */
    method StoredMetadataPostings(id: BookId) returns (postings: set<Posting>)
      requires IsCatalogue(tables) && id in tables.books
      ensures IsLawful(tokens) ==> postings == StoredPostings(tokens, tables, id)
    {
      var row := tables.books[id];
      var authors := ReadRelatedEntityNames(AuthorNames, id);
      var tags := ReadRelatedEntityNames(TagNames, id);
      var genres := ReadRelatedEntityNames(GenreNames, id);
      postings := MetadataPostings(tokens, id, row.title, row.description, authors, tags, genres);
      if IsLawful(tokens) {
        TermsOfJoined(tokens, authors);
        TermsOfJoined(tokens, tags);
        TermsOfJoined(tokens, genres);
      }
    }

    /** The delete from the contentless index, of what the tables say was inserted. */
    method RemoveFromIndex(id: BookId) returns (ok: bool)
      requires IsCatalogue(tables) && IsLawful(tokens) && id in tables.books
      modifies this`clock, this`tables
      ensures tables == if ok then Unindexed(tokens, old(tables), id) else old(tables)
      ensures clock == old(clock) + 1 && (!ok ==> FailsBetween(old(clock), clock))
    {
      var postings := StoredMetadataPostings(id);
      ok := Execute();
      if ok {
        tables := tables.(postings := tables.postings - postings);
      }
    }

    /** Remove: either the book and its postings are gone, or nothing has changed. */
    method Remove(id: BookId) returns (ok: bool)
      requires saved == [] && IsCatalogue(tables) && IsLawful(tokens)
      modifies this`clock, this`tables, this`saved
      ensures saved == []
      ensures old(clock) <= clock
      ensures ok ==> tables == Removed(tokens, old(tables), id) && !fails(old(clock))
      ensures !ok ==> tables == old(tables) && FailsBetween(old(clock), clock)
    {
      ok := Save();
      if !ok {
        return;
      }
      ok := Execute();
      if !ok {
        Abandon();
        return;
      }
      if id in tables.books {
        ok := RemoveFromIndex(id);
        if !ok {
          Abandon();
          return;
        }
      }
      ok := Execute();
      if !ok {
        Abandon();
        return;
      }
      if id in tables.books {
        tables := RowsRemoved(tables, {id});
      }
      ok := Release();
      if !ok {
        Abandon();
      }
    }

    /** RemoveBatch: the rows go in one transaction and the index is left for a later rebuild. */
    method RemoveBatch(ids: seq<BookId>) returns (ok: bool)
      requires saved == [] && IsCatalogue(tables)
      modifies this`clock, this`tables, this`saved
      ensures saved == []
      ensures old(clock) <= clock
      ensures ok ==> tables == RowsRemoved(old(tables), set i | 0 <= i < |ids| :: ids[i])
      ensures !ok ==> tables == old(tables) && FailsBetween(old(clock), clock)
    {
      if ids == [] {
        RemovingNothing(tables);
        return true;
      }
      ok := Save();
      if !ok {
        return;
      }
      RemovingNothing(tables);
      for i := 0 to |ids|
        invariant saved == [old(tables)] && old(clock) <= clock
        invariant tables == RowsRemoved(old(tables), FirstIds(ids, i))
      {
        ok := Execute();
        if !ok {
          Abandon();
          return;
        }
        RemovingOneMore(old(tables), FirstIds(ids, i), ids[i]);
        tables := RowsRemoved(tables, {ids[i]});
      }
      FirstIdsMeaning(ids, |ids|);
      ok := Release();
      if !ok {
        Abandon();
      }
    }

    /** ReadAllBooksForRebuild: every book with the postings its stored metadata has. */
    method ReadAllBooksForRebuild() returns (ids: seq<BookId>, postings: seq<set<Posting>>)
      requires IsCatalogue(tables) && IsLawful(tokens)
      ensures AreStored(tokens, tables, ids, postings) && FirstIds(ids, |ids|) == tables.books.Keys
    {
      var remaining := tables.books.Keys;
      ids, postings := [], [];
      while remaining != {}
        invariant AreStored(tokens, tables, ids, postings)
        invariant remaining + FirstIds(ids, |ids|) == tables.books.Keys
        decreases remaining
      {
        var id := Smallest(remaining);
        var derived := StoredMetadataPostings(id);
        FirstIdsOfAppended(ids, id);
        OneMoreStored(tokens, tables, ids, postings, id);
        ids, postings := ids + [id], postings + [derived];
        remaining := remaining - {id};
      }
    }

    /**
      * RebuildAll runs outside any transaction, so a statement that fails on the way leaves an
      * index that covers only some of the books.
      */
    method RebuildAll() returns (ok: bool)
      requires IsCatalogue(tables) && IsLawful(tokens)
      modifies this`clock, this`tables
      ensures old(clock) <= clock
      ensures ok ==> tables == Rebuilt(tokens, old(tables))
      ensures !ok ==> FailsBetween(old(clock), clock)
                      && (tables == old(tables) || exists done :: tables == PartlyRebuilt(tokens, old(tables), done))
      ensures FailsAtFirstBook(old(clock), old(tables)) ==> !ok && tables == PartlyRebuilt(tokens, old(tables), {})
    {
      ok := Execute();
      if !ok {
        return;
      }
      var ids, postings := ReadAllBooksForRebuild();
      ok := Execute();
      if !ok {
        return;
      }
      ghost var start := tables;
      tables := tables.(postings := {});
      ghost var count;
      ok, count := IndexAll(postings);
      IndexedSoFar(tokens, start, ids, postings, count);
      RebuiltIsComplete(tokens, start);
    }

    /** Indexes the books that were read before the index was cleared. */
    method IndexAll(postings: seq<set<Posting>>) returns (ok: bool, ghost count: nat)
      modifies this`clock, this`tables
      ensures old(clock) <= clock && (!ok ==> FailsBetween(old(clock), clock))
      ensures count <= |postings| && (ok ==> count == |postings|)
      ensures tables == old(tables).(postings := old(tables).postings + FirstPostings(postings, count))
      ensures postings != [] && fails(old(clock)) ==> !ok && count == 0
    {
      count := 0;
      for i := 0 to |postings|
        invariant old(clock) <= clock && count == i && (i > 0 ==> !fails(old(clock))) && (i == 0 ==> clock == old(clock))
        invariant tables == old(tables).(postings := old(tables).postings + FirstPostings(postings, i))
      {
        ok := Execute();
        if !ok {
          return;
        }
        tables := tables.(postings := tables.postings + postings[i]);
        count := count + 1;
      }
      ok := true;
    }

    /** Reading the books and clearing the index work, and indexing the first book fails. */
    predicate FailsAtFirstBook(from: nat, t: Tables) {
      t.books != map[] && !fails(from) && !fails(from + 1) && fails(from + 2)
    }

    /** Compact: the rebuild, then VACUUM, which does not touch what the tables hold. */
    method Compact() returns (ok: bool)
      requires saved == [] && IsCatalogue(tables) && IsLawful(tokens)
      modifies this`clock, this`tables
      ensures ok ==> tables == Rebuilt(tokens, old(tables))
      ensures !ok ==> FailsBetween(old(clock), clock)
                      && (tables == old(tables) || exists done :: tables == PartlyRebuilt(tokens, old(tables), done))
      ensures FailsAtFirstBook(old(clock), old(tables)) ==> !ok && tables == PartlyRebuilt(tokens, old(tables), {})
    {
      ok := RebuildAll();
      if ok {
        RebuiltIsComplete(tokens, old(tables));
        ok := Execute();
      }
    }
  }

  /** A catalogue of one book whose index agreed, and does not after a compaction that failed. */
  method InterruptedCompactLosesAgreement(tokens: Tokenizer, title: Text) returns (before: Tables, after: Tables)
    requires IsLawful(tokens) && tokens(NormalizeText(title)) != {}
    ensures IsCatalogue(before) && Agrees(tokens, before) && !Agrees(tokens, after)
    ensures before.books.Keys == {1} && after.books == before.books
  {
    before := Inserted(tokens, EMPTY_TABLES, Titled(1, title));
    InterruptedRebuildForgetsBook(tokens, title);
    var db := new Database(tokens, n => n == 2, before);
    assert 1 in before.books;
    var ok := db.Compact();
    after := db.tables;
  }

  /** Every listed book with the postings that its stored metadata has. */
  ghost predicate AreStored(tokens: Tokenizer, t: Tables, ids: seq<BookId>, postings: seq<set<Posting>>) {
    && |ids| == |postings|
    && forall i :: 0 <= i < |ids| ==> ids[i] in t.books && postings[i] == StoredPostings(tokens, t, ids[i])
  }

  lemma OneMoreStored(tokens: Tokenizer, t: Tables, ids: seq<BookId>, postings: seq<set<Posting>>, id: BookId)
    requires AreStored(tokens, t, ids, postings) && id in t.books
    ensures AreStored(tokens, t, ids + [id], postings + [StoredPostings(tokens, t, id)])
  {
  }

  function FirstIds(ids: seq<BookId>, n: nat): (r: set<BookId>)
    requires n <= |ids|
  {
    if n == 0 then {} else FirstIds(ids, n - 1) + {ids[n - 1]}
  }

  lemma {:induction false} FirstIdsOfPrefix(ids: seq<BookId>, id: BookId, n: nat)
    requires n <= |ids|
    ensures FirstIds(ids + [id], n) == FirstIds(ids, n)
  {
    if n > 0 {
      FirstIdsOfPrefix(ids, id, n - 1);
    }
  }

  lemma FirstIdsOfAppended(ids: seq<BookId>, id: BookId)
    ensures FirstIds(ids + [id], |ids| + 1) == FirstIds(ids, |ids|) + {id}
  {
    FirstIdsOfPrefix(ids, id, |ids|);
  }

  lemma {:induction false} FirstIdsMeaning(ids: seq<BookId>, n: nat)
    requires n <= |ids|
    ensures FirstIds(ids, n) == set i | 0 <= i < n :: ids[i]
  {
    if n > 0 {
      FirstIdsMeaning(ids, n - 1);
    }
  }

  lemma RebuiltIsComplete(tokens: Tokenizer, t: Tables)
    ensures Rebuilt(tokens, t) == PartlyRebuilt(tokens, t, t.books.Keys)
  {
  }

  lemma RemovingNothing(t: Tables)
    ensures RowsRemoved(t, {}) == t
  {
  }

  lemma RemovingOneMore(t: Tables, ids: set<BookId>, id: BookId)
    ensures RowsRemoved(RowsRemoved(t, ids), {id}) == RowsRemoved(t, ids + {id})
  {
  }

  function FirstPostings(postings: seq<set<Posting>>, n: nat): set<Posting>
    requires n <= |postings|
  {
    if n == 0 then {} else FirstPostings(postings, n - 1) + postings[n - 1]
  }

  function PostingsFrom(f: BookId -> set<Posting>, ids: set<BookId>): set<Posting> {
    set id, p | id in ids && p in f(id) :: p
  }

  lemma PostingsFromOneMore(f: BookId -> set<Posting>, ids: set<BookId>, id: BookId)
    ensures PostingsFrom(f, ids + {id}) == PostingsFrom(f, ids) + f(id)
  {
  }

  lemma {:induction false} FirstPostingsAreFrom(f: BookId -> set<Posting>, ids: seq<BookId>, postings: seq<set<Posting>>, n: nat)
    requires n <= |ids| == |postings| && forall i :: 0 <= i < |ids| ==> postings[i] == f(ids[i])
    ensures FirstPostings(postings, n) == PostingsFrom(f, FirstIds(ids, n))
  {
    if n > 0 {
      FirstPostingsAreFrom(f, ids, postings, n - 1);
      PostingsFromOneMore(f, FirstIds(ids, n - 1), ids[n - 1]);
    }
  }

  /** Indexing the first books that were read gives the index of a rebuild that got that far. */
  lemma IndexedSoFar(tokens: Tokenizer, t: Tables, ids: seq<BookId>, postings: seq<set<Posting>>, n: nat)
    requires AreStored(tokens, t, ids, postings) && n <= |ids|
    ensures t.(postings := {} + FirstPostings(postings, n)) == PartlyRebuilt(tokens, t, FirstIds(ids, n))
  {
    var f := id => if id in t.books then StoredPostings(tokens, t, id) else {};
    FirstPostingsAreFrom(f, ids, postings, n);
    SameComprehension(tokens, t, f, FirstIds(ids, n));
  }

  lemma SameComprehension(tokens: Tokenizer, t: Tables, f: BookId -> set<Posting>, ids: set<BookId>)
    requires forall id :: f(id) == if id in t.books then StoredPostings(tokens, t, id) else {}
    ensures PostingsFrom(f, ids) == PostingsOfBooks(tokens, t, ids)
  {
  }
}
