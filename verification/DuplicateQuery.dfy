/**
  * Finding duplicates of a candidate: the counting query that stands in for equality of author
  * sets, and the list of matches in which every existing book appears at most once.
  */
module DuplicateQuery {
  import opened Catalogue
  import opened CatalogueRuns
  import opened MetadataNormalization
  import opened SearchPaging
  import opened Wrappers

  // ---------------------------------------------------------------------------------------
  // The normalized authors of a candidate
  // ---------------------------------------------------------------------------------------

  predicate IsSorted(s: seq<Text>) {
    forall i, j :: 0 <= i < j < |s| ==> !TextBefore(s[j], s[i])
  }

  predicate HasAdjacentEqual(s: seq<Text>) {
    exists i :: 0 <= i < |s| - 1 && s[i] == s[i + 1]
  }

  predicate AreDistinct(s: seq<Text>) {
    forall i, j :: 0 <= i < j < |s| ==> s[i] != s[j]
  }

  function Inserted(s: seq<Text>, x: Text): seq<Text> {
    if s == [] then [x]
    else if TextBefore(x, s[0]) then [x] + s
    else [s[0]] + Inserted(s[1..], x)
  }

  lemma {:induction false} InsertedMembers(s: seq<Text>, x: Text)
    ensures forall a :: a in Inserted(s, x) <==> a in s || a == x
  {
    if s != [] && !TextBefore(x, s[0]) {
      InsertedMembers(s[1..], x);
      assert s == [s[0]] + s[1..];
    }
  }

  lemma SortedCons(head: Text, tail: seq<Text>)
    ensures IsSorted([head] + tail) <==> IsSorted(tail) && forall a :: a in tail ==> !TextBefore(a, head)
  {
    var r := [head] + tail;
    if IsSorted(r) {
      forall i, j | 0 <= i < j < |tail| ensures !TextBefore(tail[j], tail[i]) {
        assert r[i + 1] == tail[i] && r[j + 1] == tail[j];
      }
      forall j | 0 <= j < |tail| ensures !TextBefore(tail[j], head) {
        assert r[0] == head && r[j + 1] == tail[j];
      }
    }
    if IsSorted(tail) && forall a :: a in tail ==> !TextBefore(a, head) {
      forall i, j | 0 <= i < j < |r| ensures !TextBefore(r[j], r[i]) {
        assert r[j] == tail[j - 1] && (i > 0 ==> r[i] == tail[i - 1]);
      }
    }
  }

  lemma {:induction false} InsertedIsSorted(s: seq<Text>, x: Text)
    requires IsSorted(s)
    ensures IsSorted(Inserted(s, x))
  {
    if s == [] {
    } else {
      assert s == [s[0]] + s[1..];
      SortedCons(s[0], s[1..]);
      if TextBefore(x, s[0]) {
        forall a | a in s ensures !TextBefore(a, x) {
          TextOrderIsTotal(s[0], s[0]);
          BetweenIsOrdered(x, s[0], a);
        }
        SortedCons(x, s);
      } else {
        InsertedIsSorted(s[1..], x);
        InsertedMembers(s[1..], x);
        SortedCons(s[0], Inserted(s[1..], x));
      }
    }
  }

  lemma DistinctCons(head: Text, tail: seq<Text>)
    ensures AreDistinct([head] + tail) <==> head !in tail && AreDistinct(tail)
  {
    var r := [head] + tail;
    if AreDistinct(r) {
      forall i, j | 0 <= i < j < |tail| ensures tail[i] != tail[j] {
        assert r[i + 1] == tail[i] && r[j + 1] == tail[j];
      }
      forall j | 0 <= j < |tail| ensures tail[j] != head {
        assert r[0] == head && r[j + 1] == tail[j];
      }
    }
  }

  lemma {:induction false} InsertedIsDistinct(s: seq<Text>, x: Text)
    ensures AreDistinct(Inserted(s, x)) <==> AreDistinct(s) && x !in s
  {
    if s == [] {
      DistinctCons(x, []);
    } else if TextBefore(x, s[0]) {
      DistinctCons(x, s);
    } else {
      InsertedIsDistinct(s[1..], x);
      InsertedMembers(s[1..], x);
      DistinctCons(s[0], Inserted(s[1..], x));
      DistinctCons(s[0], s[1..]);
      assert s == [s[0]] + s[1..];
    }
  }

  lemma BetweenIsOrdered(x: Text, a: Text, b: Text)
    requires TextBefore(x, a) && !TextBefore(b, a)
    ensures !TextBefore(b, x)
  {
  }

  /** Normalized, without the empty ones, and sorted. */
  function SortedAuthors(authors: seq<Text>): seq<Text> {
    if authors == [] then []
    else
      var normalized := NormalizeText(authors[|authors| - 1]);
      var before := SortedAuthors(authors[..|authors| - 1]);
      if normalized == [] then before else Inserted(before, normalized)
  }

  /** No non-empty author of the list normalizes like another. */
  predicate NamesNoAuthorTwice(authors: seq<Text>) {
    forall i, j :: 0 <= i < j < |authors| && NormalizeText(authors[i]) != [] ==> NormalizeText(authors[i]) != NormalizeText(authors[j])
  }

  lemma OneAuthorMore(authors: seq<Text>)
    requires authors != []
    ensures var last := |authors| - 1;
            NamesNoAuthorTwice(authors) <==>
              NamesNoAuthorTwice(authors[..last])
              && (NormalizeText(authors[last]) != [] ==> NormalizeText(authors[last]) !in NormalSet(authors[..last]))
  {
    var last := |authors| - 1;
    var init, n := authors[..last], NormalizeText(authors[last]);
    if NamesNoAuthorTwice(authors) {
      forall i, j | 0 <= i < j < last && NormalizeText(init[i]) != [] ensures NormalizeText(init[i]) != NormalizeText(init[j]) {
        assert init[i] == authors[i] && init[j] == authors[j];
      }
      forall i | 0 <= i < |init| ensures n != [] ==> NormalizeText(init[i]) != n {
        assert init[i] == authors[i];
      }
    } else {
      var i, j :| 0 <= i < j < |authors| && NormalizeText(authors[i]) != [] && NormalizeText(authors[i]) == NormalizeText(authors[j]);
      assert init[i] == authors[i] && (j < last ==> init[j] == authors[j]);
      assert j == last ==> n in NormalSet(init);
    }
  }

  lemma {:induction false} SortedAuthorsMeaning(authors: seq<Text>)
    ensures IsSorted(SortedAuthors(authors))
    ensures (set a | a in SortedAuthors(authors)) == NormalSet(authors)
    ensures AreDistinct(SortedAuthors(authors)) <==> NamesNoAuthorTwice(authors)
  {
    if authors == [] {
      assert NormalSet(authors) == {};
    } else {
      var last := |authors| - 1;
      var before, n := SortedAuthors(authors[..last]), NormalizeText(authors[last]);
      SortedAuthorsMeaning(authors[..last]);
      NormalSetStep(authors);
      OneAuthorMore(authors);
      if n != [] {
        InsertedIsSorted(before, n);
        InsertedMembers(before, n);
        InsertedIsDistinct(before, n);
      }
    }
  }

  method BuildNormalizedAuthors(authors: seq<Text>) returns (normalizedAuthors: seq<Text>)
    ensures normalizedAuthors == SortedAuthors(authors)
  {
    normalizedAuthors := [];
    for i := 0 to |authors|
      invariant normalizedAuthors == SortedAuthors(authors[..i])
    {
      assert authors[..i + 1][..i] == authors[..i];
      var normalizedAuthor := Normalize(authors[i]);
      if normalizedAuthor != [] {
        normalizedAuthors := Inserted(normalizedAuthors, normalizedAuthor);
      }
    }
    assert authors[..|authors|] == authors;
  }

  /** In a sorted list equal names stand next to each other. */
  lemma AdjacentEqualMeansRepeated(s: seq<Text>)
    requires IsSorted(s)
    ensures HasAdjacentEqual(s) <==> !AreDistinct(s)
  {
    if !HasAdjacentEqual(s) {
      forall i, j | 0 <= i < j < |s| ensures s[i] != s[j] {
        TextOrderIsTotal(s[i], s[i + 1]);
        assert TextBefore(s[i], s[i + 1]);
        assert j > i + 1 ==> !TextBefore(s[j], s[i + 1]);
      }
    }
  }

  // ---------------------------------------------------------------------------------------
  // Counting instead of comparing sets
  // ---------------------------------------------------------------------------------------

  /** All author links of a book: the subquery that counts the total. */
  function LinksOf(t: Tables, id: BookId): set<(BookId, nat)> {
    set l | l in t.authors.links && l.0 == id
  }

  /** The joined rows of a book whose author is in the IN list: the group that is counted. */
  function ListedLinks(t: Tables, id: BookId, names: seq<Text>): set<(BookId, nat)> {
    set l | l in t.authors.links && l.0 == id && l.1 < |t.authors.entities| && t.authors.entities[l.1].normalized in names
  }

  /** WHERE, GROUP BY and HAVING of the query. */
  predicate IsCounted(t: Tables, id: BookId, names: seq<Text>, normalizedTitle: Text)
    requires id in t.books
  {
    && t.books[id].normalizedTitle == normalizedTitle
    && ListedLinks(t, id, names) != {}
    && |ListedLinks(t, id, names)| == |names|
    && |ListedLinks(t, id, names)| == |LinksOf(t, id)|
  }

  function FindProbableDuplicateCandidates(t: Tables, title: Text, authors: seq<Text>): set<BookId> {
    var normalizedTitle := NormalizeText(title);
    var names := SortedAuthors(authors);
    if normalizedTitle == [] || names == [] || HasAdjacentEqual(names) then {}
    else set id | id in t.books && IsCounted(t, id, names, normalizedTitle)
  }

  /** Links of one book have pairwise different names. */
  lemma {:induction false} LinkCountIsNameCount(t: Tables, links: set<(BookId, nat)>, id: BookId)
    requires IsCatalogue(t) && links <= LinksOf(t, id)
    ensures |NamesOf(t, links)| == |links|
    decreases links
  {
    var names := NamesOf(t, links);
    if links == {} {
      assert names == {};
    } else {
      var l :| l in links;
      var rest := links - {l};
      LinkCountIsNameCount(t, rest, id);
      assert names == NamesOf(t, rest) + {t.authors.entities[l.1].normalized};
      LinkNameIsNew(t, rest, l);
    }
  }

  function NamesOf(t: Tables, links: set<(BookId, nat)>): set<Text> {
    set l | l in links && l.1 < |t.authors.entities| :: t.authors.entities[l.1].normalized
  }

  lemma LinkNameIsNew(t: Tables, rest: set<(BookId, nat)>, l: (BookId, nat))
    requires IsCatalogue(t) && l in t.authors.links && l !in rest
    requires forall k :: k in rest ==> k in t.authors.links && k.0 == l.0
    ensures l.1 < |t.authors.entities| && t.authors.entities[l.1].normalized !in NamesOf(t, rest)
  {
  }

  lemma {:induction false} DistinctCount(s: seq<Text>)
    requires AreDistinct(s)
    ensures |set a | a in s| == |s|
  {
    if s != [] {
      var last := |s| - 1;
      DistinctCount(s[..last]);
      assert (set a | a in s) == (set a | a in s[..last]) + {s[last]};
      assert s[last] !in s[..last];
    }
  }

  lemma SubsetOfSameSize<T>(a: set<T>, b: set<T>)
    requires a <= b && |a| == |b|
    ensures a == b
  {
    if a != b {
      var x :| x in b && x !in a;
      assert |b| == |b - {x}| + 1 && a <= b - {x};
      SubsetIsSmaller(a, b - {x});
    }
  }

  lemma {:induction false} SubsetIsSmaller<T>(a: set<T>, b: set<T>)
    requires a <= b
    ensures |a| <= |b|
    decreases a
  {
    if a != {} {
      var x :| x in a;
      SubsetIsSmaller(a - {x}, b - {x});
    }
  }

  /** For distinct names, the counts agree exactly if the author set is the one asked for. */
  lemma CountingComparesSets(t: Tables, id: BookId, names: seq<Text>, normalizedTitle: Text)
    requires IsCatalogue(t) && id in t.books && names != [] && AreDistinct(names)
    ensures IsCounted(t, id, names, normalizedTitle)
       <==> t.books[id].normalizedTitle == normalizedTitle && StoredNames(t.authors, id) == set a | a in names
  {
    var wanted := set a | a in names;
    var listed, all := ListedLinks(t, id, names), LinksOf(t, id);
    DistinctCount(names);
    LinkCountIsNameCount(t, all, id);
    assert StoredNames(t.authors, id) == NamesOf(t, all);
    if IsCounted(t, id, names, normalizedTitle) {
      SubsetOfSameSize(listed, all);
      assert StoredNames(t.authors, id) <= wanted;
      SubsetOfSameSize(StoredNames(t.authors, id), wanted);
    }
    if StoredNames(t.authors, id) == wanted {
      forall l | l in all ensures l in listed {
        assert t.authors.entities[l.1].normalized in StoredNames(t.authors, id);
      }
      assert listed == all;
      assert names[0] in wanted;
    }
  }

  /**
    * The query finds exactly the books with the title and the author set of the candidate,
    * provided the candidate has a title and authors and names no author twice; otherwise nothing.
    */
  lemma ProbableDuplicatesAreExact(t: Tables, title: Text, authors: seq<Text>)
    requires IsCatalogue(t)
    ensures FindProbableDuplicateCandidates(t, title, authors) ==
              if NormalizeText(title) == [] || NormalSet(authors) == {} || !NamesNoAuthorTwice(authors) then {}
              else set id | id in t.books && t.books[id].normalizedTitle == NormalizeText(title)
                            && StoredNames(t.authors, id) == NormalSet(authors)
  {
    var names := SortedAuthors(authors);
    SortedAuthorsMeaning(authors);
    AdjacentEqualMeansRepeated(names);
    assert names == [] <==> NormalSet(authors) == {} by {
      if names != [] {
        assert names[0] in NormalSet(authors);
      }
    }
    if NormalizeText(title) != [] && names != [] && AreDistinct(names) {
      forall id | id in t.books
        ensures IsCounted(t, id, names, NormalizeText(title))
           <==> t.books[id].normalizedTitle == NormalizeText(title) && StoredNames(t.authors, id) == NormalSet(authors)
      {
        CountingComparesSets(t, id, names, NormalizeText(title));
      }
    }
  }

  // ---------------------------------------------------------------------------------------
  // The list of matches
  // ---------------------------------------------------------------------------------------

  datatype Reason = SameHash | SameIsbn | SameTitleAndAuthors
  datatype Match = Match(id: BookId, reason: Reason)

  function MatchedIds(matches: seq<Match>): set<BookId> {
    set m | m in matches :: m.id
  }

  /** Every book at most once, and each for one of the reasons it qualifies for. */
  predicate AreMatches(matches: seq<Match>, qualifies: (BookId, Reason) -> bool) {
    && (forall i, j :: 0 <= i < j < |matches| ==> matches[i].id != matches[j].id)
    && (forall i :: 0 <= i < |matches| ==> qualifies(matches[i].id, matches[i].reason))
  }

  /** The ids that a statement yields, each row once. */
  method ReadRows(ids: set<BookId>) returns (rows: seq<BookId>)
    ensures forall id :: id in rows <==> id in ids
  {
    var remaining := ids;
    rows := [];
    while remaining != {}
      invariant remaining <= ids
      invariant forall id :: id in rows <==> id in ids && id !in remaining
      decreases remaining
    {
      var id := Smallest(remaining);
      rows := rows + [id];
      remaining := remaining - {id};
    }
  }

  /** Rows whose id has not been seen become matches; `isWanted` filters them first. */
  method AppendMatches(rows: seq<BookId>, isWanted: BookId -> bool, reason: Reason, matches: seq<Match>, seenIds: set<BookId>,
                       ghost qualifies: (BookId, Reason) -> bool)
    returns (matches': seq<Match>, seenIds': set<BookId>)
    requires AreMatches(matches, qualifies) && seenIds == MatchedIds(matches)
    requires forall id :: id in rows && isWanted(id) && id !in seenIds ==> qualifies(id, reason)
    ensures AreMatches(matches', qualifies) && seenIds' == MatchedIds(matches') && matches <= matches'
    ensures seenIds' == seenIds + set id | id in rows && isWanted(id)
  {
    matches', seenIds' := matches, seenIds;
    for i := 0 to |rows|
      invariant AreMatches(matches', qualifies) && seenIds' == MatchedIds(matches') && matches <= matches'
      invariant seenIds' == seenIds + set id | id in rows[..i] && isWanted(id)
    {
      assert rows[..i + 1] == rows[..i] + [rows[i]];
      if isWanted(rows[i]) && rows[i] !in seenIds' {
        assert forall m :: m in matches' ==> m.id in MatchedIds(matches');
        assert MatchedIds(matches' + [Match(rows[i], reason)]) == MatchedIds(matches') + {rows[i]};
        matches' := matches' + [Match(rows[i], reason)];
        seenIds' := seenIds' + {rows[i]};
      }
    }
    assert rows[..|rows|] == rows;
  }

  /** What makes an existing book a duplicate of the candidate, the stronger reason first. */
  predicate Qualifies(t: Tables, title: Text, authors: seq<Text>, sha256: Option<Text>, isbnRows: set<BookId>,
                      isCredible: BookId -> bool, hasConflict: BookId -> bool, id: BookId, reason: Reason) {
    var sameHash := sha256.Some? && sha256.value != [] && id in HashMatches(t, sha256.value);
    var sameIsbn := id in isbnRows && isCredible(id);
    match reason
    case SameHash => sameHash
    case SameIsbn => !sameHash && sameIsbn
    case SameTitleAndAuthors =>
      !sameHash && !sameIsbn && id in FindProbableDuplicateCandidates(t, title, authors) && !hasConflict(id)
  }

  /**
    * FindDuplicates. The answer lists each existing book at most once, and exactly the books
    * that qualify, each with the first reason that applies to it.
    */
  method FindDuplicates(t: Tables, title: Text, authors: seq<Text>, sha256: Option<Text>, isbnRows: set<BookId>,
                        isCredible: BookId -> bool, hasConflict: BookId -> bool) returns (matches: seq<Match>)
    ensures forall i, j :: 0 <= i < j < |matches| ==> matches[i].id != matches[j].id
    ensures forall id, reason :: Match(id, reason) in matches
              <==> Qualifies(t, title, authors, sha256, isbnRows, isCredible, hasConflict, id, reason)
  {
    ghost var qualifies := (id, reason) => Qualifies(t, title, authors, sha256, isbnRows, isCredible, hasConflict, id, reason);
    matches := [];
    var seenIds: set<BookId> := {};
    if sha256.Some? && sha256.value != [] {
      var rows := ReadRows(HashMatches(t, sha256.value));
      matches, seenIds := AppendMatches(rows, _ => true, SameHash, matches, seenIds, qualifies);
    }
    ghost var hashed := seenIds;
    var rows := ReadRows(isbnRows);
    matches, seenIds := AppendMatches(rows, isCredible, SameIsbn, matches, seenIds, qualifies);
    if title != [] && authors != [] {
      var probable := ReadRows(FindProbableDuplicateCandidates(t, title, authors));
      matches, seenIds := AppendMatches(probable, id => !hasConflict(id), SameTitleAndAuthors, matches, seenIds, qualifies);
    }
    EmptyCandidateHasNone(t, title, authors);
    MatchesAreExact(matches, qualifies);
    assert forall id, reason ::
        qualifies(id, reason) <==> Qualifies(t, title, authors, sha256, isbnRows, isCredible, hasConflict, id, reason);
  }

  /** A list that names every qualifying book says for each the one reason there is. */
  lemma MatchesAreExact(matches: seq<Match>, qualifies: (BookId, Reason) -> bool)
    requires AreMatches(matches, qualifies)
    requires forall id, r, r' :: qualifies(id, r) && qualifies(id, r') ==> r == r'
    requires forall id, r :: qualifies(id, r) ==> id in MatchedIds(matches)
    ensures forall id, r :: Match(id, r) in matches <==> qualifies(id, r)
  {
  }

  lemma EmptyCandidateHasNone(t: Tables, title: Text, authors: seq<Text>)
    ensures title == [] || authors == [] ==> FindProbableDuplicateCandidates(t, title, authors) == {}
  {
  }
}
