/**
  * Pages of a search: the rows that a compiled query selects, in the order of its ORDER BY
  * list, cut by LIMIT and OFFSET.
  */
module SearchPaging {
  import opened Catalogue
  import opened MetadataNormalization
  import opened SearchQuery
  import opened Wrappers

  // ---------------------------------------------------------------------------------------
  // Sorting a set by a strict total order
  // ---------------------------------------------------------------------------------------

  ghost predicate IsStrictTotal<T(!new)>(before: (T, T) -> bool) {
    && (forall a, b :: a != b ==> (before(a, b) <==> !before(b, a)))
    && (forall a :: !before(a, a))
    && (forall a, b, c :: before(a, b) && before(b, c) ==> before(a, c))
  }

  ghost predicate IsFirst<T(!new)>(m: T, elements: set<T>, before: (T, T) -> bool) {
    m in elements && forall x :: x in elements && x != m ==> before(m, x)
  }

  lemma {:induction false} FirstExists<T(!new)>(elements: set<T>, before: (T, T) -> bool)
    requires IsStrictTotal(before) && elements != {}
    ensures exists m :: IsFirst(m, elements, before)
  {
    var x := Any(elements);
    if elements == {x} {
      assert IsFirst(x, elements, before);
    } else {
      FirstExists(elements - {x}, before);
      var m :| IsFirst(m, elements - {x}, before);
      assert IsFirst(if before(x, m) then x else m, elements, before);
    }
  }

  ghost function Ordered<T(!new)>(elements: set<T>, before: (T, T) -> bool): (s: seq<T>)
    requires IsStrictTotal(before)
    ensures elements != {} ==> s != [] && IsFirst(s[0], elements, before) && s[1..] == Ordered(elements - {s[0]}, before)
    ensures elements == {} ==> s == []
    decreases elements
  {
    if elements == {} then []
    else
      FirstExists(elements, before);
      var m :| IsFirst(m, elements, before);
      [m] + Ordered(elements - {m}, before)
  }

  ghost predicate IsOrdered<T(!new)>(s: seq<T>, before: (T, T) -> bool) {
    forall i, j :: 0 <= i < j < |s| ==> before(s[i], s[j])
  }

  lemma OrderedCons<T(!new)>(m: T, rest: seq<T>, before: (T, T) -> bool)
    requires IsOrdered(rest, before) && forall x :: x in rest ==> before(m, x)
    ensures IsOrdered([m] + rest, before)
  {
  }

  /** Sorting keeps every element once and puts each after those that come before it. */
  lemma {:induction false} OrderedMeaning<T(!new)>(elements: set<T>, before: (T, T) -> bool)
    requires IsStrictTotal(before)
    ensures var s := Ordered(elements, before);
            && |s| == |elements|
            && (forall x :: x in s <==> x in elements)
            && IsOrdered(s, before)
    decreases elements
  {
    if elements != {} {
      var s := Ordered(elements, before);
      OrderedMeaning(elements - {s[0]}, before);
      OrderedCons(s[0], s[1..], before);
      assert s == [s[0]] + s[1..];
    }
  }

  // ---------------------------------------------------------------------------------------
  // The ORDER BY list
  // ---------------------------------------------------------------------------------------

  /** Binary collation: bytes compare one by one, and a proper prefix is smaller. */
  predicate TextBefore(a: Text, b: Text) {
    b != [] && (a == [] || a[0] < b[0] || (a[0] == b[0] && TextBefore(a[1..], b[1..])))
  }

  lemma {:induction false} TextOrderIsTotal(a: Text, b: Text)
    ensures a != b ==> (TextBefore(a, b) <==> !TextBefore(b, a))
    ensures !TextBefore(a, a)
    decreases |a|
  {
    if a != [] {
      TextOrderIsTotal(a[1..], if b == [] then [] else b[1..]);
      if b != [] && a[0] == b[0] && a[1..] == b[1..] {
        assert a == [a[0]] + a[1..] && b == [b[0]] + b[1..];
      }
    }
  }

  lemma {:induction false} TextOrderIsTransitive(a: Text, b: Text, c: Text)
    requires TextBefore(a, b) && TextBefore(b, c)
    ensures TextBefore(a, c)
    decreases |a|
  {
    if a != [] && a[0] == b[0] == c[0] {
      TextOrderIsTransitive(a[1..], b[1..], c[1..]);
    }
  }

  /** The first place where two texts differ decides: there `a` ends, or has the smaller byte. */
  predicate DiffersUpwards(a: Text, b: Text, k: nat) {
    k <= |a| && k < |b| && a[..k] == b[..k] && (k == |a| || a[k] < b[k])
  }

  lemma {:induction false} TextBeforeMeaning(a: Text, b: Text)
    ensures TextBefore(a, b) <==> exists k: nat :: DiffersUpwards(a, b, k)
    decreases |a|
  {
    if b != [] && (a == [] || a[0] < b[0]) {
      assert DiffersUpwards(a, b, 0);
    } else if a != [] && b != [] && a[0] == b[0] {
      TextBeforeMeaning(a[1..], b[1..]);
      if TextBefore(a[1..], b[1..]) {
        var k: nat :| DiffersUpwards(a[1..], b[1..], k);
        assert a[..k + 1] == [a[0]] + a[1..][..k] && b[..k + 1] == [b[0]] + b[1..][..k];
        assert DiffersUpwards(a, b, k + 1);
      }
      if exists k: nat :: DiffersUpwards(a, b, k) {
        var k: nat :| DiffersUpwards(a, b, k);
        assert a[1..][..k - 1] == a[..k][1..] && b[1..][..k - 1] == b[..k][1..];
        assert DiffersUpwards(a[1..], b[1..], k - 1);
      }
    }
  }

  /** NULL comes first. */
  predicate KeyBefore(a: Option<Text>, b: Option<Text>) {
    b.Some? && (a.None? || TextBefore(a.value, b.value))
  }

  datatype SortKey = SortKey(first: Option<Text>, second: Text, third: Text, id: BookId)

  /** The leading key may be descending; the others, the id last of all, ascend. */
  predicate RowBefore(a: SortKey, b: SortKey, isDescending: bool) {
    if a.first != b.first then (if isDescending then KeyBefore(b.first, a.first) else KeyBefore(a.first, b.first))
    else if a.second != b.second then TextBefore(a.second, b.second)
    else if a.third != b.third then TextBefore(a.third, b.third)
    else a.id < b.id
  }

  lemma RowOrderIsTotal(a: SortKey, b: SortKey, isDescending: bool)
    ensures a.id != b.id ==> (RowBefore(a, b, isDescending) <==> !RowBefore(b, a, isDescending))
    ensures !RowBefore(a, a, isDescending)
  {
    if a.first.Some? && b.first.Some? {
      TextOrderIsTotal(a.first.value, b.first.value);
    }
    TextOrderIsTotal(a.second, b.second);
    TextOrderIsTotal(a.third, b.third);
  }

  lemma KeyOrderIsTransitive(a: Option<Text>, b: Option<Text>, c: Option<Text>)
    ensures KeyBefore(a, b) && KeyBefore(b, c) ==> KeyBefore(a, c) && a != c
  {
    if KeyBefore(a, b) && KeyBefore(b, c) && a.Some? {
      TextOrderIsTransitive(a.value, b.value, c.value);
      TextOrderIsTotal(a.value, c.value);
    }
  }

  lemma TextOrderChains(a: Text, b: Text, c: Text)
    ensures TextBefore(a, b) && TextBefore(b, c) ==> TextBefore(a, c) && a != c
  {
  }

  lemma RowOrderIsTransitive(a: SortKey, b: SortKey, c: SortKey, isDescending: bool)
    requires RowBefore(a, b, isDescending) && RowBefore(b, c, isDescending)
    ensures RowBefore(a, c, isDescending)
  {
    KeyOrderIsTransitive(a.first, b.first, c.first);
    KeyOrderIsTransitive(c.first, b.first, a.first);
    TextOrderChains(a.second, b.second, c.second);
    TextOrderChains(a.third, b.third, c.third);
  }

  // ---------------------------------------------------------------------------------------
  // Sorting the books of a catalogue
  // ---------------------------------------------------------------------------------------

  lemma TextOrderIsStrictTotal()
    ensures IsStrictTotal(TextBefore)
  {
    forall a: Text, b: Text ensures (a != b ==> (TextBefore(a, b) <==> !TextBefore(b, a))) && !TextBefore(a, a) {
      TextOrderIsTotal(a, b);
    }
    forall a: Text, b: Text, c: Text | TextBefore(a, b) && TextBefore(b, c) ensures TextBefore(a, c) {
      TextOrderIsTransitive(a, b, c);
    }
  }

  /** MIN over the normalized author names of a book; NULL if it has none. */
  ghost function FirstAuthor(t: Tables, id: BookId): (r: Option<Text>)
    ensures r.None? <==> StoredNames(t.authors, id) == {}
    ensures r.Some? ==> IsFirst(r.value, StoredNames(t.authors, id), TextBefore)
  {
    var names := StoredNames(t.authors, id);
    if names == {} then None
    else
      TextOrderIsStrictTotal();
      FirstExists(names, TextBefore);
      var n :| IsFirst(n, names, TextBefore);
      Some(n)
  }

  /** `addedAt` stands for the column of that name. */
  ghost function KeyOf(t: Tables, q: Query, addedAt: BookId -> Text, id: BookId): SortKey {
    if id !in t.books then SortKey(None, [], [], id)
    else
      var row := t.books[id];
      match if q.sortBy.Some? then q.sortBy.value else ByTitle
      case ByTitle => SortKey(Some(row.normalizedTitle), row.title, [], id)
      case ByAuthor => SortKey(FirstAuthor(t, id), row.normalizedTitle, row.title, id)
      case ByDateAdded => SortKey(Some(addedAt(id)), row.normalizedTitle, row.title, id)
  }

  ghost function OrderOf(t: Tables, q: Query, addedAt: BookId -> Text): (BookId, BookId) -> bool {
    (a, b) => RowBefore(KeyOf(t, q, addedAt, a), KeyOf(t, q, addedAt, b), q.isDescending)
  }

  /** Whatever the user sorts by, the id decides in the end, so the order is total. */
  lemma OrderIsStrictTotal(t: Tables, q: Query, addedAt: BookId -> Text)
    ensures IsStrictTotal(OrderOf(t, q, addedAt))
  {
    var before := OrderOf(t, q, addedAt);
    forall a, b ensures (a != b ==> (before(a, b) <==> !before(b, a))) && !before(a, a) {
      RowOrderIsTotal(KeyOf(t, q, addedAt, a), KeyOf(t, q, addedAt, b), q.isDescending);
    }
    forall a, b, c | before(a, b) && before(b, c) ensures before(a, c) {
      RowOrderIsTransitive(KeyOf(t, q, addedAt, a), KeyOf(t, q, addedAt, b), KeyOf(t, q, addedAt, c), q.isDescending);
    }
  }

  // ---------------------------------------------------------------------------------------
  // What the order means for two books, field by field
  // ---------------------------------------------------------------------------------------

  predicate AreInDirection(a: Text, b: Text, isDescending: bool) {
    if isDescending then TextBefore(b, a) else TextBefore(a, b)
  }

  /** The last ties: the title as it is shown, then the id. */
  predicate IsByTitleAndId(t: Tables, a: BookId, b: BookId)
    requires a in t.books && b in t.books
  {
    if t.books[a].title != t.books[b].title then TextBefore(t.books[a].title, t.books[b].title) else a < b
  }

  predicate IsByTitlesAndId(t: Tables, a: BookId, b: BookId)
    requires a in t.books && b in t.books
  {
    if t.books[a].normalizedTitle != t.books[b].normalizedTitle
    then TextBefore(t.books[a].normalizedTitle, t.books[b].normalizedTitle)
    else IsByTitleAndId(t, a, b)
  }

  /** By normalized title, in the direction asked for. */
  predicate IsByTitle(t: Tables, a: BookId, b: BookId, isDescending: bool)
    requires a in t.books && b in t.books
  {
    if t.books[a].normalizedTitle != t.books[b].normalizedTitle
    then AreInDirection(t.books[a].normalizedTitle, t.books[b].normalizedTitle, isDescending)
    else IsByTitleAndId(t, a, b)
  }

  /** The least of the author names stored for a book. */
  ghost predicate IsLeastAuthor(t: Tables, id: BookId, name: Text) {
    name in StoredNames(t.authors, id) && forall n :: n in StoredNames(t.authors, id) && n != name ==> TextBefore(name, n)
  }

  /** Books without an author first, the others by their least author, in the direction asked for. */
  ghost predicate IsByAuthor(t: Tables, a: BookId, b: BookId, isDescending: bool)
    requires a in t.books && b in t.books
  {
    var noneA, noneB := StoredNames(t.authors, a) == {}, StoredNames(t.authors, b) == {};
    if noneA != noneB then (if isDescending then noneB else noneA)
    else if noneA then IsByTitlesAndId(t, a, b)
    else
      forall x, y :: IsLeastAuthor(t, a, x) && IsLeastAuthor(t, b, y) ==>
        if x != y then AreInDirection(x, y, isDescending) else IsByTitlesAndId(t, a, b)
  }

  /** By the time of adding, in the direction asked for. */
  predicate IsByDate(t: Tables, addedAt: BookId -> Text, a: BookId, b: BookId, isDescending: bool)
    requires a in t.books && b in t.books
  {
    if addedAt(a) != addedAt(b) then AreInDirection(addedAt(a), addedAt(b), isDescending) else IsByTitlesAndId(t, a, b)
  }

  ghost predicate IsInOrderAsked(t: Tables, q: Query, addedAt: BookId -> Text, a: BookId, b: BookId)
    requires a in t.books && b in t.books
  {
    match q.sortBy
    case None => IsByTitle(t, a, b, q.isDescending)
    case Some(ByTitle) => IsByTitle(t, a, b, q.isDescending)
    case Some(ByAuthor) => IsByAuthor(t, a, b, q.isDescending)
    case Some(ByDateAdded) => IsByDate(t, addedAt, a, b, q.isDescending)
  }

  lemma LeastAuthorIsFirst(t: Tables, id: BookId, name: Text)
    requires IsLeastAuthor(t, id, name)
    ensures FirstAuthor(t, id) == Some(name)
  {
    var first := FirstAuthor(t, id).value;
    TextOrderIsTotal(first, name);
  }

  lemma AuthorOrderMeaning(t: Tables, q: Query, addedAt: BookId -> Text, a: BookId, b: BookId)
    requires a in t.books && b in t.books && q.sortBy == Some(ByAuthor)
    requires RowBefore(KeyOf(t, q, addedAt, a), KeyOf(t, q, addedAt, b), q.isDescending)
    ensures IsByAuthor(t, a, b, q.isDescending)
  {
    forall x, y | IsLeastAuthor(t, a, x) && IsLeastAuthor(t, b, y)
      ensures if x != y then AreInDirection(x, y, q.isDescending) else IsByTitlesAndId(t, a, b)
    {
      LeastAuthorIsFirst(t, a, x);
      LeastAuthorIsFirst(t, b, y);
    }
  }

  /** The ORDER BY list puts books as the user asked. */
  lemma OrderMeaning(t: Tables, q: Query, addedAt: BookId -> Text, a: BookId, b: BookId)
    requires a in t.books && b in t.books
    requires RowBefore(KeyOf(t, q, addedAt, a), KeyOf(t, q, addedAt, b), q.isDescending)
    ensures IsInOrderAsked(t, q, addedAt, a, b)
  {
    if q.sortBy == Some(ByAuthor) {
      AuthorOrderMeaning(t, q, addedAt, a, b);
    }
  }

  // ---------------------------------------------------------------------------------------
  // Pages
  // ---------------------------------------------------------------------------------------

  function Limited<A>(rows: seq<A>, limit: nat, offset: nat): seq<A> {
    if offset >= |rows| then []
    else if offset + limit >= |rows| then rows[offset..]
    else rows[offset..offset + limit]
  }

  ghost function AllResults(matcher: Matcher, t: Tables, q: Query, addedAt: BookId -> Text): seq<BookId> {
    OrderIsStrictTotal(t, q, addedAt);
    Ordered(BooksOf(SelectedBy(matcher, t, q, true, true)), OrderOf(t, q, addedAt))
  }

  ghost function Search(matcher: Matcher, t: Tables, q: Query, addedAt: BookId -> Text): seq<BookId> {
    Limited(AllResults(matcher, t, q, addedAt), q.limit, q.offset)
  }

  /** COUNT(DISTINCT b.id). */
  ghost function CountSearchResults(matcher: Matcher, t: Tables, q: Query): nat {
    |BooksOf(SelectedBy(matcher, t, q, true, true))|
  }

  /** The pages from `offset` on, as a reader asks for them until the count is reached. */
  ghost function PagesFrom<A>(search: nat -> seq<A>, limit: nat, count: nat, offset: nat): seq<A>
    requires limit > 0
    decreases count - offset
  {
    if offset >= count then [] else search(offset) + PagesFrom(search, limit, count, offset + limit)
  }

  lemma {:induction false} PagesAddUp<A>(all: seq<A>, search: nat -> seq<A>, limit: nat, offset: nat)
    requires limit > 0 && forall o :: search(o) == Limited(all, limit, o)
    ensures PagesFrom(search, limit, |all|, offset) == if offset >= |all| then [] else all[offset..]
    decreases |all| - offset
  {
    if offset < |all| {
      var next := offset + limit;
      PagesAddUp(all, search, limit, next);
      assert next < |all| ==> all[offset..next] + all[next..] == all[offset..];
    }
  }

  /** The answers to a query whose offset varies. */
  ghost function SearchAt(matcher: Matcher, t: Tables, q: Query, addedAt: BookId -> Text): nat -> seq<BookId> {
    (offset: nat) => Search(matcher, t, q.(offset := offset), addedAt)
  }

  lemma OffsetDoesNotMatter(matcher: Matcher, t: Tables, q: Query, addedAt: BookId -> Text, offset: nat)
    ensures AllResults(matcher, t, q.(offset := offset), addedAt) == AllResults(matcher, t, q, addedAt)
  {
    var q' := q.(offset := offset);
    CompiledSelectsWanted(matcher, t, q, true, true);
    CompiledSelectsWanted(matcher, t, q', true, true);
    assert WantedBooks(matcher, t, q', true, true) == WantedBooks(matcher, t, q, true, true);
    OrderIsStrictTotal(t, q, addedAt);
    OrderIsStrictTotal(t, q', addedAt);
    assert forall id :: KeyOf(t, q', addedAt, id) == KeyOf(t, q, addedAt, id);
    SameOrderSameSequence(WantedBooks(matcher, t, q, true, true), OrderOf(t, q, addedAt), OrderOf(t, q', addedAt));
  }

  /** The sorted sequence depends on the order only through what it says. */
  lemma {:induction false} SameOrderSameSequence<T(!new)>(elements: set<T>, before: (T, T) -> bool, before': (T, T) -> bool)
    requires IsStrictTotal(before) && IsStrictTotal(before')
    requires forall a, b :: before(a, b) == before'(a, b)
    ensures Ordered(elements, before) == Ordered(elements, before')
    decreases elements
  {
    if elements != {} {
      var s, s' := Ordered(elements, before), Ordered(elements, before');
      assert s[0] == s'[0];
      SameOrderSameSequence(elements - {s[0]}, before, before');
      assert s == [s[0]] + s[1..] && s' == [s'[0]] + s'[1..];
    }
  }

  lemma CountIsLength(matcher: Matcher, t: Tables, q: Query, addedAt: BookId -> Text)
    ensures |AllResults(matcher, t, q, addedAt)| == CountSearchResults(matcher, t, q)
  {
    OrderIsStrictTotal(t, q, addedAt);
    OrderedMeaning(BooksOf(SelectedBy(matcher, t, q, true, true)), OrderOf(t, q, addedAt));
  }

  lemma PageAt(matcher: Matcher, t: Tables, q: Query, addedAt: BookId -> Text, offset: nat)
    ensures Search(matcher, t, q.(offset := offset), addedAt) == Limited(AllResults(matcher, t, q, addedAt), q.limit, offset)
  {
    OffsetDoesNotMatter(matcher, t, q, addedAt, offset);
  }

  /**
    * For every page size the pages, one after the other, are the complete result: exactly the
    * books the query asks for, each once, in order, as many as the count says.
    */
  lemma PagesCoverTheResult(matcher: Matcher, t: Tables, q: Query, addedAt: BookId -> Text)
    requires q.limit > 0
    ensures var pages := PagesFrom(SearchAt(matcher, t, q, addedAt), q.limit, CountSearchResults(matcher, t, q), 0);
            && |pages| == CountSearchResults(matcher, t, q) == |WantedBooks(matcher, t, q, true, true)|
            && (forall id :: id in pages <==> id in WantedBooks(matcher, t, q, true, true))
            && (forall i, j :: 0 <= i < j < |pages| ==>
                  pages[i] != pages[j]
                  && RowBefore(KeyOf(t, q, addedAt, pages[i]), KeyOf(t, q, addedAt, pages[j]), q.isDescending)
                  && pages[i] in t.books && pages[j] in t.books && IsInOrderAsked(t, q, addedAt, pages[i], pages[j]))
  {
    var all := AllResults(matcher, t, q, addedAt);
    CountIsLength(matcher, t, q, addedAt);
    forall o: nat ensures SearchAt(matcher, t, q, addedAt)(o) == Limited(all, q.limit, o) {
      PageAt(matcher, t, q, addedAt, o);
    }
    PagesAddUp(all, SearchAt(matcher, t, q, addedAt), q.limit, 0);
    CompiledSelectsWanted(matcher, t, q, true, true);
    OrderIsStrictTotal(t, q, addedAt);
    OrderedMeaning(BooksOf(SelectedBy(matcher, t, q, true, true)), OrderOf(t, q, addedAt));
    forall i, j | 0 <= i < j < |all|
      ensures all[i] != all[j] && all[i] in t.books && all[j] in t.books && IsInOrderAsked(t, q, addedAt, all[i], all[j])
    {
      RowOrderIsTotal(KeyOf(t, q, addedAt, all[i]), KeyOf(t, q, addedAt, all[j]), q.isDescending);
      assert all[i] in all && all[j] in all;
      OrderMeaning(t, q, addedAt, all[i], all[j]);
    }
  }
}
