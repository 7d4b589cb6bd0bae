/** The catalog's records and the pure decisions made over them: the filter
    predicate of the search form, the filter itself, the lookup of a book by
    id for the detail overlay and the lookup of a display name in a table. */
module Books {
  import opened JsText

  datatype Option<+T> = None | Some(value: T)

  /** One record of the static `books` table. `published` is kept as the raw
      date text; `genres` are genre ids. */
  datatype Book = Book(
    id: string,
    title: string,
    author: string,
    image: string,
    description: string,
    published: string,
    genres: seq<string>)

  /** The three fields of the search form, as submitted. */
  datatype Query = Query(title: string, author: string, genre: string)

  /** The select value meaning "no restriction". */
  const Any: string := "any"

  /** An id-to-name table (`authors`, `genres`) as the sequence of its entries,
      in the order `Object.entries` lists them. */
  type Table = seq<(string, string)>

  /** Title clause: a blank query (after trimming) passes; otherwise the
      untrimmed query, lower-cased, must occur in the lower-cased title. */
  predicate TitleMatches(b: Book, q: Query) {
    Trim(q.title) == "" || Includes(Lower(b.title), Lower(q.title))
  }

  /** Author clause: "any" or the exact author id. */
  predicate AuthorMatches(b: Book, q: Query) {
    q.author == Any || b.author == q.author
  }

  /** Genre clause: "any" or one of the book's genre ids. */
  predicate GenreMatches(b: Book, q: Query) {
    q.genre == Any || q.genre in b.genres
  }

  /** The filter predicate: all three clauses hold. */
  predicate Matches(b: Book, q: Query) {
    TitleMatches(b, q) && AuthorMatches(b, q) && GenreMatches(b, q)
  }

  /** `books.filter(...)` with the predicate above: the matching books, in order. */
  function Filter(books: seq<Book>, q: Query): (r: seq<Book>)
    ensures |r| <= |books|
    decreases |books|
  {
    if books == [] then [] else Kept(books[0], q) + Filter(books[1..], q)
  }

  /** What the filter keeps of a single book. */
  function Kept(b: Book, q: Query): (r: seq<Book>)
    ensures r == [] || r == [b]
    ensures r == [b] <==> Matches(b, q)
  {
    if Matches(b, q) then [b] else []
  }

  /** `r` is `s` with some elements left out, the rest in their original order. */
  ghost predicate IsSubsequence<T>(r: seq<T>, s: seq<T>)
    decreases |s|
  {
    if r == [] then true
    else if s == [] then false
    else (r[0] == s[0] && IsSubsequence(r[1..], s[1..])) || IsSubsequence(r, s[1..])
  }

  /** Filtering keeps the relative order of the catalog. */
  lemma {:induction false} FilterIsSubsequence(books: seq<Book>, q: Query)
    ensures IsSubsequence(Filter(books, q), books)
    decreases |books|
  {
    if books != [] {
      FilterIsSubsequence(books[1..], q);
      var r := Filter(books, q);
      if Matches(books[0], q) {
        assert r[0] == books[0] && r[1..] == Filter(books[1..], q);
      } else {
        assert r == Filter(books[1..], q);
      }
    }
  }

  /** A book is in the result exactly when it is in the catalog and matches. */
  lemma {:induction false} FilterMembership(books: seq<Book>, q: Query, b: Book)
    ensures b in Filter(books, q) <==> b in books && Matches(b, q)
    decreases |books|
  {
    if books != [] {
      FilterMembership(books[1..], q, b);
      assert books == [books[0]] + books[1..];
    }
  }

  /** Filtering a concatenation filters each part: the filter decides book by
      book and looks at nothing else. */
  lemma {:induction false} FilterAppend(xs: seq<Book>, ys: seq<Book>, q: Query)
    ensures Filter(xs + ys, q) == Filter(xs, q) + Filter(ys, q)
    decreases |xs|
  {
    if xs == [] {
      assert xs + ys == ys;
    } else {
      var head := Kept(xs[0], q);
      assert (xs + ys)[0] == xs[0] && (xs + ys)[1..] == xs[1..] + ys;
      assert Filter(xs + ys, q) == head + Filter(xs[1..] + ys, q);
      FilterAppend(xs[1..], ys, q);
      assert head + (Filter(xs[1..], q) + Filter(ys, q)) == (head + Filter(xs[1..], q)) + Filter(ys, q);
    }
  }

  /** The filter returns the catalog unchanged exactly when every book matches. */
  lemma {:induction false} FilterKeepsAllIff(books: seq<Book>, q: Query)
    ensures Filter(books, q) == books <==> forall i :: 0 <= i < |books| ==> Matches(books[i], q)
    decreases |books|
  {
    if books != [] {
      FilterKeepsAllIff(books[1..], q);
      if !Matches(books[0], q) {
        // the result is then no longer than the rest of the catalog
        assert |Filter(books, q)| < |books|;
      }
    }
  }

  /** A blank title (including one of whitespace only) with author and genre
      both "any" lets every book through, in the original order. */
  lemma OpenQueryKeepsAll(books: seq<Book>, q: Query)
    requires Trim(q.title) == "" && q.author == Any && q.genre == Any
    ensures Filter(books, q) == books
  {
    FilterKeepsAllIff(books, q);
  }

  /** Changing the case of the query's title or the book's title does not
      change whether the book matches. */
  lemma MatchIgnoresCase(b: Book, q: Query)
    ensures Matches(b, q.(title := Lower(q.title))) == Matches(b, q)
    ensures Matches(b.(title := Lower(b.title)), q) == Matches(b, q)
  {
    var lq := q.(title := Lower(q.title));
    var lb := b.(title := Lower(b.title));
    LowerKeepsBlankness(q.title);
    LowerIdempotent(q.title);
    LowerIdempotent(b.title);
    assert TitleMatches(b, lq) == TitleMatches(b, q);
    assert TitleMatches(lb, q) == TitleMatches(b, q);
    assert AuthorMatches(b, lq) == AuthorMatches(b, q) && GenreMatches(b, lq) == GenreMatches(b, q);
    assert AuthorMatches(lb, q) == AuthorMatches(b, q) && GenreMatches(lb, q) == GenreMatches(b, q);
  }

  /** A non-blank title is matched without trimming it: " dune" does not
      match the title "Dune", whose lower-cased text has no leading space. */
  lemma PaddedTitleIsNotTrimmed(b: Book)
    requires b.title == "Dune"
    ensures !TitleMatches(b, Query(" dune", Any, Any))
    ensures TitleMatches(b, Query("dune", Any, Any))
  {
    assert Lower("Dune") == "dune";
    assert !IsTrimmable('d');
    assert TrimStart(" dune") == TrimStart("dune");
    assert OccursAt("dune", "dune", 0);
  }

  /** `b` is the first book of the catalog whose id is `id`. */
  ghost predicate FirstWithId(books: seq<Book>, id: string, b: Book) {
    exists i :: 0 <= i < |books| && books[i] == b && b.id == id &&
      forall j :: 0 <= j < i ==> books[j].id != id
  }

  /** `books.find(book => book.id === id)`: the first book with that id, or
      nothing when no book has it. */
  function FindById(books: seq<Book>, id: string): (r: Option<Book>)
    ensures r.None? <==> forall i :: 0 <= i < |books| ==> books[i].id != id
    ensures r.Some? ==> FirstWithId(books, id, r.value)
    decreases |books|
  {
    if books == [] then None
    else if books[0].id == id then
      Some(books[0])
    else
      var r := FindById(books[1..], id);
      assert forall i :: 1 <= i < |books| ==> books[i] == books[1..][i - 1];
      if r.Some? then
        assert FirstWithId(books, id, r.value) by {
          var k :| 0 <= k < |books[1..]| && books[1..][k] == r.value && r.value.id == id &&
            forall j :: 0 <= j < k ==> books[1..][j].id != id;
          assert books[k + 1] == r.value;
          assert forall j :: 0 <= j < k + 1 ==> books[j].id != id by {
            forall j | 0 <= j < k + 1 ensures books[j].id != id {
              if j > 0 { assert books[j] == books[1..][j - 1]; }
            }
          }
        }
        r
      else r
  }

  /** `name` is what the first entry of `table` for `key` gives. */
  ghost predicate FirstEntry(table: Table, key: string, name: string) {
    exists i :: 0 <= i < |table| && table[i] == (key, name) &&
      forall j :: 0 <= j < i ==> table[j].0 != key
  }

  /** `table[key]`: the name the table gives the key, or nothing when the
      table has no entry for it. Should a key be listed twice, its first
      entry counts. */
  function Lookup(table: Table, key: string): (r: Option<string>)
    ensures r.None? <==> forall i :: 0 <= i < |table| ==> table[i].0 != key
    ensures r.Some? ==> FirstEntry(table, key, r.value)
    decreases |table|
  {
    if table == [] then None
    else if table[0].0 == key then
      assert table[0] == (key, table[0].1);
      Some(table[0].1)
    else
      var r := Lookup(table[1..], key);
      assert forall i :: 1 <= i < |table| ==> table[i] == table[1..][i - 1];
      if r.Some? then
        assert FirstEntry(table, key, r.value) by {
          var k :| 0 <= k < |table[1..]| && table[1..][k] == (key, r.value) &&
            forall j :: 0 <= j < k ==> table[1..][j].0 != key;
          assert table[k + 1] == (key, r.value);
          assert forall j :: 0 <= j < k + 1 ==> table[j].0 != key by {
            forall j | 0 <= j < k + 1 ensures table[j].0 != key {
              if j > 0 { assert table[j] == table[1..][j - 1]; }
            }
          }
        }
        r
      else r
  }

  /** `${authors[id]}`: the author's name, or the text "undefined" that a
      template literal produces for a missing entry. */
  function AuthorName(authors: Table, id: string): (name: string)
    ensures (exists i :: 0 <= i < |authors| && authors[i].0 == id) ==> FirstEntry(authors, id, name)
    ensures (forall i :: 0 <= i < |authors| ==> authors[i].0 != id) ==> name == "undefined"
  {
    match Lookup(authors, id)
    case Some(name) => name
    case None => "undefined"
  }

  /** With a blank title and author "any", the filter keeps a book exactly
      when it carries the genre searched for (or the genre is "any"). */
  lemma GenreOnlyMatches(b: Book, genre: string)
    ensures Kept(b, Query("", Any, genre)) == if genre == Any || genre in b.genres then [b] else []
  {
    assert Trim("") == "";
  }

  /** The books of a catalog that carry a genre, in catalog order. */
  function WithGenre(books: seq<Book>, genre: string): (r: seq<Book>)
    decreases |books|
  {
    if books == [] then []
    else if genre in books[0].genres then [books[0]] + WithGenre(books[1..], genre)
    else WithGenre(books[1..], genre)
  }

  /** A search by genre alone (blank title, author "any") returns exactly the
      books that carry that genre, in catalog order. */
  lemma {:induction false} GenreOnlyFilter(books: seq<Book>, genre: string)
    requires genre != Any
    ensures Filter(books, Query("", Any, genre)) == WithGenre(books, genre)
    decreases |books|
  {
    if books != [] {
      GenreOnlyMatches(books[0], genre);
      GenreOnlyFilter(books[1..], genre);
    }
  }
}
