/** The script's session: the module-level cursor (`currentPage`,
    `filteredBooks`) and the page state its handlers change in place — the
    rendered list, the "Show more" button, the empty-result message, the
    detail overlay, the select boxes and the theme colours. */
module App {
  import opened Books
  import opened Paging
  import opened Theme
  import opened View

  /** The match set a session is browsing: the whole catalog before any
      search, the filter result of the latest search after one. */
  ghost function MatchSet(books: seq<Book>, lastQuery: Option<Query>): (s: seq<Book>) {
    match lastQuery
    case None => books
    case Some(q) => Filter(books, q)
  }

  /** The list shows the first `pages` pages of the match set `s`, the
      button's count is what is left after them, and the button is disabled
      exactly when that count is zero. */
  ghost predicate ShowsPages(s: seq<Book>, pages: nat, size: nat, authors: Table,
                             rendered: seq<Card>, count: nat, disabled: bool) {
    && rendered == CardsOf(s[..Shown(|s|, pages, size)], authors)
    && count == Remaining(|s|, pages, size)
    && disabled == (count == 0)
  }

  /** The session browses the match set of its latest search (the catalog
      before any), and the empty-result message is up exactly when a search
      found nothing. */
  ghost predicate BrowsesMatches(books: seq<Book>, lastQuery: Option<Query>, s: seq<Book>, emptyShown: bool) {
    && s == MatchSet(books, lastQuery)
    && emptyShown == (lastQuery.Some? && s == [])
  }

  /** The detail overlay is open only over a detail, and any detail it holds
      shows a book of the catalog. */
  ghost predicate ShowsCatalogBook(open: bool, detail: Option<Detail>, books: seq<Book>, authors: Table) {
    && (open ==> detail.Some?)
    && (detail.Some? ==> exists i :: 0 <= i < |books| && detail.value == DetailOf(books[i], authors))
  }

  /** One "Show more" step keeps `ShowsPages`: appending the cards of the
      slice the handler takes, with the count and flag it recomputes, shows
      one page more; nothing is appended exactly when the count was zero. */
  lemma NextPageKeepsInvariant(s: seq<Book>, k: nat, size: nat, authors: Table,
                               rendered: seq<Card>, count: nat, disabled: bool)
    requires size > 0
    requires ShowsPages(s, k, size, authors, rendered, count, disabled)
    ensures ShowsPages(s, k + 1, size, authors,
                       rendered + CardsOf(Slice(s, k * size, (k + 1) * size), authors),
                       Max(|s| - (k + 1) * size, 0), |s| <= (k + 1) * size)
    ensures Slice(s, k * size, (k + 1) * size) == Page(s, k, size)
    ensures disabled ==> CardsOf(Slice(s, k * size, (k + 1) * size), authors) == []
    ensures !disabled ==> |CardsOf(Slice(s, k * size, (k + 1) * size), authors)| > 0
  {
    NextPageExtendsPrefix(s, k, size);
    RemainingZeroIffNextPageEmpty(s, k, size);
    CardsOfAppend(s[..Shown(|s|, k, size)], Page(s, k, size), authors);
  }

  class Session {
    /** The static tables and page size the script imports. */
    const books: seq<Book>
    const authors: Table
    const genres: Table
    const pageSize: nat

    /** The pagination cursor. */
    var currentPage: nat
    var filteredBooks: seq<Book>
    ghost var lastQuery: Option<Query>

    /** The list element's cards, the button's state and label count, and
        whether the empty-result message is shown. */
    var rendered: seq<Card>
    var buttonDisabled: bool
    var remainingLabel: nat
    var emptyMessageShown: bool

    var genreOptions: seq<SelectOption>
    var authorOptions: seq<SelectOption>

    /** The detail overlay: open or not, and the fields last written into it. */
    var detailOpen: bool
    var detail: Option<Detail>

    var palette: Palette

    /** The rendered list is the cards of the first `currentPage` pages of the
        match set, the button's count is what is left after them and the
        button is disabled exactly when that count is zero; the empty-result
        message is up exactly when a search found nothing. */
    ghost predicate Valid()
      reads this
    {
      && pageSize > 0
      && currentPage >= 1
      && BrowsesMatches(books, lastQuery, filteredBooks, emptyMessageShown)
      && ShowsPages(filteredBooks, currentPage, pageSize, authors, rendered, remainingLabel, buttonDisabled)
      && ShowsCatalogBook(detailOpen, detail, books, authors)
    }

    /** Loading the script and then `DOMContentLoaded`: the cursor starts on
        page 1 over the whole catalog, the select boxes are filled, the button
        is set up, the theme follows the display preference and the first
        page is rendered into the (empty) list. */
    constructor (books: seq<Book>, authors: Table, genres: Table, pageSize: nat, prefersDark: bool)
      requires pageSize > 0
      ensures Valid()
      ensures this.books == books && this.authors == authors && this.genres == genres && this.pageSize == pageSize
      ensures currentPage == 1 && filteredBooks == books && lastQuery == None
      ensures rendered == CardsOf(Page(books, 0, pageSize), authors)
      ensures buttonDisabled <==> |books| <= pageSize
      ensures !emptyMessageShown && !detailOpen
      ensures ListsTable(genreOptions, genres, "All Genres")
      ensures ListsTable(authorOptions, authors, "All Authors")
      ensures palette == ThemeColors(InitialTheme(prefersDark))
    {
      this.books := books;
      this.authors := authors;
      this.genres := genres;
      this.pageSize := pageSize;
      currentPage := 1;
      filteredBooks := books;
      lastQuery := None;

      var genreList := PopulateSelect(genres, "All Genres");
      var authorList := PopulateSelect(authors, "All Authors");
      genreOptions, authorOptions := genreList, authorList;

      var remainingBooks: int := |books| - 1 * pageSize;
      remainingLabel := if remainingBooks > 0 then remainingBooks else 0;
      buttonDisabled := remainingBooks <= 0;

      palette := ThemeColors(InitialTheme(prefersDark));
      emptyMessageShown := false;
      detailOpen := false;
      detail := None;

      var fragment := RenderFragment(Slice(books, 0, pageSize), authors);
      rendered := [] + fragment;
      assert Slice(books, 0, pageSize) == books[..Shown(|books|, 1, pageSize)];
    }

    /** The "Show more" handler: appends the next page's cards, moves the
        cursor one page on and recomputes the button. Nothing already in the
        list changes; when the button was disabled nothing is appended. */
    method ShowMore()
      requires Valid()
      modifies this
      ensures Valid()
      ensures currentPage == old(currentPage) + 1
      ensures filteredBooks == old(filteredBooks) && lastQuery == old(lastQuery)
      ensures rendered == old(rendered) + CardsOf(Page(filteredBooks, old(currentPage), pageSize), authors)
      ensures old(buttonDisabled) ==> rendered == old(rendered)
      ensures !old(buttonDisabled) ==> |rendered| > |old(rendered)|
      ensures emptyMessageShown == old(emptyMessageShown)
      ensures detailOpen == old(detailOpen) && detail == old(detail) && palette == old(palette)
      ensures genreOptions == old(genreOptions) && authorOptions == old(authorOptions)
    {
      var k := currentPage;
      var fragment := RenderFragment(Slice(filteredBooks, k * pageSize, (k + 1) * pageSize), authors);
      NextPageKeepsInvariant(filteredBooks, k, pageSize, authors, rendered, remainingLabel, buttonDisabled);
      rendered := rendered + fragment;
      currentPage := k + 1;

      buttonDisabled := |filteredBooks| <= currentPage * pageSize;
      remainingLabel := Max(|filteredBooks| - currentPage * pageSize, 0);
    }

    /** `updateBookList(result)`: replaces the list with the cards of the first
        page of `result`, sets the button for page 1 and shows the empty-result
        message exactly when `result` is empty. */
    method UpdateBookList(result: seq<Book>)
      requires pageSize > 0
      modifies this
      ensures rendered == CardsOf(result[..Shown(|result|, 1, pageSize)], authors)
      ensures remainingLabel == Remaining(|result|, 1, pageSize)
      ensures buttonDisabled <==> remainingLabel == 0
      ensures emptyMessageShown <==> result == []
      ensures currentPage == old(currentPage) && filteredBooks == old(filteredBooks) && lastQuery == old(lastQuery)
      ensures detailOpen == old(detailOpen) && detail == old(detail) && palette == old(palette)
      ensures genreOptions == old(genreOptions) && authorOptions == old(authorOptions)
    {
      var fragment := RenderFragment(Slice(result, 0, pageSize), authors);
      assert Slice(result, 0, pageSize) == result[..Shown(|result|, 1, pageSize)];
      rendered := [];
      rendered := rendered + fragment;

      buttonDisabled := |result| <= pageSize;
      remainingLabel := Max(|result| - pageSize, 0);

      emptyMessageShown := |result| == 0;
    }

    /** The search form's submit handler: the match set becomes the filter
        result for `q`, the cursor goes back to page 1 and the list is
        re-rendered from scratch. */
    method SubmitFilter(q: Query)
      requires Valid()
      modifies this
      ensures Valid()
      ensures filteredBooks == Filter(books, q) && lastQuery == Some(q)
      ensures currentPage == 1
      ensures rendered == CardsOf(Page(filteredBooks, 0, pageSize), authors)
      ensures buttonDisabled <==> |filteredBooks| <= pageSize
      ensures emptyMessageShown <==> filteredBooks == []
      ensures detailOpen == old(detailOpen) && detail == old(detail) && palette == old(palette)
      ensures genreOptions == old(genreOptions) && authorOptions == old(authorOptions)
    {
      filteredBooks := Filter(books, q);
      lastQuery := Some(q);
      currentPage := 1;
      UpdateBookList(filteredBooks);
      assert Page(filteredBooks, 0, pageSize) == filteredBooks[..Shown(|filteredBooks|, 1, pageSize)];
    }

    /** The list's click handler: a click on a card with a non-empty id whose
        book is in the catalog opens the overlay with the first such book's
        fields; any other click changes nothing. */
    method OpenDetail(previewId: Option<string>)
      requires Valid()
      modifies this
      ensures Valid()
      ensures previewId.Some? && previewId.value != "" && FindById(books, previewId.value).Some? ==>
        detailOpen && detail == Some(DetailOf(FindById(books, previewId.value).value, authors))
      ensures !(previewId.Some? && previewId.value != "" && FindById(books, previewId.value).Some?) ==>
        detailOpen == old(detailOpen) && detail == old(detail)
      ensures currentPage == old(currentPage) && filteredBooks == old(filteredBooks) && lastQuery == old(lastQuery)
      ensures rendered == old(rendered) && buttonDisabled == old(buttonDisabled) && remainingLabel == old(remainingLabel)
      ensures emptyMessageShown == old(emptyMessageShown) && palette == old(palette)
      ensures genreOptions == old(genreOptions) && authorOptions == old(authorOptions)
    {
      if previewId.None? || previewId.value == "" {
        return;
      }
      var activeBook := FindById(books, previewId.value);
      if activeBook.Some? {
        detailOpen := true;
        detail := Some(DetailOf(activeBook.value, authors));
      }
    }

    /** `applyTheme(theme)`, as the settings form's submit handler calls it. */
    method ApplyTheme(theme: string)
      requires Valid()
      modifies this
      ensures Valid()
      ensures palette == ThemeColors(theme)
      ensures currentPage == old(currentPage) && filteredBooks == old(filteredBooks) && lastQuery == old(lastQuery)
      ensures rendered == old(rendered) && buttonDisabled == old(buttonDisabled) && remainingLabel == old(remainingLabel)
      ensures emptyMessageShown == old(emptyMessageShown) && detailOpen == old(detailOpen) && detail == old(detail)
      ensures genreOptions == old(genreOptions) && authorOptions == old(authorOptions)
    {
      palette := ThemeColors(theme);
    }
  }

  /** A session over five books with two per page: the counts after startup
      and after each "Show more". */
  method FiveBooksTwoPerPage(b1: Book, b2: Book, b3: Book, b4: Book, b5: Book)
  {
    var books := [b1, b2, b3, b4, b5];
    var s := new Session(books, [], [], 2, false);
    assert s.remainingLabel == 3 && !s.buttonDisabled;
    assert s.rendered == CardsOf([b1, b2], []);

    s.ShowMore();
    assert s.currentPage == 2 && s.remainingLabel == 1 && !s.buttonDisabled;
    assert s.rendered == CardsOf([b1, b2, b3, b4], []);

    s.ShowMore();
    assert s.remainingLabel == 0 && s.buttonDisabled;
    assert s.rendered == CardsOf(books, []);
  }

  /** A search that finds nothing raises the empty-result message; a later
      one that finds something takes it down again. */
  method EmptyThenFound(books: seq<Book>, miss: Query, hit: Query)
    requires Filter(books, miss) == [] && Filter(books, hit) != []
  {
    var s := new Session(books, [], [], 2, true);
    s.SubmitFilter(miss);
    assert s.emptyMessageShown && s.rendered == [] && s.buttonDisabled;
    s.SubmitFilter(hit);
    assert !s.emptyMessageShown && s.rendered != [];
  }
}
