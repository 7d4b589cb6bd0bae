# Book catalog session, modelled in Dafny

A model of the logic in `scripts.js` of a single-page book browser. The page
lists preview cards for a static catalog, a page at a time. A search form
filters the catalog by title, author and genre. A "Show more" button appends
the next page. A click on a card opens a detail overlay. A settings form
switches between a day and a night theme.

The model is split by concern:

- `jstext.dfy` (module `JsText`): the string built-ins the title clause uses.
  These are `trim` (over the full ECMAScript whitespace and line-terminator
  set), `toLowerCase` (ASCII letters only) and `includes`.
- `books.dfy` (module `Books`): the book record, the search query, the filter
  predicate and `Filter`. It also holds the lookup of a book by id and of a
  name in the `authors` table.
- `paging.dfy` (module `Paging`): `slice`, the page that "Show more" appends,
  the prefix shown after a number of pages, and the count on the button.
- `theme.dfy` (module `Theme`): `applyTheme`'s colour pair and the startup
  theme.
- `view.dfy` (module `View`): what the script writes into the page. This
  covers preview cards, detail-overlay fields and select options, plus the
  two loops that build them (`RenderFragment`, `PopulateSelect`).
- `app.dfy` (module `App`): class `Session`. It holds the module-level cursor
  (`currentPage`, `filteredBooks`) and the page state the handlers change in
  place. Its methods are the handlers. Its invariant `Valid()` states these
  facts:
  - the rendered list is the cards of the first `currentPage` pages of the
    match set;
  - the button's count is what remains after those pages;
  - the button is disabled exactly when that count is zero;
  - the empty-result message is up exactly when a search found nothing.

  Two client methods, `FiveBooksTwoPerPage` and `EmptyThenFound`, walk a
  session through "Show more" and through an empty and then a non-empty
  search, using only the contracts.

The catalog tables and the page size (`books`, `authors`, `genres`,
`BOOKS_PER_PAGE`) are imported from `data.js`, which is not part of this
model. They are constructor parameters, with a positive page size. The dark
colour-scheme preference is a boolean parameter. A search is the three form
fields as strings. An id-to-name table is the sequence of its entries, in the
order `Object.entries` yields them.

The title query is trimmed only to decide whether it is blank
(scripts.js:141). A non-blank query is matched untrimmed, so `" dune"` does
not match the title `"Dune"` (`Books.PaddedTitleIsNotTrimmed`).

## Model

| member | source | states |
|---|---|---|
| `JsText.TrimStartDropsLeadingSpace` | scripts.js:141 | the result is a suffix of the input, every dropped character is trim-whitespace, and the result does not start with one |
| `JsText.TrimEndDropsTrailingSpace` | scripts.js:141 | the result is a prefix of the input, every dropped character is trim-whitespace, and the result does not end with one |
| `JsText.Trim` | scripts.js:141 | `trim()` as leading then trailing trimming; characterised by `TrimKeepsInnerRun` and `TrimIsEmptyIffAllTrimmable` |
| `JsText.TrimKeepsInnerRun` | scripts.js:141 | `trim()` yields a contiguous run of the input, everything before and after it is whitespace or a line terminator, and neither end of the run is |
| `JsText.TrimIsEmptyIffAllTrimmable` | scripts.js:141 | `title.trim() === ""` holds exactly when every character is whitespace or a line terminator, so a whitespace-only title is blank |
| `JsText.Lower` | scripts.js:141 | lower-casing keeps the length, maps each upper-case ASCII letter to its lower-case letter and keeps every other character, so no upper-case ASCII letter remains |
| `JsText.LowerIdempotent` | scripts.js:141 | lower-casing an already lower-cased string changes nothing |
| `JsText.LowerKeepsBlankness` | scripts.js:141 | a string is blank after trimming exactly when its lower-cased form is |
| `JsText.LowerCharKeepsTrimmable` | scripts.js:141 | lower-casing a character never changes whether `trim` removes it |
| `JsText.Includes` | scripts.js:141 | `s.includes(t)` as a scan over the start positions of `s`; characterised by `IncludesIffOccurs` |
| `JsText.IncludesIffOccurs` | scripts.js:141 | `s.includes(t)` is true exactly when `t` occurs at some position of `s` |
| `Books.TitleMatches` | scripts.js:141 | the title clause: a title query that trims to empty passes, otherwise the lower-cased query must occur in the lower-cased title; see `PaddedTitleIsNotTrimmed`, `MatchIgnoresCase` |
| `Books.AuthorMatches` | scripts.js:142 | the author clause: "any" or the book's exact author id |
| `Books.GenreMatches` | scripts.js:143 | the genre clause: "any" or one of the book's genre ids; see `GenreOnlyMatches` |
| `Books.Matches` | scripts.js:140-145 | the filter callback: all three clauses hold; `Kept` and `FilterMembership` tie the filter result to it |
| `Books.Kept` | scripts.js:140-145 | the filter keeps a single book exactly when it matches all three clauses |
| `Books.Filter` | scripts.js:140-145 | the result is never longer than the catalog |
| `Books.FilterIsSubsequence` | scripts.js:140-145 | the filter result is an order-preserving subsequence of the catalog |
| `Books.FilterMembership` | scripts.js:140-145 | a book is in the result if and only if it is in the catalog and matches the title, author and genre clauses |
| `Books.FilterAppend` | scripts.js:140-145 | filtering a concatenation is the concatenation of the filtered parts, so the filter decides book by book |
| `Books.FilterKeepsAllIff` | scripts.js:140-145 | the filter returns the catalog unchanged if and only if every book matches |
| `Books.OpenQueryKeepsAll` | scripts.js:141-143 | a blank title, including a whitespace-only one, with author and genre "any" returns the catalog unchanged |
| `Books.MatchIgnoresCase` | scripts.js:141 | lower-casing the query title or the book title never changes whether a book matches |
| `Books.PaddedTitleIsNotTrimmed` | scripts.js:141 | a non-blank query is matched untrimmed: " dune" misses "Dune" while "dune" hits it |
| `Books.GenreOnlyMatches` | scripts.js:140-145 | with a blank title and author "any", a single book is kept exactly when the genre is "any" or among the book's genres |
| `Books.GenreOnlyFilter` | scripts.js:140-145 | a search by a specific genre alone returns exactly the catalog's books of that genre, in catalog order |
| `Books.FindById` | scripts.js:176 | the result is empty exactly when no book has the id; otherwise it is the first book with that id |
| `Books.Lookup` | scripts.js:65 | the result is empty exactly when the table has no entry for the key; otherwise it is the name of the key's first entry (inherited `Object.prototype` names count as absent, see below) |
| `Books.AuthorName` | scripts.js:182 | a listed author's name is the one the table's first entry for the id gives; an id that is neither listed nor an `Object.prototype` property renders as "undefined" |
| `Paging.Slice` | scripts.js:157 | `slice(start, end)` is the run of the sequence from `start`, clipped to its end, and empty when `end <= start` |
| `Paging.Page` | scripts.js:157 | the page "Show more" appends never holds more than a page size of books |
| `Paging.Shown` | scripts.js:157-165 | the first `k` pages never hold more than the whole match set: they hold either all of it or exactly `k` full pages |
| `Paging.Remaining` | scripts.js:164-167 | the button's count plus the books already shown is the whole match set, and the count is zero exactly when the shown pages reach its end |
| `Paging.NextPageExtendsPrefix` | scripts.js:157-162 | appending the next page to the prefix shown after `k` pages gives the prefix shown after `k + 1` pages |
| `Paging.PagesArePrefix` | scripts.js:155-162 | the first `k` pages, concatenated, are exactly the first `min(n, k * size)` books of the match set, without gap or repeat |
| `Paging.PagesExhaust` | scripts.js:155-162 | once `k * size` reaches the match set's length, the pages reconstruct it exactly |
| `Paging.RemainingZeroIffNextPageEmpty` | scripts.js:164-167 | with a positive page size, the count is zero if and only if the next page is empty |
| `Theme.ThemeColors` | scripts.js:206-209 | `--color-dark` is white exactly for "night", and the two properties always hold the white and ink values, one each |
| `Theme.InitialTheme` | scripts.js:189-193 | the startup theme is "night" if and only if a dark scheme is preferred, and "day" otherwise |
| `Theme.OtherThemesSwapNight` | scripts.js:206-209 | every theme other than "night" gives the night colour pair swapped |
| `View.CardOf` | scripts.js:56-67 | the values `createBookElement` writes into a preview: id, title, cover image and the author's display name ("undefined" when the table lacks it, by `AuthorName`) |
| `View.DetailOf` | scripts.js:178-183 | the values the detail overlay shows: image (backdrop and cover), title, author name, publication text and description |
| `View.CardsOfAppend` | scripts.js:157-161 | rendering two runs of books one after the other gives the cards of both, in order |
| `App.NextPageKeepsInvariant` | scripts.js:155-168 | after one more page the list is the old list plus that page's cards, the count is what remains past it, the button is disabled iff the count is zero, and a disabled button means the appended page is empty |
| `View.RenderFragment` | scripts.js:74-79 | the fragment-building loop yields one card per book of the slice, in order |
| `View.PopulateSelect` | scripts.js:91-98 | the options are "any" with the default text first, then one option per table entry in the table's order |
| `App.Session.Valid` | scripts.js:155-168 | the session invariant: the list is the cards of the first `currentPage` pages of the match set, the button count is what remains, the button is disabled iff that count is zero, the empty-result message is up iff a search found nothing, and an open detail shows a catalog book |
| `App.Session.constructor` | scripts.js:101-110 | at startup the cursor is on page 1 over the whole catalog and the list holds the first page. The button is disabled iff the catalog fits on one page. The select boxes list the tables, the palette follows the preference, and the invariant holds |
| `App.Session.ShowMore` | scripts.js:155-168 | appends exactly the next page's cards and leaves earlier cards untouched. Advances `currentPage` by exactly 1, appends nothing when the button was disabled, changes nothing else, and keeps the invariant |
| `App.Session.UpdateBookList` | scripts.js:212-228 | replaces the list with the first page of the result and sets the count and disabled flag for page 1 so that they agree. Shows the empty-result message iff the result is empty |
| `App.Session.SubmitFilter` | scripts.js:136-152 | the match set becomes the filter result and the cursor goes back to page 1. The list is replaced by the first page, the message reflects whether the result is empty, and the invariant holds |
| `App.Session.OpenDetail` | scripts.js:172-185 | a non-empty id found in the full catalog opens the overlay with the first such book's fields. A missing, empty or unknown id changes nothing |
| `App.Session.ApplyTheme` | scripts.js:196-209 | the settings form sets the palette to `applyTheme`'s pair for the chosen theme and changes nothing else |

## Left out

- `JsText.Lower`: models `toLowerCase` on ASCII letters only. Unicode case mapping is not modelled.
- `App.Session.OpenDetail`: the overlay's subtitle year comes from parsing the publication date with the host's `Date`. The detail keeps the raw `published` text instead.
- `App.Session.ShowMore`: a browser does not deliver clicks on a disabled button. The model lets the handler run in that state too, where it appends nothing and only advances `currentPage`, exactly as the code would.
- `App.Session.constructor`: the script never toggles the empty-result message at startup. For an empty catalog it therefore stays hidden until a search. The invariant says so: the message is up only after a search that found nothing.
- `App.Session.constructor`: reading the dark-scheme preference (`window.matchMedia`) is a host query. It is a boolean parameter here.
- The contents of `data.js` (the catalog, the `authors` and `genres` tables and `BOOKS_PER_PAGE`) are not part of this model. They are parameters.
- `Object.entries` ordering (integer-like keys first) is not modelled. A table's entries are taken in the order they are listed.
- `loadMetaHTML`: a network fetch into the document head (I/O).
- `book-preview.js`: a custom element that only copies attributes into markup.
- DOM plumbing is not modelled:
  - element lookups;
  - the HTML of cards and options (each is modelled as the tuple of values written into it);
  - `FormData` parsing (a search is the three field strings, the theme one string);
  - focusing, scrolling;
  - opening and closing the search and settings overlays, and closing the detail overlay.
- Numbers: page arithmetic uses unbounded integers. JavaScript numbers are doubles, which agree for any realistic catalog size.
- Id uniqueness in the catalog is not checked, because the script does not check it either. The lookup returns the first book with the id.
- `Books.Lookup`: `table[key]` on a JavaScript object also finds properties inherited from `Object.prototype` (`constructor`, `toString`, `__proto__`, ...). The model treats such keys as absent.
- `Books.AuthorName`: for an author id such as `"constructor"` that is not in the table, the card and the overlay subtitle would show the inherited property's text, not "undefined". The model renders "undefined" for every unlisted id.
- `Books.Lookup`: a table is a sequence of entries, so it may list a key twice, which a JavaScript object cannot. The lookup then takes the first entry.
