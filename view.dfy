/** What the script hands to the page: a preview card per listed book, the
    fields of the detail overlay, and the options of the two select boxes.
    Markup and styling are not modelled; each element is the tuple of values
    the script writes into it. */
module View {
  import opened Books

  /** A preview button made by `createBookElement`. */
  datatype Card = Card(id: string, title: string, authorName: string, image: string)

  /** The fields the detail overlay shows for the active book. The blurred
      backdrop and the cover both show `image`. */
  datatype Detail = Detail(image: string, title: string, authorName: string, published: string, description: string)

  /** An `<option>` made by `createOption`. */
  datatype SelectOption = SelectOption(value: string, text: string)

  function CardOf(b: Book, authors: Table): (c: Card) {
    Card(b.id, b.title, AuthorName(authors, b.author), b.image)
  }

  /** The cards for a run of books, in the same order. */
  function CardsOf(books: seq<Book>, authors: Table): (cards: seq<Card>) {
    seq(|books|, i requires 0 <= i < |books| => CardOf(books[i], authors))
  }

  function DetailOf(b: Book, authors: Table): (d: Detail) {
    Detail(b.image, b.title, AuthorName(authors, b.author), b.published, b.description)
  }

  /** Rendering two runs one after the other gives the cards of both. */
  lemma CardsOfAppend(xs: seq<Book>, ys: seq<Book>, authors: Table)
    ensures CardsOf(xs + ys, authors) == CardsOf(xs, authors) + CardsOf(ys, authors)
  {
  }

  /** The loop that fills a document fragment with one card per book of a
      slice: the fragment holds the slice's cards, in order. */
  method RenderFragment(slice: seq<Book>, authors: Table) returns (fragment: seq<Card>)
    ensures fragment == CardsOf(slice, authors)
  {
    fragment := [];
    for i := 0 to |slice|
      invariant fragment == CardsOf(slice[..i], authors)
    {
      assert slice[..i + 1] == slice[..i] + [slice[i]];
      CardsOfAppend(slice[..i], [slice[i]], authors);
      fragment := fragment + [CardOf(slice[i], authors)];
    }
    assert slice[..|slice|] == slice;
  }

  /** The options of a select box over `table`: the "any" option with the
      default text first, then one option per table entry, in the table's order. */
  ghost predicate ListsTable(options: seq<SelectOption>, table: Table, defaultText: string) {
    && |options| == |table| + 1
    && options[0] == SelectOption(Any, defaultText)
    && forall i :: 0 <= i < |table| ==> options[i + 1] == SelectOption(table[i].0, table[i].1)
  }

  /** `populateSelect`: the loop that lists a table as select options. */
  method PopulateSelect(table: Table, defaultText: string) returns (options: seq<SelectOption>)
    ensures ListsTable(options, table, defaultText)
  {
    options := [SelectOption(Any, defaultText)];
    for i := 0 to |table|
      invariant |options| == i + 1
      invariant options[0] == SelectOption(Any, defaultText)
      invariant forall j :: 0 <= j < i ==> options[j + 1] == SelectOption(table[j].0, table[j].1)
    {
      options := options + [SelectOption(table[i].0, table[i].1)];
    }
  }
}
