/** The book record, the view derivation of `applyCurrentView`, the list update of
    `deleteBook` and the data side of `renderBooks` (script.js0.js). */
module Books {
  import Seqs
  import Html

  /** The placeholder cover every record gets (script.js0.js:13). */
  const BOOK_IMAGE: string := "https://m.media-amazon.com/images/I/71ZB18P3inL._SY522_.jpg"

  /** The filter option that means "no category restriction". */
  const ALL_FILTER: string := "All"

  datatype Book = Book(id: int, title: string, author: string, category: string, imageUrl: string)

  /** `createBookObject`, with the generated id passed in. */
  function MakeBook(id: int, title: string, author: string, category: string): (b: Book)
    ensures b.id == id && b.title == title && b.author == author && b.category == category
    ensures b.imageUrl == BOOK_IMAGE
  {
    Book(id, title, author, category, BOOK_IMAGE)
  }

  /** The records of category `c`, in list order. */
  function InCategory(books: seq<Book>, c: string): (r: seq<Book>)
  {
    Seqs.Filter(books, (b: Book) => b.category == c)
  }

  /** The filter step of `applyCurrentView`: an empty filter value and "All" keep every
      record, any other value keeps the records whose category is exactly that value. */
  function View(books: seq<Book>, filter: string): (view: seq<Book>)
    ensures filter == "" || filter == ALL_FILTER ==> view == books
    ensures filter != "" && filter != ALL_FILTER ==>
              && Seqs.IsSubsequence(view, books)
              && (forall b :: b in view ==> b.category == filter)
              && (forall b :: multiset(view)[b] == if b.category == filter then multiset(books)[b] else 0)
  {
    if filter == "" || filter == ALL_FILTER then books else InCategory(books, filter)
  }

  /** Deriving the view from a view with the same filter changes nothing. */
  lemma ViewIdempotent(books: seq<Book>, filter: string)
    ensures View(View(books, filter), filter) == View(books, filter)
  {
    if filter != "" && filter != ALL_FILTER {
      Seqs.FilterIdempotent(books, (b: Book) => b.category == filter);
    }
  }

  /** The list `deleteBook` leaves: every record whose id differs from `bookId`. */
  function WithoutId(books: seq<Book>, bookId: int): (r: seq<Book>)
    ensures Seqs.IsSubsequence(r, books)
    ensures forall b :: b in r ==> b.id != bookId
    ensures forall b :: multiset(r)[b] == if b.id != bookId then multiset(books)[b] else 0
  {
    Seqs.Filter(books, (b: Book) => b.id != bookId)
  }

  /** Deleting an id no record carries leaves the list as it is. */
  lemma WithoutAbsentId(books: seq<Book>, bookId: int)
    requires forall i :: 0 <= i < |books| ==> books[i].id != bookId
    ensures WithoutId(books, bookId) == books
  {
    Seqs.FilterKeepsAll(books, (b: Book) => b.id != bookId);
  }

  /** The text of one card: the escaped title (also in the cover's alt text), author
      and category, with the record's id and image reference. */
  datatype Card = Card(id: int, imageUrl: string, altText: string,
                       title: string, author: string, category: string)

  /** What `renderBooks` puts on the page: the cards, and whether the "no books"
      message is displayed. */
  datatype Screen = Screen(cards: seq<Card>, emptyMessage: bool)

  /** One card of `renderBooks`, carrying its record's id and cover (what its texts say is
      stated by `RenderIsEscaped`). */
  function RenderCard(b: Book): (card: Card)
    ensures card.id == b.id && card.imageUrl == b.imageUrl
  {
    Card(b.id, b.imageUrl, Html.EscapeHtml(b.title) + " cover",
         Html.EscapeHtml(b.title), "By " + Html.EscapeHtml(b.author), Html.EscapeHtml(b.category))
  }

  /** `renderBooks`: the message shows exactly when there is nothing to render;
      otherwise one card per record, in order. */
  function Render(view: seq<Book>): (screen: Screen)
    ensures screen.emptyMessage <==> |view| == 0
    ensures |screen.cards| == |view|
    ensures forall i :: 0 <= i < |view| ==> screen.cards[i].id == view[i].id
  {
    if |view| == 0 then Screen([], true)
    else Screen(seq(|view|, i requires 0 <= i < |view| => RenderCard(view[i])), false)
  }

  /** The title, author and category texts of every rendered card are free of `<` and `>`,
      and every `&` in them begins `&amp;`, `&lt;` or `&gt;`; the card shows its record's
      cover, and its title, author and category give back the record's own when unescaped. */
  lemma RenderIsEscaped(view: seq<Book>, i: int)
    requires 0 <= i < |view|
    ensures var card := Render(view).cards[i];
      && (forall k :: 0 <= k < |card.title| ==> card.title[k] != '<' && card.title[k] != '>')
      && (forall k :: 0 <= k < |card.author| ==> card.author[k] != '<' && card.author[k] != '>')
      && (forall k :: 0 <= k < |card.category| ==> card.category[k] != '<' && card.category[k] != '>')
      && Html.Markupless(card.title) && Html.Markupless(card.author[3..]) && Html.Markupless(card.category)
      && card.imageUrl == view[i].imageUrl
      && card.altText == card.title + " cover"
      && card.author[..3] == "By "
      && Html.Unescape(card.title) == view[i].title
      && Html.Unescape(card.author[3..]) == view[i].author
      && Html.Unescape(card.category) == view[i].category
  {
    var b := view[i];
    Html.EscapeHtmlMarkupless(b.title);
    Html.EscapeHtmlMarkupless(b.author);
    Html.EscapeHtmlMarkupless(b.category);
    Html.UnescapeEscapeHtml(b.title);
    Html.UnescapeEscapeHtml(b.author);
    Html.UnescapeEscapeHtml(b.category);
    var author := "By " + Html.EscapeHtml(b.author);
    assert author[3..] == Html.EscapeHtml(b.author);
    assert forall k :: 3 <= k < |author| ==> author[k] == Html.EscapeHtml(b.author)[k - 3];
  }
}
