/** The page's state and its event handlers (script.js0.js:31, 134-192): the global
    `books` list, the copy last written to storage, the filter selector's value and
    what is on screen. Every handler that changes the list saves it and re-renders
    the current view; a rejected add and a declined clear do neither. A save is
    taken to succeed. */
module Store {
  import opened Books
  import Text
  import TitleSort

  /** Why the add handler stopped: the alert it raised, or success. */
  datatype AddOutcome = Added | MissingTitle | MissingAuthor

  class BookStore {
    /** The global `books` list. */
    var books: seq<Book>
    /** The list as last passed to `saveBooksToStorage`. */
    var stored: seq<Book>
    /** The value of the category filter selector. */
    var filter: string
    /** The cards and the "no books" message as last rendered. */
    var screen: Screen

    /** Storage mirrors the list, and the screen shows the view the filter derives from it. */
    ghost predicate Valid()
      reads this
    {
      stored == books && screen == Render(View(books, filter))
    }

    /** Page start: `loaded` is what `loadBooksFromStorage` returned, then the first render. */
    constructor (loaded: seq<Book>, initialFilter: string)
      ensures Valid()
      ensures books == loaded && filter == initialFilter
    {
      books := loaded;
      stored := loaded;
      filter := initialFilter;
      screen := Render(View(loaded, initialFilter));
    }

    /** `applyCurrentView`: derive the view from the current filter and render it. */
    method ApplyCurrentView()
      requires stored == books
      modifies this`screen
      ensures Valid()
    {
      screen := Render(View(books, filter));
    }

    /** The add button: both fields are trimmed; an empty title is reported before an
        empty author; otherwise one record is appended, saved and the view re-rendered. */
    method Add(titleValue: string, authorValue: string, category: string, id: int)
      returns (outcome: AddOutcome)
      requires Valid()
      modifies this
      ensures Valid() && filter == old(filter)
      ensures outcome == if Text.Trim(titleValue) == [] then MissingTitle
                         else if Text.Trim(authorValue) == [] then MissingAuthor
                         else Added
      ensures outcome != Added ==> books == old(books) && stored == old(stored) && screen == old(screen)
      ensures outcome == Added ==>
                books == old(books) + [MakeBook(id, Text.Trim(titleValue), Text.Trim(authorValue), category)]
    {
      var title := Text.Trim(titleValue);
      var author := Text.Trim(authorValue);
      if title == [] {
        return MissingTitle;
      }
      if author == [] {
        return MissingAuthor;
      }
      Append(MakeBook(id, title, author, category));
      outcome := Added;
    }

    /** The add handler once its checks have passed: push the record, save, re-render. */
    method Append(book: Book)
      requires Valid()
      modifies this
      ensures Valid() && filter == old(filter)
      ensures books == old(books) + [book]
    {
      books := books + [book];
      stored := books;
      ApplyCurrentView();
    }

    /** A card's delete button: every record with that id goes, the rest keep their order. */
    method Delete(bookId: int)
      requires Valid()
      modifies this
      ensures Valid() && filter == old(filter)
      ensures books == WithoutId(old(books), bookId)
    {
      books := WithoutId(books, bookId);
      stored := books;
      ApplyCurrentView();
    }

    /** The A to Z and Z to A buttons: a stable sort of the list by title. */
    method SortByTitle(descending: bool)
      requires Valid()
      modifies this
      ensures Valid() && filter == old(filter)
      ensures books == TitleSort.SortByTitle(old(books), descending)
    {
      books := TitleSort.SortByTitle(books, descending);
      stored := books;
      ApplyCurrentView();
    }

    /** The filter selector changed: only the screen follows. */
    method ChangeFilter(value: string)
      requires Valid()
      modifies this
      ensures Valid()
      ensures filter == value && books == old(books) && stored == old(stored)
    {
      filter := value;
      ApplyCurrentView();
    }

    /** The clear-all button, with the answer to its confirmation dialog. */
    method ClearAll(confirmed: bool)
      requires Valid()
      modifies this
      ensures Valid() && filter == old(filter)
      ensures confirmed ==> books == [] && screen.emptyMessage
      ensures !confirmed ==> books == old(books) && stored == old(stored) && screen == old(screen)
      ensures screen.emptyMessage <==> View(books, filter) == []
    {
      if !confirmed {
        return;
      }
      books := [];
      stored := books;
      ApplyCurrentView();
    }
  }
}
