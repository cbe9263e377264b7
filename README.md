# DomBookApp, modelled in Dafny

DomBookApp is a one-page book catalogue administered in the browser. A user adds
books by title, author and category. The page shows each book as a card with a
placeholder cover and a delete button. The list can be sorted by title, A to Z or
Z to A, narrowed to one category, or cleared after a confirmation dialog. The list
is kept in the browser's `localStorage`. After a successful save, every change
re-renders the current view.

This project models the data side of that page (`script.js0.js`):

- `seqs.dfy`, module `Seqs`: the order-preserving filter behind
  `Array.prototype.filter`, the subsequence relation and reversal.
- `html.dfy`, module `Html`: `escapeHtml`, its three successive global
  replacements, an inverse `Unescape`, and a per-character reference encoding
  that the laws are proved through.
- `text.dfy`, module `Text`: `String.prototype.trim` over JavaScript's
  white-space and line-terminator characters.
- `books.dfy`, module `Books`: the book record and `createBookObject`; the view
  that `applyCurrentView` derives from the filter selector; the list
  `deleteBook` leaves; and what `renderBooks` shows (the cards' escaped texts and
  the "no books" message).
- `titlesort.dfy`, module `TitleSort`: the two sort handlers, as a stable
  insertion sort under the title comparator. It is proved to be a permutation,
  to be sorted, to be stable, and to be idempotent. When no two titles compare
  equal, sorting Z to A after A to Z reverses the list.
- `store.dfy`, module `Store`: the page state as a class `BookStore`. Its fields
  are the `books` list, the copy last saved to storage, the filter selector's
  value and the rendered screen. Each event handler is a method that keeps that
  state consistent.

One property of the escaping is worth knowing. `escapeHtml` leaves `"` as it is,
yet `renderBooks` places the escaped title inside the double-quoted `alt`
attribute of the cover image (`script.js0.js:80`). The lemma
`Html.EscapeHtmlKeepsQuote` states that every `"` of any input survives escaping. The model follows the code.

## Model

| member | source | states |
|---|---|---|
| Seqs.Filter | script.js0.js:199-200 | the filtered list is a subsequence of the input (order kept), holds exactly the elements that satisfy the predicate, and each with its full multiplicity |
| Html.EscapeHtml | script.js0.js:110-115 | the escaped text is never shorter than the input |
| Html.EscapeHtmlIsEncode | script.js0.js:110-115 | the three global replacements, `&` first, amount to replacing each `&`, `<` and `>` by its own entity and keeping every other character |
| Html.UnescapeEscapeHtml | script.js0.js:110-115 | undoing the replacements in reverse order (`&gt;`, `&lt;`, then `&amp;`) gives back the original text: escaping loses nothing |
| Html.EscapeHtmlMarkupless | script.js0.js:110-115 | escaped text contains no `<` and no `>`, and every `&` in it begins `&amp;`, `&lt;` or `&gt;` |
| Html.EscapeHtmlPlain | script.js0.js:110-115 | text without `&`, `<` or `>` is returned unchanged |
| Html.EscapeHtmlLength | script.js0.js:110-115 | the escaped length is the input length plus 4 per `&` and 3 per `<` or `>`, so never shorter than the input |
| Html.EscapeHtmlKeepsQuote | script.js0.js:110-115 | the escaped text holds exactly as many double quotes as the input: every `"` survives escaping |
| Text.Trim | script.js0.js:142-143 | the trimmed text is the slice of the input between its leading and trailing white space; it is empty exactly when the input is all white space, and otherwise starts and ends with a non-white-space character |
| Text.TrimIdempotent | script.js0.js:142-143 | trimming a trimmed value changes nothing |
| Books.MakeBook | script.js0.js:51-58 | the record carries the given id, title, author and category, and the placeholder cover `BOOK_IMAGE` |
| Books.View | script.js0.js:196-201 | an empty filter value or "All" gives the whole list; any other value gives the records of exactly that category, in list order, each as often as in the list |
| Books.ViewIdempotent | script.js0.js:199-201 | filtering the view again by the same value changes nothing |
| Books.WithoutId | script.js0.js:135 | deleting keeps, in order and with their multiplicities, exactly the records whose id differs from the deleted one |
| Books.WithoutAbsentId | script.js0.js:135 | deleting an id that no record carries leaves the list as it is |
| Books.Render | script.js0.js:66-77 | the "no books" message is shown exactly when the view is empty; otherwise there is one card per record, in view order, carrying that record's id |
| Books.RenderCard | script.js0.js:77-80 | a card carries its record's id and its record's cover image |
| Books.RenderIsEscaped | script.js0.js:79-84 | the title, author and category texts of every card contain no `<` or `>`, and every `&` in the title, in the author after "By " and in the category begins `&amp;`, `&lt;` or `&gt;`; the card shows its record's cover, its alt text is the displayed title followed by " cover", its author line is "By " followed by text that unescapes to the record's author, and its title and category unescape to the record's own |
| TitleSort.FoldCase | script.js0.js:170 | the comparison key has the title's length and each character lower-cased |
| TitleSort.BeforeEqualTitles | script.js0.js:170 | titles that compare equal, ignoring case, let either record stand before the other, in both directions |
| TitleSort.BeforeTotal | script.js0.js:170 | of any two records, one may stand before the other under the comparator |
| TitleSort.BeforeTransitive | script.js0.js:176 | the comparator's order is transitive, in both directions of sorting |
| TitleSort.SortByTitle | script.js0.js:169-179 | the sorted list is as long as the input (what it holds and in which order is stated by the lemmas below) |
| TitleSort.SortByTitlePermutes | script.js0.js:169-179 | sorting keeps exactly the records of the list, with their multiplicities |
| TitleSort.SortByTitleSorted | script.js0.js:169-179 | after sorting, every record may stand before every later one: titles ascend for A to Z and descend for Z to A |
| TitleSort.SortByTitleStable | script.js0.js:169-179 | records whose titles compare equal keep their relative order |
| TitleSort.SortSortedIsIdentity | script.js0.js:169-179 | a list already in order is left as it is |
| TitleSort.SortByTitleIdempotent | script.js0.js:169-179 | pressing the same sort button twice gives the same list as pressing it once |
| TitleSort.SortedUnique | script.js0.js:169-179 | when no two records' titles compare equal, two sorted arrangements of the same records are identical |
| TitleSort.SortDescendingReversesAscending | script.js0.js:169-179 | when no two titles compare equal, Z to A applied to the A to Z result is that result reversed |
| TitleSort.SortIgnoresCase | script.js0.js:170 | the comparison ignores letter case: "apple" sorts before "Banana" from A to Z |
| Store.BookStore.constructor | script.js0.js:31 | the page starts with the list read from storage and renders the view of the initial filter |
| Store.BookStore.ApplyCurrentView | script.js0.js:195-204 | the screen becomes the rendering of the current filter's view of the list |
| Store.BookStore.Add | script.js0.js:141-166 | an all-white-space title is rejected first, then an all-white-space author, and either rejection leaves everything unchanged; otherwise one record with the trimmed title and author, the chosen category and the placeholder cover is appended, saved and the view re-rendered |
| Store.BookStore.Append | script.js0.js:156-165 | the record is pushed onto the end of the list, the list is saved, and the view is re-rendered under the unchanged filter |
| Store.BookStore.Delete | script.js0.js:134-138 | the list loses exactly the records with that id, is saved, and the view is re-rendered under the unchanged filter |
| Store.BookStore.SortByTitle | script.js0.js:169-179 | the list becomes its stable title sort in the chosen direction, is saved, and the view is re-rendered |
| Store.BookStore.ChangeFilter | script.js0.js:182-184 | only the filter and the screen change; the list and storage stay as they were |
| Store.BookStore.ClearAll | script.js0.js:187-192 | a declined confirmation changes nothing; a confirmed one empties and saves the list and shows the "no books" message |

## Left out

- The DOM: element look-ups, `innerHTML`, the card markup and its event wiring. A rendered card is a record of its texts and the record's id and image.
- `localStorage` and JSON: loading is the constructor's parameter, and saving is the `stored` field. Malformed storage content and the `try`/`catch` fallback (`script.js0.js:34-43`) are not modelled. Records read from storage are not revalidated, as in the code.
- `saveBooksToStorage` (`script.js0.js:46-48`): the model takes every save to succeed. If `setItem` throws, for example because storage is full, the handler stops after changing the list and before the save or the re-render. The list is then changed but neither saved nor shown. The model does not capture that state, and `Store.BookStore.Valid` does not hold in it.
- Id generation from `Date.now()` and `Math.random()` (`script.js0.js:53`): the id is a parameter of `Store.BookStore.Add`. Ids are not proved unique, and the code does not guarantee that either.
- `alert` and `confirm`: the dialogs' messages are not modelled. The confirmation's answer is a parameter of `Store.BookStore.ClearAll`. The add handler's alerts are the `AddOutcome` values.
- TitleSort.Before: `localeCompare` at base sensitivity is approximated by the order of character codes after ASCII lower-casing. Accents, non-ASCII case and locale collation are not modelled.
- TitleSort.SortByTitle: the engine's sort algorithm is not modelled. A stable insertion sort stands in for it. ECMAScript 2019 requires `Array.prototype.sort` to be stable, so the sorted result is the same.
- `toggleComplete` (`script.js0.js:118-131`): it only changes the style of a card title and no state.
- Clearing the input fields after an add (`script.js0.js:161-162`): this is DOM only.
- `String(str)` in `escapeHtml`: every input in the model is already a string.
- The initial `DOMContentLoaded` render (`script.js0.js:207-209`): the constructor renders on creation.
