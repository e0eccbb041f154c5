# BooksCollector in Dafny

A model of `BooksCollector`, the small in-memory book catalog exercised by
`test_main.py`. A collector owns two pieces of state:

- `books_genre`: a dict from book title to genre. A genre is `""` until one is
  assigned.
- a list of favourite titles.

Its operations are:

- `add_new_book`: register a title of 1 to 40 characters;
- `set_book_genre`: assign a genre, taken only when it is one of a fixed,
  case-exact set of labels;
- `get_book_genre`: look up a genre, with `None` for an unknown title;
- `get_books_genre`: return the whole registry;
- `get_books_with_specific_genre`: list the titles with a given genre;
- `get_books_for_children`: list the titles whose genre is recognised and
  not age-rated (a book without a genre is not listed);
- `add_book_in_favorites`, `delete_book_from_favorites` and
  `get_list_of_favorites_books`: manage the favourites.

A rejected mutation silently changes nothing.

The class body (`main.py`) is not part of this model. The behaviour modelled
is the one the test class `TestBooksCollector` fixes.

Files:

- `genres.dfy` (module `Genres`): the genre taxonomy. `Known` holds Фантастика,
  Ужасы, Детективы, Мультфильмы and Комедии. `AgeRated` holds Ужасы and
  Детективы.
- `catalog.dfy` (module `Catalog`): the state invariants and the value-level
  functions that specify the operations:
  - `Select` is the order-keeping filter behind both queries;
  - `AddFavorite` specifies `add_book_in_favorites`;
  - `Without` specifies `delete_book_from_favorites`.
  The module also holds the lemmas about these functions.
- `collector.dfy` (module `Collector`): the class `BooksCollector`. It has
  three fields: the dict as a `map` (`booksGenre`), the dict's key insertion
  order as a `seq` (`order`), and the favourites as a `seq`. The mutators are
  methods with `modifies this`. The queries are functions that read `this`.
  Every method keeps `Valid()`, which states these invariants:
  - titles are 1 to 40 characters long;
  - each genre is `""` or a recognised label;
  - the favourites are registered titles, none of them twice.
- `tests.dfy` (module `TestBooksCollector`): each pytest test as a method. The
  method makes a fresh collector and performs the test's calls. Its `ensures`
  is the test's assertion, stated for every input of the kind the test's
  parameter table holds. The `...Table` lemmas evaluate the reference functions
  on the table rows themselves.

## Model

| member | source | states |
|---|---|---|
| Genres.TaxonomyShape | test_main.py:92-111 | the age-rated labels lie inside the taxonomy, so every child-safe label is a recognised one |
| Genres.RecognisedAsTested | test_main.py:39-44 | Фантастика and Ужасы are accepted labels; "", История and the upper-case ФАНТАСТИКА are not |
| Genres.ChildSafeAsTested | test_main.py:95-97 | Мультфильмы and Комедии are child-safe; Ужасы and Детективы are not |
| Catalog.Select | test_main.py:70-111 | the registry filter returns exactly the titles of the registry whose genre passes the test, never a title twice, and never more titles than there are |
| Catalog.SelectAppend | test_main.py:95-111 | the filter distributes over concatenation of the key order, so results keep registry insertion order |
| Catalog.SelectFrame | test_main.py:104-107 | registering a title that is not yet in the key order leaves the filter over the existing titles unchanged |
| Catalog.SelectOrdered | test_main.py:95-111 | over a duplicate-free key order, the filter lists its titles in the same relative order as the registry's insertion order |
| Catalog.SelectSingle | test_main.py:104-109 | over a one-title order the filter gives that title exactly when its genre passes |
| Catalog.AddFavorite | test_main.py:114-138 | after adding, the favourites are the old ones plus the title exactly when it is registered; the old list is kept as a prefix; no duplicate appears |
| Catalog.AddFavoriteIdempotent | test_main.py:119 | adding the same title a second time changes nothing, so `['Оно', 'Оно']` gives one entry |
| Catalog.Without | test_main.py:141-167 | removing an absent title changes nothing; otherwise exactly one occurrence is removed (as a multiset) |
| Catalog.FirstIndex | test_main.py:144-146 | a present title has a first position, with the title not occurring before it |
| Catalog.WithoutSplits | test_main.py:144 | removal cuts the list at the title's first occurrence and keeps the other titles in their order |
| Catalog.WithoutDistinct | test_main.py:141-167 | on a duplicate-free favourites list, removal keeps it duplicate-free and drops exactly the given title |
| Collector.BooksCollector.constructor | test_main.py:20 | a fresh collector (the `collector` fixture) has an empty registry and no favourites, and satisfies the invariant |
| Collector.BooksCollector.AddNewBook | test_main.py:8-23 | a new title is registered with genre "" exactly when it has 1 to 40 characters; otherwise the registry is unchanged; favourites never change; the invariant is kept |
| Collector.BooksCollector.SetBookGenre | test_main.py:36-67 | a registered title takes the genre only when the genre is present and a recognised label; otherwise, and for an unregistered title, the registry is unchanged |
| Collector.BooksCollector.GetBookGenre | test_main.py:170-172 | the result is None exactly for an unregistered title; otherwise it is the stored genre, "" or a recognised label |
| Collector.BooksCollector.GetBooksGenre | test_main.py:62-67 | the whole registry: every key a valid title, every value "" or a recognised label |
| Collector.BooksCollector.GetBooksWithSpecificGenre | test_main.py:70-89 | exactly the registered titles whose assigned genre equals the key, each once, in insertion order; a book without a genre never matches; an unrecognised key gives [] |
| Collector.BooksCollector.GetBooksForChildren | test_main.py:92-111 | exactly the registered titles whose genre is recognised and not age-rated, each once, in insertion order |
| Collector.BooksCollector.AddBookInFavorites | test_main.py:114-138 | the favourites become AddFavorite of the old list, so a title is appended only if registered and not yet a favourite; the registry is unchanged |
| Collector.BooksCollector.DeleteBookFromFavorites | test_main.py:141-167 | the favourites become Without of the old list; afterwards the title is not a favourite; the registry is unchanged |
| Collector.BooksCollector.GetListOfFavoritesBooks | test_main.py:136-138 | the favourites are registered titles without duplicates |
| TestBooksCollector.AddNewBookNameValidation | test_main.py:8-23 | on a fresh collector a title ends up in books_genre exactly when it has 1 to 40 characters |
| TestBooksCollector.NameValidationTable | test_main.py:11-16 | the table's titles have the lengths their expected outcome needs: 12, 4 and 40 characters are accepted; 59, 0 and 41 are rejected |
| TestBooksCollector.NewlyAddedBookHasNoGenre | test_main.py:26-33 | adding each character of a string as a title, repeats included, and looking it up gives "" every time |
| TestBooksCollector.SetBookGenreOnNewBook | test_main.py:48-58 | on a newly added book the genre reads back as the given label when recognised, and as "" for None, "" or any other label |
| TestBooksCollector.SetGenreForNonexistentBook | test_main.py:61-67 | set_book_genre on an unregistered title leaves books_genre equal to its initial state, without that title |
| TestBooksCollector.Effective | test_main.py:84-85 | the genre a table row leaves behind is "" or a recognised label, and is either the row's genre or "" |
| TestBooksCollector.RegistryKeys | test_main.py:82-83 | the registry built from the table rows has exactly the rows' titles as keys |
| TestBooksCollector.SelectRegistry | test_main.py:81-87 | filtering the registry built from distinct table rows gives the rows' titles, in row order, whose resulting genre passes the test |
| TestBooksCollector.RowStep | test_main.py:82-85 | one more row adds its title at the end of the key order and one registry entry, and the title is new and valid |
| TestBooksCollector.AddRow | test_main.py:82-85 | adding a new title and then setting its non-empty genre records the row's resulting genre and appends the title to the key order |
| TestBooksCollector.AddBooksWithGenres | test_main.py:82-85 | after the set-up loop over distinct valid rows, the key order is the rows' titles and the registry maps each to its resulting genre |
| TestBooksCollector.GetBooksWithSpecificGenre | test_main.py:81-89 | the genre query answers with exactly the rows whose genre took and equals the key, in row order, which implies the test's comparison of sorted lists |
| TestBooksCollector.SpecificGenreTable | test_main.py:73-77 | the reference answer on each table row is the expected list |
| TestBooksCollector.GetBooksForChildren | test_main.py:103-111 | the children's query answers with exactly the rows whose genre is child-safe, in row order |
| TestBooksCollector.ForChildrenTable | test_main.py:95-99 | the reference answer on each table row is the expected list, Детективы and genre-less books excluded |
| TestBooksCollector.AddAllBut | test_main.py:127-129 | registering every title of a set but one, in any order, adds exactly the valid titles other than the skipped one |
| TestBooksCollector.AddedInTurnContents | test_main.py:132-138 | adding titles to favourites one after the other yields each registered title of the sequence once and nothing else |
| TestBooksCollector.WithoutAll | test_main.py:161-162 | deleting titles one after the other from a duplicate-free list leaves it duplicate-free, holding exactly the titles not deleted |
| TestBooksCollector.AddEachToFavorites | test_main.py:132-133 | the favourites loop leaves favourites equal to the titles added in turn, registry unchanged |
| TestBooksCollector.DeleteEachFromFavorites | test_main.py:161-162 | the deletion loop leaves favourites equal to the titles deleted in turn, registry unchanged |
| TestBooksCollector.AddToFavorites | test_main.py:125-138 | the favourites are the registered titles of the input, each once, in first-added order; 'Тайна девятой планеты' is never added |
| TestBooksCollector.AddToFavoritesTable | test_main.py:114-138 | for each row of the parameter table, the favourites AddToFavorites ends with (AddedInTurn over the titles the set-up registers) are the row's expected list, order included |
| TestBooksCollector.RemoveFromFavorites | test_main.py:151-167 | what is left is the registered favourites not removed, in their order, each once; removing an absent title changes nothing |
| TestBooksCollector.RemoveFromFavoritesTable | test_main.py:141-167 | for each row of the parameter table, the favourites RemoveFromFavorites ends with (WithoutAll of AddedInTurn over the titles the set-up registers) are the row's expected list |
| TestBooksCollector.GetBookGenreNonexistentBook | test_main.py:170-172 | looking up a title that was never added gives None |

## Left out

- The body of `main.py` is not part of this model. The behaviour and the
  contracts come from the assertions of `test_main.py`.
- pytest itself is not modelled. A `parametrize` table becomes a method
  parameter, and the `...Table` lemmas check the table rows. The `collector`
  fixture becomes a fresh `BooksCollector`.
- Collector.BooksCollector.AddNewBook: for a title that is already registered,
  the contract says only that the title keeps its place and that its genre
  is either kept or reset to "". The tests do not say which. The body keeps
  the genre.
- The taxonomy: the tests would also pass if Детективы were unrecognised
  rather than age-rated. The model makes it age-rated. No label the tests do
  not name is added beyond it.
- Collector.BooksCollector.GetBooksWithSpecificGenre returns titles in
  insertion order. The tests compare sorted lists, so the order is not
  asserted by them.
- Python's dynamic typing: `set_book_genre`'s genre is modelled as
  `Option<string>`, because the test passes `None`. Titles and genres of other
  types are not modelled.
- Python object identity: the test reads the `books_genre` attribute, which
  is the collector's live dict. Whether `get_books_genre` returns that dict or
  a copy is not fixed by the tests. The model returns the map as a value, so
  aliasing of the returned dict is not modelled.
- TestBooksCollector.GetBooksWithSpecificGenre and
  TestBooksCollector.GetBooksForChildren require each table row to have a
  distinct valid title, as every row of the tables does. Duplicate titles are
  left out because the duplicate behaviour of `add_new_book` is not fixed.
- Strings are `seq<char>` compared exactly. A length counts characters. There
  is no Unicode normalisation or case folding.
