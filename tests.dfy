/**
  The pytest class TestBooksCollector, test by test. Each method makes a fresh
  collector, performs the test's calls, and its ensures is the test's
  assertion, stated for every input of the kind its parameter table lists.
  The lemmas named ...Table check the table rows themselves against the
  reference functions used in those ensures.
 */
module TestBooksCollector {
  import Genres
  import opened Catalog
  import opened Collector

  // test_add_new_book_name_validation

  /** A title is registered exactly when it has 1 to 40 characters. */
  method AddNewBookNameValidation(name: string) returns (added: bool)
    ensures added <==> 1 <= |name| <= 40
  {
    var collector := new BooksCollector();
    collector.AddNewBook(name);
    added := name in collector.booksGenre;
  }

  lemma NameValidationTable()
    ensures ValidTitle("Гарри Поттер")
    ensures !ValidTitle("Очень длинное название книги, которое превышает 40 символов")
    ensures !ValidTitle("")
    ensures ValidTitle("    ")
    ensures ValidTitle("Книга с названием ровно 40 символов-----")
    ensures !ValidTitle("Книга с названием 41 символ--------------")
  {
  }

  // test_newly_added_book_has_no_genre

  /**
    The test walks over the characters of a string and registers each one as
    a one-character title (a character that occurs twice is added twice);
    every lookup right after the add gives "".
   */
  method NewlyAddedBookHasNoGenre(testBooks: string) returns (genres: seq<Option<string>>)
    ensures |genres| == |testBooks|
    ensures forall i :: 0 <= i < |genres| ==> genres[i] == Some("")
  {
    var collector := new BooksCollector();
    genres := [];
    for i := 0 to |testBooks|
      invariant collector.Valid()
      invariant forall t :: t in collector.booksGenre ==> collector.booksGenre[t] == ""
      invariant |genres| == i
      invariant forall k :: 0 <= k < i ==> genres[k] == Some("")
    {
      var bookName := [testBooks[i]];
      collector.AddNewBook(bookName);
      genres := genres + [collector.GetBookGenre(bookName)];
    }
  }

  // test_set_book_genre

  /** On a new book, set_book_genre takes a recognised label and nothing else. */
  method SetBookGenreOnNewBook(genre: Option<string>) returns (result: Option<string>)
    ensures result == Some(if genre.Some? && Genres.IsRecognised(genre.value) then genre.value else "")
  {
    var collector := new BooksCollector();
    var bookName := "Анна Коренина";
    collector.AddNewBook(bookName);
    collector.SetBookGenre(bookName, genre);
    result := collector.GetBookGenre(bookName);
  }

  // test_set_genre_for_nonexistent_book

  /** set_book_genre on an unregistered title neither adds it nor changes the registry. */
  method SetGenreForNonexistentBook(name: string, genre: Option<string>)
    returns (initialState: map<string, string>, finalState: map<string, string>)
    ensures name !in finalState
    ensures finalState == initialState
  {
    var collector := new BooksCollector();
    initialState := collector.GetBooksGenre();
    collector.SetBookGenre(name, genre);
    finalState := collector.GetBooksGenre();
  }

  // Set-up shared by test_get_books_with_specific_genre and test_get_books_for_children

  /** The genre a listed book ends with: only a recognised label takes effect. */
  function Effective(genre: string): (g: string)
    ensures ValidGenre(g)
    ensures g == genre || g == ""
  {
    if Genres.IsRecognised(genre) then genre else ""
  }

  function Titles(books: seq<(string, string)>): (r: seq<string>) {
    seq(|books|, k requires 0 <= k < |books| => books[k].0)
  }

  ghost predicate DistinctValidTitles(books: seq<(string, string)>) {
    && (forall i, j :: 0 <= i < j < |books| ==> books[i].0 != books[j].0)
    && (forall k :: 0 <= k < |books| ==> ValidTitle(books[k].0))
  }

  /** The registry the set-up loop builds from a table of (title, genre) rows. */
  function Registry(books: seq<(string, string)>): (r: map<string, string>)
    decreases |books|
  {
    if books == [] then map[]
    else
      var last := books[|books| - 1];
      Registry(books[..|books| - 1])[last.0 := Effective(last.1)]
  }

  /** The expected answer: the titles of the rows, in row order, whose resulting genre passes `keep`. */
  function Listed(books: seq<(string, string)>, keep: string -> bool): (r: seq<string>)
    decreases |books|
  {
    if books == [] then []
    else
      var last := books[|books| - 1];
      Listed(books[..|books| - 1], keep) + (if keep(Effective(last.1)) then [last.0] else [])
  }

  lemma {:induction false} RegistryKeys(books: seq<(string, string)>)
    ensures forall t :: t in Registry(books) <==> t in Titles(books)
    decreases |books|
  {
    if books != [] {
      var pre := books[..|books| - 1];
      RegistryKeys(pre);
      assert Titles(books) == Titles(pre) + [books[|books| - 1].0];
    }
  }

  /** Filtering the registry the set-up builds gives the same titles as filtering the table. */
  lemma {:induction false} SelectRegistry(books: seq<(string, string)>, keep: string -> bool)
    requires DistinctValidTitles(books)
    ensures forall t :: t in Titles(books) ==> t in Registry(books)
    ensures Select(Titles(books), Registry(books), keep) == Listed(books, keep)
    decreases |books|
  {
    RegistryKeys(books);
    if books != [] {
      var pre := books[..|books| - 1];
      var (name, genre) := books[|books| - 1];
      assert DistinctValidTitles(pre);
      SelectRegistry(pre, keep);
      assert Titles(books) == Titles(pre) + [name];
      assert name !in Titles(pre);
      SelectAppend(Titles(pre), [name], Registry(books), keep);
      SelectFrame(Titles(pre), Registry(pre), keep, name, Effective(genre));
      SelectSingle(name, Registry(books), keep);
    }
  }

  /** One more row: one more title at the end, one more registry entry. */
  lemma RowStep(books: seq<(string, string)>, i: nat)
    requires i < |books|
    requires DistinctValidTitles(books)
    ensures Titles(books[..i + 1]) == Titles(books[..i]) + [books[i].0]
    ensures Registry(books[..i + 1]) == Registry(books[..i])[books[i].0 := Effective(books[i].1)]
    ensures books[i].0 !in Titles(books[..i]) && ValidTitle(books[i].0)
  {
    assert books[..i + 1][..i] == books[..i];
  }

  /** One pass of that loop: add the title, then set its genre unless the genre is empty. */
  method AddRow(collector: BooksCollector, name: string, genre: string)
    requires collector.Valid() && name !in collector.booksGenre && ValidTitle(name)
    modifies collector
    ensures collector.Valid()
    ensures collector.booksGenre == old(collector.booksGenre)[name := Effective(genre)]
    ensures collector.order == old(collector.order) + [name]
  {
    collector.AddNewBook(name);
    if genre != "" {
      collector.SetBookGenre(name, Some(genre));
    }
  }

  /**
    The loop both tests open with: add_new_book for every row, then
    set_book_genre for every row whose genre is not empty.
   */
  method AddBooksWithGenres(collector: BooksCollector, books: seq<(string, string)>)
    requires collector.Valid() && collector.booksGenre == map[] && collector.order == []
    requires DistinctValidTitles(books)
    modifies collector
    ensures collector.Valid()
    ensures collector.order == Titles(books) && collector.booksGenre == Registry(books)
  {
    for i := 0 to |books|
      invariant collector.Valid()
      invariant collector.order == Titles(books[..i]) && collector.booksGenre == Registry(books[..i])
    {
      RowStep(books, i);
      AddRow(collector, books[i].0, books[i].1);
    }
    assert books[..|books|] == books;
  }

  // test_get_books_with_specific_genre

  /** The genre filter answers with exactly the rows whose genre took and equals the key. */
  method GetBooksWithSpecificGenre(books: seq<(string, string)>, genreToSearch: string) returns (result: seq<string>)
    requires DistinctValidTitles(books)
    ensures result == Listed(books, Matching(genreToSearch))
  {
    var collector := new BooksCollector();
    AddBooksWithGenres(collector, books);
    result := collector.GetBooksWithSpecificGenre(genreToSearch);
    SelectRegistry(books, Matching(genreToSearch));
  }

  lemma SpecificGenreTable()
    ensures Listed([("Тайна девятой планеты", "Фантастика"), ("Понедельник начинается в субботу", "Фантастика")],
                   Matching("Фантастика")) == ["Тайна девятой планеты", "Понедельник начинается в субботу"]
    ensures Listed([("Тайна девятой планеты", "Фантастика"), ("Оно", "Ужасы")],
                   Matching("Фантастика")) == ["Тайна девятой планеты"]
    ensures Listed([("Понедельник начинается в субботу", "Фантастика")], Matching("Ужасы")) == []
    ensures Listed([], Matching("Фантастика")) == []
    ensures Listed([("Оно", "")], Matching("Фантастика")) == []
  {
  }

  // test_get_books_for_children

  /** The children's list is exactly the rows with a child-safe genre, in row order. */
  method GetBooksForChildren(books: seq<(string, string)>) returns (result: seq<string>)
    requires DistinctValidTitles(books)
    ensures result == Listed(books, Genres.IsChildSafe)
  {
    var collector := new BooksCollector();
    AddBooksWithGenres(collector, books);
    result := collector.GetBooksForChildren();
    SelectRegistry(books, Genres.IsChildSafe);
  }

  lemma ForChildrenTable()
    ensures Listed([("Маша и Медведь", "Мультфильмы"), ("Винни-Пух", "Комедии")], Genres.IsChildSafe)
              == ["Маша и Медведь", "Винни-Пух"]
    ensures Listed([("Оно", "Ужасы"), ("Твин Пикс", "Детективы")], Genres.IsChildSafe) == []
    ensures Listed([("Маша и Медведь", "Мультфильмы"), ("Оно", "Ужасы")], Genres.IsChildSafe) == ["Маша и Медведь"]
    ensures Listed([("Без жанра", "")], Genres.IsChildSafe) == []
    ensures Listed([], Genres.IsChildSafe) == []
  {
  }

  // Set-up shared by test_add_to_favorites and test_remove_from_favorites

  /** The title test_add_to_favorites never registers. */
  const AddSkip := "Тайна девятой планеты"
  /** The title test_remove_from_favorites never registers. */
  const RemoveSkip := "Алиса в стране чудес"

  /** The titles the favourites tests' set-up registers: those of `titles` but `skip` that add_new_book accepts. */
  function RegisteredOf(titles: seq<string>, skip: string): (r: set<string>) {
    set t | t in titles && t != skip && ValidTitle(t)
  }

  /** add_new_book for every title in set(titles), in no fixed order, except `skip`. */
  method AddAllBut(collector: BooksCollector, titles: seq<string>, skip: string)
    requires collector.Valid()
    modifies collector
    ensures collector.Valid()
    ensures collector.booksGenre.Keys == old(collector.booksGenre.Keys) + RegisteredOf(titles, skip)
    ensures collector.favorites == old(collector.favorites)
  {
    var pending := set b | b in titles;
    while pending != {}
      invariant collector.Valid()
      invariant collector.booksGenre.Keys
                == old(collector.booksGenre.Keys) + (set t | t in titles && t !in pending && t != skip && ValidTitle(t))
      invariant collector.favorites == old(collector.favorites)
      decreases pending
    {
      var book :| book in pending;
      pending := pending - {book};
      if book != skip {
        collector.AddNewBook(book);
      }
    }
  }

  /** The favourites after add_book_in_favorites on each title of `adds`, first to last. */
  function AddedInTurn(adds: seq<string>, registered: set<string>): (r: seq<string>)
    decreases |adds|
  {
    if adds == [] then []
    else AddFavorite(AddedInTurn(adds[..|adds| - 1], registered), registered, adds[|adds| - 1])
  }

  /** Those favourites hold each registered title of `adds` once and nothing else. */
  lemma {:induction false} AddedInTurnContents(adds: seq<string>, registered: set<string>)
    ensures NoDups(AddedInTurn(adds, registered))
    ensures forall t :: t in AddedInTurn(adds, registered) <==> t in adds && t in registered
    decreases |adds|
  {
    if adds != [] {
      var pre := adds[..|adds| - 1];
      AddedInTurnContents(pre, registered);
      assert adds == pre + [adds[|adds| - 1]];
    }
  }

  /** The favourites after delete_book_from_favorites on each title of `names`, first to last. */
  function WithoutAll(s: seq<string>, names: seq<string>): (r: seq<string>)
    ensures NoDups(s) ==> NoDups(r) && forall t :: t in r <==> t in s && t !in names
    decreases |names|
  {
    if names == [] then s
    else
      var last := names[|names| - 1];
      var prev := WithoutAll(s, names[..|names| - 1]);
      assert forall t :: t in names <==> t == last || t in names[..|names| - 1];
      assert NoDups(s) ==> NoDups(Without(prev, last)) && forall t :: t in Without(prev, last) <==> t in prev && t != last by {
        if NoDups(s) { WithoutDistinct(prev, last); }
      }
      Without(prev, last)
  }

  /** add_book_in_favorites for each title of `adds`, first to last. */
  method AddEachToFavorites(collector: BooksCollector, adds: seq<string>)
    requires collector.Valid() && collector.favorites == []
    modifies collector
    ensures collector.Valid()
    ensures collector.favorites == AddedInTurn(adds, collector.booksGenre.Keys)
    ensures collector.booksGenre == old(collector.booksGenre)
  {
    for i := 0 to |adds|
      invariant collector.Valid()
      invariant collector.booksGenre == old(collector.booksGenre)
      invariant collector.favorites == AddedInTurn(adds[..i], collector.booksGenre.Keys)
    {
      assert adds[..i + 1][..i] == adds[..i];
      collector.AddBookInFavorites(adds[i]);
    }
    assert adds[..|adds|] == adds;
  }

  /** delete_book_from_favorites for each title of `names`, first to last. */
  method DeleteEachFromFavorites(collector: BooksCollector, names: seq<string>)
    requires collector.Valid()
    modifies collector
    ensures collector.Valid()
    ensures collector.favorites == WithoutAll(old(collector.favorites), names)
    ensures collector.booksGenre == old(collector.booksGenre)
  {
    for i := 0 to |names|
      invariant collector.Valid()
      invariant collector.booksGenre == old(collector.booksGenre)
      invariant collector.favorites == WithoutAll(old(collector.favorites), names[..i])
    {
      assert names[..i + 1][..i] == names[..i];
      collector.DeleteBookFromFavorites(names[i]);
    }
    assert names[..|names|] == names;
  }

  // test_add_to_favorites

  /**
    Register the titles (all but "Тайна девятой планеты"), then add each to
    the favourites in turn: the favourites are the registered titles, each
    once, in the order they were first added.
   */
  method AddToFavorites(booksToAdd: seq<string>) returns (result: seq<string>)
    ensures var registered := RegisteredOf(booksToAdd, AddSkip);
            && result == AddedInTurn(booksToAdd, registered)
            && NoDups(result)
            && forall t :: t in result <==> t in registered
  {
    ghost var registered := RegisteredOf(booksToAdd, AddSkip);
    var collector := new BooksCollector();
    AddAllBut(collector, booksToAdd, AddSkip);
    assert collector.booksGenre.Keys == registered;
    AddEachToFavorites(collector, booksToAdd);
    result := collector.GetListOfFavoritesBooks();
    AddedInTurnContents(booksToAdd, registered);
  }

  /** The test's parameter table: (books_to_add, expected_favorites). */
  const AddTable: seq<(seq<string>, seq<string>)> := [
    (["Оно"], ["Оно"]),
    (["Анна Коренина", "Евгений Онегин"], ["Анна Коренина", "Евгений Онегин"]),
    (["Оно", "Оно"], ["Оно"]),
    ([], []),
    (["Тайна девятой планеты"], [])
  ]

  /** Each row of the table: the favourites AddToFavorites ends with are the expected list. */
  lemma AddToFavoritesTable(row: nat)
    requires row < |AddTable|
    ensures var (booksToAdd, expected) := AddTable[row];
            AddedInTurn(booksToAdd, RegisteredOf(booksToAdd, AddSkip)) == expected
  {
    var (booksToAdd, expected) := AddTable[row];
    var registered := RegisteredOf(booksToAdd, AddSkip);
    if row == 0 || row == 2 {
      assert registered == {"Оно"};
      RepeatedTitleRows();
    } else if row == 1 {
      assert registered == {"Анна Коренина", "Евгений Онегин"};
      DistinctTitleRows();
    } else if row == 4 {
      assert registered == {};
      DistinctTitleRows();
    }
  }

  lemma RepeatedTitleRows()
    ensures AddedInTurn(["Оно"], {"Оно"}) == ["Оно"]
    ensures AddedInTurn(["Оно", "Оно"], {"Оно"}) == ["Оно"]
  {
    assert ["Оно"][..0] == [] && ["Оно", "Оно"][..1] == ["Оно"];
  }

  lemma DistinctTitleRows()
    ensures AddedInTurn(["Анна Коренина", "Евгений Онегин"], {"Анна Коренина", "Евгений Онегин"})
              == ["Анна Коренина", "Евгений Онегин"]
    ensures AddedInTurn(["Тайна девятой планеты"], {}) == []
  {
    assert ["Анна Коренина", "Евгений Онегин"][..1] == ["Анна Коренина"];
    assert ["Анна Коренина"][..0] == [];
    assert ["Тайна девятой планеты"][..0] == [];
  }

  // test_remove_from_favorites

  /**
    Register the titles (all but "Алиса в стране чудес"), add `inFavorites`
    to the favourites, then delete each of `booksToRemove`: what is left is
    the registered favourites not removed, in their order.
   */
  method RemoveFromFavorites(inFavorites: seq<string>, booksToRemove: seq<string>) returns (result: seq<string>)
    ensures var registered := RegisteredOf(inFavorites + booksToRemove, RemoveSkip);
            && result == WithoutAll(AddedInTurn(inFavorites, registered), booksToRemove)
            && NoDups(result)
            && forall t :: t in result <==> t in inFavorites && t in registered && t !in booksToRemove
  {
    ghost var registered := RegisteredOf(inFavorites + booksToRemove, RemoveSkip);
    var collector := new BooksCollector();
    AddAllBut(collector, inFavorites + booksToRemove, RemoveSkip);
    assert collector.booksGenre.Keys == registered;
    AddEachToFavorites(collector, inFavorites);
    DeleteEachFromFavorites(collector, booksToRemove);
    result := collector.GetListOfFavoritesBooks();
    AddedInTurnContents(inFavorites, registered);
  }

  /** The test's parameter table: (in_favorites, books_to_remove, expected_favorites). */
  const RemoveTable: seq<(seq<string>, seq<string>, seq<string>)> := [
    (["Оно", "Анна Коренина"], ["Оно"], ["Анна Коренина"]),
    (["Оно", "Анна Коренина"], ["Оно", "Анна Коренина"], []),
    (["Оно"], ["Алиса в стране чудес"], ["Оно"]),
    (["Оно"], [], ["Оно"]),
    ([], ["Оно"], [])
  ]

  /** Each row of the table: the favourites RemoveFromFavorites ends with are the expected list. */
  lemma RemoveFromFavoritesTable(row: nat)
    requires row < |RemoveTable|
    ensures var (inFavorites, booksToRemove, expected) := RemoveTable[row];
            WithoutAll(AddedInTurn(inFavorites, RegisteredOf(inFavorites + booksToRemove, RemoveSkip)), booksToRemove)
              == expected
  {
    var (inFavorites, booksToRemove, expected) := RemoveTable[row];
    var registered := RegisteredOf(inFavorites + booksToRemove, RemoveSkip);
    if row == 0 {
      assert registered == {"Оно", "Анна Коренина"};
      TwoFavouritesRow();
    } else if row == 1 {
      assert registered == {"Оно", "Анна Коренина"};
      TwoFavouritesRow();
    } else if row == 2 {
      assert registered == {"Оно"};
      RepeatedTitleRows();
    } else if row == 3 {
      assert registered == {"Оно"};
      RepeatedTitleRows();
    }
  }

  lemma TwoFavouritesRow()
    ensures AddedInTurn(["Оно", "Анна Коренина"], {"Оно", "Анна Коренина"}) == ["Оно", "Анна Коренина"]
  {
    assert ["Оно", "Анна Коренина"][..1] == ["Оно"];
    assert ["Оно"][..0] == [];
  }

  // test_get_book_genre_nonexistent_book

  /** Looking up a title that was never added gives None. */
  method GetBookGenreNonexistentBook(name: string) returns (genre: Option<string>)
    ensures genre == None
  {
    var collector := new BooksCollector();
    genre := collector.GetBookGenre(name);
  }
}
