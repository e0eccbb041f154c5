/**
  The books collector: a registry of titles with their genres and a list of
  favourite titles, both updated in place. Every mutator silently does nothing
  when its input is rejected; the only "not found" signal is the None that
  GetBookGenre returns for an unregistered title.
 */
module Collector {
  import Genres
  import opened Catalog

  datatype Option<T> = None | Some(value: T)

  class BooksCollector {
    /** books_genre: title -> genre, "" while no genre is assigned. */
    var booksGenre: map<string, string>
    /** The insertion order of the keys of booksGenre (a Python dict keeps it). */
    var order: seq<string>
    /** The favourites, in the order they were added. */
    var favorites: seq<string>

    ghost predicate Valid()
      reads this
    {
      RegistryValid(order, booksGenre) && FavoritesValid(favorites, booksGenre)
    }

    /** A fresh collector: empty registry, no favourites. */
    constructor ()
      ensures Valid()
      ensures booksGenre == map[] && order == [] && favorites == []
    {
      booksGenre := map[];
      order := [];
      favorites := [];
    }

    /**
      add_new_book: register a new title of 1 to 40 characters with genre "".
      Any other title leaves the registry as it was. For a title already
      registered the title keeps its place; its genre is either kept or reset
      to "" (both are allowed here).
     */
    method AddNewBook(name: string)
      requires Valid()
      modifies this
      ensures Valid()
      ensures name in booksGenre <==> name in old(booksGenre) || ValidTitle(name)
      ensures name !in old(booksGenre) && ValidTitle(name) ==>
                booksGenre == old(booksGenre)[name := ""] && order == old(order) + [name]
      ensures name !in old(booksGenre) && !ValidTitle(name) ==>
                booksGenre == old(booksGenre) && order == old(order)
      ensures name in old(booksGenre) ==>
                order == old(order) &&
                (booksGenre == old(booksGenre) || booksGenre == old(booksGenre)[name := ""])
      ensures name !in old(booksGenre) && ValidTitle(name) ==> GetBookGenre(name) == Some("")
      ensures favorites == old(favorites)
    {
      if name !in booksGenre && ValidTitle(name) {
        booksGenre := booksGenre[name := ""];
        order := order + [name];
      }
    }

    /**
      set_book_genre: give a registered title a recognised genre label.
      Anything else (unregistered title, None, "", a label not in the
      taxonomy, a label in the wrong case) changes nothing.
     */
    method SetBookGenre(name: string, genre: Option<string>)
      requires Valid()
      modifies this
      ensures Valid()
      ensures name in old(booksGenre) && genre.Some? && Genres.IsRecognised(genre.value) ==>
                booksGenre == old(booksGenre)[name := genre.value]
      ensures !(name in old(booksGenre) && genre.Some? && Genres.IsRecognised(genre.value)) ==>
                booksGenre == old(booksGenre)
      ensures name in booksGenre ==>
                GetBookGenre(name) == Some(if genre.Some? && Genres.IsRecognised(genre.value) then genre.value
                                           else old(booksGenre)[name])
      ensures order == old(order) && favorites == old(favorites)
    {
      if name in booksGenre && genre.Some? && Genres.IsRecognised(genre.value) {
        booksGenre := booksGenre[name := genre.value];
      }
    }

    /** get_book_genre: the genre of a registered title ("" if unassigned), None otherwise. */
    function GetBookGenre(name: string): (r: Option<string>)
      reads this
      requires Valid()
      ensures r.Some? <==> name in booksGenre
      ensures r.Some? ==> r.value == booksGenre[name] && ValidGenre(r.value)
    {
      if name in booksGenre then Some(booksGenre[name]) else None
    }

    /** get_books_genre: the whole registry. */
    function GetBooksGenre(): (r: map<string, string>)
      reads this
      requires Valid()
      ensures forall t :: t in r ==> ValidTitle(t) && ValidGenre(r[t])
    {
      booksGenre
    }

    /**
      get_books_with_specific_genre: the registered titles whose assigned genre
      is `genre`, in insertion order; books without a genre never match.
     */
    function GetBooksWithSpecificGenre(genre: string): (r: seq<string>)
      reads this
      requires Valid()
      ensures forall t :: t in r <==> t in booksGenre && booksGenre[t] == genre && genre != ""
      ensures NoDups(r)
      ensures InOrderOf(r, order)
      ensures !Genres.IsRecognised(genre) ==> r == []
    {
      var r := Select(order, booksGenre, Matching(genre));
      SelectOrdered(order, booksGenre, Matching(genre));
      assert r != [] ==> r[0] in r;
      r
    }

    /**
      get_books_for_children: the registered titles whose genre is recognised
      and not age-rated, in insertion order.
     */
    function GetBooksForChildren(): (r: seq<string>)
      reads this
      requires Valid()
      ensures forall t :: t in r <==> t in booksGenre && Genres.IsChildSafe(booksGenre[t])
      ensures NoDups(r)
      ensures InOrderOf(r, order)
    {
      SelectOrdered(order, booksGenre, Genres.IsChildSafe);
      Select(order, booksGenre, Genres.IsChildSafe)
    }

    /** add_book_in_favorites: append a registered title that is not a favourite yet. */
    method AddBookInFavorites(name: string)
      requires Valid()
      modifies this
      ensures Valid()
      ensures favorites == AddFavorite(old(favorites), booksGenre.Keys, name)
      ensures booksGenre == old(booksGenre) && order == old(order)
    {
      if name in booksGenre && name !in favorites {
        favorites := favorites + [name];
      }
    }

    /** delete_book_from_favorites: remove a favourite; an absent title changes nothing. */
    method DeleteBookFromFavorites(name: string)
      requires Valid()
      modifies this
      ensures Valid()
      ensures favorites == Without(old(favorites), name)
      ensures name !in favorites
      ensures booksGenre == old(booksGenre) && order == old(order)
    {
      if name in favorites {
        WithoutDistinct(favorites, name);
        favorites := Without(favorites, name);
      }
    }

    /** get_list_of_favorites_books: the favourites, as added. */
    function GetListOfFavoritesBooks(): (r: seq<string>)
      reads this
      requires Valid()
      ensures NoDups(r) && forall t :: t in r ==> t in booksGenre
    {
      favorites
    }
  }
}
