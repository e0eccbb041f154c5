/**
  Value-level specification of the collector's state: the registry (a dict from
  title to genre, kept here as a map plus the insertion order of its keys) and
  the favourites list, the invariants they keep, and the filters and list
  updates the collector's operations are specified by.
 */
module Catalog {
  import Genres

  /** A title add_new_book accepts: between 1 and 40 characters. */
  predicate ValidTitle(name: string) {
    1 <= |name| <= 40
  }

  ghost predicate NoDups(s: seq<string>) {
    forall i, j :: 0 <= i < j < |s| ==> s[i] != s[j]
  }

  /** A genre a registered book can hold: unassigned ("") or a recognised label. */
  predicate ValidGenre(genre: string) {
    genre == "" || Genres.IsRecognised(genre)
  }

  /** `order` lists each key of `books` exactly once (the dict's insertion order). */
  ghost predicate OrderedKeys(order: seq<string>, books: map<string, string>) {
    NoDups(order) && forall t :: t in order <==> t in books
  }

  /** The registry invariant: ordered keys, valid titles, valid genres. */
  ghost predicate RegistryValid(order: seq<string>, books: map<string, string>) {
    && OrderedKeys(order, books)
    && (forall t :: t in books ==> ValidTitle(t) && ValidGenre(books[t]))
  }

  /** The favourites invariant: registered titles, none twice. */
  ghost predicate FavoritesValid(favorites: seq<string>, books: map<string, string>) {
    NoDups(favorites) && forall t :: t in favorites ==> t in books
  }

  /** The genre test of get_books_with_specific_genre: an assigned genre equal to `genre`. */
  function Matching(genre: string): (keep: string -> bool) {
    g => g == genre && g != ""
  }

  /**
    The titles of `order`, in that order, whose genre in `books` passes `keep`.
    Both registry queries are this filter.
   */
  function Select(order: seq<string>, books: map<string, string>, keep: string -> bool): (r: seq<string>)
    requires forall t :: t in order ==> t in books
    ensures forall t :: t in r <==> t in order && keep(books[t])
    ensures NoDups(order) ==> NoDups(r)
    ensures |r| <= |order|
    decreases order
  {
    if order == [] then []
    else
      var rest := Select(order[1..], books, keep);
      assert forall t :: t in order[1..] ==> t in order;
      if keep(books[order[0]]) then
        assert NoDups(order) ==> order[0] !in order[1..];
        [order[0]] + rest
      else rest
  }

  /** Filtering distributes over concatenation: the filter keeps relative order. */
  lemma {:induction false} SelectAppend(a: seq<string>, b: seq<string>, books: map<string, string>, keep: string -> bool)
    requires forall t :: t in a + b ==> t in books
    ensures Select(a + b, books, keep) == Select(a, books, keep) + Select(b, books, keep)
    decreases a
  {
    if a == [] {
      assert a + b == b;
    } else {
      assert (a + b)[1..] == a[1..] + b;
      SelectAppend(a[1..], b, books, keep);
    }
  }

  /** Registering a title outside `order` does not change the filter over `order`. */
  lemma {:induction false} SelectFrame(order: seq<string>, books: map<string, string>, keep: string -> bool, k: string, v: string)
    requires forall t :: t in order ==> t in books
    requires k !in order
    ensures Select(order, books[k := v], keep) == Select(order, books, keep)
    decreases order
  {
    if order != [] {
      SelectFrame(order[1..], books, keep, k, v);
    }
  }

  /** The titles of `r` all occur in `order`, and in the same relative order. */
  ghost predicate InOrderOf(r: seq<string>, order: seq<string>) {
    && (forall t :: t in r ==> t in order)
    && forall i, j :: 0 <= i < j < |r| ==> FirstIndex(order, r[i]) < FirstIndex(order, r[j])
  }

  /** The filter lists titles in the order they have in a duplicate-free `order`. */
  lemma {:induction false} SelectOrdered(order: seq<string>, books: map<string, string>, keep: string -> bool)
    requires forall t :: t in order ==> t in books
    requires NoDups(order)
    ensures InOrderOf(Select(order, books, keep), order)
    decreases order
  {
    if order != [] {
      var rest := order[1..];
      NoDupsTail(order);
      SelectOrdered(rest, books, keep);
      assert order == [order[0]] + rest;
      if keep(books[order[0]]) {
        ConsInOrder(order[0], Select(rest, books, keep), rest);
      } else {
        ShiftInOrder(order[0], Select(rest, books, keep), rest);
      }
    }
  }

  lemma FirstIndexAfterHead(x: string, rest: seq<string>, y: string)
    requires y in rest && y != x
    ensures FirstIndex([x] + rest, y) == 1 + FirstIndex(rest, y)
  {
    assert ([x] + rest)[1..] == rest;
  }

  /** Putting the head of the order in front keeps the order. */
  lemma ConsInOrder(x: string, r: seq<string>, rest: seq<string>)
    requires InOrderOf(r, rest) && x !in rest
    ensures InOrderOf([x] + r, [x] + rest)
  {
    forall t | t in r ensures FirstIndex([x] + rest, t) == 1 + FirstIndex(rest, t) {
      FirstIndexAfterHead(x, rest, t);
    }
    forall i, j | 0 <= i < j < |[x] + r|
      ensures FirstIndex([x] + rest, ([x] + r)[i]) < FirstIndex([x] + rest, ([x] + r)[j])
    {
      assert ([x] + r)[j] == r[j - 1];
      if i > 0 {
        assert ([x] + r)[i] == r[i - 1];
      }
    }
  }

  /** Skipping the head of the order keeps the order. */
  lemma ShiftInOrder(x: string, r: seq<string>, rest: seq<string>)
    requires InOrderOf(r, rest) && x !in rest
    ensures InOrderOf(r, [x] + rest)
  {
    forall t | t in r ensures FirstIndex([x] + rest, t) == 1 + FirstIndex(rest, t) {
      FirstIndexAfterHead(x, rest, t);
    }
  }

  /** A filter over a one-title order keeps the title exactly when its genre passes. */
  lemma SelectSingle(t: string, books: map<string, string>, keep: string -> bool)
    requires t in books
    ensures Select([t], books, keep) == if keep(books[t]) then [t] else []
  {
    assert [t][1..] == [];
  }

  /** add_book_in_favorites: append a registered title that is not yet a favourite. */
  function AddFavorite(favorites: seq<string>, registered: set<string>, name: string): (r: seq<string>)
    ensures forall t :: t in r <==> t in favorites || (t == name && name in registered)
    ensures NoDups(favorites) ==> NoDups(r)
    ensures |favorites| <= |r| && r[..|favorites|] == favorites
  {
    if name in registered && name !in favorites then favorites + [name] else favorites
  }

  /** Adding the same title twice leaves one entry: the second add changes nothing. */
  lemma AddFavoriteIdempotent(favorites: seq<string>, registered: set<string>, name: string)
    ensures AddFavorite(AddFavorite(favorites, registered, name), registered, name) == AddFavorite(favorites, registered, name)
  {
  }

  /**
    delete_book_from_favorites: drop the first occurrence of `name`, keeping
    the other titles in their order; nothing happens when `name` is absent.
   */
  function Without(s: seq<string>, name: string): (r: seq<string>)
    ensures name !in s ==> r == s
    ensures multiset(r) == multiset(s) - multiset{name}
    decreases s
  {
    if s == [] then []
    else if s[0] == name then
      assert s == [s[0]] + s[1..];
      s[1..]
    else
      assert s == [s[0]] + s[1..];
      [s[0]] + Without(s[1..], name)
  }

  /** Position of the first occurrence of a present title. */
  function FirstIndex(s: seq<string>, name: string): (i: nat)
    requires name in s
    ensures i < |s| && s[i] == name && name !in s[..i]
    decreases s
  {
    if s[0] == name then 0
    else
      var j := FirstIndex(s[1..], name);
      assert s[..j + 1] == [s[0]] + s[1..][..j];
      j + 1
  }

  /** A present title is cut out at its first occurrence; the rest keeps its order. */
  lemma {:induction false} WithoutSplits(s: seq<string>, name: string)
    requires name in s
    ensures Without(s, name) == s[..FirstIndex(s, name)] + s[FirstIndex(s, name) + 1..]
    decreases s
  {
    if s[0] == name {
      assert s[..0] == [];
    } else {
      assert s == [s[0]] + s[1..];
      WithoutSplits(s[1..], name);
      var j := FirstIndex(s[1..], name);
      assert FirstIndex(s, name) == j + 1;
      SlicesAfterHead(s, j);
    }
  }

  lemma SlicesAfterHead(s: seq<string>, j: nat)
    requires j + 1 < |s|
    ensures [s[0]] + (s[1..][..j] + s[1..][j + 1..]) == s[..j + 1] + s[j + 2..]
  {
    assert s[..j + 1] == [s[0]] + s[1..][..j];
    assert s[j + 2..] == s[1..][j + 1..];
  }

  lemma NoDupsTail(s: seq<string>)
    requires NoDups(s) && s != []
    ensures NoDups(s[1..]) && s[0] !in s[1..]
  {
    forall t | t in s[1..] ensures t != s[0] {
      var k :| 0 <= k < |s[1..]| && s[1..][k] == t;
      assert s[k + 1] == t;
    }
  }

  lemma NoDupsCons(x: string, s: seq<string>)
    requires NoDups(s) && x !in s
    ensures NoDups([x] + s)
  {
    forall i, j | 0 <= i < j < |[x] + s| ensures ([x] + s)[i] != ([x] + s)[j] {
      assert ([x] + s)[j] == s[j - 1];
      if i > 0 {
        assert ([x] + s)[i] == s[i - 1];
      }
    }
  }

  /** On a duplicate-free list, removal keeps it duplicate-free and drops exactly `name`. */
  lemma {:induction false} WithoutDistinct(s: seq<string>, name: string)
    requires NoDups(s)
    ensures NoDups(Without(s, name))
    ensures forall t :: t in Without(s, name) <==> t in s && t != name
    decreases s
  {
    if s != [] {
      NoDupsTail(s);
      WithoutDistinct(s[1..], name);
      assert forall t :: t in s <==> t == s[0] || t in s[1..] by {
        assert s == [s[0]] + s[1..];
      }
      if s[0] != name {
        NoDupsCons(s[0], Without(s[1..], name));
      }
    }
  }
}
