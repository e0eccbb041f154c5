/**
  The fixed genre taxonomy of the books collector: the labels set_book_genre
  accepts, and the age-rated part of them that get_books_for_children leaves out.
  Labels are compared exactly, character by character (so case matters).
 */
module Genres {

  /** Every genre label the collector recognises. */
  const Known: set<string> := {"Фантастика", "Ужасы", "Детективы", "Мультфильмы", "Комедии"}

  /** The recognised labels that carry an age rating. */
  const AgeRated: set<string> := {"Ужасы", "Детективы"}

  predicate IsRecognised(genre: string) {
    genre in Known
  }

  /** A genre fit for the "for children" list: recognised and not age-rated. */
  predicate IsChildSafe(genre: string) {
    genre in Known && genre !in AgeRated
  }

  /** The age-rated labels are part of the taxonomy, so every child-safe label is recognised. */
  lemma TaxonomyShape()
    ensures AgeRated <= Known
    ensures forall g :: IsChildSafe(g) ==> IsRecognised(g)
  {
  }

  /** The labels the set_book_genre test table names, and which of them it expects to be accepted. */
  lemma RecognisedAsTested()
    ensures IsRecognised("Фантастика") && IsRecognised("Ужасы")
    ensures !IsRecognised("") && !IsRecognised("История") && !IsRecognised("ФАНТАСТИКА")
  {
  }

  /** The labels the get_books_for_children test table names, and which of them it expects to be listed. */
  lemma ChildSafeAsTested()
    ensures IsChildSafe("Мультфильмы") && IsChildSafe("Комедии")
    ensures !IsChildSafe("Ужасы") && !IsChildSafe("Детективы")
  {
  }
}
