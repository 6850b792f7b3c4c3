/**
 * Worked examples of the slug's edge cases. (The two-word examples "Jane Doe"
 * and "  Hello, World! " are instances of Slug.SlugifyTwoWords.)
 */
module SlugExamples {
  import opened Text
  import opened Slug

  /** Empty and all-punctuation text fall back to "untitled". */
  lemma SlugifyNothingLeft()
    ensures Slugify("") == Fallback
    ensures Slugify("!!!") == Fallback
  {
    SlugifyFallback("");
    SlugifyFallback("!!!");
  }

  /** A space between two punctuation marks survives as an underscore. */
  lemma SlugifyLoneSpace()
    ensures Slugify("! !") == "_"
  {
    StripFixpoint("! !");
    LowerUnchanged("! !");
    assert Replace("! !", ' ', '_') == "!_!";
    assert KeepSlugChars("!_!") == "_";
  }
}
