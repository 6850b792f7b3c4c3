/**
 * The filename slug of a post's author or title (`Post._slugify`): strip the
 * text, lower-case it, turn each space into an underscore, delete every
 * character outside `[a-z0-9_-]`, and fall back to "untitled" when nothing
 * is left.
 */
module Slug {
  import opened Text

  /** What an empty slug is replaced by. */
  const Fallback: string := "untitled"

  /** The character class `[a-z0-9_-]` the slug keeps. */
  predicate IsSlugChar(c: char) {
    'a' <= c <= 'z' || '0' <= c <= '9' || c == '_' || c == '-'
  }

  /** A non-empty string of slug characters: what `Slugify` returns. */
  predicate IsSlug(s: string) {
    s != [] && forall i :: 0 <= i < |s| ==> IsSlugChar(s[i])
  }

  /** `re.sub(r"[^a-z0-9_\-]", "", s)`: deletes every character outside the
      slug class and keeps the others in order. */
  function KeepSlugChars(s: string): (r: string)
    ensures |r| <= |s|
    ensures forall i :: 0 <= i < |r| ==> IsSlugChar(r[i])
  {
    if s == [] then []
    else (if IsSlugChar(s[0]) then [s[0]] else []) + KeepSlugChars(s[1..])
  }

  /** The lower, replace and filter steps of the slug, applied to text that
      has already been stripped. */
  function Clean(m: string): string {
    KeepSlugChars(Replace(Lower(m), ' ', '_'))
  }

  /** The text left after the strip, lower, replace and filter steps, before
      the fallback is applied. */
  function Kept(text: string): string {
    Clean(Strip(text))
  }

  /** `Post._slugify`. */
  function Slugify(text: string): (r: string)
    ensures IsSlug(r)
  {
    var kept := Kept(text);
    if kept == [] then Fallback else kept
  }

  lemma {:induction false} KeepAll(s: string)
    requires forall i :: 0 <= i < |s| ==> IsSlugChar(s[i])
    ensures KeepSlugChars(s) == s
  {
    if s != [] {
      KeepAll(s[1..]);
      assert [s[0]] + s[1..] == s;
    }
  }

  lemma {:induction false} KeepNone(s: string)
    requires forall i :: 0 <= i < |s| ==> !IsSlugChar(s[i])
    ensures KeepSlugChars(s) == []
  {
    if s != [] {
      KeepNone(s[1..]);
    }
  }

  lemma {:induction false} KeepAppend(a: string, b: string)
    ensures KeepSlugChars(a + b) == KeepSlugChars(a) + KeepSlugChars(b)
  {
    if a != [] {
      assert (a + b)[0] == a[0];
      assert (a + b)[1..] == a[1..] + b;
      KeepAppend(a[1..], b);
    } else {
      assert a + b == b;
    }
  }

  /** The steps after stripping work character by character, so they
      distribute over concatenation. */
  lemma CleanAppend(a: string, b: string)
    ensures Clean(a + b) == Clean(a) + Clean(b)
  {
    LowerAppend(a, b);
    var la, lb := Lower(a), Lower(b);
    assert Replace(la + lb, ' ', '_') == Replace(la, ' ', '_') + Replace(lb, ' ', '_');
    KeepAppend(Replace(la, ' ', '_'), Replace(lb, ' ', '_'));
  }

  /** A slug is its own slug, and only a slug is: `Slugify` leaves a string
      unchanged exactly when it is non-empty and made of `[a-z0-9_-]`. */
  lemma SlugifyFixpoint(s: string)
    ensures Slugify(s) == s <==> IsSlug(s)
  {
    if IsSlug(s) {
      assert Trimmed(s) by {
        assert !IsSpace(s[0]) && !IsSpace(s[|s| - 1]);
      }
      StripFixpoint(s);
      LowerUnchanged(s);
      assert Replace(s, ' ', '_') == s;
      KeepAll(s);
    }
  }

  /** `_slugify(_slugify(s)) == _slugify(s)`. */
  lemma SlugifyIdempotent(s: string)
    ensures Slugify(Slugify(s)) == Slugify(s)
  {
    SlugifyFixpoint(Slugify(s));
  }

  /** Text with no letter, digit, `_`, `-` or space (after any case folding)
      leaves nothing behind, so its slug is exactly "untitled". */
  lemma SlugifyFallback(s: string)
    requires forall i :: 0 <= i < |s| ==> !IsSlugChar(s[i]) && !ChangesCase(s[i]) && s[i] != ' '
    ensures Slugify(s) == Fallback
  {
    StripSplits(s);
    var i, m := LeadingSpace(s), Strip(s);
    forall j | 0 <= j < |m|
      ensures !IsSlugChar(m[j]) && !ChangesCase(m[j]) && m[j] != ' '
    {
      assert m[j] == s[i..i + |m|][j];
    }
    CleanDropsAll(m);
  }

  /** The cleaning steps leave nothing of text with no slug character, no
      capital and no space. */
  lemma CleanDropsAll(m: string)
    requires forall j :: 0 <= j < |m| ==> !IsSlugChar(m[j]) && !ChangesCase(m[j]) && m[j] != ' '
    ensures Clean(m) == []
  {
    LowerUnchanged(m);
    assert Replace(m, ' ', '_') == m;
    KeepNone(m);
  }

  /** Upper and lower case give the same slug: "ALICE" and "alice" name the
      same author in a filename. */
  lemma SlugifyIgnoresCase(s: string)
    ensures Slugify(Lower(s)) == Slugify(s)
  {
    StripLowerCommute(s);
    LowerIsLower(Strip(s));
  }

  /** An ASCII letter of either case or a digit. */
  predicate IsWordChar(c: char) {
    'a' <= c <= 'z' || 'A' <= c <= 'Z' || '0' <= c <= '9'
  }

  predicate IsWord(w: string) {
    w != [] && forall i :: 0 <= i < |w| ==> IsWordChar(w[i])
  }

  /** Punctuation: characters the slug drops that are neither whitespace nor
      a capital it would fold into a kept letter. */
  predicate IsPunctuation(p: string) {
    forall i :: 0 <= i < |p| ==> !IsSlugChar(p[i]) && !ChangesCase(p[i]) && !IsSpace(p[i])
  }

  lemma CleanWord(w: string)
    requires IsWord(w)
    ensures Clean(w) == Lower(w)
  {
    assert Replace(Lower(w), ' ', '_') == Lower(w);
    KeepAll(Lower(w));
  }

  lemma CleanPunctuation(p: string)
    requires IsPunctuation(p)
    ensures Clean(p) == []
  {
    CleanDropsAll(p);
  }

  /** A single word has no whitespace to strip and slugs to itself in lower
      case. */
  lemma SlugifyWord(w: string)
    requires IsWord(w)
    ensures Strip(w) == w
    ensures Slugify(w) == Lower(w)
  {
    assert Trimmed(w);
    StripFixpoint(w);
    CleanWord(w);
  }

  /** Text with non-blank ends, whatever whitespace surrounds it, slugs to
      what the cleaning steps leave of it, when that is not empty. */
  lemma SlugifyTrimmed(lead: string, m: string, trail: string)
    requires AllSpace(lead) && AllSpace(trail) && Trimmed(m)
    requires Clean(m) != []
    ensures Slugify(lead + m + trail) == Clean(m)
  {
    StripExact(lead, m, trail);
  }

  lemma CleanTwoWords(a: string, p: string, b: string, q: string)
    requires IsWord(a) && IsWord(b) && IsPunctuation(p) && IsPunctuation(q)
    ensures Clean(a + p + " " + b + q) == Lower(a) + "_" + Lower(b)
  {
    CleanAppend(a + p + " " + b, q);
    CleanAppend(a + p + " ", b);
    CleanAppend(a + p, " ");
    CleanAppend(a, p);
    CleanWord(a);
    CleanWord(b);
    CleanPunctuation(p);
    CleanPunctuation(q);
    assert Clean(" ") == "_";
    assert Lower(a) + [] + "_" + Lower(b) + [] == Lower(a) + "_" + Lower(b);
  }

  /** Two words separated by one space, each possibly followed by
      punctuation, with any whitespace around them: the slug is the two
      words in lower case joined by an underscore ("Jane Doe" gives
      "jane_doe", "  Hello, World! " gives "hello_world"). */
  lemma SlugifyTwoWords(lead: string, a: string, p: string, b: string, q: string, trail: string)
    requires AllSpace(lead) && AllSpace(trail)
    requires IsWord(a) && IsWord(b) && IsPunctuation(p) && IsPunctuation(q)
    ensures Slugify(lead + (a + p + " " + b + q) + trail) == Lower(a) + "_" + Lower(b)
  {
    var m := a + p + " " + b + q;
    assert m[0] == a[0];
    assert m[|m| - 1] == if q == [] then b[|b| - 1] else q[|q| - 1];
    CleanTwoWords(a, p, b, q);
    SlugifyTrimmed(lead, m, trail);
  }

  /** Two words joined by one space have no whitespace to strip, and slug to
      the lower-cased words joined by an underscore. */
  lemma SlugifyPair(a: string, b: string)
    requires IsWord(a) && IsWord(b)
    ensures Strip(a + " " + b) == a + " " + b
    ensures Slugify(a + " " + b) == Lower(a) + "_" + Lower(b)
  {
    var m := a + " " + b;
    assert Trimmed(m) by {
      assert m[0] == a[0] && m[|m| - 1] == b[|b| - 1];
    }
    StripFixpoint(m);
    CleanAppend(a + " ", b);
    CleanAppend(a, " ");
    CleanWord(a);
    CleanWord(b);
    assert Clean(" ") == "_";
  }
}
