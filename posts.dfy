/**
 * The blog's value objects: a `User` (the author) and a `Post`, with the
 * trimming their constructors apply, the filename a post is stored under and
 * the text `Post.to_file` writes into that file.
 */
module Posts {
  import opened Text
  import opened Slug

  // ---------------------------------------------------------------------
  // Users
  // ---------------------------------------------------------------------

  /** An author, holding the name as `User.__init__` leaves it. */
  datatype User = User(name: string)

  /** `User(name)`: the name is stored stripped. */
  function NewUser(name: string): User {
    User(Strip(name))
  }

  /** `User.is_valid`. */
  predicate IsValid(u: User) {
    |u.name| > 0
  }

  /** The stored name has no whitespace at either end and is the given name
      with only surrounding whitespace taken off; constructing a user from it
      again changes nothing. */
  lemma UserNameTrimmed(name: string)
    ensures var n := NewUser(name).name;
      && Trimmed(n)
      && LeadingSpace(name) + |n| <= |name|
      && name == name[..LeadingSpace(name)] + n + name[LeadingSpace(name) + |n|..]
      && AllSpace(name[..LeadingSpace(name)])
      && AllSpace(name[LeadingSpace(name) + |n|..])
      && NewUser(n).name == n
  {
    StripRemovesOnlyEdgeSpace(name);
    StripIdempotent(name);
  }

  /** A user is valid exactly when the given name has a character other than
      whitespace. */
  lemma UserValidity(name: string)
    ensures IsValid(NewUser(name)) <==> !AllSpace(name)
  {
    StripEmpty(name);
  }

  // ---------------------------------------------------------------------
  // Posts
  // ---------------------------------------------------------------------

  datatype Post = Post(user: User, title: string, content: string)

  /** `Post(user, title, content)`: the title is stripped on both sides, the
      content only on the right. */
  function NewPost(user: User, title: string, content: string): Post {
    Post(user, Strip(title), RStrip(content))
  }

  /** The title has no whitespace at either end and is the given title with
      only surrounding whitespace taken off; the author is kept as given. */
  lemma PostTitleTrimmed(user: User, title: string, content: string)
    ensures var p := NewPost(user, title, content);
      && p.user == user
      && Trimmed(p.title)
      && LeadingSpace(title) + |p.title| <= |title|
      && title == title[..LeadingSpace(title)] + p.title + title[LeadingSpace(title) + |p.title|..]
      && AllSpace(title[..LeadingSpace(title)])
      && AllSpace(title[LeadingSpace(title) + |p.title|..])
  {
    StripRemovesOnlyEdgeSpace(title);
  }

  /** The content is the given content up to its trailing whitespace: a
      prefix that keeps the leading whitespace and everything in between. */
  lemma PostContentRightStripped(user: User, title: string, content: string)
    ensures var c := NewPost(user, title, content).content;
      && c <= content
      && AllSpace(content[|c|..])
      && (c == [] || !IsSpace(c[|c| - 1]))
      && (!AllSpace(content) ==> LeadingSpace(c) == LeadingSpace(content))
  {
    var c := RStrip(content);
    if !AllSpace(content) {
      var k := LeadingSpace(content);
      assert k < |content|;
      LeadingSpacePrefix(content, c);
    }
  }

  /** A prefix that reaches past the leading whitespace has the same
      leading whitespace. */
  lemma {:induction false} LeadingSpacePrefix(s: string, c: string)
    requires c <= s && LeadingSpace(s) < |c|
    ensures LeadingSpace(c) == LeadingSpace(s)
  {
    if s[0] == c[0] && IsSpace(s[0]) {
      LeadingSpacePrefix(s[1..], c[1..]);
    }
  }

  // ---------------------------------------------------------------------
  // Filename
  // ---------------------------------------------------------------------

  const Extension: string := ".txt"

  /** `Post.filename`: author slug, underscore, title slug, ".txt". */
  function Filename(p: Post): (f: string)
    ensures EndsWith(f, Extension)
    ensures |f| >= 7
  {
    Slugify(p.user.name) + "_" + Slugify(p.title) + Extension
  }

  /** Slug characters and dots only. */
  predicate FilenameChars(s: string) {
    forall i :: 0 <= i < |s| ==> IsSlugChar(s[i]) || s[i] == '.'
  }

  lemma FilenameCharsAppend(u: string, v: string)
    requires FilenameChars(u) && FilenameChars(v)
    ensures FilenameChars(u + v)
  {
    forall i | 0 <= i < |u + v| ensures IsSlugChar((u + v)[i]) || (u + v)[i] == '.' {
      if i >= |u| {
        assert (u + v)[i] == v[i - |u|];
      }
    }
  }

  /** Every character of a filename is a slug character or the dot of the
      extension, so a filename is never a path, is already lower case, and
      passes the listing's ".txt" test. */
  lemma FilenameSafe(p: Post)
    ensures FilenameChars(Filename(p))
    ensures '/' !in Filename(p) && '\\' !in Filename(p)
    ensures Lower(Filename(p)) == Filename(p)
    ensures EndsWith(Lower(Filename(p)), Extension)
  {
    SlugsMakeFilenameChars(Slugify(p.user.name), Slugify(p.title));
    FilenameCharsAreSafe(Filename(p));
  }

  lemma SlugsMakeFilenameChars(a: string, t: string)
    requires IsSlug(a) && IsSlug(t)
    ensures FilenameChars(a + "_" + t + Extension)
  {
    assert FilenameChars("_");
    assert FilenameChars(Extension);
    FilenameCharsAppend(a, "_");
    FilenameCharsAppend(a + "_", t);
    FilenameCharsAppend(a + "_" + t, Extension);
  }

  lemma FilenameCharsAreSafe(f: string)
    requires FilenameChars(f)
    ensures '/' !in f && '\\' !in f
    ensures Lower(f) == f
  {
    LowerUnchanged(f);
  }

  /** Posts whose author slugs and title slugs agree share a filename. */
  lemma SameSlugsSameFilename(p: Post, q: Post)
    requires Slugify(p.user.name) == Slugify(q.user.name)
    requires Slugify(p.title) == Slugify(q.title)
    ensures Filename(p) == Filename(q)
  {
  }

  /** In `a + "_" + t + ".txt"`, either part and the whole give the other. */
  lemma FilenameParts(a1: string, t1: string, a2: string, t2: string)
    requires a1 + "_" + t1 + Extension == a2 + "_" + t2 + Extension
    ensures a1 == a2 <==> t1 == t2
  {
    var f := a1 + "_" + t1 + Extension;
    var g := a2 + "_" + t2 + Extension;
    if a1 == a2 {
      assert t1 == f[|a1| + 1..|f| - 4];
      assert t2 == g[|a2| + 1..|g| - 4];
    }
    if t1 == t2 {
      assert a1 == f[..|f| - 5 - |t1|];
      assert a2 == g[..|g| - 5 - |t2|];
    }
  }

  /** Knowing one of the two slugs, the filename determines the other. */
  lemma FilenameDeterminesOtherSlug(p: Post, q: Post)
    requires Filename(p) == Filename(q)
    ensures Slugify(p.user.name) == Slugify(q.user.name) <==> Slugify(p.title) == Slugify(q.title)
  {
    FilenameParts(Slugify(p.user.name), Slugify(p.title), Slugify(q.user.name), Slugify(q.title));
  }

  /** The underscore between the slugs is also what a space inside a name
      becomes, so different authors and titles can share a filename: author
      "a b" with title "c" and author "a" with title "b c" both give
      "a_b_c.txt". */
  lemma FilenameCollision(a: string, b: string, c: string, content: string)
    requires IsWord(a) && IsWord(b) && IsWord(c)
    ensures NewUser(a + " " + b).name != NewUser(a).name
    ensures Filename(NewPost(NewUser(a + " " + b), c, content))
         == Filename(NewPost(NewUser(a), b + " " + c, content))
  {
    SlugifyWord(a);
    SlugifyWord(c);
    SlugifyPair(a, b);
    SlugifyPair(b, c);
    Regroup(Lower(a) + "_", Lower(b), "_", Lower(c));
  }

  // ---------------------------------------------------------------------
  // File contents
  // ---------------------------------------------------------------------

  /** `"-" * n`. */
  function Repeat(c: char, n: nat): (r: string)
    ensures |r| == n
    ensures forall i :: 0 <= i < n ==> r[i] == c
  {
    if n == 0 then [] else [c] + Repeat(c, n - 1)
  }

  /** The line that ends the header: `"-" * 40`. */
  const Separator: string := "----------------------------------------"

  /** The separator is 40 hyphens. */
  lemma SeparatorIsForty()
    ensures Separator == Repeat('-', 40)
  {
    assert |Separator| == 40;
    forall i | 0 <= i < 40 ensures Separator[i] == Repeat('-', 40)[i] {
    }
  }

  /** The four header lines of a post file, in order. */
  function Header(p: Post, now: string): seq<string> {
    ["Title: " + p.title, "Author: " + p.user.name, "Created: " + now, Separator]
  }

  /** The text of a post file written at time `now` (the
      "%Y-%m-%d %H:%M:%S" rendering of the clock): the title, author and
      timestamp lines, the separator, the content and a final newline. */
  function Serialize(p: Post, now: string): string {
    ("Title: " + p.title) + "\n" + ("Author: " + p.user.name) + "\n" + ("Created: " + now) + "\n"
      + Separator + "\n" + p.content + "\n"
  }

  /** The text is the header lines joined by newlines, a newline, the
      content and a final newline. */
  lemma SerializeJoinsHeader(p: Post, now: string)
    ensures Serialize(p, now) == Join(Header(p, now), "\n") + "\n" + p.content + "\n"
  {
    var l0, l1, l2 := "Title: " + p.title, "Author: " + p.user.name, "Created: " + now;
    JoinFour(l0, l1, l2, Separator, "\n");
  }

  /** `Post.to_file` without the file system: returns the name of the file it
      writes and the text its two writes, the joined header and then the
      content, pass to the file. */
  method ToFile(p: Post, now: string) returns (name: string, written: string)
    ensures name == Filename(p)
    ensures written == Serialize(p, now)
  {
    name := Filename(p);
    var header := Header(p, now);
    written := Join(header, "\n") + "\n";
    written := written + p.content + "\n";
    SerializeJoinsHeader(p, now);
  }

  lemma HeaderSingleLines(p: Post, now: string)
    requires '\n' !in p.title && '\n' !in p.user.name && '\n' !in now
    ensures forall k :: 0 <= k < |Header(p, now)| ==> '\n' !in Header(p, now)[k]
  {
    var h := Header(p, now);
    assert '\n' !in h[0] && '\n' !in h[1] && '\n' !in h[2];
    assert '\n' !in h[3];
  }

  /** Read line by line, the file starts with exactly the four header lines,
      the fourth being 40 hyphens; the content's own lines follow, and the
      final newline ends the text. This holds when the title, the author and
      the timestamp are single lines. */
  lemma SerializedLines(p: Post, now: string)
    requires '\n' !in p.title && '\n' !in p.user.name && '\n' !in now
    ensures Split(Serialize(p, now), '\n')
         == Header(p, now) + Split(p.content, '\n') + [""]
    ensures |Split(Serialize(p, now), '\n')| >= 5
    ensures Split(Serialize(p, now), '\n')[3] == Separator == Repeat('-', 40)
  {
    var h := Header(p, now);
    HeaderSingleLines(p, now);
    SerializeJoinsHeader(p, now);
    assert Serialize(p, now) == Join(h, "\n") + "\n" + (p.content + "\n");
    SplitJoinThen(h, '\n', p.content + "\n");
    SplitAppendSep(p.content, '\n');
    SeparatorIsForty();
  }

  /** Everything after the four header lines is the content and the final
      newline: the content can be read back from the file. */
  lemma ContentReadBack(p: Post, now: string)
    requires '\n' !in p.title && '\n' !in p.user.name && '\n' !in now
    ensures |Split(Serialize(p, now), '\n')| >= 5
      && Join(Split(Serialize(p, now), '\n')[4..], "\n") == p.content + "\n"
  {
    SerializedLines(p, now);
    var lines := Split(p.content, '\n');
    assert Split(Serialize(p, now), '\n')[4..] == lines + [""];
    JoinSnoc(lines, "", "\n");
    JoinSplit(p.content, '\n');
  }
}
