# MiniBlog core in Dafny

MiniBlog is a small desktop blog editor. An author types a name, a title and
some content. Saving creates a `User` and a `Post`, which writes a plain-text
file named `<author-slug>_<title-slug>.txt` into the `posts` folder. The file
starts with a four-line header (title, author, creation time and a line of 40
hyphens), followed by the content. The right-hand pane lists the `.txt` files
of that folder sorted case-insensitively, and selects a file that was just
saved.

This project models the non-GUI core of `miniblog/miniblog.py`:

- `Text`: the Python `str` operations the program calls, over `seq<char>`:
  `strip`/`rstrip` with Python's whitespace set, `lower`, one-character
  `replace`, `endswith`, `join`, and Python's code-point string order. The
  program never calls `split`; `Text.Split` (Python's `split` on one
  character) is there only to read a post file back line by line in
  `Posts.SerializedLines` and `Posts.ContentReadBack`.
- `Slug`: `Post._slugify` is `Slug.Slugify`, with `Slug.KeepSlugChars` for
  the regular-expression filter.
- `Posts`: `User.__init__` is `Posts.NewUser`, `User.is_valid` is
  `Posts.IsValid`, `Post.__init__` is `Posts.NewPost`, `Post.filename` is
  `Posts.Filename`. The text `Post.to_file` writes is `Posts.Serialize`, and
  `Posts.ToFile` builds it the way the source does, with the clock reading
  as a parameter.
- `Listing`: the file list of `refresh_file_list` is
  `Listing.RefreshFileList`. A loop (`Listing.ListTxt`, specified by
  `Listing.TxtNames`) keeps the `.txt` entries. An in-place stable insertion
  sort on an array (`Listing.SortByKey`, specified by `Listing.StableSort`)
  orders them by lower-cased name. A search (`Listing.FirstIndex`) finds the
  first position of the file to select.
- `Editor`: `_read_editor` is `Editor.ReadEditor`. The checks of `save_post`
  (name, then title, then content) are `Editor.CheckFields`, and
  `Editor.SavePost` runs them and builds and serialises the post. The error
  dialogs become error values.

The sort is proved against `StableSort`, a functional insertion sort. Its
result is shown to be sorted, a permutation of its input, and stable: for
every key, the elements with that key keep their order.

## Model

| member | source | states |
|---|---|---|
| Text.Strip | miniblog/miniblog.py:12 | `strip()` leaves a string with no whitespace at either end, no longer than its input |
| Text.RStrip | miniblog/miniblog.py:22 | `rstrip()` returns a prefix whose removed tail is all whitespace and whose last character is not whitespace |
| Text.StripRemovesOnlyEdgeSpace | miniblog/miniblog.py:12 | the input is its leading whitespace, the stripped text and trailing whitespace, in that order |
| Text.StripExact | miniblog/miniblog.py:12 | stripping text with non-blank ends surrounded by any whitespace gives exactly that text |
| Text.StripIdempotent | miniblog/miniblog.py:132-134 | stripping twice is stripping once |
| Text.StripFixpoint | miniblog/miniblog.py:12 | `strip` leaves a string unchanged iff neither end is whitespace |
| Text.StripEmpty | miniblog/miniblog.py:145-153 | `strip` gives the empty string iff the input is whitespace only |
| Text.RStripExact | miniblog/miniblog.py:22 | `rstrip` removes exactly the trailing whitespace |
| Text.LowerIsLower | miniblog/miniblog.py:25 | no character of a lowered string changes case again, so `lower` is idempotent |
| Text.StripLowerCommute | miniblog/miniblog.py:25 | `s.strip().lower() == s.lower().strip()` |
| Text.SplitJoin | miniblog/miniblog.py:46 | splitting a newline-join of newline-free lines gives those lines back |
| Text.JoinSplit | miniblog/miniblog.py:46 | joining the pieces of a split gives the text back |
| Text.SplitJoinThen | miniblog/miniblog.py:46-47 | splitting the joined header, a newline and more text gives the header lines followed by the split of the rest |
| Text.StripDropsTrailingNewline | miniblog/miniblog.py:134 | a trailing newline is removed by `strip` like any other trailing whitespace |
| Text.LexLeTotal | miniblog/miniblog.py:170 | Python's string order is total |
| Text.LexLeTransitive | miniblog/miniblog.py:170 | Python's string order is transitive |
| Text.LexLeAntisymmetric | miniblog/miniblog.py:170 | Python's string order is antisymmetric |
| Slug.Slugify | miniblog/miniblog.py:24-28 | the slug is non-empty and uses only `[a-z0-9_-]` |
| Slug.SlugifyFixpoint | miniblog/miniblog.py:24-28 | a string is its own slug iff it is non-empty and made of `[a-z0-9_-]` |
| Slug.SlugifyIdempotent | miniblog/miniblog.py:24-28 | slugifying a slug changes nothing |
| Slug.SlugifyFallback | miniblog/miniblog.py:28 | text with no slug character, capital or space slugs to exactly "untitled" |
| Slug.SlugifyIgnoresCase | miniblog/miniblog.py:25 | text and its lower case give the same slug |
| Slug.CleanAppend | miniblog/miniblog.py:25-27 | the lower, replace and filter steps distribute over concatenation |
| Slug.SlugifyTrimmed | miniblog/miniblog.py:25-28 | surrounding whitespace does not change the slug of text with non-blank ends |
| Slug.SlugifyWord | miniblog/miniblog.py:24-28 | a single ASCII word needs no stripping and slugs to its lower case |
| Slug.SlugifyPair | miniblog/miniblog.py:24-28 | two words separated by a space slug to the lower-cased words joined by `_` |
| Slug.SlugifyTwoWords | miniblog/miniblog.py:24-28 | two words, each possibly followed by punctuation, inside any whitespace, slug to the lower-cased words joined by `_` (e.g. "Jane Doe" gives "jane_doe", "  Hello, World! " gives "hello_world") |
| SlugExamples.SlugifyNothingLeft | miniblog/miniblog.py:28 | `""` and `"!!!"` slug to "untitled" |
| SlugExamples.SlugifyLoneSpace | miniblog/miniblog.py:26-27 | `"! !"` slugs to `"_"`: the space survives as an underscore |
| Posts.UserNameTrimmed | miniblog/miniblog.py:11-12 | the stored name has no edge whitespace, is the given name with only edge whitespace removed, and building a user from it again changes nothing |
| Posts.UserValidity | miniblog/miniblog.py:14-15 | a user is valid iff the given name has a non-whitespace character |
| Posts.PostTitleTrimmed | miniblog/miniblog.py:19-21 | the author is kept, and the title is the given title with only edge whitespace removed |
| Posts.PostContentRightStripped | miniblog/miniblog.py:22 | the content is a prefix of the given content: only trailing whitespace is removed, and leading whitespace is kept |
| Posts.Filename | miniblog/miniblog.py:30-33 | the filename ends in ".txt" and has at least 7 characters |
| Posts.FilenameSafe | miniblog/miniblog.py:30-33 | a filename contains only slug characters and dots, so no path separator; it is already lower case and passes the listing's ".txt" test |
| Posts.SameSlugsSameFilename | miniblog/miniblog.py:30-33 | posts with equal author and title slugs share a filename |
| Posts.FilenameDeterminesOtherSlug | miniblog/miniblog.py:30-33 | for two posts with the same filename, their author slugs agree iff their title slugs agree |
| Posts.FilenameCollision | miniblog/miniblog.py:30-33 | author "a b" with title "c" and author "a" with title "b c" are different authors with the same filename |
| Posts.SeparatorIsForty | miniblog/miniblog.py:43 | the separator line is `"-" * 40` |
| Posts.SerializeJoinsHeader | miniblog/miniblog.py:39-47 | the file text is the header lines joined by newlines, a newline, the content and a final newline |
| Posts.ToFile | miniblog/miniblog.py:35-48 | returns the post's filename and exactly the text its two writes pass to the file |
| Posts.SerializedLines | miniblog/miniblog.py:39-47 | with single-line title, author and timestamp, the file's lines are the four header lines, the 4th being 40 hyphens, then the content's lines, then an empty string after the final newline |
| Posts.ContentReadBack | miniblog/miniblog.py:46-47 | everything after the four header lines, joined by newlines, is the content plus its final newline |
| Listing.TxtNamesContents | miniblog/miniblog.py:169 | the filter keeps exactly the entries whose lower case ends in ".txt", each as often as it occurs |
| Listing.ListTxt | miniblog/miniblog.py:169 | the comprehension's loop produces the filtered entries in directory order |
| Listing.KeyLeIsLowerOrder | miniblog/miniblog.py:170 | the sort's comparison is Python's string order on the lower-cased names |
| Listing.SameKeyIsLowerEquality | miniblog/miniblog.py:170 | two names tie under the sort key iff their lower cases are equal |
| Listing.SameKeyIsTie | miniblog/miniblog.py:170 | two names tie for the `<`-based sort (neither key below the other) iff their lower cases are equal |
| Listing.KeyLeTotal | miniblog/miniblog.py:170 | any two names are ordered by the key one way or the other |
| Listing.KeyLeTransitive | miniblog/miniblog.py:170 | the key order is transitive |
| Listing.SlotSpec | miniblog/miniblog.py:170 | an inserted name goes after every element whose key is at most its own and before every element whose key is above it |
| Listing.InsertSorted | miniblog/miniblog.py:170 | inserting into a sorted list keeps it sorted |
| Listing.InsertPermutes | miniblog/miniblog.py:170 | inserting adds exactly the new element |
| Listing.InsertStable | miniblog/miniblog.py:170 | inserting puts the new element after the elements already there with its key, and keeps their order |
| Listing.StableSortSorted | miniblog/miniblog.py:170 | the sorted list is ordered by lower-cased name |
| Listing.StableSortPermutes | miniblog/miniblog.py:170 | the sort is a permutation |
| Listing.StableSortStable | miniblog/miniblog.py:170 | names whose keys tie keep their relative order |
| Listing.InsertInPlace | miniblog/miniblog.py:170 | one insertion pass on the array turns its first `i+1` cells into the stable insertion of `a[i]` and leaves the rest alone |
| Listing.SortByKey | miniblog/miniblog.py:170 | the array is sorted in place to exactly `StableSort` of its old contents |
| Listing.FirstIndex | miniblog/miniblog.py:175 | `files.index(name)` returns a position holding the name, with no earlier occurrence |
| Listing.RefreshFileList | miniblog/miniblog.py:165-180 | the listed files are exactly the ".txt" entries with their multiplicities, sorted by lower-cased name and stable; a non-empty requested name is selected at its first position iff it is listed, and otherwise nothing is selected |
| Editor.CheckOrder | miniblog/miniblog.py:131-153 | the save fails with "enter your name" iff the name is whitespace only; then "enter a post title" iff the title is; then "content cannot be empty" iff the content is; otherwise it goes ahead |
| Editor.CheckFieldsIgnoresTrailingNewline | miniblog/miniblog.py:134 | the newline the text widget appends to the content changes neither the checks nor the post built |
| Editor.CheckedPost | miniblog/miniblog.py:131-157 | a saved post holds the three fields stripped on both sides, has a valid author, and has a non-empty title and content |
| Editor.SavePost | miniblog/miniblog.py:142-158 | a failed check returns its error; otherwise the result is the post's filename and its serialised text |
| Editor.SavedFileIsListed | miniblog/miniblog.py:158-160 | once a saved file is in the folder it passes the ".txt" filter and is in the refreshed list, so it can be selected |

## Left out

- The tkinter GUI: windows, widgets, message boxes, focus, `clear_editor`, and
  `open_selected_file` with its preview. The dialogs of `save_post` become the
  `SaveError` values.
- The text widget: `Editor.ReadEditor` and `Editor.SavePost` take the raw
  content without the newline that tkinter's `Text.get("1.0", "end")`
  appends. `Editor.CheckFieldsIgnoresTrailingNewline` shows that this
  newline changes neither the checks nor the post.
- File system effects: `os.makedirs`, `open`/`write`, `os.listdir`, and the
  `OSError` branches with their dialogs. The directory entries are a parameter
  of `RefreshFileList`, in whatever order the directory yields them. A second
  save with the same filename overwrites the first; the folder's contents are
  not modelled.
- `os.path.join` and `os.path.basename`: `ToFile` returns the bare filename,
  which is what `save_post` passes on.
- Names that are not Unicode text: a Dafny `char` is a Unicode scalar value,
  so an entry of `RefreshFileList` cannot hold a lone surrogate. Python's
  `os.listdir` returns one for each undecodable byte of a POSIX filename
  (surrogateescape) or each unpaired UTF-16 unit on Windows, and still lists
  and sorts such a name when its lower case ends in ".txt".
- The bytes on disk: `ToFile` returns the string handed to `f.write`. Python's
  text mode then turns each "\n" into `os.linesep` ("\r\n" on Windows) and
  encodes the result as UTF-8. Neither step is modelled, so
  `Posts.SerializedLines` and `Posts.ContentReadBack` describe the written
  string, not the file's bytes.
- `datetime.now().strftime(...)`: the timestamp is a string parameter `now`.
- The `re` module: the regular expression `[^a-z0-9_\-]` is modelled by the
  character predicate `IsSlugChar`.
- Text.Lower: models Python's `lower()` for A–Z and the Kelvin sign only.
  Every other character is its own lower case here. In particular U+0130 is
  left out: Python lowers it to "i" plus a combining dot, so the source keeps
  an "i" in the slug where the model keeps nothing. Other non-ASCII capitals
  change only the sort order of names that contain them. The ".txt" test is
  unaffected.
- `main` and the application start-up.
