/**
 * The save path of the editor (`MiniBlogApp._read_editor` and
 * `MiniBlogApp.save_post`): read and strip the three fields, reject a missing
 * name, then a missing title, then empty content, and otherwise build the
 * post and write its file. The dialogs become the error value.
 */
module Editor {
  import opened Wrappers
  import opened Text
  import opened Posts
  import opened Listing

  /** Why a save was refused, in the order the checks run. */
  datatype SaveError =
    | MissingName   // "Please enter your name."
    | MissingTitle  // "Please enter a post title."
    | EmptyContent  // "Post content cannot be empty."

  /** The three editor fields after `_read_editor`. */
  datatype Fields = Fields(name: string, title: string, content: string)

  /** `_read_editor`: every field stripped on both sides, the content too. */
  function ReadEditor(nameField: string, titleField: string, contentText: string): Fields {
    Fields(Strip(nameField), Strip(titleField), Strip(contentText))
  }

  /** The checks of `save_post` and the post it builds when they pass. */
  function CheckFields(nameField: string, titleField: string, contentText: string): Result<Post, SaveError> {
    var f := ReadEditor(nameField, titleField, contentText);
    if f.name == [] then Failure(MissingName)
    else if f.title == [] then Failure(MissingTitle)
    else if f.content == [] then Failure(EmptyContent)
    else Success(NewPost(NewUser(f.name), f.title, f.content))
  }

  /** The name is checked first, then the title, then the content; each
      check fails exactly when its field is whitespace only, and the save
      goes ahead exactly when none of them is. */
  lemma CheckOrder(nameField: string, titleField: string, contentText: string)
    ensures CheckFields(nameField, titleField, contentText) == Failure(MissingName)
      <==> AllSpace(nameField)
    ensures CheckFields(nameField, titleField, contentText) == Failure(MissingTitle)
      <==> !AllSpace(nameField) && AllSpace(titleField)
    ensures CheckFields(nameField, titleField, contentText) == Failure(EmptyContent)
      <==> !AllSpace(nameField) && !AllSpace(titleField) && AllSpace(contentText)
    ensures CheckFields(nameField, titleField, contentText).Success?
      <==> !AllSpace(nameField) && !AllSpace(titleField) && !AllSpace(contentText)
  {
    StripEmpty(nameField);
    StripEmpty(titleField);
    StripEmpty(contentText);
  }

  /** The text widget hands over its contents with a newline appended; the
      strip in `_read_editor` removes it, so the checks and the post are the
      same with or without it. */
  lemma CheckFieldsIgnoresTrailingNewline(nameField: string, titleField: string, contentText: string)
    ensures CheckFields(nameField, titleField, contentText + "\n")
         == CheckFields(nameField, titleField, contentText)
  {
    StripDropsTrailingNewline(contentText);
  }

  /** A saved post holds the three fields stripped on both sides (stripping
      again in `User` and `Post` changes nothing), its author is valid, and
      neither its title nor its content is empty. */
  lemma CheckedPost(nameField: string, titleField: string, contentText: string)
    requires CheckFields(nameField, titleField, contentText).Success?
    ensures var p := CheckFields(nameField, titleField, contentText).value;
      && p == Post(User(Strip(nameField)), Strip(titleField), Strip(contentText))
      && IsValid(p.user) && p.title != [] && p.content != []
      && Trimmed(p.user.name) && Trimmed(p.title) && Trimmed(p.content)
  {
    StripIdempotent(nameField);
    StripIdempotent(titleField);
    var c := Strip(contentText);
    RStripExact(c, []);
    assert c + [] == c;
  }

  /** What a successful save leaves behind: the file's name and its text. */
  datatype Saved = Saved(filename: string, text: string)

  /** `save_post` with the clock reading `now`: either the first failed
      check, or the file `Post.to_file` writes for the checked post. */
  method SavePost(nameField: string, titleField: string, contentText: string, now: string)
    returns (r: Result<Saved, SaveError>)
    ensures CheckFields(nameField, titleField, contentText).Failure? ==>
      r == Failure(CheckFields(nameField, titleField, contentText).error)
    ensures CheckFields(nameField, titleField, contentText).Success? ==>
      var p := CheckFields(nameField, titleField, contentText).value;
      r == Success(Saved(Filename(p), Serialize(p, now)))
  {
    var f := ReadEditor(nameField, titleField, contentText);
    if f.name == [] {
      return Failure(MissingName);
    }
    if f.title == [] {
      return Failure(MissingTitle);
    }
    if f.content == [] {
      return Failure(EmptyContent);
    }
    var user := NewUser(f.name);
    var post := NewPost(user, f.title, f.content);
    var name, text := ToFile(post, now);
    r := Success(Saved(name, text));
  }

  /** Once the file of a post is in the directory, the refreshed list shows
      it, so `refresh_file_list(select_filename=...)` after a save selects
      it. */
  lemma SavedFileIsListed(p: Post, entries: seq<string>)
    requires Filename(p) in entries
    ensures IsTxtName(Filename(p))
    ensures Filename(p) in StableSort(TxtNames(entries))
  {
    FilenameSafe(p);
    TxtNamesContents(entries);
    StableSortPermutes(TxtNames(entries));
    assert Filename(p) in multiset(TxtNames(entries));
  }
}
