/**
 * Opening a file as it was when last added to Git: the `latr.openFromGitHistory`
 * command (extension.js:389-446) with its helpers `getLastAddedCommitForFile`
 * (294-311), `getFileContentFromGit` (320-335) and `getLanguageForFile`
 * (342-349). The outputs of `git log -n 1 --diff-filter=A` and `git show`
 * are parameters (`None` when the command fails); the `files.associations`
 * setting is a map from glob to language.
 */
module History {
  import opened Wrappers
  import opened Text
  import opened Paths

  // ---------------------------------------------------------------------
  // getLanguageForFile
  // ---------------------------------------------------------------------

  /**
   * The language for a file: the association for `*` followed by the
   * lower-cased extension when it is set and not empty, else the
   * extension without its dot when that is not empty, else `plaintext`.
   */
  function LanguageForFile(filePath: string, associations: map<string, string>): string {
    var ext := ToLower(Extname(filePath));
    var key := "*" + ext;
    if key in associations && associations[key] != [] then associations[key]
    else if |ext| > 1 then ext[1..]
    else "plaintext"
  }

  /** Lower-casing keeps the shape of an extension and leaves no upper-case letter after the dot. */
  lemma LowerKeepsExtension(e: string)
    requires IsExtension(e)
    ensures IsExtension(ToLower(e))
    ensures ToLower(e) != [] ==> NoUpper(ToLower(e)[1..])
  {
    var ext := ToLower(e);
    if ext != [] {
      assert ext[0] == LowerChar(e[0]);
      assert '.' !in ext[1..] by {
        forall i | 0 <= i < |ext| - 1 ensures ext[1..][i] != '.' {
          assert ext[1..][i] == LowerChar(e[i + 1]);
          assert e[i + 1] == e[1..][i];
        }
      }
      assert '/' !in ext by {
        forall i | 0 <= i < |ext| ensures ext[i] != '/' {
          assert e[i] in e;
        }
      }
      assert NoUpper(ext[1..]) by {
        forall i | 0 <= i < |ext| - 1 ensures !('A' <= ext[1..][i] <= 'Z') {
          assert ext[1..][i] == ext[i + 1];
        }
      }
    }
  }

  /** Lower-casing keeps the shape of an extension: a leading dot and no other dot or separator. */
  lemma LowerExtShape(p: string)
    ensures var ext := ToLower(Extname(p));
      ext == [] || (ext[0] == '.' && '.' !in ext[1..] && '/' !in ext)
  {
    LowerKeepsExtension(Extname(p));
  }

  /**
   * The three sources of the language, in order of precedence; without an
   * association the language is a lower-case word without dots or
   * separators, and it is never empty.
   */
  lemma LanguageForFileSpec(filePath: string, associations: map<string, string>)
    ensures var ext := ToLower(Extname(filePath));
      var language := LanguageForFile(filePath, associations);
      && language != []
      && ("*" + ext in associations && associations["*" + ext] != [] ==> language == associations["*" + ext])
      && (!("*" + ext in associations && associations["*" + ext] != []) ==>
            && (|ext| > 1 ==> "." + language == ext)
            && (|ext| <= 1 ==> language == "plaintext")
            && NoUpper(language) && '.' !in language && '/' !in language)
  {
    var ext := ToLower(Extname(filePath));
    var language := LanguageForFile(filePath, associations);
    LowerKeepsExtension(Extname(filePath));
    if "*" + ext in associations && associations["*" + ext] != [] {
      assert language == associations["*" + ext];
    } else if |ext| > 1 {
      assert language == ext[1..];
      ExtensionWord(ext);
    } else {
      assert language == "plaintext";
      PlaintextIsAWord();
    }
  }

  /** A lower-cased extension without its dot is a lower-case word. */
  lemma ExtensionWord(ext: string)
    requires IsExtension(ext) && |ext| > 1 && NoUpper(ext[1..])
    ensures "." + ext[1..] == ext
    ensures NoUpper(ext[1..]) && '.' !in ext[1..] && '/' !in ext[1..]
  {
    assert ext == [ext[0]] + ext[1..];
    assert '/' !in ext[1..] by {
      forall i | 0 <= i < |ext| - 1 ensures ext[1..][i] != '/' {
        assert ext[1..][i] == ext[i + 1];
      }
    }
  }

  /** The fallback language is a lower-case word. */
  lemma PlaintextIsAWord()
    ensures NoUpper("plaintext") && '.' !in "plaintext" && '/' !in "plaintext"
  {
    var w := "plaintext";
    assert w == ['p', 'l', 'a', 'i', 'n', 't', 'e', 'x', 't'];
  }

  /**
   * A file whose extension is spelled with upper-case letters gets the
   * language of the file whose extension is its lower-case spelling.
   */
  lemma LanguageIgnoresCase(p: string, q: string, associations: map<string, string>)
    requires Extname(q) == ToLower(Extname(p))
    ensures LanguageForFile(p, associations) == LanguageForFile(q, associations)
  {
    LowerTwice(Extname(p));
  }

  /** Lowering twice is lowering once. */
  lemma LowerTwice(s: string)
    ensures ToLower(ToLower(s)) == ToLower(s)
  {
    assert forall i :: 0 <= i < |s| ==> ToLower(ToLower(s))[i] == ToLower(s)[i];
  }

  // ---------------------------------------------------------------------
  // The two Git helpers
  // ---------------------------------------------------------------------

  /** `stdout.trim() || null`: the commit hash printed by `git log -n 1 --format=%H`. */
  function CommitHash(stdout: string): (hash: Option<string>)
    ensures hash.None? <==> AllSpace(stdout)
    ensures hash.Some? ==> hash.value != [] && Trimmed(hash.value)
    ensures hash.Some? ==> Lead(stdout) + |hash.value| <= |stdout| && hash.value == stdout[Lead(stdout)..Lead(stdout) + |hash.value|]
    ensures hash.Some? ==> AllSpace(stdout[..Lead(stdout)]) && AllSpace(stdout[Lead(stdout) + |hash.value|..])
  {
    TrimShape(stdout);
    TrimEmptyIffAllSpace(stdout);
    var t := Trim(stdout);
    if t == [] then None else Some(t)
  }

  /** Trimming again changes nothing: a hash is already normalised. */
  lemma CommitHashIdempotent(stdout: string)
    requires CommitHash(stdout).Some?
    ensures CommitHash(CommitHash(stdout).value) == CommitHash(stdout)
  {
    TrimIdempotent(stdout);
  }

  /** `stdout || null`: the file content printed by `git show`. */
  function FileContent(stdout: string): Option<string> {
    if stdout == [] then None else Some(stdout)
  }

  // ---------------------------------------------------------------------
  // The outcome chain of openFromGitHistory
  // ---------------------------------------------------------------------

  const NoFileSelected := "No file selected to open from Git history."
  const NotInWorkspace := "File is not part of the current workspace."
  const NoRelativePath := "Failed to resolve relative path for the file."
  const NoHistory := "No Git history found for this file."
  const NoContent := "Failed to retrieve the file content from Git history."
  const OpenError := "An error occurred while trying to open the file from Git history."

  /** How the command ends: an editor opened on the old content, or an error message. */
  datatype Outcome = Opened(content: string, language: string) | Failed(message: string)

  /**
   * The command for the selected item's path (`None` when there is no item
   * or it has no `resourceUri`), the path of the workspace folder holding
   * it (`None` when there is none), the output of `git log` for the file
   * and the output of `git show` for each commit hash.
   */
  function OpenFromGitHistory(
    item: Option<string>, owner: Option<string>,
    logOut: Option<string>, show: string -> Option<string>,
    associations: map<string, string>): Outcome
    requires item.Some? && owner.Some? ==> Within(owner.value, item.value)
  {
    if item.None? then Failed(NoFileSelected)
    else if owner.None? then Failed(NotInWorkspace)
    else
      var relativePath := Relative(owner.value, item.value);
      if relativePath == [] then Failed(NoRelativePath)
      else
        match logOut
        case None => Failed(OpenError)
        case Some(out) =>
          match CommitHash(out)
          case None => Failed(NoHistory)
          case Some(hash) =>
            match show(hash)
            case None => Failed(OpenError)
            case Some(stdout) =>
              match FileContent(stdout)
              case None => Failed(NoContent)
              case Some(content) => Opened(content, LanguageForFile(item.value, associations))
  }

  /** The six messages are pairwise distinct, so each stop can be told apart. */
  lemma MessagesDistinct()
    ensures var ms := [NoFileSelected, NotInWorkspace, NoRelativePath, NoHistory, NoContent, OpenError];
      forall i, j :: 0 <= i < j < |ms| ==> ms[i] != ms[j]
  {
    assert |NoFileSelected| == 42 && |NotInWorkspace| == 42 && |NoRelativePath| == 45;
    assert |NoHistory| == 35 && |NoContent| == 53 && |OpenError| == 65;
    assert NoFileSelected[0] == 'N' && NotInWorkspace[0] == 'F';
  }

  /**
   * The command stops with its own message at each check, in order: no
   * item, no workspace folder, the folder itself (empty relative path), no
   * commit that added the file, empty content; a failing command becomes
   * the generic error.
   */
  lemma OpenStops(
    item: Option<string>, owner: Option<string>,
    logOut: Option<string>, show: string -> Option<string>,
    associations: map<string, string>)
    requires item.Some? && owner.Some? ==> Within(owner.value, item.value)
    ensures var r := OpenFromGitHistory(item, owner, logOut, show, associations);
      && (item.None? ==> r == Failed(NoFileSelected))
      && (item.Some? && owner.None? ==> r == Failed(NotInWorkspace))
      && (item.Some? && owner.Some? && (item.value == owner.value || item.value == owner.value + "/") ==> r == Failed(NoRelativePath))
      && (item.Some? && owner.Some? && item.value != owner.value && item.value != owner.value + "/" ==>
            && (logOut.None? ==> r == Failed(OpenError))
            && (logOut.Some? && AllSpace(logOut.value) ==> r == Failed(NoHistory))
            && (logOut.Some? && !AllSpace(logOut.value) ==>
                  var hash := CommitHash(logOut.value).value;
                  && (show(hash).None? ==> r == Failed(OpenError))
                  && (show(hash) == Some([]) ==> r == Failed(NoContent))))
  {
  }

  /**
   * The command opens an editor exactly when every check passes; the editor
   * shows what `git show` printed for the trimmed hash, in the file's
   * language.
   */
  lemma OpenedIff(
    item: Option<string>, owner: Option<string>,
    logOut: Option<string>, show: string -> Option<string>,
    associations: map<string, string>)
    requires item.Some? && owner.Some? ==> Within(owner.value, item.value)
    ensures var r := OpenFromGitHistory(item, owner, logOut, show, associations);
      r.Opened? <==>
        && item.Some? && owner.Some? && item.value != owner.value && item.value != owner.value + "/"
        && logOut.Some? && !AllSpace(logOut.value)
        && show(CommitHash(logOut.value).value).Some? && show(CommitHash(logOut.value).value).value != []
    ensures var r := OpenFromGitHistory(item, owner, logOut, show, associations);
      r.Opened? ==>
        && r.content == show(Trim(logOut.value)).value
        && r.language == LanguageForFile(item.value, associations)
  {
  }

  /**
   * Only the trimmed `git log` output matters: white space around the hash,
   * such as the newline `git` ends its output with, changes nothing.
   */
  lemma OpenIgnoresLogSpacing(
    item: Option<string>, owner: Option<string>,
    out: string, show: string -> Option<string>,
    associations: map<string, string>)
    requires item.Some? && owner.Some? ==> Within(owner.value, item.value)
    ensures OpenFromGitHistory(item, owner, Some(out), show, associations) ==
      OpenFromGitHistory(item, owner, Some(Trim(out)), show, associations)
  {
    TrimEmptyIffAllSpace(out);
    TrimIdempotent(out);
    TrimEmptyIffAllSpace(Trim(out));
  }
}
