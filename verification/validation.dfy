/** Upload validation: which file names the colorize endpoint accepts
    (`allowed_file` and the `ALLOWED_EXTENSIONS` setting of app.py). */
module Validation {
  import opened Wrappers
  import opened Paths

  /** The configured set of accepted extensions, all lower-case. */
  const AllowedExtensions: set<string> := {"png", "jpg", "jpeg", "gif"}

  /** `str.lower` on one character, for the ASCII letters. */
  function LowerChar(c: char): char {
    if 'A' <= c <= 'Z' then (c as int - 'A' as int + 'a' as int) as char else c
  }

  /** `str.lower` character by character. */
  function Lower(s: string): (r: string)
    ensures |r| == |s|
    ensures forall i {:trigger r[i]} :: 0 <= i < |s| ==> r[i] == LowerChar(s[i])
  {
    seq(|s|, i requires 0 <= i < |s| => LowerChar(s[i]))
  }

  /** The test of `allowed_file` against a configured set `allowed`: the
      name holds a '.', and what follows the last '.' (`rsplit('.', 1)[1]`),
      lower-cased, is in `allowed`. A name without a '.' is refused whatever
      the setting, and an empty setting refuses every name. */
  predicate HasAllowedExtension(filename: string, allowed: set<string>)
    ensures HasAllowedExtension(filename, allowed) ==> '.' in filename
    ensures allowed == {} ==> !HasAllowedExtension(filename, allowed)
  {
    match LastIndexOf(filename, '.')
    case None => false
    case Some(i) => Lower(filename[i + 1..]) in allowed
  }

  /** `allowed_file`, under the configured `AllowedExtensions`: an accepted
      name has a last '.' followed by three or four characters, so it is at
      least four characters long. */
  predicate AllowedFile(filename: string)
    ensures AllowedFile(filename) ==>
              && LastIndexOf(filename, '.').Some?
              && 3 <= |filename| - LastIndexOf(filename, '.').value - 1 <= 4
              && 4 <= |filename|
  {
    HasAllowedExtension(filename, AllowedExtensions)
  }

  /** `allowed_file` accepts exactly the names that contain a '.' whose
      following text holds no further '.' and lower-cases to a configured
      extension. */
  lemma AllowedFileIff(filename: string, allowed: set<string>)
    ensures HasAllowedExtension(filename, allowed) <==>
      exists i :: 0 <= i < |filename| && filename[i] == '.' && '.' !in filename[i + 1..]
        && Lower(filename[i + 1..]) in allowed
  {
  }

  /** Lower-casing leaves every '.' where it was. */
  lemma LastDotOfLower(s: string)
    ensures LastIndexOf(Lower(s), '.') == LastIndexOf(s, '.')
  {
    var l := Lower(s);
    match LastIndexOf(s, '.')
    case None =>
      forall k | 0 <= k < |l| ensures l[k] != '.' {
        assert s[k] in s;
        assert l[k] == LowerChar(s[k]);
      }
    case Some(i) =>
      assert l[i] == LowerChar(s[i]) == '.';
      assert l[i] in l;
      NotInTail(s, '.', i + 1);
      forall k | i + 1 <= k < |l| ensures l[k] != '.' {
        assert l[k] == LowerChar(s[k]);
      }
      NotInTail(l, '.', i + 1);
      LastOccurrenceUnique(l, '.', i, LastIndexOf(l, '.').value);
  }

  /** Lower-casing a tail is taking the tail of the lower-cased text. */
  lemma LowerTail(s: string, i: nat)
    requires i <= |s|
    ensures Lower(s)[i..] == Lower(s[i..])
  {
  }

  /** Lower-casing twice is lower-casing once. */
  lemma LowerTwice(s: string)
    ensures Lower(Lower(s)) == Lower(s)
  {
  }

  /** Validation ignores letter case: a name is accepted exactly when its
      lower-cased form is. */
  lemma AllowedFileIgnoresCase(filename: string, allowed: set<string>)
    ensures HasAllowedExtension(Lower(filename), allowed) == HasAllowedExtension(filename, allowed)
  {
    LastDotOfLower(filename);
    match LastIndexOf(filename, '.')
    case None =>
    case Some(i) =>
      var ext := filename[i + 1..];
      LowerTail(filename, i + 1);
      LowerTwice(ext);
  }

  /** Concrete verdicts: upper-case and double extensions are judged by the
      last one, and a name that is all extension is accepted. */
  lemma AcceptedExamples()
    ensures AllowedFile("cat.JPG") && AllowedFile("photo.tar.gif") && AllowedFile(".png")
  {
    assert LastIndexOf("cat.JPG", '.') == Some(3);
    assert Lower("JPG") == "jpg";
    assert LastIndexOf("photo.tar.gif", '.') == Some(9);
    assert Lower("gif") == "gif";
    assert LastIndexOf(".png", '.') == Some(0);
    assert Lower("png") == "png";
  }

  /** Concrete verdicts: a text file, a bare word, an executable behind an
      image extension and a trailing '.' are refused. */
  lemma RefusedExamples()
    ensures !AllowedFile("notes.txt") && !AllowedFile("png") && !AllowedFile("image.png.exe")
    ensures !AllowedFile("scan.")
  {
    assert LastIndexOf("notes.txt", '.') == Some(5);
    assert Lower("txt")[0] == 't';
    assert LastIndexOf("png", '.') == None;
    assert LastIndexOf("image.png.exe", '.') == Some(9);
    assert Lower("exe")[0] == 'e';
    assert LastIndexOf("scan.", '.') == Some(4);
  }

  /** For a name with no '/' that does not start with '.', the extension
      `os.path.splitext` keeps for the stored file is the '.' and the text
      that `allowed_file` validated. */
  lemma ExtensionOfAllowedName(name: string)
    requires AllowedFile(name) && '/' !in name && name[0] != '.'
    ensures Extension(name) == name[LastIndexOf(name, '.').value..]
    ensures Lower(Extension(name)[1..]) in AllowedExtensions
  {
  }
}
