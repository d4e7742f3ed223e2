/** The upload filter of app.py: `allowed_file` splits a name at its last dot,
    lower-cases what follows and looks it up in the allow-list. */
module FileNames {

  /** ALLOWED_EXTENSIONS of app.py, compared after lower-casing. */
  const ALLOWED_EXTENSIONS: set<string> := {"png", "jpg", "jpeg"}

  /** `str.lower` on one character, restricted to the ASCII letters. */
  function LowerChar(c: char): (r: char)
    ensures 'A' <= c <= 'Z' ==> 'a' <= r <= 'z' && r as int - c as int == 'a' as int - 'A' as int
    ensures !('A' <= c <= 'Z') ==> r == c
  {
    if 'A' <= c <= 'Z' then (c as int - 'A' as int + 'a' as int) as char else c
  }

  /** The ASCII capital letters and, position for position, their small letters. */
  const UPPER: string := "ABCDEFGHIJKLMNOPQRSTUVWXYZ"
  const LOWER: string := "abcdefghijklmnopqrstuvwxyz"

  /** Lower-casing a character turns each capital letter into the small letter at
      the same place in the alphabet, and leaves every other character alone. */
  lemma LowerCharAlphabet(c: char)
    ensures forall k :: 0 <= k < |UPPER| ==> LowerChar(UPPER[k]) == LOWER[k]
    ensures c !in UPPER ==> LowerChar(c) == c
  {
    forall k | 0 <= k < |UPPER| ensures LowerChar(UPPER[k]) == LOWER[k] {
      AlphabetAt(k);
    }
    if 'A' <= c <= 'Z' {
      AlphabetAt(c as int - 'A' as int);
    }
  }

  /** The k-th letters of the two alphabets. */
  lemma AlphabetAt(k: int)
    requires 0 <= k < 26
    ensures |UPPER| == |LOWER| == 26
    ensures UPPER[k] as int == 'A' as int + k && LOWER[k] as int == 'a' as int + k
  {
  }

  /** `str.lower` on a whole string, restricted to the ASCII letters. */
  function Lower(s: string): (r: string)
    ensures |r| == |s|
  {
    seq(|s|, i requires 0 <= i < |s| => LowerChar(s[i]))
  }

  /** Lower-casing leaves no capital letter, and changes only capital letters. */
  lemma LowerLetters(s: string)
    ensures forall i :: 0 <= i < |s| ==> !('A' <= Lower(s)[i] <= 'Z')
    ensures forall i :: 0 <= i < |s| ==> Lower(s)[i] == s[i] || 'A' <= s[i] <= 'Z'
  {
  }

  /** `s.rsplit(sep, 1)`: a single part when `sep` does not occur, otherwise the
      text before and the text after the last occurrence of `sep`. */
  function RSplitOnce(s: string, sep: char): (parts: seq<string>)
    ensures sep !in s ==> parts == [s]
    ensures sep in s ==> |parts| == 2 && s == parts[0] + [sep] + parts[1] && sep !in parts[1]
  {
    if s == [] then [s]
    else if s[|s| - 1] == sep then [s[..|s| - 1], []]
    else
      var init := s[..|s| - 1];
      var parts := RSplitOnce(init, sep);
      assert s == init + [s[|s| - 1]];
      if |parts| == 1 then [s] else [parts[0], parts[1] + [s[|s| - 1]]]
  }

  /** `allowed_file(filename)` of app.py. An accepted name ends in a dot followed
      by three or four characters. */
  predicate AllowedFile(filename: string): (allowed: bool)
    ensures allowed ==> 4 <= |filename|
    ensures allowed ==> filename[|filename| - 4] == '.' || (5 <= |filename| && filename[|filename| - 5] == '.')
  {
    '.' in filename && Lower(RSplitOnce(filename, '.')[1]) in ALLOWED_EXTENSIONS
  }

  /** The text after the last dot, when there is a dot. */
  predicate LastDotAt(f: string, i: int)
  {
    0 <= i < |f| && f[i] == '.' && '.' !in f[i + 1..]
  }

  /** The part after the split is exactly the text after the last dot. */
  lemma RSplitAtLastDot(f: string, i: int)
    requires LastDotAt(f, i)
    ensures RSplitOnce(f, '.') == [f[..i], f[i + 1..]]
  {
    var parts := RSplitOnce(f, '.');
    var k := |parts[0]|;
    assert f[k] == '.' && f[k + 1..] == parts[1];
    assert f[..i] == parts[0];
  }

  /** allowed_file accepts a name exactly when it has a last dot and the text after
      that dot, lower-cased, is an allowed extension. */
  lemma AllowedFileIff(f: string)
    ensures AllowedFile(f) <==>
      exists i :: LastDotAt(f, i) && Lower(f[i + 1..]) in ALLOWED_EXTENSIONS
  {
    if '.' in f {
      var parts := RSplitOnce(f, '.');
      var k := |parts[0]|;
      assert f[k] == '.' && f[k + 1..] == parts[1];
      assert LastDotAt(f, k);
      forall i | LastDotAt(f, i) ensures f[i + 1..] == parts[1] {
        RSplitAtLastDot(f, i);
      }
    }
  }

  /** Only the text after the last dot decides: two names with the same extension
      get the same verdict, whatever comes before the dot. */
  lemma OnlyExtensionMatters(head: string, ext: string)
    requires '.' !in ext
    ensures AllowedFile(head + "." + ext) <==> Lower(ext) in ALLOWED_EXTENSIONS
  {
    var f := head + "." + ext;
    assert f[|head| + 1..] == ext;
    assert LastDotAt(f, |head|);
    RSplitAtLastDot(f, |head|);
  }

  /** Lower-casing a name keeps its dots where they are. */
  lemma LowerKeepsDots(f: string, i: int)
    requires 0 <= i < |f|
    ensures Lower(f)[i] == '.' <==> f[i] == '.'
    ensures Lower(f)[i + 1..] == Lower(f[i + 1..])
    ensures LastDotAt(Lower(f), i) <==> LastDotAt(f, i)
  {
    var g := Lower(f);
    assert forall j :: i + 1 <= j < |f| ==> (g[j] == '.' <==> f[j] == '.');
    if '.' in f[i + 1..] {
      var j :| 0 <= j < |f[i + 1..]| && f[i + 1..][j] == '.';
      assert g[i + 1..][j] == '.';
    }
    if '.' in g[i + 1..] {
      var j :| 0 <= j < |g[i + 1..]| && g[i + 1..][j] == '.';
      assert f[i + 1..][j] == '.';
    }
  }

  /** The check ignores case: lower-casing the whole name changes nothing. */
  lemma {:induction false} AllowedFileIgnoresCase(f: string)
    ensures AllowedFile(Lower(f)) <==> AllowedFile(f)
  {
    AllowedFileIff(f);
    AllowedFileIff(Lower(f));
    forall i | 0 <= i < |f| ensures
      (LastDotAt(Lower(f), i) && Lower(Lower(f)[i + 1..]) in ALLOWED_EXTENSIONS) <==>
      (LastDotAt(f, i) && Lower(f[i + 1..]) in ALLOWED_EXTENSIONS)
    {
      LowerKeepsDots(f, i);
      assert Lower(Lower(f[i + 1..])) == Lower(f[i + 1..]);
    }
  }

  /** Names that differ only in the case of their letters get the same verdict. */
  lemma SameLowerSameVerdict(f: string, g: string)
    requires Lower(f) == Lower(g)
    ensures AllowedFile(f) <==> AllowedFile(g)
  {
    AllowedFileIgnoresCase(f);
    AllowedFileIgnoresCase(g);
  }

  /** A leading dot is accepted: ".png" has the empty text before its dot. */
  lemma LeadingDotAccepted()
    ensures AllowedFile(".png")
  {
    OnlyExtensionMatters("", "png");
    assert "" + "." + "png" == ".png";
    assert Lower("png") == "png";
  }

  /** A trailing dot leaves an empty extension, which is rejected. */
  lemma TrailingDotRejected()
    ensures !AllowedFile("a.")
  {
    OnlyExtensionMatters("a", "");
    assert "a" + "." + "" == "a.";
  }

  /** A name without a dot is rejected, even when it spells an extension. */
  lemma NoDotRejected()
    ensures !AllowedFile("jpg") && !AllowedFile("")
  {
    assert "jpg"[0] != '.' && "jpg"[1] != '.' && "jpg"[2] != '.';
  }

  /** Upper-case and lower-case extensions get the same verdict. */
  lemma MixedCaseAccepted()
    ensures AllowedFile("x.JPG") && AllowedFile("x.jpg")
  {
    OnlyExtensionMatters("x", "JPG");
    OnlyExtensionMatters("x", "jpg");
    assert "x" + "." + "JPG" == "x.JPG" && "x" + "." + "jpg" == "x.jpg";
    assert Lower("JPG") == "jpg";
    assert Lower("jpg") == "jpg";
  }

  /** With several dots only the last one counts: an allowed last extension... */
  lemma SeveralDotsAccepted()
    ensures AllowedFile("a.b.Jpeg")
  {
    OnlyExtensionMatters("a.b", "Jpeg");
    assert "a.b" + "." + "Jpeg" == "a.b.Jpeg";
    assert Lower("Jpeg") == "jpeg";
  }

  /** ...and an allowed extension followed by another one is rejected. */
  lemma SeveralDotsRejected()
    ensures !AllowedFile("a.png.gif")
  {
    OnlyExtensionMatters("a.png", "gif");
    assert "a.png" + "." + "gif" == "a.png.gif";
    assert Lower("gif") == "gif";
  }
}
