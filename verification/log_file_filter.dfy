/**
 * LogFileFilter.java: the file chooser filter of the game viewer. It lets
 * through directories and files whose extension, the text after the last
 * '.', reads "log" in any letter case. A file is its name and whether it is a
 * directory; None stands for a null File.
 */
module LogFiles {
  import opened Wrappers
  import opened JavaText

  datatype File = File(name: string, isDirectory: bool)

  /** GameServer.GAME_LOG_EXT: the extension of the game logs. */
  const GAME_LOG_EXT := "log"

  /** getDescription: the label the chooser shows for this filter. */
  const DESCRIPTION := "Log Files"

  /** getDescription: the label names the extension the filter lets through. */
  lemma DescriptionNamesExtension()
    ensures |DESCRIPTION| >= |GAME_LOG_EXT|
    ensures ToLower(DESCRIPTION[..|GAME_LOG_EXT|]) == GAME_LOG_EXT
  {
    assert DESCRIPTION[..3] == "Log";
  }

  /** String.lastIndexOf(char): the last position holding c, or -1. */
  function LastIndexOf(s: string, c: char): (i: int)
    ensures -1 <= i < |s|
    ensures i == -1 <==> c !in s
    ensures i >= 0 ==> s[i] == c && c !in s[i + 1..]
  {
    if |s| == 0 then -1
    else if s[|s| - 1] == c then |s| - 1
    else
      var j := LastIndexOf(s[..|s| - 1], c);
      assert s[..|s| - 1] + [s[|s| - 1]] == s;
      j
  }

  /**
   * getExtension: the lower-cased text after the last '.', provided that
   * dot is neither the first nor the last character of the name.
   */
  function GetExtension(f: Option<File>): Option<string> {
    if f.None? then None
    else
      var name := f.value.name;
      var i := LastIndexOf(name, '.');
      if i > 0 && i < |name| - 1 then Some(ToLower(name[i + 1..])) else None
  }

  /** accept: no null file; every directory; otherwise the extension must be "log". */
  function Accept(f: Option<File>): bool {
    if f.None? then false
    else if f.value.isDirectory then true
    else
      var ext := GetExtension(f);
      ext.Some? && ext.value == GAME_LOG_EXT
  }

  /**
   * An extension is found exactly when the name splits as stem "." ext with
   * a non-empty stem and a non-empty ext free of dots; it is ext lower-cased.
   */
  lemma ExtensionSplits(f: File)
    requires GetExtension(Some(f)).Some?
    ensures var i := LastIndexOf(f.name, '.');
            && 0 < i < |f.name| - 1
            && f.name == f.name[..i] + "." + f.name[i + 1..]
            && '.' !in f.name[i + 1..]
            && GetExtension(Some(f)) == Some(ToLower(f.name[i + 1..]))
  {
    var i := LastIndexOf(f.name, '.');
    assert f.name == f.name[..i] + [f.name[i]] + f.name[i + 1..];
  }

  /** The converse: a non-empty stem, a dot and a dot-free non-empty ext give back ext lower-cased. */
  lemma ExtensionOfSplit(stem: string, ext: string, isDirectory: bool)
    requires |stem| > 0 && |ext| > 0 && '.' !in ext
    ensures GetExtension(Some(File(stem + "." + ext, isDirectory))) == Some(ToLower(ext))
  {
    var name := stem + "." + ext;
    var i := |stem|;
    assert name[i] == '.';
    assert name[i + 1..] == ext;
  }

  /** No extension: a name without a dot, or whose last dot opens or closes it. */
  lemma NoExtension(f: File)
    ensures '.' !in f.name ==> GetExtension(Some(f)) == None
    ensures |f.name| > 0 && f.name[0] == '.' && '.' !in f.name[1..] ==> GetExtension(Some(f)) == None
    ensures |f.name| > 0 && f.name[|f.name| - 1] == '.' ==> GetExtension(Some(f)) == None
  {
  }

  /** A file, not a directory, is accepted exactly when its name ends in "." then "log" in any case, after a non-empty stem. */
  lemma AcceptsLogFiles(stem: string, ext: string)
    requires |stem| > 0 && |ext| > 0 && '.' !in ext
    ensures Accept(Some(File(stem + "." + ext, false))) <==> ToLower(ext) == GAME_LOG_EXT
  {
    ExtensionOfSplit(stem, ext, false);
  }

  /** The filter lets through every directory, and rejects the null file. */
  lemma AcceptDirectoriesNotNull(name: string)
    ensures Accept(Some(File(name, true)))
    ensures !Accept(None)
  {
  }

  /** Upper-case "LOG" is the same extension as "log". */
  lemma AcceptExamples()
    ensures Accept(Some(File("game001.LOG", false)))
  {
    assert "game001.LOG" == "game001" + "." + "LOG";
    assert ToLower("LOG") == GAME_LOG_EXT;
    AcceptsLogFiles("game001", "LOG");
  }

  /** Only the last dot counts, and "Log" is "log" too. */
  lemma AcceptLastDotExample()
    ensures Accept(Some(File("a.b.Log", false)))
  {
    assert "a.b.Log" == "a.b" + "." + "Log";
    assert ToLower("Log") == GAME_LOG_EXT;
    AcceptsLogFiles("a.b", "Log");
  }

  /** A leading dot alone, a trailing dot, or another extension is refused. */
  lemma RejectExamples()
    ensures !Accept(Some(File(".log", false)))
    ensures !Accept(Some(File("game.log.", false)))
    ensures !Accept(Some(File("game.txt", false)))
  {
    assert ".log"[1..] == "log";
    NoExtension(File(".log", false));
    NoExtension(File("game.log.", false));
    assert ToLower("txt")[0] == 't';
    assert "game.txt" == "game" + "." + "txt";
    AcceptsLogFiles("game", "txt");
  }
}
