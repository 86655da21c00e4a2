/** The path classifiers of the commit fold: component and language of a changed file. */
module Classifier {
  import opened Wrappers
  import opened Text

  const PathSplit: char := '/'
  const ExtSplit: char := '.'
  /** What a missing classification defaults to. */
  const Unknown: string := "unknown"

  /** The only languages the fold counts. */
  const InterestingLangs: seq<string> :=
    ["java", "js", "css", "clj", "scala", "kt", "groovy", "j2", "properties",
     "sh", "xsd", "xml", "yaml", "yml", "py"]

  /**
   * The component of a path: always present, it is the text before the first
   * `/`, or the whole path when there is no `/`.
   */
  function ExtractComponentName(filename: string): (r: Option<string>)
    ensures r.Some?
  {
    var nameParts := Split(filename, PathSplit);
    Some(nameParts[0])
  }

  /** Some `/` in `s` has no `.` after it. */
  predicate SlashAfterLastDot(s: string) {
    exists i | 0 <= i < |s| :: s[i] == '/' && forall j | i < j < |s| :: s[j] != '.'
  }

  /**
   * The language of a path: the text after the last `.` (the whole path when
   * there is no `.`), refused exactly when some `/` comes after the last `.`.
   */
  function ExtractLanguage(filename: string): Option<string> {
    var nameParts := Split(filename, ExtSplit);
    var candidate := nameParts[|nameParts| - 1];
    if PathSplit !in candidate then Some(candidate) else None
  }

  /** The component is the text before the first `/`, or the whole path when there is no `/`. */
  lemma ComponentIsBeforeFirstSlash(filename: string)
    ensures var name := ExtractComponentName(filename).value;
            name <= filename && PathSplit !in name && (|name| < |filename| ==> filename[|name|] == PathSplit)
  {
    SplitFirst(filename, PathSplit);
  }

  /**
   * The language is the text after the last `.` (the whole path when there is
   * no `.`), and is refused exactly when some `/` comes after the last `.`.
   */
  lemma LanguageIsAfterLastDot(filename: string)
    ensures var r := ExtractLanguage(filename);
            && (r.None? <==> SlashAfterLastDot(filename))
            && (r.Some? ==> IsSuffix(r.value, filename) && ExtSplit !in r.value && PathSplit !in r.value)
            && (r.Some? && |r.value| < |filename| ==> filename[|filename| - |r.value| - 1] == ExtSplit)
  {
    var nameParts := Split(filename, ExtSplit);
    var candidate := nameParts[|nameParts| - 1];
    SplitLast(filename, ExtSplit);
    assert IsLastPiece(candidate, filename, '.');
    LastPieceHoldsSlash(filename, candidate);
    assert ExtractLanguage(filename) == if PathSplit !in candidate then Some(candidate) else None;
  }

  /** The text after the last `.` holds a `/` exactly when some `/` has no `.` after it. */
  lemma LastPieceHoldsSlash(s: string, candidate: string)
    requires IsSuffix(candidate, s) && '.' !in candidate
    requires |candidate| < |s| ==> s[|s| - |candidate| - 1] == '.'
    ensures '/' in candidate <==> SlashAfterLastDot(s)
  {
    var start := |s| - |candidate|;
    if '/' in candidate {
      var m :| 0 <= m < |candidate| && candidate[m] == '/';
      assert s[start + m] == candidate[m];
      forall j | start + m < j < |s| ensures s[j] != '.' {
        assert s[j] == candidate[j - start];
      }
    }
    if SlashAfterLastDot(s) {
      var i :| 0 <= i < |s| && s[i] == '/' && forall j | i < j < |s| :: s[j] != '.';
      assert candidate[i - start] == s[i];
    }
  }

  /**
   * The component is the text before the first `/`, whatever follows it
   * (repeated `/` in the remainder included).
   */
  lemma ComponentBeforeFirstSlash(path: string, i: nat)
    requires i < |path| && path[i] == PathSplit
    requires forall j | 0 <= j < i :: path[j] != PathSplit
    ensures ExtractComponentName(path) == Some(path[..i])
  {
    ComponentIsBeforeFirstSlash(path);
    var name := ExtractComponentName(path).value;
    assert name == path[..|name|];
  }

  /** A path with no `/` is its own component. */
  lemma ComponentWithoutSlash(path: string)
    requires PathSplit !in path
    ensures ExtractComponentName(path) == Some(path)
  {
    ComponentIsBeforeFirstSlash(path);
    var name := ExtractComponentName(path).value;
    assert name == path[..|name|] == path;
  }

  /** A path whose last `.` at index `i` has no `/` after it has language `path[i+1..]`. */
  lemma LanguageAfterLastDot(path: string, i: nat)
    requires i < |path| && path[i] == ExtSplit
    requires forall j | i < j < |path| :: path[j] != ExtSplit && path[j] != PathSplit
    ensures ExtractLanguage(path) == Some(path[i + 1..])
  {
    LanguageIsAfterLastDot(path);
  }

  /** The unit test of the component classifier. */
  lemma ComponentExample(path: string)
    requires path == "component-a/src/test/java/Thing.java"
    ensures ExtractComponentName(path) == Some("component-a")
  {
    ComponentBeforeFirstSlash(path, 11);
    assert path[..11] == "component-a";
  }

  /** The unit test of the language classifier. */
  lemma LanguageExample(path: string)
    requires path == "component-a/src/test/java/Thing.java"
    ensures ExtractLanguage(path) == Some("java")
  {
    LanguageAfterLastDot(path, 31);
    assert path[32..] == "java";
  }
}
