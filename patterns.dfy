/**
 * The three regular-expression extractors of the command-line walk, with
 * `Regex::captures` semantics: the leftmost match wins, and the first group
 * is returned. Each extractor is a search over start positions; each is
 * proved to return the group of the leftmost match of its pattern, and
 * nothing when the pattern matches nowhere.
 */
module Patterns {
  import opened Wrappers
  import opened Text

  // ---------------------------------------------------------------------
  // \(#(\d+)\)

  /** `(#`, one or more digits, `)`: the pattern matches at `i`, its group ending at `e`. */
  predicate PrMatch(s: string, i: int, e: int) {
    0 <= i && i + 2 < e < |s| && s[i] == '(' && s[i + 1] == '#'
    && (forall k | i + 2 <= k < e :: IsDigit(s[k])) && s[e] == ')'
  }

  /** The length of the run of digits starting at `k`. */
  function DigitRun(s: string, k: nat): (n: nat)
    requires k <= |s|
    ensures k + n <= |s|
    ensures forall j | k <= j < k + n :: IsDigit(s[j])
    ensures k + n < |s| ==> !IsDigit(s[k + n])
    decreases |s| - k
  {
    if k < |s| && IsDigit(s[k]) then 1 + DigitRun(s, k + 1) else 0
  }

  /** Where the group of a match starting at `i` ends, if the pattern matches there (the digits are taken greedily). */
  function PrAt(s: string, i: nat): Option<nat>
    requires i <= |s|
  {
    if i + 2 <= |s| && s[i] == '(' && s[i + 1] == '#' then
      var e := i + 2 + DigitRun(s, i + 2);
      if e > i + 2 && e < |s| && s[e] == ')' then Some(e) else None
    else None
  }

  /** The regex engine's search: the first start position from `from` on where the pattern matches. */
  function FindPr(s: string, from: nat): Option<(nat, nat)>
    requires from <= |s|
    decreases |s| - from
  {
    if from == |s| then None
    else match PrAt(s, from)
      case Some(e) => Some((from, e))
      case None => FindPr(s, from + 1)
  }

  /** `extract_pr_from_commit_message`: the digits of the leftmost `(#digits)`. */
  function ExtractPrFromCommitMessage(message: string): Option<string> {
    match FindPr(message, 0)
    case None => None
    case Some((i, e)) => if i + 2 <= e <= |message| then Some(message[i + 2..e]) else None
  }

  /** A match at `i` is found exactly where `PrAt` says, and the group's end is unique. */
  lemma PrAtMatches(s: string, i: nat, e: int)
    requires i <= |s|
    ensures PrAt(s, i) == Some(e) <==> PrMatch(s, i, e)
  {
    if PrMatch(s, i, e) {
      var n := DigitRun(s, i + 2);
      assert s[e] == ')';
    }
  }

  /** The search returns the leftmost match from `from` on, or nothing when there is none. */
  lemma {:induction false} FindPrLeftmost(s: string, from: nat)
    requires from <= |s|
    ensures match FindPr(s, from)
            case Some((i, e)) =>
              from <= i && PrMatch(s, i, e) && forall j, e' | from <= j < i :: !PrMatch(s, j, e')
            case None => forall j, e' | from <= j :: !PrMatch(s, j, e')
    decreases |s| - from
  {
    if from < |s| {
      FindPrLeftmost(s, from + 1);
      forall e' ensures PrAt(s, from) == Some(e') <==> PrMatch(s, from, e') {
        PrAtMatches(s, from, e');
      }
    }
  }

  /**
   * The result is the group of the leftmost match: if the pattern matches at
   * `i` and nowhere before, the digits between `(#` and `)` are returned.
   */
  lemma PrIsLeftmostGroup(s: string, i: nat, e: int)
    requires PrMatch(s, i, e)
    requires forall j, e' | 0 <= j < i :: !PrMatch(s, j, e')
    ensures ExtractPrFromCommitMessage(s) == Some(s[i + 2..e])
  {
    FindPrLeftmost(s, 0);
    match FindPr(s, 0)
    case Some((i', e')) =>
      if i' == i {
        PrAtMatches(s, i, e);
        PrAtMatches(s, i, e');
      }
  }

  /** Nothing is extracted exactly when the pattern matches nowhere. */
  lemma PrAbsent(s: string)
    ensures ExtractPrFromCommitMessage(s).None? <==> forall i, e :: !PrMatch(s, i, e)
  {
    FindPrLeftmost(s, 0);
  }

  /** What is extracted is one or more digits, and the message contains them between `(#` and `)`. */
  lemma PrShape(s: string)
    requires ExtractPrFromCommitMessage(s).Some?
    ensures var pr := ExtractPrFromCommitMessage(s).value;
            |pr| >= 1 && (forall k | 0 <= k < |pr| :: IsDigit(pr[k])) && Contains(s, "(#" + pr + ")")
  {
    FindPrLeftmost(s, 0);
    var (i, e) := FindPr(s, 0).value;
    var pr := s[i + 2..e];
    assert s[i..e + 1] == "(#" + pr + ")";
    assert OccursAt(s, "(#" + pr + ")", i);
  }

  /** A message with a PR number contains the `(#` marker the library walk counts PRs by. */
  lemma PrImpliesMarker(s: string)
    requires ExtractPrFromCommitMessage(s).Some?
    ensures Contains(s, "(#")
  {
    FindPrLeftmost(s, 0);
    var (i, e) := FindPr(s, 0).value;
    assert s[i..i + 2] == "(#";
    assert OccursAt(s, "(#", i);
  }

  /** A message whose text before `(#digits)` has no `(` yields those digits. */
  lemma PrAfterPlainText(text: string, digits: string, message: string)
    requires forall k | 0 <= k < |text| :: text[k] != '('
    requires |digits| >= 1 && forall k | 0 <= k < |digits| :: IsDigit(digits[k])
    requires message == text + "(#" + digits + ")"
    ensures ExtractPrFromCommitMessage(message) == Some(digits)
  {
    var i := |text|;
    var e := i + 2 + |digits|;
    forall j, e' | 0 <= j < i ensures !PrMatch(message, j, e') {
      assert message[j] == text[j];
    }
    forall k | i + 2 <= k < e ensures IsDigit(message[k]) {
      assert message[k] == digits[k - i - 2];
    }
    assert message[i] == '(' && message[i + 1] == '#' && message[e] == ')';
    PrIsLeftmostGroup(message, i, e);
    assert message[i + 2..e] == digits;
  }

  /** The unit test of the PR extractor (its message written as three runs of plain text). */
  lemma PrExample(t1: string, t2: string, t3: string, message: string)
    requires t1 == "VGR-8087 - Adding tests for"
    requires t2 == " verifying required products"
    requires t3 == " service is decremented "
    requires message == t1 + t2 + t3 + "(#4729)"
    ensures ExtractPrFromCommitMessage(message) == Some("4729")
  {
    var text := t1 + t2 + t3;
    assert forall k | 0 <= k < |t1| :: t1[k] != '(';
    assert forall k | 0 <= k < |t2| :: t2[k] != '(';
    assert forall k | 0 <= k < |t3| :: t3[k] != '(';
    forall k | 0 <= k < |text| ensures text[k] != '(' {
      if k < |t1| {
        assert text[k] == t1[k];
      } else if k < |t1| + |t2| {
        assert text[k] == t2[k - |t1|];
      } else {
        assert text[k] == t3[k - |t1| - |t2|];
      }
    }
    var digits := "4729";
    assert forall k | 0 <= k < |digits| :: IsDigit(digits[k]);
    assert message == text + "(#" + digits + ")";
    PrAfterPlainText(text, digits, message);
  }

  // ---------------------------------------------------------------------
  // ([\w-]+)/.+

  /** `[\w-]`. */
  predicate NameChar(c: char) {
    IsWordChar(c) || c == '-'
  }

  /** One or more name characters, `/`, then at least one character other than a newline: a match at `i`, its group ending at `e`. */
  predicate ComponentMatch(s: string, i: int, e: int) {
    0 <= i < e && e + 1 < |s| && (forall k | i <= k < e :: NameChar(s[k])) && s[e] == '/' && s[e + 1] != '\n'
  }

  /** The length of the run of name characters starting at `k`. */
  function NameRun(s: string, k: nat): (n: nat)
    requires k <= |s|
    ensures k + n <= |s|
    ensures forall j | k <= j < k + n :: NameChar(s[j])
    ensures k + n < |s| ==> !NameChar(s[k + n])
    decreases |s| - k
  {
    if k < |s| && NameChar(s[k]) then 1 + NameRun(s, k + 1) else 0
  }

  /**
   * Where the group of a match starting at `i` ends, if the pattern matches
   * there. `/` is not a name character, so the greedy run can only be
   * followed by `/` when it is taken whole.
   */
  function ComponentAt(s: string, i: nat): Option<nat>
    requires i <= |s|
  {
    var e := i + NameRun(s, i);
    if e > i && e + 1 < |s| && s[e] == '/' && s[e + 1] != '\n' then Some(e) else None
  }

  /** The first start position from `from` on where the component pattern matches. */
  function FindComponent(s: string, from: nat): Option<(nat, nat)>
    requires from <= |s|
    decreases |s| - from
  {
    if from == |s| then None
    else match ComponentAt(s, from)
      case Some(e) => Some((from, e))
      case None => FindComponent(s, from + 1)
  }

  /** `extract_component_name_from_diff_summary`: the name characters before the leftmost `/` that has text after it. */
  function ExtractComponentNameFromDiffSummary(filename: string): Option<string> {
    match FindComponent(filename, 0)
    case None => None
    case Some((i, e)) => if i <= e <= |filename| then Some(filename[i..e]) else None
  }

  lemma ComponentAtMatches(s: string, i: nat, e: int)
    requires i <= |s|
    ensures ComponentAt(s, i) == Some(e) <==> ComponentMatch(s, i, e)
  {
    if ComponentMatch(s, i, e) {
      var n := NameRun(s, i);
      assert s[e] == '/';
    }
  }

  lemma {:induction false} FindComponentLeftmost(s: string, from: nat)
    requires from <= |s|
    ensures match FindComponent(s, from)
            case Some((i, e)) =>
              from <= i && ComponentMatch(s, i, e) && forall j, e' | from <= j < i :: !ComponentMatch(s, j, e')
            case None => forall j, e' | from <= j :: !ComponentMatch(s, j, e')
    decreases |s| - from
  {
    if from < |s| {
      FindComponentLeftmost(s, from + 1);
      forall e' ensures ComponentAt(s, from) == Some(e') <==> ComponentMatch(s, from, e') {
        ComponentAtMatches(s, from, e');
      }
    }
  }

  /** The result is the group of the leftmost match. */
  lemma ComponentIsLeftmostGroup(s: string, i: nat, e: int)
    requires ComponentMatch(s, i, e)
    requires forall j, e' | 0 <= j < i :: !ComponentMatch(s, j, e')
    ensures ExtractComponentNameFromDiffSummary(s) == Some(s[i..e])
  {
    FindComponentLeftmost(s, 0);
    match FindComponent(s, 0)
    case Some((i', e')) =>
      if i' == i {
        ComponentAtMatches(s, i, e);
        ComponentAtMatches(s, i, e');
      }
  }

  /**
   * Nothing is extracted exactly when the pattern matches nowhere; what is
   * extracted is a whole run of name characters (not preceded by one) that
   * is followed by `/` and at least one more character other than a newline.
   */
  lemma ComponentShape(s: string)
    ensures var r := ExtractComponentNameFromDiffSummary(s);
            && (r.None? <==> forall i, e :: !ComponentMatch(s, i, e))
            && (r.Some? ==> exists i, e :: ComponentMatch(s, i, e) && r.value == s[i..e] && (i > 0 ==> !NameChar(s[i - 1])))
  {
    FindComponentLeftmost(s, 0);
    if FindComponent(s, 0).Some? {
      var (i, e) := FindComponent(s, 0).value;
      if i > 0 && NameChar(s[i - 1]) {
        assert ComponentMatch(s, i - 1, e);
      }
      assert ComponentMatch(s, i, e) && s[i..e] == s[i..e];
    }
  }

  /** A run of name characters followed by `/` and more text yields that run. */
  lemma ComponentBeforeSlash(name: string, rest: string, filename: string)
    requires |name| >= 1 && forall k | 0 <= k < |name| :: NameChar(name[k])
    requires rest != [] && rest[0] != '\n'
    requires filename == name + "/" + rest
    ensures ExtractComponentNameFromDiffSummary(filename) == Some(name)
  {
    var e := |name|;
    forall k | 0 <= k < e ensures NameChar(filename[k]) {
      assert filename[k] == name[k];
    }
    assert filename[e] == '/' && filename[e + 1] == rest[0];
    ComponentIsLeftmostGroup(filename, 0, e);
    assert filename[..e] == name;
  }

  /** Every character of `s` may appear in a component name. */
  predicate AllNameChars(s: string) {
    forall k | 0 <= k < |s| :: NameChar(s[k])
  }

  lemma NameCharsConcat(a: string, b: string)
    requires AllNameChars(a) && AllNameChars(b)
    ensures AllNameChars(a + b)
  {
    forall k | 0 <= k < |a + b| ensures NameChar((a + b)[k]) {
      if k < |a| {
        assert (a + b)[k] == a[k];
      } else {
        assert (a + b)[k] == b[k - |a|];
      }
    }
  }

  /**
   * The unit test of the component extractor, on
   * `voyager-workflow-manager/src/test/java/com/thehutgroup/voyager/workflow/domain/kitting/RestKittingRegistrationServiceTest.java`
   * (given in pieces).
   */
  lemma ComponentExample(n1: string, n2: string, n3: string, t1: string, t2: string, t3: string, filename: string)
    requires n1 == "voyager" && n2 == "-workflow" && n3 == "-manager"
    requires t1 == "src/test/java/com/thehutgroup/"
    requires t2 == "voyager/workflow/domain/kitting/"
    requires t3 == "RestKittingRegistrationServiceTest.java"
    requires filename == n1 + n2 + n3 + "/" + (t1 + t2 + t3)
    ensures ExtractComponentNameFromDiffSummary(filename) == Some("voyager-workflow-manager")
  {
    NamePieces(n1, n2, n3);
    assert (t1 + t2 + t3)[0] == t1[0];
    ThreePartName(n1, n2, n3, t1 + t2 + t3, filename);
  }

  lemma NamePieces(n1: string, n2: string, n3: string)
    requires n1 == "voyager" && n2 == "-workflow" && n3 == "-manager"
    ensures AllNameChars(n1) && AllNameChars(n2) && AllNameChars(n3) && |n1| >= 1
    ensures n1 + n2 + n3 == "voyager-workflow-manager"
  {
  }

  /** A name given in three runs of name characters, then `/` and more text, yields the whole name. */
  lemma ThreePartName(n1: string, n2: string, n3: string, rest: string, filename: string)
    requires AllNameChars(n1) && AllNameChars(n2) && AllNameChars(n3) && |n1| >= 1
    requires rest != [] && rest[0] != '\n'
    requires filename == n1 + n2 + n3 + "/" + rest
    ensures ExtractComponentNameFromDiffSummary(filename) == Some(n1 + n2 + n3)
  {
    NameCharsConcat(n1, n2);
    NameCharsConcat(n1 + n2, n3);
    ComponentBeforeSlash(n1 + n2 + n3, rest, filename);
  }

  // ---------------------------------------------------------------------
  // \.(\w+)$

  /** `.`, then one or more word characters up to the end of the text: a match at `i`. */
  predicate LanguageMatch(s: string, i: int) {
    0 <= i && i + 1 < |s| && s[i] == '.' && forall k | i + 1 <= k < |s| :: IsWordChar(s[k])
  }

  /** The length of the run of word characters that ends the text. */
  function TrailingWordRun(s: string): (n: nat)
    ensures n <= |s|
    ensures forall k | |s| - n <= k < |s| :: IsWordChar(s[k])
    ensures n < |s| ==> !IsWordChar(s[|s| - n - 1])
  {
    if s != [] && IsWordChar(s[|s| - 1]) then 1 + TrailingWordRun(s[..|s| - 1]) else 0
  }

  /**
   * `extract_language_from_diff_summary`: the word characters after a `.`
   * at the very end of the text. Only the trailing run can be followed by the
   * end, so the match, if any, starts at the `.` before that run.
   */
  function ExtractLanguageFromDiffSummary(filename: string): Option<string> {
    var n := TrailingWordRun(filename);
    if n >= 1 && n < |filename| && filename[|filename| - n - 1] == '.' then Some(filename[|filename| - n..])
    else None
  }

  /** The pattern matches at `i` exactly when the language is what follows `i`; it matches nowhere exactly when nothing is extracted. */
  lemma LanguageShape(s: string)
    ensures forall i :: LanguageMatch(s, i) ==> ExtractLanguageFromDiffSummary(s) == Some(s[i + 1..])
    ensures ExtractLanguageFromDiffSummary(s).None? <==> forall i :: !LanguageMatch(s, i)
    ensures ExtractLanguageFromDiffSummary(s).Some? ==> LanguageMatch(s, |s| - |ExtractLanguageFromDiffSummary(s).value| - 1)
  {
    var n := TrailingWordRun(s);
    forall i | LanguageMatch(s, i) ensures i == |s| - n - 1 {
    }
    if ExtractLanguageFromDiffSummary(s).Some? {
      assert LanguageMatch(s, |s| - n - 1);
    }
  }

  /** A text ending in `.` and a run of word characters yields that run. */
  lemma LanguageAfterDot(stem: string, ext: string, filename: string)
    requires |ext| >= 1 && forall k | 0 <= k < |ext| :: IsWordChar(ext[k])
    requires filename == stem + "." + ext
    ensures ExtractLanguageFromDiffSummary(filename) == Some(ext)
  {
    var i := |stem|;
    assert filename[i] == '.';
    forall k | i + 1 <= k < |filename| ensures IsWordChar(filename[k]) {
      assert filename[k] == ext[k - i - 1];
    }
    assert LanguageMatch(filename, i);
    LanguageShape(filename);
    assert filename[i + 1..] == ext;
  }

  /** The unit test of the language extractor, on the same path as the component extractor's. */
  lemma LanguageExample(s1: string, s2: string, s3: string, s4: string, filename: string)
    requires s1 == "voyager-workflow-manager/src/"
    requires s2 == "test/java/com/thehutgroup/"
    requires s3 == "voyager/workflow/domain/kitting/"
    requires s4 == "RestKittingRegistrationServiceTest"
    requires filename == s1 + s2 + s3 + s4 + ".java"
    ensures ExtractLanguageFromDiffSummary(filename) == Some("java")
  {
    LanguageAfterDot(s1 + s2 + s3 + s4, "java", filename);
  }
}
