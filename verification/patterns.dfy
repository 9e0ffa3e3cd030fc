/**
 * The directive classifier: the two anchored regular expressions of the
 * bootstrap interpreter,
 *
 *   varPattern        ^\w+=\w+$
 *   varCommandPattern ^(\w+)=(\$\((.+)\))$
 *
 * each given twice: once as the language the expression denotes (a ghost
 * predicate), once as a hand-written matcher, with lemmas that the two agree.
 * In Go's RE2 syntax `\w` is the ASCII class [0-9A-Za-z_], `.` matches any
 * character except '\n', and `$` (without the m flag) matches only at the end
 * of the text.
 */
module Patterns {
  import opened Wrappers
  import opened GoStrings

  /** RE2 `\w`. */
  predicate IsWordChar(c: char) {
    || ('0' <= c <= '9')
    || ('A' <= c <= 'Z')
    || ('a' <= c <= 'z')
    || c == '_'
  }

  /** RE2 `\w+`: a non-empty run of word characters. */
  predicate IsWord(s: string) {
    |s| > 0 && forall i :: 0 <= i < |s| ==> IsWordChar(s[i])
  }

  /** RE2 `.+` without the s flag: a non-empty run of characters other than '\n'. */
  predicate IsDotPlus(s: string) {
    |s| > 0 && '\n' !in s
  }

  /** The language of `^\w+=\w+$`. */
  ghost predicate InVarLanguage(s: string) {
    exists name, value :: IsWord(name) && IsWord(value) && s == name + "=" + value
  }

  /** The language of `^(\w+)=(\$\((.+)\))$`. */
  ghost predicate InVarCommandLanguage(s: string) {
    exists name, body :: IsWord(name) && IsDotPlus(body) && s == name + "=$(" + body + ")"
  }

  /** The length of the longest prefix of `s` made of word characters. */
  function WordPrefixLength(s: string): (k: nat)
    ensures k <= |s|
    ensures forall i :: 0 <= i < k ==> IsWordChar(s[i])
    ensures k < |s| ==> !IsWordChar(s[k])
  {
    if |s| > 0 && IsWordChar(s[0]) then 1 + WordPrefixLength(s[1..]) else 0
  }

  /** A word followed by a non-word character is exactly the word prefix. */
  lemma WordPrefixIs(s: string, name: string)
    requires IsWord(name) && |name| < |s| && s[..|name|] == name
    requires !IsWordChar(s[|name|])
    ensures WordPrefixLength(s) == |name|
  {
    var k := WordPrefixLength(s);
    assert forall i :: 0 <= i < |name| ==> s[i] == name[i];
  }

  /** `varPattern.MatchString(s)`. */
  predicate MatchesVarPattern(s: string) {
    var k := WordPrefixLength(s);
    0 < k && k + 1 < |s| && s[k] == '=' && IsWord(s[k + 1..])
  }

  /** The submatches of `varCommandPattern` kept by the interpreter: groups 1 and 3. */
  datatype CommandMatch = CommandMatch(name: string, command: string)

  /**
   * `varCommandPattern.FindStringSubmatch(s)`: the variable name (group 1)
   * and the inner command (group 3), or `None` when `s` does not match.
   */
  function FindVarCommandSubmatch(s: string): (m: Option<CommandMatch>)
    ensures m.Some? ==> IsWord(m.value.name) && IsDotPlus(m.value.command)
    ensures m.Some? ==> s == m.value.name + "=$(" + m.value.command + ")"
  {
    var k := WordPrefixLength(s);
    if 0 < k && k + 5 <= |s| && s[k..k + 3] == "=$(" && s[|s| - 1] == ')'
       && '\n' !in s[k + 3..|s| - 1]
    then
      var name, command := s[..k], s[k + 3..|s| - 1];
      assert s == name + "=$(" + command + ")";
      Some(CommandMatch(name, command))
    else
      None
  }

  /** `varCommandPattern.MatchString(s)`. */
  predicate MatchesVarCommandPattern(s: string) {
    FindVarCommandSubmatch(s).Some?
  }

  /** The hand matcher for `varPattern` accepts exactly its language. */
  lemma VarPatternMatcherCorrect(s: string)
    ensures MatchesVarPattern(s) <==> InVarLanguage(s)
  {
    if MatchesVarPattern(s) {
      var k := WordPrefixLength(s);
      assert s == s[..k] + "=" + s[k + 1..];
      assert IsWord(s[..k]);
    }
    if InVarLanguage(s) {
      var name, value :| IsWord(name) && IsWord(value) && s == name + "=" + value;
      VarDecompositionUnique(s, name, value);
    }
  }

  /**
   * A string in the `varPattern` language splits one way only: the name is
   * everything before the first '=', the value everything after it.
   */
  lemma VarDecompositionUnique(s: string, name: string, value: string)
    requires IsWord(name) && IsWord(value) && s == name + "=" + value
    ensures MatchesVarPattern(s)
    ensures WordPrefixLength(s) == |name|
    ensures SplitN2(s, '=') == [name, value]
  {
    assert s[..|name|] == name;
    WordPrefixIs(s, name);
    assert s[|name| + 1..] == value;
    assert '=' !in name by {
      assert forall i :: 0 <= i < |name| ==> IsWordChar(name[i]);
    }
    SplitN2AtFirst(s, '=', name, value);
  }

  /** The hand matcher for `varCommandPattern` accepts exactly its language. */
  lemma VarCommandMatcherCorrect(s: string)
    ensures MatchesVarCommandPattern(s) <==> InVarCommandLanguage(s)
  {
    if InVarCommandLanguage(s) {
      var name, body :| IsWord(name) && IsDotPlus(body) && s == name + "=$(" + body + ")";
      VarCommandDecompositionUnique(s, name, body);
    }
  }

  /**
   * A string in the `varCommandPattern` language splits one way only: the
   * name is the leading word, the command the text strictly between the
   * leading "$(" and the final ")" (so it may itself contain parentheses).
   */
  lemma VarCommandDecompositionUnique(s: string, name: string, body: string)
    requires IsWord(name) && IsDotPlus(body) && s == name + "=$(" + body + ")"
    ensures FindVarCommandSubmatch(s) == Some(CommandMatch(name, body))
  {
    assert s[..|name|] == name;
    assert s[|name|] == '=';
    WordPrefixIs(s, name);
    var k := |name|;
    assert s[k..k + 3] == "=$(";
    assert s[k + 3..|s| - 1] == body;
  }

  /**
   * The two patterns never both match: after the name, `varPattern` needs a
   * word character where `varCommandPattern` needs '$'.
   */
  lemma PatternsExclusive(s: string)
    ensures !(InVarLanguage(s) && InVarCommandLanguage(s))
    ensures !(MatchesVarPattern(s) && MatchesVarCommandPattern(s))
  {
    VarPatternMatcherCorrect(s);
    VarCommandMatcherCorrect(s);
    if MatchesVarCommandPattern(s) {
      var k := WordPrefixLength(s);
      assert s[k..k + 3] == "=$(";
      assert s[k + 1] == '$';
    }
  }

  /** The three kinds of pre-command. */
  datatype Directive =
    | CapturedAssignment(name: string, command: string)   // name=$(command)
    | DirectAssignment(name: string, value: string)       // name=value
    | PlainCommand(text: string)                          // anything else

  /**
   * Classification, first match wins: `varCommandPattern`, then
   * `varPattern`, and every other line is a plain shell command. The fields
   * of an assignment are the submatch (captured) or the two parts of
   * `SplitN(s, "=", 2)` (direct).
   */
  function Classify(s: string): (d: Directive)
    ensures d.CapturedAssignment? <==> InVarCommandLanguage(s)
    ensures d.DirectAssignment? <==> InVarLanguage(s)
    ensures d.PlainCommand? <==> !InVarLanguage(s) && !InVarCommandLanguage(s)
    ensures d.CapturedAssignment? ==>
      IsWord(d.name) && IsDotPlus(d.command) && s == d.name + "=$(" + d.command + ")"
    ensures d.DirectAssignment? ==>
      IsWord(d.name) && IsWord(d.value) && s == d.name + "=" + d.value
    ensures d.PlainCommand? ==> d.text == s
  {
    PatternsExclusive(s);
    VarPatternMatcherCorrect(s);
    VarCommandMatcherCorrect(s);
    match FindVarCommandSubmatch(s)
    case Some(m) => CapturedAssignment(m.name, m.command)
    case None =>
      if MatchesVarPattern(s) then
        var k := WordPrefixLength(s);
        VarDecompositionUnique(s, s[..k], s[k + 1..]);
        var parts := SplitN2(s, '=');
        DirectAssignment(parts[0], parts[1])
      else
        PlainCommand(s)
  }

  /** A value with a space falls through to a plain command. */
  lemma SpaceInValueIsPlain()
    ensures Classify("A=a b") == PlainCommand("A=a b")
  {
    var s := "A=a b";
    WordPrefixIs(s, "A");
    assert !IsWord(s[2..]) by { assert s[2..][1] == ' '; }
    VarPatternMatcherCorrect(s);
    VarCommandMatcherCorrect(s);
  }

  /** A path value (with '/') falls through to a plain command. */
  lemma PathValueIsPlain()
    ensures Classify("P=/bin") == PlainCommand("P=/bin")
  {
    var s := "P=/bin";
    WordPrefixIs(s, "P");
    assert !IsWord(s[2..]) by { assert s[2..][0] == '/'; }
    VarPatternMatcherCorrect(s);
    VarCommandMatcherCorrect(s);
  }

  /** The empty line is a plain command. */
  lemma EmptyIsPlain()
    ensures Classify("") == PlainCommand("")
  {
    VarPatternMatcherCorrect("");
    VarCommandMatcherCorrect("");
  }

  /** A word on each side of '=' is a direct assignment. */
  lemma WordsAreDirect()
    ensures Classify("A=b") == DirectAssignment("A", "b")
  {
    assert "A=b" == "A" + "=" + "b";
    VarDecompositionUnique("A=b", "A", "b");
  }

  /** Nested parentheses stay inside the captured command. */
  lemma NestedParenthesesAreCaptured()
    ensures Classify("X=$(a $(b))") == CapturedAssignment("X", "a $(b)")
  {
    assert "X=$(a $(b))" == "X" + "=$(" + "a $(b)" + ")";
    VarCommandDecompositionUnique("X=$(a $(b))", "X", "a $(b)");
  }

  /** An empty substitution is not a captured assignment. */
  lemma EmptySubstitutionIsPlain()
    ensures Classify("X=$()") == PlainCommand("X=$()")
  {
    var s := "X=$()";
    WordPrefixIs(s, "X");
    assert !IsWord(s[2..]) by { assert s[2..][0] == '$'; }
    VarPatternMatcherCorrect(s);
    VarCommandMatcherCorrect(s);
  }
}
