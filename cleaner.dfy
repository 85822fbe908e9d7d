/** `clean_commit_message`: strips the three bot attribution strings out of
    a commit message, tidies the blank lines and the ends, and terminates
    the message with one newline. */
module Cleaner {
  import opened Text

  /** U+1F916, the robot face emoji. */
  const RobotFace: char := '\U{1F916}'

  /** The part of a co-author trailer after its field name. */
  const ClaudeSignature: string := "Claude <noreply@anthropic.com>"

  /** The three attributions, in the order they are deleted. */
  const GeneratedWith: string := [RobotFace] + " Generated with [Claude Code](https://claude.ai/code)"
  const CoAuthoredBy: string := "Co-Authored-By: " + ClaudeSignature
  const CoAuthoredByLower: string := "Co-authored-by: " + ClaudeSignature

  /** One of the three attributions occurs somewhere in the message. */
  predicate HasAttribution(message: string) {
    exists i | 0 <= i <= |message| :: OccursAt(message, GeneratedWith, i) || OccursAt(message, CoAuthoredBy, i)
           || OccursAt(message, CoAuthoredByLower, i)
  }

  /** The three deletions, in source order, each with the newlines that
      follow the deleted attribution. */
  function RemoveAttributions(message: string): (r: string)
    ensures |r| <= |message|
  {
    RemoveAll(RemoveAll(RemoveAll(message, GeneratedWith), CoAuthoredBy), CoAuthoredByLower)
  }

  /** The deletions only delete: every character kept comes from the
      message. */
  lemma RemoveAttributionsOnlyDeletes(message: string)
    ensures multiset(RemoveAttributions(message)) <= multiset(message)
  {
    var x1 := RemoveAll(message, GeneratedWith);
    var x2 := RemoveAll(x1, CoAuthoredBy);
    RemoveAllOnlyDeletes(message, GeneratedWith);
    RemoveAllOnlyDeletes(x1, CoAuthoredBy);
    RemoveAllOnlyDeletes(x2, CoAuthoredByLower);
  }

  /** The cleaned message always ends in exactly one newline after its
      last non-white-space character, and begins with a character that is
      not white space unless it is just that newline. */
  function CleanCommitMessage(message: string): (r: string)
    ensures |r| >= 1 && r[|r| - 1] == '\n'
    ensures |r| > 1 ==> !IsWhitespace(r[0]) && !IsWhitespace(r[|r| - 2])
  {
    Strip(CollapseNewlines(RemoveAttributions(message))) + "\n"
  }

  /** No three newlines in a row survive cleaning. */
  lemma CleanNoTripleNewline(message: string)
    ensures NoTripleNewline(CleanCommitMessage(message))
  {
    var c := CollapseNewlines(RemoveAttributions(message));
    CollapseNoTriple(RemoveAttributions(message));
    StripNoTriple(c);
    assert NoTripleNewline("\n");
    NoTripleConcat(Strip(c), "\n");
  }

  /** Cleaning only deletes, apart from the final newline: the result is at
      most one character longer than the message and every character of it
      comes from the message or is that newline. */
  lemma CleanOnlyDeletes(message: string)
    ensures multiset(CleanCommitMessage(message)) <= multiset(message) + multiset{'\n'}
    ensures |CleanCommitMessage(message)| <= |message| + 1
  {
    var x := RemoveAttributions(message);
    RemoveAttributionsOnlyDeletes(message);
    CollapseMultiset(x);
    StripMultiset(CollapseNewlines(x));
  }

  /** The cleaned message is a bare newline exactly when nothing but white
      space is left once the attributions are deleted. */
  lemma CleanBlank(message: string)
    ensures CleanCommitMessage(message) == "\n" <==> AllWhitespace(RemoveAttributions(message))
  {
    var x := RemoveAttributions(message);
    CollapseWhitespace(x);
    StripEmpty(CollapseNewlines(x));
    var r := CleanCommitMessage(message);
    if r == "\n" {
      assert Strip(CollapseNewlines(x)) == [];
    }
  }

  /** An empty message, or one made only of white space, cleans to a bare
      newline. */
  lemma CleanWhitespaceOnly(message: string)
    requires AllWhitespace(message)
    ensures CleanCommitMessage(message) == "\n"
  {
    RemoveAttributionsOnlyDeletes(message);
    SubMultisetWhitespace(RemoveAttributions(message), message);
    CleanBlank(message);
  }

  /** The deletions change a message exactly when one of the attributions
      occurs in it. */
  lemma RemoveAttributionsFixedPoint(message: string)
    ensures RemoveAttributions(message) == message <==> !HasAttribution(message)
  {
    var x1 := RemoveAll(message, GeneratedWith);
    var x2 := RemoveAll(x1, CoAuthoredBy);
    RemoveAllFixedPoint(message, GeneratedWith);
    if !HasAttribution(message) {
      assert x1 == message;
      RemoveAllFixedPoint(message, CoAuthoredBy);
      assert x2 == message;
      RemoveAllFixedPoint(message, CoAuthoredByLower);
    } else {
      RemoveAttributionsShorter(message);
    }
  }

  /** Cleaning leaves a message as it is, apart from the newline it adds,
      exactly when the message holds no attribution, no three newlines in
      a row, and no white space at either end. In particular everything
      that is not one of the three exact attributions (the bare word
      "Claude", other casings, single and double newlines) is kept. */
  lemma CleanFixedPoint(message: string)
    ensures CleanCommitMessage(message) == message + "\n"
        <==> !HasAttribution(message) && NoTripleNewline(message)
             && (message == [] || (!IsWhitespace(message[0]) && !IsWhitespace(message[|message| - 1])))
  {
    if CleanCommitMessage(message) == message + "\n" {
      CleanKeptIsClean(message);
    } else if !HasAttribution(message) && NoTripleNewline(message)
              && (message == [] || (!IsWhitespace(message[0]) && !IsWhitespace(message[|message| - 1]))) {
      CleanPassesThrough(message);
    }
  }

  lemma CleanKeptIsClean(message: string)
    requires CleanCommitMessage(message) == message + "\n"
    ensures !HasAttribution(message) && NoTripleNewline(message)
    ensures message == [] || (!IsWhitespace(message[0]) && !IsWhitespace(message[|message| - 1]))
  {
    var r := CleanCommitMessage(message);
    assert message != [] ==> r[0] == message[0] && r[|r| - 2] == message[|message| - 1];
    var x := RemoveAttributions(message);
    var c := CollapseNewlines(x);
    var t := Strip(c);
    assert r == t + "\n";
    assert r[..|r| - 1] == t;
    assert r[..|r| - 1] == message;
    StripMultiset(c);
    if HasAttribution(message) {
      RemoveAttributionsShorter(message);
    }
    RemoveAttributionsFixedPoint(message);
    StripWhole(c);
    CollapseFixedPoint(message);
  }

  lemma CleanPassesThrough(message: string)
    requires !HasAttribution(message) && NoTripleNewline(message)
    requires message == [] || (!IsWhitespace(message[0]) && !IsWhitespace(message[|message| - 1]))
    ensures CleanCommitMessage(message) == message + "\n"
  {
    RemoveAttributionsFixedPoint(message);
    CollapseKeeps(message);
    StripFixedPoint(message);
  }

  /** Any attribution in the message makes the deletions shorten it. */
  lemma RemoveAttributionsShorter(message: string)
    requires HasAttribution(message)
    ensures |RemoveAttributions(message)| < |message|
  {
    var x1 := RemoveAll(message, GeneratedWith);
    var x2 := RemoveAll(x1, CoAuthoredBy);
    RemoveAllFixedPoint(message, GeneratedWith);
    RemoveAllFixedPoint(x1, CoAuthoredBy);
    RemoveAllFixedPoint(x2, CoAuthoredByLower);
    var i :| 0 <= i <= |message| && (OccursAt(message, GeneratedWith, i) || OccursAt(message, CoAuthoredBy, i)
             || OccursAt(message, CoAuthoredByLower, i));
    if x1 == message && x2 == x1 {
      assert OccursAt(x2, GeneratedWith, i) || OccursAt(x2, CoAuthoredBy, i)
             || OccursAt(x2, CoAuthoredByLower, i);
      if OccursAt(x2, GeneratedWith, i) {
        assert false;
      } else if OccursAt(x2, CoAuthoredBy, i) {
        assert false;
      } else {
        RemoveAllShrinks(x2, CoAuthoredByLower, i);
      }
    } else if x1 != message {
      var j :| 0 <= j <= |message| && OccursAt(message, GeneratedWith, j);
      RemoveAllShrinks(message, GeneratedWith, j);
    } else {
      var j :| 0 <= j <= |x1| && OccursAt(x1, CoAuthoredBy, j);
      RemoveAllShrinks(x1, CoAuthoredBy, j);
    }
  }
}
