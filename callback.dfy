/** `clean_message`, the function of the callback script that the history
    rewriter writes out next to itself. It runs the same three deletions
    and the same newline collapse as `clean_commit_message`, then strips
    the message but adds no newline. */
module Callback {
  import opened Text
  import Cleaner

  // The callback script sits inside a triple-quoted literal, which doubles
  // each backslash of its regular expressions; read back, the patterns are
  // the same three literal attributions.
  const GeneratedWith: string := [Cleaner.RobotFace] + " Generated with [Claude Code](https://claude.ai/code)"
  const CoAuthoredBy: string := "Co-Authored-By: " + Cleaner.ClaudeSignature
  const CoAuthoredByLower: string := "Co-authored-by: " + Cleaner.ClaudeSignature

  /** The stripped message neither begins nor ends with white space. */
  function CleanMessage(message: string): (r: string)
    ensures r == [] || (!IsWhitespace(r[0]) && !IsWhitespace(r[|r| - 1]))
  {
    var removed := RemoveAll(RemoveAll(RemoveAll(message, GeneratedWith), CoAuthoredBy), CoAuthoredByLower);
    Strip(CollapseNewlines(removed))
  }

  /** The two cleaners agree: `clean_commit_message` is `clean_message`
      followed by one newline. */
  lemma CleanCommitMessageAddsNewline(message: string)
    ensures Cleaner.CleanCommitMessage(message) == CleanMessage(message) + "\n"
  {
    assert GeneratedWith == Cleaner.GeneratedWith;
    assert CoAuthoredBy == Cleaner.CoAuthoredBy;
    assert CoAuthoredByLower == Cleaner.CoAuthoredByLower;
  }

  /** No three newlines in a row survive. */
  lemma CleanMessageNoTripleNewline(message: string)
    ensures NoTripleNewline(CleanMessage(message))
  {
    var r := CleanMessage(message);
    CleanCommitMessageAddsNewline(message);
    Cleaner.CleanNoTripleNewline(message);
    NoTripleSlice(r + "\n", 0, |r|);
    assert (r + "\n")[0..|r|] == r;
  }

  /** The callback only deletes: its result is no longer than the message
      and every character of it comes from the message. */
  lemma CleanMessageOnlyDeletes(message: string)
    ensures multiset(CleanMessage(message)) <= multiset(message)
    ensures |CleanMessage(message)| <= |message|
  {
    var x := Cleaner.RemoveAttributions(message);
    CleanCommitMessageAddsNewline(message);
    Cleaner.RemoveAttributionsOnlyDeletes(message);
    CollapseMultiset(x);
    StripMultiset(CollapseNewlines(x));
    assert CleanMessage(message) == Strip(CollapseNewlines(x)) by {
      var r := CleanMessage(message);
      assert (r + "\n")[..|r|] == r;
      assert (Strip(CollapseNewlines(x)) + "\n")[..|r|] == Strip(CollapseNewlines(x));
    }
  }

  /** An empty message or one of white space only becomes empty. */
  lemma CleanMessageWhitespaceOnly(message: string)
    requires AllWhitespace(message)
    ensures CleanMessage(message) == []
  {
    CleanCommitMessageAddsNewline(message);
    Cleaner.CleanWhitespaceOnly(message);
    assert (CleanMessage(message) + "\n")[..|CleanMessage(message)|] == CleanMessage(message);
  }
}
