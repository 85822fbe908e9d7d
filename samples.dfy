/** Worked messages: what the cleaner does to typical commit messages and
    to the messages on which a single left-to-right pass falls short. */
module Samples {
  import opened Text
  import opened Cleaner

  /** The characters of the signature that the worked messages turn on. */
  lemma SignatureFacts()
    ensures ClaudeSignature[0] == 'C' && ClaudeSignature[1] == 'l'
    ensures ClaudeSignature[|ClaudeSignature| - 1] == '>'
    ensures '\n' !in ClaudeSignature && RobotFace !in ClaudeSignature
  {
    SignatureNoNewline();
    SignatureNoRobot();
  }

  lemma SignatureNoNewline()
    ensures '\n' !in ClaudeSignature
  {
  }

  lemma SignatureNoRobot()
    ensures RobotFace !in ClaudeSignature
  {
  }

  /** The characters of the trailers that the worked messages turn on. */
  lemma CoAuthoredByFacts()
    ensures CoAuthoredBy[0] == 'C' && CoAuthoredBy[1] == 'o' && CoAuthoredBy[17] == 'l'
    ensures CoAuthoredBy[|CoAuthoredBy| - 1] == '>' && CoAuthoredByLower[0] == 'C'
    ensures CoAuthoredBy != CoAuthoredByLower
    ensures '\n' !in CoAuthoredBy && RobotFace !in CoAuthoredBy && RobotFace !in ClaudeSignature
    ensures ClaudeSignature[0] == 'C'
  {
    SignatureFacts();
    var h := "Co-Authored-By: ";
    assert |h| == 16 && h[0] == 'C' && h[1] == 'o' && '\n' !in h && RobotFace !in h;
    assert CoAuthoredBy[17] == ClaudeSignature[1];
    assert CoAuthoredBy[3] != CoAuthoredByLower[3];
  }

  /** The lower-case trailer does not match the upper-case one. */
  lemma CoAuthoredByNotLower(t: string)
    requires t == CoAuthoredBy
    ensures RemoveAll(t, CoAuthoredByLower) == t
  {
    CoAuthoredByFacts();
    forall i | 0 <= i <= |t|
      ensures !OccursAt(t, CoAuthoredByLower, i)
    {
      if i == 0 {
        assert t[0..|CoAuthoredByLower|] == t;
      }
    }
    RemoveAllAbsent(t, CoAuthoredByLower);
  }

  /** Collapsing and stripping leave the upper-case trailer as it is. */
  lemma CoAuthoredByTidy(t: string)
    requires t == CoAuthoredBy
    ensures Strip(CollapseNewlines(t)) == t
  {
    CoAuthoredByFacts();
    VisibleAscii(t[0]);
    VisibleAscii(t[|t| - 1]);
    CollapseWithoutNewlines(t);
    StripFixedPoint(t);
  }

  /** The deletions take the trailer and the newline after it. */
  lemma TrailerDeletions(subject: string, message: string)
    requires subject == "Fix parser"
    requires message == subject + "\n\n" + CoAuthoredBy + "\n"
    ensures RemoveAttributions(message) == subject + "\n\n"
  {
    CoAuthoredByFacts();
    var u := subject + Newlines(2);
    assert message == u + (CoAuthoredBy + Newlines(1) + []);
    assert RobotFace !in message;
    RemoveAllWithoutHead(message, GeneratedWith);
    RemoveAllSkip(u, CoAuthoredBy + Newlines(1) + [], CoAuthoredBy);
    RemoveLeading(CoAuthoredBy, 1, []);
    assert u + [] == u;
    RemoveAllWithoutHead(u, CoAuthoredByLower);
  }

  /** A one-line subject followed by a blank line tidies to the subject. */
  lemma SubjectTidy(subject: string)
    requires subject != [] && '\n' !in subject
    requires !IsWhitespace(subject[0]) && !IsWhitespace(subject[|subject| - 1])
    ensures Strip(CollapseNewlines(subject + "\n\n")) == subject
  {
    SubjectCollapse(subject);
    var n := Newlines(2);
    assert n == "\n\n" && [] + subject == subject;
    StripUnique([], subject, n);
  }

  /** The blank line after a one-line subject is kept by the collapse. */
  lemma SubjectCollapse(subject: string)
    requires subject != [] && '\n' !in subject
    ensures CollapseNewlines(subject + "\n\n") == subject + "\n\n"
  {
    var n := Newlines(2);
    assert n == "\n\n" && n + [] == n;
    CollapseSplit(subject, n);
    CollapseWithoutNewlines(subject);
    CollapseRun(2, []);
  }

  /** A trailer at the end of a message goes, and so do the blank lines
      before it. */
  lemma TrailerRemoved(subject: string, message: string)
    requires subject == "Fix parser"
    requires message == subject + "\n\n" + CoAuthoredBy + "\n"
    ensures CleanCommitMessage(message) == subject + "\n"
  {
    assert '\n' !in subject && subject[0] == 'F' && subject[|subject| - 1] == 'r';
    VisibleAscii('F');
    VisibleAscii('r');
    SubjectTidy(subject);
    TrailerDeletions(subject, message);
  }

  /** The bare word "Claude" is kept: the line of the source that would
      delete it is commented out. */
  lemma BareWordKept(subject: string, body: string, message: string)
    requires subject == "Fix parser" && body == "Thanks Claude"
    requires message == subject + "\n" + body
    ensures CleanCommitMessage(message) == message + "\n"
  {
    assert '\n' !in subject && '\n' !in body;
    assert RobotFace !in message && |message| < |CoAuthoredBy|;
    NoTripleJoin(subject, body);
    assert message[0] == 'F' && message[|message| - 1] == 'e';
    VisibleAscii('F');
    VisibleAscii('e');
    CleanPassesThrough(message);
  }

  /** Only the two listed casings of the trailer are matched. */
  lemma OtherCasingKept(message: string)
    requires message == "co-authored-by: " + "claude <noreply@anthropic.com>"
    ensures CleanCommitMessage(message) == message + "\n"
  {
    CoAuthoredByFacts();
    assert message[0] == 'c' && message[|message| - 1] == '>' && '\n' !in message;
    VisibleAscii('c');
    VisibleAscii('>');
    assert !HasAttribution(message) by {
      forall i | 0 <= i <= |message|
        ensures !OccursAt(message, CoAuthoredBy, i) && !OccursAt(message, CoAuthoredByLower, i)
      {
        if i == 0 {
          assert message[0..|CoAuthoredBy|] == message;
        }
      }
    }
    CollapseWithoutNewlines(message);
    CollapseFixedPoint(message);
    CleanPassesThrough(message);
  }

  /** Deleting the emoji line joins the text around it into a trailer,
      which the second deletion then takes. */
  lemma JoinedDeletions(message: string)
    requires message == "Co-Authored-By: " + GeneratedWith + ClaudeSignature
    ensures RemoveAttributions(message) == []
  {
    CoAuthoredByFacts();
    var u := "Co-Authored-By: ";
    assert message == u + (GeneratedWith + Newlines(0) + ClaudeSignature);
    assert RobotFace !in u;
    RemoveAllSkip(u, GeneratedWith + Newlines(0) + ClaudeSignature, GeneratedWith);
    RemoveLeading(GeneratedWith, 0, ClaudeSignature);
    RemoveAllWithoutHead(ClaudeSignature, GeneratedWith);
    RemoveWhole(CoAuthoredBy, 0);
    assert CoAuthoredBy + Newlines(0) == CoAuthoredBy;
  }

  /** Deleting the first attribution can join the text around it into the
      second, which the next deletion then removes in turn. */
  lemma JoinedAttributionRemoved(message: string)
    requires message == "Co-Authored-By: " + GeneratedWith + ClaudeSignature
    ensures CleanCommitMessage(message) == "\n"
  {
    JoinedDeletions(message);
    CleanBlank(message);
  }

  /** The field name of the trailer holds no second 'C'. */
  lemma SpliceHead()
    ensures "Co-Authored-By: " == "C" + "o-Authored-By: "
    ensures 'C' !in "o-Authored-By: "
  {}

  /** The splice has no occurrence of the trailer before the one inside it. */
  lemma SpliceFirstMatch(message: string)
    requires message == "Co-Authored-By: " + CoAuthoredBy + ClaudeSignature
    ensures forall j :: 0 <= j < 16 ==> !OccursAt(message, CoAuthoredBy, j)
  {
    CoAuthoredByFacts();
    SpliceHead();
    var u := "Co-Authored-By: ";
    forall j | 0 <= j < |u|
      ensures !OccursAt(message, CoAuthoredBy, j)
    {
      if j == 0 {
        assert message[17] == CoAuthoredBy[1];
        assert message[j..j + |CoAuthoredBy|][17] == message[17];
      } else {
        assert message[j] == u[j] == "o-Authored-By: "[j - 1];
        assert message[j..j + |CoAuthoredBy|][0] == message[j];
      }
    }
  }

  /** The second deletion takes the inner trailer and leaves the outer
      halves, which spell the trailer again. */
  lemma SpliceSecondDeletion(message: string)
    requires message == "Co-Authored-By: " + CoAuthoredBy + ClaudeSignature
    ensures RemoveAll(message, CoAuthoredBy) == CoAuthoredBy
  {
    CoAuthoredByFacts();
    SpliceFirstMatch(message);
    RemoveInner("Co-Authored-By: ", CoAuthoredBy, ClaudeSignature);
  }

  /** All three deletions applied to the splice leave one trailer. */
  lemma SpliceDeletions(message: string)
    requires message == "Co-Authored-By: " + CoAuthoredBy + ClaudeSignature
    ensures RemoveAttributions(message) == CoAuthoredBy
  {
    CoAuthoredByFacts();
    assert RobotFace !in message;
    assert GeneratedWith[0] == RobotFace;
    RemoveAllWithoutHead(message, GeneratedWith);
    SpliceSecondDeletion(message);
    CoAuthoredByNotLower(CoAuthoredBy);
  }

  /** A message that is a trailer line and nothing else is deleted whole. */
  lemma TrailerLineDeletions(message: string)
    requires message == CoAuthoredBy + "\n"
    ensures RemoveAttributions(message) == []
  {
    CoAuthoredByFacts();
    RemoveAllWithoutHead(message, GeneratedWith);
    assert Newlines(1) == "\n";
    RemoveWhole(CoAuthoredBy, 1);
  }

  /** A single pass can splice a new attribution together, so a cleaned
      message can still hold one, and cleaning it again changes it: the
      cleaner is not idempotent. */
  lemma SplicedAttributionSurvives(message: string)
    requires message == "Co-Authored-By: " + CoAuthoredBy + ClaudeSignature
    ensures CleanCommitMessage(message) == CoAuthoredBy + "\n"
    ensures CleanCommitMessage(CleanCommitMessage(message)) == "\n"
  {
    SpliceDeletions(message);
    CoAuthoredByTidy(CoAuthoredBy);
    TrailerLineDeletions(CoAuthoredBy + "\n");
    CleanBlank(CoAuthoredBy + "\n");
  }
}
