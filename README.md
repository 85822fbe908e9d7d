# Commit-message cleaner, modelled in Dafny

`remove-claude-filter-repo.py` is a one-off script that rewrites git history
to take bot attributions out of commit messages. Its data logic is one pure
string normaliser, `clean_commit_message`, plus a near copy of it,
`clean_message`, inside the callback script that the program writes out.
The normaliser works in four steps:

1. It deletes three fixed attribution strings, in this order, each together
   with the run of newlines right after it:
   - the robot-face "Generated with [Claude Code]" line;
   - the `Co-Authored-By:` trailer;
   - the `Co-authored-by:` trailer.
2. It squeezes every run of two or more newlines down to two.
3. It strips white space from both ends.
4. It appends one newline. `clean_message` skips this step.

Every regular expression involved is a literal string followed by `\n*`, or
the pattern `\n\n+`. So the model uses ordinary recursive functions on
`string` and needs no regular-expression engine.

The model has four modules:

- `Text` (`text.dfy`) defines the three primitives:
  - `RemoveAll` is a left-to-right, non-overlapping deletion of a literal and
    the maximal run of newlines after it. It stands for
    `re.sub(LITERAL + r'\n*', '', s)`.
  - `CollapseNewlines` stands for `re.sub(r'\n\n+', '\n\n', s)`.
  - `Strip` stands for `str.strip()`.

  Each comes with its characterising lemmas: fixed points, uniqueness,
  splitting, and "only deletes".
- `Cleaner` (`cleaner.dfy`) defines the three attributions,
  `CleanCommitMessage`, and the properties the function promises.
- `Callback` (`callback.dfy`) defines `clean_message`. It proves that the
  two cleaners agree up to the final newline.
- `Samples` (`samples.dfy`) works through concrete messages:
  - a trailer that is removed;
  - text that is kept (the bare word "Claude", another casing);
  - the two messages on which a single pass falls short.

`Text.WhitespaceChars` lists exactly the characters for which Python 3's
`str.isspace()` holds. Those are the characters `str.strip()` trims. The
general lemmas rely only on `'\n'` being white space. The worked messages
also rely on visible ASCII characters not being white space.

## Model

| member | source | states |
|---|---|---|
| Text.NewlineRun | remove-claude-filter-repo.py:14-16 | how far a greedy `\n*` reaches: a run of newlines with no newline right after it |
| Text.RemoveAll | remove-claude-filter-repo.py:14-16 | deleting never lengthens the text |
| Text.RemoveAllOnlyDeletes | remove-claude-filter-repo.py:14-16 | every character kept comes from the input (multiset inclusion) |
| Text.RemoveAllAbsent | remove-claude-filter-repo.py:14-16 | a text in which the literal occurs nowhere is returned unchanged |
| Text.RemoveAllLeftmost | remove-claude-filter-repo.py:14-16 | the leftmost occurrence is the one deleted, together with the newlines after it, and the scan resumes after them with the prefix kept |
| Text.RemoveAllSkip | remove-claude-filter-repo.py:14-16 | a prefix without the literal's first character is copied and the scan continues after it |
| Text.RemoveAllShrinks | remove-claude-filter-repo.py:14-16 | any occurrence makes the result strictly shorter |
| Text.RemoveAllFixedPoint | remove-claude-filter-repo.py:14-16 | the deletion changes nothing exactly when the literal does not occur |
| Text.RemoveInner | remove-claude-filter-repo.py:14-16 | an occurrence followed by a tail too short to hold another leaves the text before it and the tail |
| Text.RemoveLeading | remove-claude-filter-repo.py:14-16 | an occurrence at the front goes with all the newlines after it |
| Text.CollapseNewlines | remove-claude-filter-repo.py:22 | never lengthens, is empty only for the empty text, and keeps the first character |
| Text.CollapseNoTriple | remove-claude-filter-repo.py:22 | the result holds no three newlines in a row |
| Text.CollapseMultiset | remove-claude-filter-repo.py:22 | collapsing only deletes characters |
| Text.CollapseSplit | remove-claude-filter-repo.py:22 | a text that stops short of a newline and what follows it collapse independently |
| Text.CollapseRun | remove-claude-filter-repo.py:22 | a run of n newlines becomes a run of min(n, 2) |
| Text.CollapseFixedPoint | remove-claude-filter-repo.py:22 | collapsing changes a text exactly when it holds three newlines in a row, so single and double newlines are kept |
| Text.CollapseWithoutNewlines | remove-claude-filter-repo.py:22 | a text without newlines is untouched |
| Text.CollapseKeepsText | remove-claude-filter-repo.py:22 | every character other than a newline is kept, in order |
| Text.CollapseWhitespace | remove-claude-filter-repo.py:22 | the result is all white space exactly when the input is |
| Text.LeadingWhitespace | remove-claude-filter-repo.py:23 | the length of the maximal white-space prefix |
| Text.TrailingWhitespace | remove-claude-filter-repo.py:23 | the length of the maximal white-space suffix |
| Text.VisibleAscii | remove-claude-filter-repo.py:23 | no visible ASCII character is trimmed |
| Text.Strip | remove-claude-filter-repo.py:23 | the result is the slice after the leading white space, followed by white space only, and has no white space at either end |
| Text.StripEmpty | remove-claude-filter-repo.py:23 | stripping leaves nothing exactly when the text is all white space |
| Text.StripUnique | remove-claude-filter-repo.py:23 | white space, then r, then white space strips to r whenever r has no white space at its ends |
| Text.StripFixedPoint | remove-claude-filter-repo.py:23 | stripping changes nothing exactly when there is no white space at either end |
| Text.StripMultiset | remove-claude-filter-repo.py:23 | stripping keeps a piece of the input |
| Text.StripNoTriple | remove-claude-filter-repo.py:23 | stripping a text without three newlines in a row gives one without |
| Cleaner.RemoveAttributions | remove-claude-filter-repo.py:14-16 | the three deletions in source order never lengthen the message |
| Cleaner.RemoveAttributionsOnlyDeletes | remove-claude-filter-repo.py:14-16 | every character kept comes from the message |
| Cleaner.RemoveAttributionsFixedPoint | remove-claude-filter-repo.py:14-16 | the deletions change a message exactly when it holds one of the three exact attributions |
| Cleaner.RemoveAttributionsShorter | remove-claude-filter-repo.py:14-16 | any attribution in the message makes the deletions shorten it |
| Cleaner.CleanCommitMessage | remove-claude-filter-repo.py:11-25 | the result ends in a newline; when longer than that newline, it neither begins with white space nor has white space before the final newline |
| Cleaner.CleanNoTripleNewline | remove-claude-filter-repo.py:22-23 | no three newlines in a row survive cleaning |
| Cleaner.CleanOnlyDeletes | remove-claude-filter-repo.py:14-23 | the result is at most one character longer than the message, and every character comes from the message or is the added newline |
| Cleaner.CleanBlank | remove-claude-filter-repo.py:14-23 | the result is a bare newline exactly when only white space is left after the deletions |
| Cleaner.CleanWhitespaceOnly | remove-claude-filter-repo.py:22-23 | an empty or all-white-space message cleans to a bare newline |
| Cleaner.CleanFixedPoint | remove-claude-filter-repo.py:11-25 | cleaning returns the message plus a newline exactly when it holds no attribution, no three newlines in a row, and no white space at either end |
| Cleaner.CleanKeptIsClean | remove-claude-filter-repo.py:11-25 | a message that cleaning only terminates has no attribution, no triple newline and clean ends |
| Cleaner.CleanPassesThrough | remove-claude-filter-repo.py:11-25 | a message with no attribution, no triple newline and clean ends passes through with one newline added |
| Callback.CleanMessage | remove-claude-filter-repo.py:56-64 | the stripped result neither begins nor ends with white space |
| Callback.CleanCommitMessageAddsNewline | remove-claude-filter-repo.py:56-64 | `clean_commit_message(m)` is `clean_message(m)` followed by one newline, for every message |
| Callback.CleanMessageNoTripleNewline | remove-claude-filter-repo.py:63-64 | no three newlines in a row survive the callback |
| Callback.CleanMessageOnlyDeletes | remove-claude-filter-repo.py:58-64 | the callback only deletes characters |
| Callback.CleanMessageWhitespaceOnly | remove-claude-filter-repo.py:63-64 | an empty or all-white-space message becomes empty |
| Samples.SubjectTidy | remove-claude-filter-repo.py:22-23 | a one-line subject followed by a blank line tidies to the subject |
| Samples.TrailerRemoved | remove-claude-filter-repo.py:15-23 | "Fix parser", a blank line and a trailer line clean to "Fix parser" and a newline |
| Samples.BareWordKept | remove-claude-filter-repo.py:18-19 | the bare word "Claude" is kept, because its deletion is commented out |
| Samples.OtherCasingKept | remove-claude-filter-repo.py:15-16 | an all-lower-case trailer is not one of the matched casings and is kept |
| Samples.JoinedAttributionRemoved | remove-claude-filter-repo.py:14-16 | deleting the emoji line can join a trailer, which the next deletion, in source order, removes too |
| Samples.SplicedAttributionSurvives | remove-claude-filter-repo.py:15-16 | one pass can splice a new trailer together, so a cleaned message can still hold an attribution and cleaning it again changes it |

## Left out

- `main` (remove-claude-filter-repo.py:27-101) is left out. It is terminal I/O and process control: prompts, `subprocess` calls to git and git-filter-repo, the backup tag, and writing and deleting the callback file. It holds no data logic.
- `message_callback` (remove-claude-filter-repo.py:66-67) has no member of its own. It only forwards to `clean_message`, which is `Callback.CleanMessage`.
- git-filter-repo's behaviour is outside the model:
  - whether it calls the callback at all;
  - whether `clean_message` is in scope for the `return clean_message(message)` body that `main` passes it;
  - that it hands messages over as bytes rather than text.

  `main` never calls `clean_commit_message` itself.
- General regular-expression semantics are not modelled. Only the literal-plus-`\n*` deletions and the `\n\n+` collapse the script uses are.
- The commented-out deletion of the word "Claude" (remove-claude-filter-repo.py:19) is not behaviour. `Samples.BareWordKept` records that the word is kept.
- Python strings can hold lone surrogate code points, and a Dafny `char` cannot. The model covers strings of Unicode scalar values.
- Cleaner.CleanCommitMessage: the model does not claim idempotence, or that no attribution is left in the output. The source promises neither. `Samples.SplicedAttributionSurvives` shows both fail.
