/** filter/marker/QuickRemedyMarker.kt: a commit that fixes up its parent
    (same author, at most five minutes later, a message mentioning the
    former commit) gets a "Quick Remedy" trailer. */
module QuickRemedy {
  import opened Commits
  import opened KotlinText

  /** THRESHOLD_DURATION, five minutes, in seconds. */
  const ThresholdSeconds := 300

  /** The alternatives of MESSAGE_PATTERN, `(former|last|prev|previous) commit`. */
  const Phrases: seq<string> := ["former commit", "last commit", "prev commit", "previous commit"]

  predicate PhraseAt(s: string, k: nat)
  {
    exists p | p in Phrases :: OccursAt(s, p, k)
  }

  /** The regex search from index `k` on. */
  function FindPhraseFrom(s: string, k: nat): (found: bool)
    requires k <= |s|
    ensures found <==> exists j :: k <= j <= |s| && PhraseAt(s, j)
    decreases |s| - k
  {
    if PhraseAt(s, k) then true
    else if k == |s| then false
    else FindPhraseFrom(s, k + 1)
  }

  /** `MESSAGE_PATTERN.find(s) != null`. */
  predicate MentionsEarlierCommit(s: string)
  {
    FindPhraseFrom(s, 0)
  }

  /** One of the phrases is a substring of `s`. */
  ghost predicate ContainsPhrase(s: string)
  {
    exists p :: p in Phrases && Contains(s, p)
  }

  lemma MentionsIffContainsPhrase(s: string)
    ensures MentionsEarlierCommit(s) <==> ContainsPhrase(s)
  {
    if ContainsPhrase(s) {
      var p :| p in Phrases && Contains(s, p);
      var k :| OccursAt(s, p, k);
      assert PhraseAt(s, k);
    }
  }

  lemma PhraseFoundAt(s: string, i: nat, k: nat)
    requires i < |Phrases| && OccursAt(s, Phrases[i], k)
    ensures MentionsEarlierCommit(s)
  {
    assert PhraseAt(s, k);
  }

  /** Phrase `i` occurs in `s` at `k`, checked on the literal slice. */
  lemma PhraseLiteralAt(s: string, i: nat, k: nat, j: nat)
    requires i < |Phrases| && k <= j <= |s| && s[k..j] == Phrases[i]
    ensures MentionsEarlierCommit(s)
  {
    assert s[k..k + |Phrases[i]|] == Phrases[i];
    PhraseFoundAt(s, i, k);
  }

  lemma FormerCommitMatches()
    ensures MentionsEarlierCommit("revert former commit")
  {
    var s := "revert former commit";
    assert s[7..20] == "former commit";
    PhraseLiteralAt(s, 0, 7, 20);
  }

  lemma LastCommitMatches()
    ensures MentionsEarlierCommit("remove print from last commit")
  {
    var s := "remove print from last commit";
    assert s[18..29] == "last commit";
    PhraseLiteralAt(s, 1, 18, 29);
  }

  lemma PreviousCommitMatches()
    ensures MentionsEarlierCommit("previous commit did not fix bug.")
  {
    var s := "previous commit did not fix bug.";
    assert s[0..15] == "previous commit";
    PhraseLiteralAt(s, 3, 0, 15);
  }

  lemma PrevCommitMatches()
    ensures MentionsEarlierCommit("invalid prev commit fix")
  {
    var s := "invalid prev commit fix";
    assert s[8..19] == "prev commit";
    PhraseLiteralAt(s, 2, 8, 19);
  }

  /** The messages the source's tests expect to match. */
  lemma TestMessagesMatch()
    ensures MentionsEarlierCommit("revert former commit")
    ensures MentionsEarlierCommit("remove print from last commit")
    ensures MentionsEarlierCommit("previous commit did not fix bug.")
    ensures MentionsEarlierCommit("invalid prev commit fix")
  {
    FormerCommitMatches();
    LastCommitMatches();
    PreviousCommitMatches();
    PrevCommitMatches();
  }

  /** The indent of the raw string in `rewriteCommitMessage`. */
  const RemedyIndent := "        "

  const RemedyTrailer := "[Preform] Quick Remedy"

  /** The raw string with the commit's full message, then `trimMargin()`. */
  function RemedyAnnotation(fullMessage: string): string
  {
    TrimMargin("\n" + RemedyIndent + "|" + fullMessage + "\n"
               + RemedyIndent + "|\n"
               + RemedyIndent + "|" + RemedyTrailer + "\n"
               + RemedyIndent)
  }

  /** The decision chain: one parent, an author, a resolvable parent
      author with the same name, a gap of at most five minutes (a negative
      gap passes) and a phrase in the full message. */
  ghost predicate IsQuickRemedy(commit: Option<Commit>, parentAuthor: Option<Author>)
  {
    && commit.Some?
    && |commit.value.parents| == 1
    && commit.value.author.Some?
    && parentAuthor.Some?
    && commit.value.author.value.name == parentAuthor.value.name
    && commit.value.author.value.when - parentAuthor.value.when <= ThresholdSeconds
    && ContainsPhrase(commit.value.fullMessage)
  }

  /** `rewriteCommitMessage`. `commit` is the context's commit, `None`
      without one; `parentAuthor` is the author of the parent as parsed
      from the target repository, `None` when it cannot be resolved. A
      quick remedy gets the trailer after its own full message, whatever
      `message` holds; every other commit keeps `message`. */
  function RewriteCommitMessage(message: string, commit: Option<Commit>, parentAuthor: Option<Author>): (r: string)
    ensures IsQuickRemedy(commit, parentAuthor) ==> r == RemedyAnnotation(commit.value.fullMessage)
    ensures !IsQuickRemedy(commit, parentAuthor) ==> r == message
  {
    if commit.None? then message
    else
      var c := commit.value;
      MentionsIffContainsPhrase(c.fullMessage);
      if |c.parents| != 1 then message
      else if c.author.None? then message
      else if parentAuthor.None? then message
      else if c.author.value.name != parentAuthor.value.name then message
      else if c.author.value.when - parentAuthor.value.when > ThresholdSeconds then message
      else if !MentionsEarlierCommit(c.fullMessage) then message
      else RemedyAnnotation(c.fullMessage)
  }

  lemma JoinOfThreeLines(a: string, b: string, c: string)
    ensures Join([a, b, c], "\n") == a + "\n" + b + "\n" + c
  {
    assert [b, c][1..] == [c];
    assert Join([b, c], "\n") == b + "\n" + c;
    assert [a, b, c][1..] == [b, c];
    assert Join([a, b, c], "\n") == a + "\n" + (b + "\n" + c);
  }

  lemma RemedyLines(fullMessage: string)
    ensures TemplateLines(RemedyIndent, [fullMessage, "", RemedyTrailer], true)
         == ["", RemedyIndent + "|" + fullMessage, RemedyIndent + "|", RemedyIndent + "|" + RemedyTrailer, RemedyIndent]
  {
    var ms := MarginLines(RemedyIndent, [fullMessage, "", RemedyTrailer]);
    assert ms[1] == RemedyIndent + "|" + "" == RemedyIndent + "|";
    assert ms == [RemedyIndent + "|" + fullMessage, RemedyIndent + "|", RemedyIndent + "|" + RemedyTrailer];
    assert TemplateLines(RemedyIndent, [fullMessage, "", RemedyTrailer], true) == [""] + ms + [RemedyIndent];
  }

  lemma JoinOfRemedyLines(I: string, m: string, t: string)
    ensures Join(["", I + "|" + m, I + "|", I + "|" + t, I], "\n")
         == "\n" + I + "|" + m + "\n" + I + "|\n" + I + "|" + t + "\n" + I
  {
    var sep := "\n";
    var ls := ["", I + "|" + m, I + "|", I + "|" + t, I];
    assert ls[1..][1..][1..][1..] == [I];
    assert Join(ls[1..][1..][1..], sep) == I + "|" + t + sep + I;
    assert Join(ls[1..][1..], sep) == I + "|" + sep + (I + "|" + t + sep + I);
    assert Join(ls[1..], sep) == I + "|" + m + sep + (I + "|" + sep + (I + "|" + t + sep + I));
    assert "|\n" == "|" + "\n";
  }

  /** For a one-line full message the result is the message, a blank line
      and the trailer, with no final line break: the closing line of the
      raw string is blank and `trimMargin()` drops it. */
  lemma RemedyAnnotationOneLine(fullMessage: string)
    requires NoBreak(fullMessage)
    ensures RemedyAnnotation(fullMessage) == fullMessage + "\n\n" + RemedyTrailer
  {
    var body := [fullMessage, "", RemedyTrailer];
    assert NoBreak(RemedyTrailer);
    assert AllNoBreak(body);
    RemedyLines(fullMessage);
    JoinOfRemedyLines(RemedyIndent, fullMessage, RemedyTrailer);
    TrimMarginOfTemplate(RemedyIndent, body, true);
    JoinOfThreeLines(fullMessage, "", RemedyTrailer);
  }

  /** Five minutes exactly is still a quick remedy; one second more is not. */
  lemma ThresholdIsInclusive(message: string, c: Commit, parent: Author)
    requires |c.parents| == 1 && c.author.Some? && c.author.value.name == parent.name
    requires ContainsPhrase(c.fullMessage)
    ensures (c.author.value.when - parent.when == ThresholdSeconds
             ==> RewriteCommitMessage(message, Some(c), Some(parent)) == RemedyAnnotation(c.fullMessage))
    ensures (c.author.value.when - parent.when == ThresholdSeconds + 1
             ==> RewriteCommitMessage(message, Some(c), Some(parent)) == message)
    ensures (c.author.value.when < parent.when
             ==> RewriteCommitMessage(message, Some(c), Some(parent)) == RemedyAnnotation(c.fullMessage))
  {
  }
}
