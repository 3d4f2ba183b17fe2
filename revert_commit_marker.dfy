/** filter/marker/RevertCommitMarker.kt: a two-pass annotator. Each commit
    with one parent is checked against the revert-message template and then
    against the previous commit's change vector; a commit that reverts its
    parent gets a "Reverting" trailer and its parent is remembered, so that
    the second traversal gives the parent a "Reverted" trailer.
    The file also carries its own copy of the change vector, whose
    `reverts` spells the emptiness guard out set by set. */
module RevertMarker {
  import opened Commits
  import opened KotlinText
  import opened ChangeVectors

  // ---------------------------------------------------------------------
  // REVERTING_COMMIT_MESSAGE_PATTERN: ^Revert ".*This reverts commit ([0-9a-f]{40}).*
  // matched against the whole message, '.' matching line breaks too.

  const RevertPrefix := "Revert \""
  const RevertPhrase := "This reverts commit "

  predicate IsLowerHex(c: char)
  {
    '0' <= c <= '9' || 'a' <= c <= 'f'
  }

  /** At index `k` the message holds the phrase followed by 40 lower-case
      hex digits. */
  predicate ReferenceAt(msg: string, k: int)
  {
    && OccursAt(msg, RevertPhrase, k)
    && k + 60 <= |msg|
    && forall i :: k + 20 <= i < k + 60 ==> IsLowerHex(msg[i])
  }

  /** The greatest reference index below `k` that lies after the prefix:
      the greedy `.*` makes the regex capture the last reference. */
  function LastReferenceBelow(msg: string, k: nat): (r: Option<nat>)
    ensures r.Some? ==> |RevertPrefix| <= r.value < k && ReferenceAt(msg, r.value)
    ensures r.Some? ==> forall j :: r.value < j < k ==> !ReferenceAt(msg, j)
    ensures r.None? ==> forall j :: |RevertPrefix| <= j < k ==> !ReferenceAt(msg, j)
    decreases k
  {
    if k <= |RevertPrefix| then None
    else if ReferenceAt(msg, k - 1) then Some(k - 1)
    else LastReferenceBelow(msg, k - 1)
  }

  /** The id the revert template captures, if the whole message matches:
      the message starts with `Revert "` and some later position holds a
      reference; the captured id is the 40 digits of the last one. */
  function RevertedId(msg: string): (r: Option<Id>)
    ensures r.Some? <==> StartsWith(msg, RevertPrefix) && exists k :: |RevertPrefix| <= k && ReferenceAt(msg, k)
    ensures r.Some? ==> exists k :: |RevertPrefix| <= k && ReferenceAt(msg, k)
                                   && r.value == msg[k + 20..k + 60]
                                   && forall j :: k < j ==> !ReferenceAt(msg, j)
  {
    if !StartsWith(msg, RevertPrefix) then None
    else match LastReferenceBelow(msg, |msg| + 1)
      case None => None
      case Some(k) => Some(msg[k + 20..k + 60])
  }

  lemma ReferenceAtShift(a: string, b: string, j: nat)
    ensures ReferenceAt(a + b, |a| + j) <==> ReferenceAt(b, j)
  {
    var m := a + b;
    if j + 60 <= |b| {
      assert m[|a| + j..|a| + j + 20] == b[j..j + 20];
      forall i | j + 20 <= i < j + 60 ensures m[|a| + i] == b[i] { }
    }
  }

  /** Only the phrase's first character is a 'T'. */
  lemma PhraseStartsOnlyAtItsHead(i: int)
    requires 1 <= i < |RevertPhrase|
    ensures RevertPhrase[i] != 'T'
  {
  }

  /** Behind a reference whose tail holds none, no reference starts. */
  lemma NoLaterReference(head: string, id: string, rest: string, j: int)
    requires |id| == 40 && forall i :: 0 <= i < 40 ==> IsLowerHex(id[i])
    requires forall j' :: 0 <= j' ==> !ReferenceAt(rest, j')
    requires |head| < j
    ensures !ReferenceAt(head + RevertPhrase + id + rest, j)
  {
    var m := head + RevertPhrase + id + rest;
    var k0 := |head|;
    if ReferenceAt(m, j) {
      assert m[j] == m[j..j + 20][0] == 'T';
      if j < k0 + 20 {
        assert m[j] == RevertPhrase[j - k0];
        PhraseStartsOnlyAtItsHead(j - k0);
      } else if j >= k0 + 60 {
        assert m == (head + RevertPhrase + id) + rest;
        ReferenceAtShift(head + RevertPhrase + id, rest, j - k0 - 60);
      }
    }
  }

  /** A message written by `git revert`, `Revert "<subject>"`, a blank line
      and `This reverts commit <id>` followed by any text that holds no
      reference of its own, names exactly that id. */
  lemma RevertTemplateNamesId(subject: string, id: string, rest: string)
    requires |id| == 40 && forall i :: 0 <= i < 40 ==> IsLowerHex(id[i])
    requires forall j :: 0 <= j ==> !ReferenceAt(rest, j)
    ensures RevertedId(RevertPrefix + subject + "\"\n\n" + RevertPhrase + id + rest) == Some(id)
  {
    var head := RevertPrefix + subject + "\"\n\n";
    var m := head + RevertPhrase + id + rest;
    var k0 := |head|;
    assert m[..|RevertPrefix|] == RevertPrefix;
    assert m[k0..k0 + 20] == RevertPhrase;
    forall i | k0 + 20 <= i < k0 + 60 ensures IsLowerHex(m[i]) {
      assert m[i] == id[i - k0 - 20];
    }
    assert ReferenceAt(m, k0);
    assert m[k0 + 20..k0 + 60] == id;
    forall j | k0 < j ensures !ReferenceAt(m, j) {
      NoLaterReference(head, id, rest, j);
    }
    var r := LastReferenceBelow(m, |m| + 1);
    assert r == Some(k0);
  }

  // ---------------------------------------------------------------------
  // The file's own ChangeVector copy: same sets, same equality; `reverts`
  // lists the eight emptiness tests instead of calling isEmpty().

  predicate MarkerReverts(a: ChangeVector, b: ChangeVector)
  {
    && !(a.addedFiles == {} && b.addedFiles == {} && a.deletedFiles == {} && b.deletedFiles == {}
         && a.addedCodes == {} && b.addedCodes == {} && a.deletedCodes == {} && b.deletedCodes == {})
    && a.addedFiles == b.deletedFiles
    && a.deletedFiles == b.addedFiles
    && a.addedCodes == b.deletedCodes
    && a.deletedCodes == b.addedCodes
  }

  /** Both copies of `reverts` decide the same. */
  lemma MarkerRevertsIsReverts(a: ChangeVector, b: ChangeVector)
    ensures MarkerReverts(a, b) == a.Reverts(b)
  {
  }

  // ---------------------------------------------------------------------
  // The change vector the marker builds for a commit

  /** Only records whose old and new path both end in ".java" count. */
  predicate IsJavaEntry(d: DiffEntry)
  {
    EndsWith(d.oldPath, ".java") && EndsWith(d.newPath, ".java")
  }

  /** One edit of a modified file: unlike `fromTrees`, deleted lines are
      recorded under the NEW path too. */
  function MarkerEditVector(d: DiffEntry, e: Edit): ChangeVector
    requires EditInBounds(d, e)
  {
    match e.kind
    case InsertEdit => ChangeVector({}, {}, Codes(d.newPath, d.newLines, e.beginB, e.endB), {})
    case DeleteEdit => ChangeVector({}, {}, {}, Codes(d.newPath, d.oldLines, e.beginA, e.endA))
    case ReplaceEdit =>
      ChangeVector({}, {}, Codes(d.newPath, d.newLines, e.beginB, e.endB), Codes(d.newPath, d.oldLines, e.beginA, e.endA))
    case EmptyEdit => EmptyVector
  }

  function MarkerEditsVector(d: DiffEntry, edits: seq<Edit>): ChangeVector
    requires EditsInBounds(d, edits)
  {
    if edits == [] then EmptyVector
    else Union(MarkerEditsVector(d, edits[..|edits| - 1]), MarkerEditVector(d, edits[|edits| - 1]))
  }

  function MarkerEntryVector(d: DiffEntry): ChangeVector
    requires EditsInBounds(d, d.edits)
  {
    if !IsJavaEntry(d) then EmptyVector
    else match d.change
      case AddFile => ChangeVector({d.newPath}, {}, {}, {})
      case CopyFile => ChangeVector({d.newPath}, {}, {}, {})
      case DeleteFile => ChangeVector({}, {d.oldPath}, {}, {})
      case RenameFile => ChangeVector({d.newPath}, {d.oldPath}, {}, {})
      case ModifyFile => MarkerEditsVector(d, d.edits)
  }

  function MarkerVector(diffs: seq<DiffEntry>): ChangeVector
    requires DiffsWellFormed(diffs)
  {
    if diffs == [] then EmptyVector
    else Union(MarkerVector(diffs[..|diffs| - 1]), MarkerEntryVector(diffs[|diffs| - 1]))
  }

  /** The diff loop of `rewriteCommitMessage`: skips non-Java records and
      fills the current commit's vector record by record. */
  method ComputeMarkerVector(diffs: seq<DiffEntry>) returns (cv: ChangeVector)
    requires DiffsWellFormed(diffs)
    ensures cv == MarkerVector(diffs)
  {
    cv := EmptyVector;
    var k := 0;
    while k < |diffs|
      invariant 0 <= k <= |diffs|
      invariant cv == MarkerVector(diffs[..k])
    {
      var d := diffs[k];
      assert EditsInBounds(d, d.edits);
      assert diffs[..k + 1][..k] == diffs[..k];
      if !EndsWith(d.oldPath, ".java") || !EndsWith(d.newPath, ".java") {
        k := k + 1;
        continue;
      }
      cv := AddMarkerEntry(cv, d);
      k := k + 1;
    }
    assert diffs[..k] == diffs;
  }

  /** The body of the diff loop for one Java record. */
  method AddMarkerEntry(cv: ChangeVector, d: DiffEntry) returns (cv': ChangeVector)
    requires EditsInBounds(d, d.edits) && IsJavaEntry(d)
    ensures cv' == Union(cv, MarkerEntryVector(d))
  {
    cv' := cv;
    match d.change {
      case AddFile =>
        cv' := cv'.(addedFiles := cv'.addedFiles + {d.newPath});
      case CopyFile =>
        cv' := cv'.(addedFiles := cv'.addedFiles + {d.newPath});
      case DeleteFile =>
        cv' := cv'.(deletedFiles := cv'.deletedFiles + {d.oldPath});
      case RenameFile =>
        cv' := cv'.(deletedFiles := cv'.deletedFiles + {d.oldPath});
        cv' := cv'.(addedFiles := cv'.addedFiles + {d.newPath});
      case ModifyFile =>
        cv' := AddMarkerEdits(cv, d);
    }
  }

  /** The loop over the edits of a modified Java file. */
  method AddMarkerEdits(cv: ChangeVector, d: DiffEntry) returns (cv': ChangeVector)
    requires EditsInBounds(d, d.edits)
    ensures cv' == Union(cv, MarkerEditsVector(d, d.edits))
  {
    cv' := cv;
    var j := 0;
    while j < |d.edits|
      invariant 0 <= j <= |d.edits|
      invariant cv' == Union(cv, MarkerEditsVector(d, d.edits[..j]))
    {
      var e := d.edits[j];
      cv' := AddMarkerEdit(cv', d, e);
      assert d.edits[..j + 1][..j] == d.edits[..j];
      UnionIsAssociative(cv, MarkerEditsVector(d, d.edits[..j]), MarkerEditVector(d, e));
      j := j + 1;
    }
    assert d.edits[..j] == d.edits;
  }

  method AddMarkerEdit(cv: ChangeVector, d: DiffEntry, e: Edit) returns (cv': ChangeVector)
    requires EditInBounds(d, e)
    ensures cv' == Union(cv, MarkerEditVector(d, e))
  {
    var fileName := d.newPath;
    cv' := cv;
    match e.kind {
      case InsertEdit =>
        cv' := cv'.(addedCodes := cv'.addedCodes + Codes(fileName, d.newLines, e.beginB, e.endB));
      case DeleteEdit =>
        cv' := cv'.(deletedCodes := cv'.deletedCodes + Codes(fileName, d.oldLines, e.beginA, e.endA));
      case ReplaceEdit =>
        cv' := cv'.(addedCodes := cv'.addedCodes + Codes(fileName, d.newLines, e.beginB, e.endB));
        cv' := cv'.(deletedCodes := cv'.deletedCodes + Codes(fileName, d.oldLines, e.beginA, e.endA));
      case EmptyEdit =>
    }
  }

  /** A record whose old or new path does not end in ".java" adds nothing;
      in particular an added or deleted file, whose missing side the differ
      names "/dev/null", never reaches the marker's vector. */
  lemma NonJavaEntryIgnored(diffs: seq<DiffEntry>, d: DiffEntry)
    requires DiffsWellFormed(diffs + [d])
    requires !IsJavaEntry(d) || d.oldPath == DevNull || d.newPath == DevNull
    ensures MarkerVector(diffs + [d]) == MarkerVector(diffs)
  {
    assert (diffs + [d])[..|diffs|] == diffs;
    DevNullIsNotJava();
  }

  lemma DevNullIsNotJava()
    ensures !EndsWith(DevNull, ".java")
  {
    assert DevNull[4..][1] == 'n' && ".java"[1] == 'j';
  }

  /** Records of modified files have one path for both sides. */
  predicate ModifyKeepsPath(diffs: seq<DiffEntry>)
  {
    forall k :: 0 <= k < |diffs| && diffs[k].change.ModifyFile? ==> diffs[k].oldPath == diffs[k].newPath
  }

  /** No record copies one Java file to another: the undo of such a copy
      is a deletion against "/dev/null", which the marker ignores. */
  predicate NoJavaCopy(diffs: seq<DiffEntry>)
  {
    forall k :: 0 <= k < |diffs| && diffs[k].change.CopyFile? ==> !IsJavaEntry(diffs[k])
  }

  lemma {:induction false} MarkerEditsVectorIsEditsVector(d: DiffEntry, n: nat)
    requires EditsInBounds(d, d.edits) && n <= |d.edits| && d.oldPath == d.newPath
    ensures MarkerEditsVector(d, d.edits[..n]) == EditsVector(d, d.edits[..n])
  {
    if n > 0 {
      MarkerEditsVectorIsEditsVector(d, n - 1);
      assert d.edits[..n][..n - 1] == d.edits[..n - 1];
    }
  }

  /** On Java records whose modifications keep their path, the marker's
      vector is the `fromTrees` fingerprint. */
  lemma {:induction false} MarkerVectorIsFingerprint(diffs: seq<DiffEntry>)
    requires DiffsWellFormed(diffs) && ModifyKeepsPath(diffs)
    requires forall k :: 0 <= k < |diffs| ==> IsJavaEntry(diffs[k])
    ensures MarkerVector(diffs) == Fingerprint(diffs)
  {
    if diffs != [] {
      var n := |diffs| - 1;
      MarkerVectorIsFingerprint(diffs[..n]);
      MarkerEntryIsEntryVector(diffs[n]);
    }
  }

  /** Undoing a record keeps it a Java record, except for a copy, whose
      undo is a deletion and never reaches the marker's vector. */
  lemma InverseKeepsJava(d: DiffEntry)
    ensures !d.change.CopyFile? ==> IsJavaEntry(InverseEntry(d)) == IsJavaEntry(d)
    ensures d.change.CopyFile? ==> !IsJavaEntry(InverseEntry(d))
  {
    DevNullIsNotJava();
  }

  /** So the content check does not see the undo of a Java copy: the copy
      adds its new path, its undo adds nothing. */
  lemma CopyUndoIsIgnored(d: DiffEntry)
    requires EditsInBounds(d, d.edits) && d.change.CopyFile? && IsJavaEntry(d)
    ensures EditsInBounds(InverseEntry(d), InverseEntry(d).edits)
    ensures MarkerEntryVector(d) == ChangeVector({d.newPath}, {}, {}, {})
    ensures MarkerEntryVector(InverseEntry(d)) == EmptyVector
  {
    EntryVectorOfInverse(d);
    InverseKeepsJava(d);
  }

  lemma MarkerEntryIsEntryVector(d: DiffEntry)
    requires EditsInBounds(d, d.edits) && IsJavaEntry(d)
    requires d.change.ModifyFile? ==> d.oldPath == d.newPath
    ensures MarkerEntryVector(d) == EntryVector(d)
  {
    if d.change.ModifyFile? {
      MarkerEditsVectorIsEditsVector(d, |d.edits|);
      assert d.edits[..|d.edits|] == d.edits;
    }
  }

  lemma MarkerEntryVectorOfInverse(d: DiffEntry)
    requires EditsInBounds(d, d.edits)
    requires d.change.ModifyFile? ==> d.oldPath == d.newPath
    requires d.change.CopyFile? ==> !IsJavaEntry(d)
    ensures EditsInBounds(InverseEntry(d), InverseEntry(d).edits)
    ensures MarkerEntryVector(InverseEntry(d)) == MarkerEntryVector(d).Reversed()
  {
    EntryVectorOfInverse(d);
    InverseKeepsJava(d);
    if IsJavaEntry(d) {
      MarkerEntryIsEntryVector(d);
      MarkerEntryIsEntryVector(InverseEntry(d));
    }
  }

  /** The commit that undoes a diff gets the reversed marker vector, so
      the content check recognises it as reverting its predecessor. */
  lemma {:induction false} MarkerVectorOfInverse(diffs: seq<DiffEntry>)
    requires DiffsWellFormed(diffs) && ModifyKeepsPath(diffs) && NoJavaCopy(diffs)
    ensures DiffsWellFormed(Inverse(diffs))
    ensures MarkerVector(Inverse(diffs)) == MarkerVector(diffs).Reversed()
  {
    FingerprintOfInverse(diffs);
    if diffs != [] {
      var n := |diffs| - 1;
      MarkerVectorOfInverse(diffs[..n]);
      assert Inverse(diffs)[..n] == Inverse(diffs[..n]);
      var d := diffs[n];
      assert Inverse(diffs)[n] == InverseEntry(d);
      MarkerEntryVectorOfInverse(d);
      ReversedOfUnion(MarkerVector(diffs[..n]), MarkerEntryVector(d));
    }
  }

  // ---------------------------------------------------------------------
  // annotateComment

  /** The indent of the raw string in `annotateComment`. */
  const AnnotationIndent := "            "

  function Word(reverting: bool): string
  {
    if reverting then "Reverting" else "Reverted"
  }

  /** `annotateComment`: the raw string, then `trimMargin()`. */
  function Annotate(message: string, reverting: bool): string
  {
    TrimMargin("\n" + AnnotationIndent + "|" + message + "\n"
               + AnnotationIndent + "|\n"
               + AnnotationIndent + "|[Preform] " + Word(reverting) + " Commit\n"
               + AnnotationIndent + "|")
  }

  function Trailer(reverting: bool): string
  {
    "[Preform] " + Word(reverting) + " Commit"
  }

  lemma TrailerHasNoBreak(reverting: bool)
    ensures NoBreak(Trailer(reverting))
  {
    var t := Trailer(reverting);
    forall i | 0 <= i < |t| ensures !IsLineBreak(t[i]) {
      if i < 10 { assert t[i] == "[Preform] "[i]; }
      else if i < 10 + |Word(reverting)| { assert t[i] == Word(reverting)[i - 10]; }
      else { assert t[i] == " Commit"[i - 10 - |Word(reverting)|]; }
    }
  }

  lemma JoinOfFiveLines(a: string, b: string, c: string, d: string, e: string)
    ensures Join([a, b, c, d, e], "\n") == a + "\n" + b + "\n" + c + "\n" + d + "\n" + e
  {
    var sep := "\n";
    assert [d, e][1..] == [e];
    assert Join([d, e], sep) == d + sep + e;
    assert [c, d, e][1..] == [d, e];
    assert Join([c, d, e], sep) == c + sep + (d + sep + e);
    assert [b, c, d, e][1..] == [c, d, e];
    assert Join([b, c, d, e], sep) == b + sep + (c + sep + (d + sep + e));
    assert [a, b, c, d, e][1..] == [b, c, d, e];
    assert Join([a, b, c, d, e], sep) == a + sep + (b + sep + (c + sep + (d + sep + e)));
  }

  lemma AnnotationLines(message: string, reverting: bool)
    ensures TemplateLines(AnnotationIndent, [message, "", Trailer(reverting), ""], false)
         == ["", AnnotationIndent + "|" + message, AnnotationIndent + "|", AnnotationIndent + "|" + Trailer(reverting), AnnotationIndent + "|"]
  {
    var I := AnnotationIndent;
    var body := [message, "", Trailer(reverting), ""];
    var ms := MarginLines(I, body);
    assert ms[1] == I + "|" + "" == I + "|";
    assert ms[3] == I + "|" + "" == I + "|";
    assert ms == [I + "|" + message, I + "|", I + "|" + Trailer(reverting), I + "|"];
  }

  /** Regrouping a concatenation of line pieces into five lines. */
  lemma RegroupLines(I: string, m: string, t: string, P: string, N: string)
    ensures N + I + P + m + N + I + P + N + I + P + t + N + I + P
         == "" + N + (I + P + m) + N + (I + P) + N + (I + P + t) + N + (I + P)
  {
  }

  lemma SplitRawAnnotation(I: string, m: string, w: string)
    ensures "\n" + I + "|" + m + "\n" + I + "|\n" + I + "|[Preform] " + w + " Commit\n" + I + "|"
         == "\n" + I + "|" + m + "\n" + I + "|" + "\n" + I + "|" + ("[Preform] " + w + " Commit") + "\n" + I + "|"
  {
    assert "|\n" == "|" + "\n";
    assert "|[Preform] " + w + " Commit\n" == "|" + ("[Preform] " + w + " Commit") + "\n";
  }

  lemma RawAnnotation(I: string, m: string, w: string)
    ensures "\n" + I + "|" + m + "\n" + I + "|\n" + I + "|[Preform] " + w + " Commit\n" + I + "|"
         == "" + "\n" + (I + "|" + m) + "\n" + (I + "|") + "\n" + (I + "|" + ("[Preform] " + w + " Commit")) + "\n" + (I + "|")
  {
    SplitRawAnnotation(I, m, w);
    RegroupLines(I, m, "[Preform] " + w + " Commit", "|", "\n");
  }

  /** The raw string of `annotateComment` is a margin template whose body
      is the message, a blank line, the trailer and an empty last line. */
  lemma AnnotationIsTemplate(message: string, reverting: bool)
    ensures "\n" + AnnotationIndent + "|" + message + "\n"
            + AnnotationIndent + "|\n"
            + AnnotationIndent + "|[Preform] " + Word(reverting) + " Commit\n"
            + AnnotationIndent + "|"
         == Join(TemplateLines(AnnotationIndent, [message, "", Trailer(reverting), ""], false), "\n")
  {
    var I := AnnotationIndent;
    AnnotationLines(message, reverting);
    JoinOfFiveLines("", I + "|" + message, I + "|", I + "|" + Trailer(reverting), I + "|");
    RawAnnotation(I, message, Word(reverting));
  }

  /** For a one-line message the annotation is the message, a blank line,
      the trailer and a final line break. */
  lemma AnnotateOneLine(message: string, reverting: bool)
    requires NoBreak(message)
    ensures Annotate(message, reverting) == message + "\n\n" + Trailer(reverting) + "\n"
  {
    var t := Trailer(reverting);
    var body := [message, "", t, ""];
    TrailerHasNoBreak(reverting);
    assert AllNoBreak(body);
    AnnotationIsTemplate(message, reverting);
    TrimMarginOfTemplate(AnnotationIndent, body, false);
    JoinOfAnnotationBody(message, t);
  }

  lemma JoinOfAnnotationBody(m: string, t: string)
    ensures Join([m, "", t, ""], "\n") == m + "\n\n" + t + "\n"
  {
    var sep := "\n";
    JoinCons(t, [""], sep);
    assert [t, ""] == [t] + [""];
    JoinCons("", [t, ""], sep);
    assert ["", t, ""] == [""] + [t, ""];
    JoinCons(m, ["", t, ""], sep);
    assert [m, "", t, ""] == [m] + ["", t, ""];
    assert m + sep + ("" + sep + (t + sep + "")) == m + "\n\n" + t + "\n";
  }

  // ---------------------------------------------------------------------
  // The hook, its state and the two traversals

  /** What the engine hands the hook for one commit: the commit and the
      diff from its first parent's tree to its own tree. */
  datatype Visit = Visit(commit: Commit, diffs: seq<DiffEntry>)

  predicate VisitWellFormed(ctx: Option<Visit>)
  {
    ctx.Some? ==> DiffsWellFormed(ctx.value.diffs)
  }

  predicate HistoryWellFormed(history: seq<Visit>)
  {
    forall k :: 0 <= k < |history| ==> DiffsWellFormed(history[k].diffs)
  }

  /** The marker's fields: the previous commit's vector and the ids of the
      commits found to be reverted. */
  datatype MarkerState = MarkerState(previous: ChangeVector, reverted: set<Id>)

  /** The parent a visit can add to the reverted set: that of a commit
      with exactly one parent. */
  function SoleParent(ctx: Option<Visit>): set<Id>
  {
    if ctx.Some? && |ctx.value.commit.parents| == 1 then {ctx.value.commit.parents[0]} else {}
  }

  /** `rewriteCommitMessage` on the marker's state: the new state and the
      message. The reverted set only grows, and only by the sole parent;
      the message is kept or gets one of the two trailers. */
  function MarkStep(s: MarkerState, message: string, ctx: Option<Visit>): (r: (MarkerState, string))
    requires VisitWellFormed(ctx)
    ensures s.reverted <= r.0.reverted <= s.reverted + SoleParent(ctx)
    ensures r.1 == message || r.1 == Annotate(message, true) || r.1 == Annotate(message, false)
  {
    match ctx
    case None => (s, message)
    case Some(v) =>
      var c := v.commit;
      if c.id in s.reverted then (s, Annotate(message, false))
      else if |c.parents| != 1 then (s, message)
      else
        var parent := c.parents[0];
        if RevertedId(message) == Some(parent) then
          (s.(reverted := s.reverted + {parent}), Annotate(message, true))
        else
          var current := MarkerVector(v.diffs);
          if MarkerReverts(current, s.previous) then
            (MarkerState(current, s.reverted + {parent}), Annotate(message, true))
          else
            (s.(previous := current), message)
  }

  /** One traversal: the hook on every commit in order, with the commit's
      full message. */
  function Pass(s: MarkerState, history: seq<Visit>): (r: (MarkerState, seq<string>))
    requires HistoryWellFormed(history)
    ensures |r.1| == |history|
  {
    if history == [] then (s, [])
    else
      var n := |history| - 1;
      var (s', messages) := Pass(s, history[..n]);
      var (s'', m) := MarkStep(s', history[n].commit.fullMessage, Some(history[n]));
      (s'', messages + [m])
  }

  /** `rewriteCommits`: the traversal twice over, the second pass starting
      from the state the first one left; its messages are the final ones. */
  function TwoPasses(s: MarkerState, history: seq<Visit>): (MarkerState, seq<string>)
    requires HistoryWellFormed(history)
  {
    Pass(Pass(s, history).0, history)
  }

  class RevertCommitMarker {
    var previousCommitChangeVector: ChangeVector
    var revertedCommits: set<Id>

    constructor ()
      ensures previousCommitChangeVector == EmptyVector && revertedCommits == {}
    {
      previousCommitChangeVector := EmptyVector;
      revertedCommits := {};
    }

    function State(): MarkerState
      reads this
    {
      MarkerState(previousCommitChangeVector, revertedCommits)
    }

    method RewriteCommitMessage(message: string, ctx: Option<Visit>) returns (r: string)
      requires VisitWellFormed(ctx)
      modifies this
      ensures (State(), r) == MarkStep(old(State()), message, ctx)
    {
      if ctx.None? {
        return message;
      }
      var commit := ctx.value.commit;
      if commit.id in revertedCommits {
        return Annotate(message, false);
      }
      if |commit.parents| != 1 {
        return message;
      }
      var parentCommit := commit.parents[0];
      var captured := RevertedId(message);
      if captured.Some? && captured.value == parentCommit {
        revertedCommits := revertedCommits + {parentCommit};
        return Annotate(message, true);
      }
      var current := ComputeMarkerVector(ctx.value.diffs);
      if MarkerReverts(current, previousCommitChangeVector) {
        previousCommitChangeVector := current;
        revertedCommits := revertedCommits + {parentCommit};
        return Annotate(message, true);
      }
      previousCommitChangeVector := current;
      return message;
    }

    /** The engine's traversal: the hook on each commit in order. */
    method Traverse(history: seq<Visit>) returns (messages: seq<string>)
      requires HistoryWellFormed(history)
      modifies this
      ensures (State(), messages) == Pass(old(State()), history)
    {
      messages := [];
      var k := 0;
      while k < |history|
        invariant 0 <= k <= |history|
        invariant (State(), messages) == Pass(old(State()), history[..k])
      {
        assert history[..k + 1][..k] == history[..k];
        var m := RewriteCommitMessage(history[k].commit.fullMessage, Some(history[k]));
        messages := messages + [m];
        k := k + 1;
      }
      assert history[..k] == history;
    }

    /** `rewriteCommits`: traverse twice to mark reverted commits. */
    method RewriteCommits(history: seq<Visit>) returns (messages: seq<string>)
      requires HistoryWellFormed(history)
      modifies this
      ensures (State(), messages) == TwoPasses(old(State()), history)
    {
      var _ := Traverse(history);
      messages := Traverse(history);
    }
  }

  // ---------------------------------------------------------------------
  // What the two traversals achieve

  /** The sole parents of the commits in a history. */
  function SoleParents(history: seq<Visit>): set<Id>
  {
    set k, p | 0 <= k < |history| && p in SoleParent(Some(history[k])) :: p
  }

  /** A traversal of a non-empty history is the traversal of all but the
      last commit, then the hook on the last one. */
  lemma PassLast(s: MarkerState, history: seq<Visit>)
    requires HistoryWellFormed(history) && history != []
    ensures HistoryWellFormed(history[..|history| - 1])
    ensures var n := |history| - 1;
            var before := Pass(s, history[..n]);
            var last := MarkStep(before.0, history[n].commit.fullMessage, Some(history[n]));
            Pass(s, history) == (last.0, before.1 + [last.1])
  {
  }

  /** Along one traversal the reverted set only grows. */
  lemma {:induction false} PassRevertedGrows(s: MarkerState, history: seq<Visit>, i: nat)
    requires HistoryWellFormed(history) && i <= |history|
    ensures s.reverted <= Pass(s, history[..i]).0.reverted <= Pass(s, history).0.reverted
    decreases |history|
  {
    if history == [] {
      assert history[..i] == [];
    } else {
      var n := |history| - 1;
      PassLast(s, history);
      var before := Pass(s, history[..n]);
      var last := MarkStep(before.0, history[n].commit.fullMessage, Some(history[n]));
      assert before.0.reverted <= Pass(s, history).0.reverted;
      if i <= n {
        PassRevertedGrows(s, history[..n], i);
        assert history[..n][..i] == history[..i];
      } else {
        PassRevertedGrows(s, history[..n], n);
        assert history[..n][..n] == history[..n];
        assert history[..i] == history;
      }
    }
  }

  /** Everything a traversal adds to the reverted set is the sole parent
      of some visited commit. */
  lemma {:induction false} PassRevertsOnlyParents(s: MarkerState, history: seq<Visit>)
    requires HistoryWellFormed(history)
    ensures Pass(s, history).0.reverted <= s.reverted + SoleParents(history)
    decreases |history|
  {
    if history != [] {
      var n := |history| - 1;
      PassLast(s, history);
      var before := Pass(s, history[..n]);
      var last := MarkStep(before.0, history[n].commit.fullMessage, Some(history[n]));
      assert Pass(s, history).0.reverted <= before.0.reverted + SoleParent(Some(history[n]));
      PassRevertsOnlyParents(s, history[..n]);
      forall p | p in SoleParents(history[..n]) ensures p in SoleParents(history) {
        var k :| 0 <= k < n && p in SoleParent(Some(history[..n][k]));
        assert history[..n][k] == history[k];
      }
      assert SoleParent(Some(history[n])) <= SoleParents(history);
    }
  }

  /** The message a traversal gives commit `i` is the hook's answer in the
      state left by the commits before it. */
  lemma {:induction false} PassMessageAt(s: MarkerState, history: seq<Visit>, i: nat)
    requires HistoryWellFormed(history) && i < |history|
    ensures Pass(s, history).1[i]
         == MarkStep(Pass(s, history[..i]).0, history[i].commit.fullMessage, Some(history[i])).1
    decreases |history|
  {
    var n := |history| - 1;
    PassLast(s, history);
    var before := Pass(s, history[..n]);
    var last := MarkStep(before.0, history[n].commit.fullMessage, Some(history[n]));
    if i < n {
      PassMessageAt(s, history[..n], i);
      assert history[..n][..i] == history[..i];
      assert (before.1 + [last.1])[i] == before.1[i];
    } else {
      assert history[..n] == history[..i];
    }
  }

  /** A commit found to be reverted during the first traversal is
      annotated "Reverted" in the second, whatever else holds of it. */
  lemma SecondPassAnnotatesReverted(s: MarkerState, history: seq<Visit>, i: nat)
    requires HistoryWellFormed(history) && i < |history|
    requires history[i].commit.id in Pass(s, history).0.reverted
    ensures TwoPasses(s, history).1[i] == Annotate(history[i].commit.fullMessage, false)
  {
    var s1 := Pass(s, history).0;
    PassMessageAt(s1, history, i);
    PassRevertedGrows(s1, history, i);
  }

  /** A history [..., X, ..., Y] where Y has X as sole parent and a message
      from the revert template naming X, and no commit has Y as a parent:
      after `rewriteCommits` from a fresh marker, X carries the "Reverted"
      trailer and Y the "Reverting" one. */
  lemma RevertPairIsMarked(history: seq<Visit>, x: nat, y: nat)
    requires HistoryWellFormed(history) && x < |history| && y < |history|
    requires history[y].commit.parents == [history[x].commit.id]
    requires RevertedId(history[y].commit.fullMessage) == Some(history[x].commit.id)
    requires forall k :: 0 <= k < |history| ==> history[y].commit.id !in history[k].commit.parents
    ensures TwoPasses(MarkerState(EmptyVector, {}), history).1[x]
         == Annotate(history[x].commit.fullMessage, false)
    ensures TwoPasses(MarkerState(EmptyVector, {}), history).1[y]
         == Annotate(history[y].commit.fullMessage, true)
  {
    var s0 := MarkerState(EmptyVector, {});
    var Y := history[y].commit;
    var X := history[x].commit;
    assert Y.id !in SoleParents(history);
    assert Y.id !in SoleParents(history[..y]);
    PassRevertsOnlyParents(s0, history);
    // First traversal: Y is not reverted when reached, and its message names X.
    PassRevertsOnlyParents(s0, history[..y]);
    PassRevertedGrows(s0, history, y + 1);
    var sy := Pass(s0, history[..y]).0;
    assert Y.id !in sy.reverted;
    assert history[..y + 1][..y] == history[..y];
    assert X.id in Pass(s0, history[..y + 1]).0.reverted;
    var s1 := Pass(s0, history).0;
    assert X.id in s1.reverted;
    SecondPassAnnotatesReverted(s0, history, x);
    // Second traversal: Y is still not reverted when reached.
    PassRevertsOnlyParents(s1, history[..y]);
    PassMessageAt(s1, history, y);
  }

  /** The branches of the hook in the order the source tests them: a
      commit already known as reverted is annotated before anything else
      and changes nothing; a root or merge commit keeps its message and
      changes nothing; a template match records the parent and leaves the
      previous vector alone; any other commit with one parent leaves its
      own vector as the previous one, and is annotated "Reverting" with its
      parent recorded when that vector reverts the previous one, or keeps
      its message and the reverted set otherwise. */
  lemma MarkStepCases(s: MarkerState, message: string, v: Visit)
    requires DiffsWellFormed(v.diffs)
    ensures v.commit.id in s.reverted ==> MarkStep(s, message, Some(v)) == (s, Annotate(message, false))
    ensures (v.commit.id !in s.reverted && |v.commit.parents| != 1 ==> MarkStep(s, message, Some(v)) == (s, message))
    ensures (v.commit.id !in s.reverted && |v.commit.parents| == 1 && RevertedId(message) == Some(v.commit.parents[0])
             ==> MarkStep(s, message, Some(v)) == (s.(reverted := s.reverted + {v.commit.parents[0]}), Annotate(message, true)))
    ensures (v.commit.id !in s.reverted && |v.commit.parents| == 1 && RevertedId(message) != Some(v.commit.parents[0])
             && MarkerReverts(MarkerVector(v.diffs), s.previous)
             ==> MarkStep(s, message, Some(v))
                 == (MarkerState(MarkerVector(v.diffs), s.reverted + {v.commit.parents[0]}), Annotate(message, true)))
    ensures (v.commit.id !in s.reverted && |v.commit.parents| == 1 && RevertedId(message) != Some(v.commit.parents[0])
             && !MarkerReverts(MarkerVector(v.diffs), s.previous)
             ==> MarkStep(s, message, Some(v)) == (s.(previous := MarkerVector(v.diffs)), message))
  {
  }

  /** A commit A with a non-empty Java change, then its child B whose diff
      is exactly the inverse of A's: unless A's own message names A's parent
      through the template, which leaves the previous vector as it was, B is
      annotated "Reverting" and A is recorded as reverted, whatever B's
      message says. */
  lemma ConsecutiveUndoIsMarked(s: MarkerState, a: Visit, b: Visit)
    requires DiffsWellFormed(a.diffs) && ModifyKeepsPath(a.diffs) && NoJavaCopy(a.diffs)
    requires MarkerVector(a.diffs).IsNotEmpty()
    requires b.diffs == Inverse(a.diffs)
    requires |a.commit.parents| == 1 && b.commit.parents == [a.commit.id]
    requires a.commit.id !in s.reverted && b.commit.id !in s.reverted && b.commit.id != a.commit.parents[0]
    requires RevertedId(a.commit.fullMessage) != Some(a.commit.parents[0])
    ensures DiffsWellFormed(b.diffs)
    ensures var s1 := MarkStep(s, a.commit.fullMessage, Some(a)).0;
            var (s2, m) := MarkStep(s1, b.commit.fullMessage, Some(b));
            a.commit.id in s2.reverted && m == Annotate(b.commit.fullMessage, true)
  {
    MarkerVectorOfInverse(a.diffs);
    var v := MarkerVector(a.diffs);
    var s1 := MarkStep(s, a.commit.fullMessage, Some(a)).0;
    assert s1.previous == v;
    RevertsEmptyAndReversed(v);
    RevertsIsSymmetric(v, v.Reversed());
    MarkerRevertsIsReverts(v.Reversed(), v);
  }
}
