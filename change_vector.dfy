/** util/ChangeVector.kt: the fingerprint of the change between two trees,
    as four sets of strings, with its small algebra (emptiness, reversal,
    "reverts") and `fromTrees`, which folds the change records of a tree
    diff into the four sets. */
module ChangeVectors {
  import opened KotlinText

  /** Added and deleted file paths, added and deleted "path:line" codes.
      Two vectors are equal exactly when the four sets are. */
  datatype ChangeVector = ChangeVector(
    addedFiles: set<string>,
    deletedFiles: set<string>,
    addedCodes: set<string>,
    deletedCodes: set<string>)
  {
    /** `equals`: an identical object, or the same four sets. */
    predicate Equals(other: ChangeVector)
    {
      && addedFiles == other.addedFiles
      && deletedFiles == other.deletedFiles
      && addedCodes == other.addedCodes
      && deletedCodes == other.deletedCodes
    }

    predicate IsEmpty()
    {
      addedFiles == {} && deletedFiles == {} && addedCodes == {} && deletedCodes == {}
    }

    predicate IsNotEmpty()
    {
      !IsEmpty()
    }

    /** Added and deleted swapped in both dimensions. The source hands the
        very same set objects to the new vector, so its result aliases the
        receiver; with value sets nothing can observe the sharing. */
    function Reversed(): ChangeVector
    {
      ChangeVector(deletedFiles, addedFiles, deletedCodes, addedCodes)
    }

    /** This vector undoes `other` exactly, except that two empty vectors do
        not count as reverting each other. */
    predicate Reverts(other: ChangeVector)
    {
      && !(IsEmpty() && other.IsEmpty())
      && addedFiles == other.deletedFiles
      && deletedFiles == other.addedFiles
      && addedCodes == other.deletedCodes
      && deletedCodes == other.addedCodes
    }
  }

  /** The vector `ChangeVector()` starts from. */
  const EmptyVector := ChangeVector({}, {}, {}, {})

  /** Component-wise union: what `add`/`addAll` into the four sets build. */
  function Union(a: ChangeVector, b: ChangeVector): ChangeVector
  {
    ChangeVector(a.addedFiles + b.addedFiles, a.deletedFiles + b.deletedFiles,
                 a.addedCodes + b.addedCodes, a.deletedCodes + b.deletedCodes)
  }

  // ---------------------------------------------------------------------
  // The algebra

  lemma ReversedIsInvolution(v: ChangeVector)
    ensures v.Reversed().Reversed() == v
  {
  }

  lemma EqualsIsValueEquality(a: ChangeVector, b: ChangeVector)
    ensures a.Equals(b) <==> a == b
    ensures a.IsNotEmpty() <==> !a.IsEmpty()
  {
  }

  /** `a` reverts `b` exactly when `a` is `b` reversed and not empty. */
  lemma RevertsIsReversedAndNotEmpty(a: ChangeVector, b: ChangeVector)
    ensures a.Reverts(b) <==> a == b.Reversed() && a.IsNotEmpty()
  {
  }

  lemma RevertsIsSymmetric(a: ChangeVector, b: ChangeVector)
    ensures a.Reverts(b) == b.Reverts(a)
  {
  }

  /** No vector reverts the empty vector, and every non-empty vector
      reverts its own reversal. */
  lemma RevertsEmptyAndReversed(v: ChangeVector)
    ensures !v.Reverts(EmptyVector)
    ensures v.IsNotEmpty() ==> v.Reverts(v.Reversed())
  {
  }

  lemma ReversedOfUnion(a: ChangeVector, b: ChangeVector)
    ensures Union(a, b).Reversed() == Union(a.Reversed(), b.Reversed())
  {
  }

  // ---------------------------------------------------------------------
  // hashCode, on Kotlin's 32-bit Int

  /** Two's-complement wrap-around of a Kotlin `Int`. */
  function Wrap32(x: int): (r: int)
    ensures -0x8000_0000 <= r < 0x8000_0000
    ensures (x - r) % 0x1_0000_0000 == 0
  {
    var m := x % 0x1_0000_0000;
    if m >= 0x8000_0000 then m - 0x1_0000_0000 else m
  }

  /** `String.hashCode`: h = 31 * h + c over the characters, wrapping. */
  function StringHash(s: string): (h: int)
    ensures -0x8000_0000 <= h < 0x8000_0000
  {
    if s == [] then 0 else Wrap32(31 * StringHash(s[..|s| - 1]) + s[|s| - 1] as int)
  }

  /** `Set.hashCode`: the wrapping sum of the element hashes, in whatever
      order the set yields them (the sum does not depend on it). */
  ghost function SetHash(s: set<string>): (h: int)
    ensures -0x8000_0000 <= h < 0x8000_0000
  {
    if s == {} then 0 else var x :| x in s; Wrap32(StringHash(x) + SetHash(s - {x}))
  }

  /** The generated `hashCode`, built from the four sets alone. */
  ghost function HashCode(v: ChangeVector): (h: int)
    ensures -0x8000_0000 <= h < 0x8000_0000
  {
    var r0 := SetHash(v.addedFiles);
    var r1 := Wrap32(31 * r0 + SetHash(v.deletedFiles));
    var r2 := Wrap32(31 * r1 + SetHash(v.addedCodes));
    Wrap32(31 * r2 + SetHash(v.deletedCodes))
  }

  lemma EqualVectorsHashEqually(a: ChangeVector, b: ChangeVector)
    requires a.Equals(b)
    ensures HashCode(a) == HashCode(b)
  {
  }

  // ---------------------------------------------------------------------
  // Change records of a tree diff, as the external differ delivers them

  datatype ChangeType = AddFile | CopyFile | DeleteFile | RenameFile | ModifyFile

  datatype EditType = InsertEdit | DeleteEdit | ReplaceEdit | EmptyEdit

  /** A line edit: lines [beginA, endA) of the old text against lines
      [beginB, endB) of the new one. */
  datatype Edit = Edit(kind: EditType, beginA: nat, endA: nat, beginB: nat, endB: nat)

  /** A change record. For a modification, `oldLines`/`newLines` are the
      two blobs split into lines and `edits` is their line-level edit list. */
  datatype DiffEntry = DiffEntry(
    change: ChangeType,
    oldPath: string,
    newPath: string,
    oldLines: seq<string>,
    newLines: seq<string>,
    edits: seq<Edit>)

  /** The path the differ uses for the missing side of an added or deleted file. */
  const DevNull := "/dev/null"

  /** The differ's guarantee that the edit ranges lie inside the texts. */
  predicate EditInBounds(d: DiffEntry, e: Edit)
  {
    (e.beginA < e.endA ==> e.endA <= |d.oldLines|) && (e.beginB < e.endB ==> e.endB <= |d.newLines|)
  }

  predicate EditsInBounds(d: DiffEntry, edits: seq<Edit>)
  {
    forall j :: 0 <= j < |edits| ==> EditInBounds(d, edits[j])
  }

  predicate DiffsWellFormed(diffs: seq<DiffEntry>)
  {
    forall k :: 0 <= k < |diffs| ==> EditsInBounds(diffs[k], diffs[k].edits)
  }

  /** The codes "path:line" of lines lo until hi. */
  function Codes(path: string, lines: seq<string>, lo: nat, hi: nat): set<string>
    requires lo < hi ==> hi <= |lines|
  {
    set i | lo <= i < hi :: path + ":" + lines[i]
  }

  // ---------------------------------------------------------------------
  // fromTrees

  /** What one edit of a modified file adds: inserted lines under the new
      path, deleted lines under the old path, both for a replacement. */
  function EditVector(d: DiffEntry, e: Edit): ChangeVector
    requires EditInBounds(d, e)
  {
    match e.kind
    case InsertEdit => ChangeVector({}, {}, Codes(d.newPath, d.newLines, e.beginB, e.endB), {})
    case DeleteEdit => ChangeVector({}, {}, {}, Codes(d.oldPath, d.oldLines, e.beginA, e.endA))
    case ReplaceEdit =>
      ChangeVector({}, {}, Codes(d.newPath, d.newLines, e.beginB, e.endB), Codes(d.oldPath, d.oldLines, e.beginA, e.endA))
    case EmptyEdit => EmptyVector
  }

  function EditsVector(d: DiffEntry, edits: seq<Edit>): ChangeVector
    requires EditsInBounds(d, edits)
  {
    if edits == [] then EmptyVector
    else Union(EditsVector(d, edits[..|edits| - 1]), EditVector(d, edits[|edits| - 1]))
  }

  /** What one change record adds to the vector. */
  function EntryVector(d: DiffEntry): ChangeVector
    requires EditsInBounds(d, d.edits)
  {
    match d.change
    case AddFile => ChangeVector({d.newPath}, {}, {}, {})
    case CopyFile => ChangeVector({d.newPath}, {}, {}, {})
    case DeleteFile => ChangeVector({}, {d.oldPath}, {}, {})
    case RenameFile => ChangeVector({d.newPath}, {d.oldPath}, {}, {})
    case ModifyFile => EditsVector(d, d.edits)
  }

  /** The vector `fromTrees` builds: the union of every record's share. */
  function Fingerprint(diffs: seq<DiffEntry>): ChangeVector
    requires DiffsWellFormed(diffs)
  {
    if diffs == [] then EmptyVector
    else Union(Fingerprint(diffs[..|diffs| - 1]), EntryVector(diffs[|diffs| - 1]))
  }

  lemma UnionIsAssociative(a: ChangeVector, b: ChangeVector, c: ChangeVector)
    ensures Union(Union(a, b), c) == Union(a, Union(b, c))
  {
  }

  /** `fromTrees`: starts from an empty vector and adds every record's
      paths and codes into the sets, record by record and edit by edit. */
  method FromTrees(diffs: seq<DiffEntry>) returns (cv: ChangeVector)
    requires DiffsWellFormed(diffs)
    ensures cv == Fingerprint(diffs)
  {
    cv := EmptyVector;
    var k := 0;
    while k < |diffs|
      invariant 0 <= k <= |diffs|
      invariant cv == Fingerprint(diffs[..k])
    {
      var d := diffs[k];
      assert EditsInBounds(d, d.edits);
      ghost var before := cv;
      match d.change {
        case AddFile =>
          cv := cv.(addedFiles := cv.addedFiles + {d.newPath});
        case CopyFile =>
          cv := cv.(addedFiles := cv.addedFiles + {d.newPath});
        case DeleteFile =>
          cv := cv.(deletedFiles := cv.deletedFiles + {d.oldPath});
        case RenameFile =>
          cv := cv.(deletedFiles := cv.deletedFiles + {d.oldPath});
          cv := cv.(addedFiles := cv.addedFiles + {d.newPath});
        case ModifyFile =>
          var j := 0;
          while j < |d.edits|
            invariant 0 <= j <= |d.edits|
            invariant cv == Union(before, EditsVector(d, d.edits[..j]))
          {
            var e := d.edits[j];
            cv := AddEdit(cv, d, e);
            assert d.edits[..j + 1][..j] == d.edits[..j];
            UnionIsAssociative(before, EditsVector(d, d.edits[..j]), EditVector(d, e));
            j := j + 1;
          }
          assert d.edits[..j] == d.edits;
      }
      assert cv == Union(before, EntryVector(d));
      assert diffs[..k + 1][..k] == diffs[..k];
      k := k + 1;
    }
    assert diffs[..k] == diffs;
  }

  /** One edit of a modified file, added into the vector. */
  method AddEdit(cv: ChangeVector, d: DiffEntry, e: Edit) returns (cv': ChangeVector)
    requires EditInBounds(d, e)
    ensures cv' == Union(cv, EditVector(d, e))
  {
    cv' := cv;
    match e.kind {
      case InsertEdit =>
        cv' := cv'.(addedCodes := cv'.addedCodes + Codes(d.newPath, d.newLines, e.beginB, e.endB));
      case DeleteEdit =>
        cv' := cv'.(deletedCodes := cv'.deletedCodes + Codes(d.oldPath, d.oldLines, e.beginA, e.endA));
      case ReplaceEdit =>
        cv' := cv'.(deletedCodes := cv'.deletedCodes + Codes(d.oldPath, d.oldLines, e.beginA, e.endA));
        cv' := cv'.(addedCodes := cv'.addedCodes + Codes(d.newPath, d.newLines, e.beginB, e.endB));
      case EmptyEdit =>
    }
  }

  // ---------------------------------------------------------------------
  // What the fingerprint holds, record by record

  predicate AddsFile(d: DiffEntry, p: string)
  {
    (d.change.AddFile? || d.change.CopyFile? || d.change.RenameFile?) && d.newPath == p
  }

  predicate DeletesFile(d: DiffEntry, p: string)
  {
    (d.change.DeleteFile? || d.change.RenameFile?) && d.oldPath == p
  }

  /** An inserting or replacing edit brings in some new line `i`, recorded
      as code `x` under the new path. */
  ghost predicate EditAddsCode(d: DiffEntry, e: Edit, x: string)
  {
    && (e.kind.InsertEdit? || e.kind.ReplaceEdit?)
    && exists i :: e.beginB <= i < e.endB && i < |d.newLines| && x == d.newPath + ":" + d.newLines[i]
  }

  /** A deleting or replacing edit removes some old line `i`, recorded as
      code `x` under the old path. */
  ghost predicate EditDeletesCode(d: DiffEntry, e: Edit, x: string)
  {
    && (e.kind.DeleteEdit? || e.kind.ReplaceEdit?)
    && exists i :: e.beginA <= i < e.endA && i < |d.oldLines| && x == d.oldPath + ":" + d.oldLines[i]
  }

  ghost predicate AddsCode(d: DiffEntry, x: string)
  {
    d.change.ModifyFile? && exists j :: 0 <= j < |d.edits| && EditAddsCode(d, d.edits[j], x)
  }

  ghost predicate DeletesCode(d: DiffEntry, x: string)
  {
    d.change.ModifyFile? && exists j :: 0 <= j < |d.edits| && EditDeletesCode(d, d.edits[j], x)
  }

  lemma EditVectorMembers(d: DiffEntry, e: Edit, x: string)
    requires EditInBounds(d, e)
    ensures EditVector(d, e).addedFiles == {} && EditVector(d, e).deletedFiles == {}
    ensures x in EditVector(d, e).addedCodes <==> EditAddsCode(d, e, x)
    ensures x in EditVector(d, e).deletedCodes <==> EditDeletesCode(d, e, x)
  {
  }

  lemma {:induction false} EditsVectorMembers(d: DiffEntry, n: nat, x: string)
    requires EditsInBounds(d, d.edits) && n <= |d.edits|
    ensures EditsVector(d, d.edits[..n]).addedFiles == {} && EditsVector(d, d.edits[..n]).deletedFiles == {}
    ensures x in EditsVector(d, d.edits[..n]).addedCodes <==> exists j :: 0 <= j < n && EditAddsCode(d, d.edits[j], x)
    ensures x in EditsVector(d, d.edits[..n]).deletedCodes <==> exists j :: 0 <= j < n && EditDeletesCode(d, d.edits[j], x)
  {
    if n > 0 {
      EditsVectorMembers(d, n - 1, x);
      assert d.edits[..n][..n - 1] == d.edits[..n - 1];
      EditVectorMembers(d, d.edits[n - 1], x);
    }
  }

  /** What one record contributes: add and copy records only their new
      path, delete records only their old path, renames both paths and no
      codes, modifications only the codes of their edits. */
  lemma EntryVectorMembers(d: DiffEntry, p: string)
    requires EditsInBounds(d, d.edits)
    ensures p in EntryVector(d).addedFiles <==> AddsFile(d, p)
    ensures p in EntryVector(d).deletedFiles <==> DeletesFile(d, p)
    ensures p in EntryVector(d).addedCodes <==> AddsCode(d, p)
    ensures p in EntryVector(d).deletedCodes <==> DeletesCode(d, p)
  {
    EditsVectorMembers(d, |d.edits|, p);
    assert d.edits[..|d.edits|] == d.edits;
  }

  /** One of the four sets of a vector. */
  datatype Part = AddedFiles | DeletedFiles | AddedCodes | DeletedCodes

  function Select(v: ChangeVector, part: Part): set<string>
  {
    match part
    case AddedFiles => v.addedFiles
    case DeletedFiles => v.deletedFiles
    case AddedCodes => v.addedCodes
    case DeletedCodes => v.deletedCodes
  }

  /** Record `d` contributes `x` to the given set. */
  ghost predicate Contributes(d: DiffEntry, part: Part, x: string)
  {
    match part
    case AddedFiles => AddsFile(d, x)
    case DeletedFiles => DeletesFile(d, x)
    case AddedCodes => AddsCode(d, x)
    case DeletedCodes => DeletesCode(d, x)
  }

  lemma {:induction false} FingerprintPartMembers(diffs: seq<DiffEntry>, part: Part, x: string)
    requires DiffsWellFormed(diffs)
    ensures x in Select(Fingerprint(diffs), part) <==> exists k :: 0 <= k < |diffs| && Contributes(diffs[k], part, x)
  {
    if diffs != [] {
      var n := |diffs| - 1;
      FingerprintPartMembers(diffs[..n], part, x);
      EntryVectorMembers(diffs[n], x);
      assert x in Select(EntryVector(diffs[n]), part) <==> Contributes(diffs[n], part, x);
      forall k | 0 <= k < n ensures diffs[..n][k] == diffs[k] { }
    }
  }

  /** The fingerprint, stated declaratively: a path or code is in one of
      the four sets exactly when some record of the diff contributes it. */
  lemma FingerprintMembers(diffs: seq<DiffEntry>, x: string)
    requires DiffsWellFormed(diffs)
    ensures x in Fingerprint(diffs).addedFiles <==> exists k :: 0 <= k < |diffs| && AddsFile(diffs[k], x)
    ensures x in Fingerprint(diffs).deletedFiles <==> exists k :: 0 <= k < |diffs| && DeletesFile(diffs[k], x)
    ensures x in Fingerprint(diffs).addedCodes <==> exists k :: 0 <= k < |diffs| && AddsCode(diffs[k], x)
    ensures x in Fingerprint(diffs).deletedCodes <==> exists k :: 0 <= k < |diffs| && DeletesCode(diffs[k], x)
  {
    forall k | 0 <= k < |diffs|
      ensures Contributes(diffs[k], AddedFiles, x) == AddsFile(diffs[k], x)
      ensures Contributes(diffs[k], DeletedFiles, x) == DeletesFile(diffs[k], x)
      ensures Contributes(diffs[k], AddedCodes, x) == AddsCode(diffs[k], x)
      ensures Contributes(diffs[k], DeletedCodes, x) == DeletesCode(diffs[k], x)
    {
    }
    FingerprintPartMembers(diffs, AddedFiles, x);
    FingerprintPartMembers(diffs, DeletedFiles, x);
    FingerprintPartMembers(diffs, AddedCodes, x);
    FingerprintPartMembers(diffs, DeletedCodes, x);
  }

  // ---------------------------------------------------------------------
  // Undoing a diff reverses its fingerprint

  function InverseEdit(e: Edit): Edit
  {
    var kind := match e.kind
      case InsertEdit => DeleteEdit
      case DeleteEdit => InsertEdit
      case ReplaceEdit => ReplaceEdit
      case EmptyEdit => EmptyEdit;
    Edit(kind, e.beginB, e.endB, e.beginA, e.endA)
  }

  /** The record of the diff from the new tree back to the old one: paths,
      texts and edit sides swapped; an added or copied file is deleted
      again, a deleted file comes back. The copy's source still exists in
      the old tree, so the deletion of the copy names "/dev/null" as its
      new side, as for any deleted file. */
  function InverseEntry(d: DiffEntry): DiffEntry
  {
    var change := match d.change
      case AddFile => DeleteFile
      case CopyFile => DeleteFile
      case DeleteFile => AddFile
      case RenameFile => RenameFile
      case ModifyFile => ModifyFile;
    var newPath := if d.change.CopyFile? then DevNull else d.oldPath;
    DiffEntry(change, d.newPath, newPath, d.newLines, d.oldLines,
              seq(|d.edits|, j requires 0 <= j < |d.edits| => InverseEdit(d.edits[j])))
  }

  function Inverse(diffs: seq<DiffEntry>): (r: seq<DiffEntry>)
    ensures |r| == |diffs|
  {
    seq(|diffs|, k requires 0 <= k < |diffs| => InverseEntry(diffs[k]))
  }

  /** One inverted edit contributes the reversed share of the edit, except
      in a copy, whose undo names "/dev/null" as its new side. */
  lemma EditVectorOfInverse(d: DiffEntry, e: Edit)
    requires EditInBounds(d, e)
    ensures EditInBounds(InverseEntry(d), InverseEdit(e))
    ensures !d.change.CopyFile? ==> EditVector(InverseEntry(d), InverseEdit(e)) == EditVector(d, e).Reversed()
  {
  }

  lemma {:induction false} EditsVectorOfInverse(d: DiffEntry, n: nat)
    requires EditsInBounds(d, d.edits) && n <= |d.edits|
    ensures EditsInBounds(InverseEntry(d), InverseEntry(d).edits[..n])
    ensures (!d.change.CopyFile? ==>
               EditsVector(InverseEntry(d), InverseEntry(d).edits[..n]) == EditsVector(d, d.edits[..n]).Reversed())
  {
    var d' := InverseEntry(d);
    forall j | 0 <= j < n ensures EditInBounds(d', d'.edits[..n][j]) {
      assert d'.edits[..n][j] == InverseEdit(d.edits[j]);
      EditVectorOfInverse(d, d.edits[j]);
    }
    if n > 0 {
      EditsVectorOfInverse(d, n - 1);
      assert d'.edits[..n][..n - 1] == d'.edits[..n - 1];
      assert d.edits[..n][..n - 1] == d.edits[..n - 1];
      assert d'.edits[..n][n - 1] == InverseEdit(d.edits[n - 1]);
      EditVectorOfInverse(d, d.edits[n - 1]);
      ReversedOfUnion(EditsVector(d, d.edits[..n - 1]), EditVector(d, d.edits[n - 1]));
    }
  }

  lemma EntryVectorOfInverse(d: DiffEntry)
    requires EditsInBounds(d, d.edits)
    ensures EditsInBounds(InverseEntry(d), InverseEntry(d).edits)
    ensures EntryVector(InverseEntry(d)) == EntryVector(d).Reversed()
  {
    EditsVectorOfInverse(d, |d.edits|);
    assert InverseEntry(d).edits[..|d.edits|] == InverseEntry(d).edits;
    assert d.edits[..|d.edits|] == d.edits;
  }

  /** The diff that undoes `diffs` has the reversed fingerprint: this is
      why a commit that undoes its predecessor "reverts" it. */
  lemma {:induction false} FingerprintOfInverse(diffs: seq<DiffEntry>)
    requires DiffsWellFormed(diffs)
    ensures DiffsWellFormed(Inverse(diffs))
    ensures Fingerprint(Inverse(diffs)) == Fingerprint(diffs).Reversed()
  {
    forall k | 0 <= k < |diffs| ensures EditsInBounds(Inverse(diffs)[k], Inverse(diffs)[k].edits) {
      EntryVectorOfInverse(diffs[k]);
    }
    if diffs != [] {
      var n := |diffs| - 1;
      FingerprintOfInverse(diffs[..n]);
      assert Inverse(diffs)[..n] == Inverse(diffs[..n]);
      EntryVectorOfInverse(diffs[n]);
      ReversedOfUnion(Fingerprint(diffs[..n]), EntryVector(diffs[n]));
    }
  }
}
