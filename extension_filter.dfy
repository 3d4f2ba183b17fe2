/** filter/normalizer/ExtensionFilter.kt: keeps the files whose lower-cased
    name ends in one of the configured extensions and drops the rest. */
module Extensions {
  import opened Commits
  import opened KotlinText

  /** What `rewriteBlob` returns: the engine's default rewrite of the blob,
      or ZERO, which removes the entry from its tree. */
  datatype BlobAction = Delegate | Zero

  /** `fileName` ends with "." followed by one of `extensions`: `any`. */
  function AnyExtensionMatches(fileName: string, extensions: seq<string>): (b: bool)
    ensures b <==> exists i :: 0 <= i < |extensions| && EndsWith(fileName, "." + extensions[i])
  {
    if extensions == [] then false
    else EndsWith(fileName, "." + extensions[0]) || AnyExtensionMatches(fileName, extensions[1..])
  }

  /** The filter with its command-line extensions, given without the dot. */
  datatype ExtensionFilter = ExtensionFilter(extensions: seq<string>)
  {
    predicate TestFileName(fileName: string)
    {
      AnyExtensionMatches(fileName, extensions)
    }

    /** `entryName` is the name of the tree entry in the context, `None`
        when there is no entry. The name is lower-cased before the test,
        the extensions are not. */
    function RewriteBlob(entryName: Option<string>): (r: BlobAction)
      ensures r == Delegate <==>
                entryName.Some? && (exists i :: 0 <= i < |extensions| && EndsWith(Lowercase(entryName.value), "." + extensions[i]))
    {
      if entryName.None? then Zero
      else if TestFileName(Lowercase(entryName.value)) then Delegate
      else Zero
    }
  }

  /** The expectations of the source's test for the extension "java". */
  lemma TestFileNameExamples()
    ensures !ExtensionFilter(["java"]).TestFileName("a.c")
    ensures !ExtensionFilter(["java"]).TestFileName("A.javascript")
    ensures !ExtensionFilter(["java"]).TestFileName("a.rjava")
    ensures ExtensionFilter(["java"]).TestFileName("A.java")
    ensures ExtensionFilter(["java"]).TestFileName("A.tmp.java")
  {
    assert "." + "java" == ".java";
    assert ["java"][1..] == [];
    assert "A.javascript"[|"A.javascript"| - 5..] == "cript";
    assert "a.rjava"[|"a.rjava"| - 5..] == "rjava";
    assert "A.java"[|"A.java"| - 5..] == ".java";
    assert "A.tmp.java"[|"A.tmp.java"| - 5..] == ".java";
  }

  lemma LowercaseIsIdempotent(s: string)
    ensures Lowercase(Lowercase(s)) == Lowercase(s)
  {
  }

  /** The decision ignores the case of the name: "A.JAVA" is kept exactly
      when "a.java" is. */
  lemma NameCaseIsIgnored(f: ExtensionFilter, name: string)
    ensures f.RewriteBlob(Some(name)) == f.RewriteBlob(Some(Lowercase(name)))
  {
    LowercaseIsIdempotent(name);
  }

  /** An extension holding an upper-case letter never keeps a file. */
  lemma UpperCaseExtensionNeverMatches(name: string, ext: string, j: nat)
    requires j < |ext| && 'A' <= ext[j] <= 'Z'
    ensures !EndsWith(Lowercase(name), "." + ext)
  {
    var l := Lowercase(name);
    var suffix := "." + ext;
    if |suffix| <= |l| {
      var k := |l| - |suffix| + 1 + j;
      assert suffix[1 + j] == ext[j];
      assert l[k] == LowerChar(name[k]);
      assert l[|l| - |suffix|..][1 + j] == l[k];
    }
  }

  /** A missing entry name drops the blob. */
  lemma MissingNameIsDropped(f: ExtensionFilter)
    ensures f.RewriteBlob(None) == Zero
  {
  }
}
