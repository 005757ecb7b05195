/** The descriptor and the archive must name the same payload files
    (src/binary_artifact.rs). */
module PayloadClosure {
  import opened Prelude

  const BINARY_DESCRIPTOR_PATH := ".zpkg-binary.json"

  datatype ClosureError = Unlisted | Missing | CountsDiffer

  /** Two inclusions and a count together decide that the descriptor lists every
      archive file but itself, exactly once. */
  method CheckClosure(regularFiles: set<string>, listed: seq<string>) returns (error: Option<ClosureError>)
    requires BINARY_DESCRIPTOR_PATH in regularFiles
    ensures error.None? <==>
              DuplicateFree(listed) && Elements(listed) == regularFiles - {".zpkg-binary.json"}
    ensures error == Some(Unlisted) <==> !(regularFiles - {".zpkg-binary.json"} <= Elements(listed))
    ensures error == Some(Missing) <==>
              regularFiles - {".zpkg-binary.json"} <= Elements(listed) && !(Elements(listed) <= regularFiles)
  {
    var descriptorPaths := Elements(listed);
    var rest := regularFiles;
    while rest != {}
      invariant rest <= regularFiles
      invariant forall f :: f in regularFiles - rest && f != BINARY_DESCRIPTOR_PATH ==> f in descriptorPaths
      decreases |rest|
    {
      var archiveFile :| archiveFile in rest;
      rest := rest - {archiveFile};
      if archiveFile != BINARY_DESCRIPTOR_PATH && archiveFile !in descriptorPaths {
        return Some(Unlisted);
      }
    }
    var i := 0;
    while i < |listed|
      invariant 0 <= i <= |listed|
      invariant forall j :: 0 <= j < i ==> listed[j] in regularFiles
    {
      if listed[i] !in regularFiles {
        assert listed[i] in Elements(listed);
        return Some(Missing);
      }
      i := i + 1;
    }
    var payload := regularFiles - {BINARY_DESCRIPTOR_PATH};
    ElementCount(listed);
    assert |payload| == |regularFiles| - 1;
    if |listed| + 1 != |regularFiles| {
      return Some(CountsDiffer);
    }
    SubsetSize(payload, Elements(listed));
    return None;
  }
}
