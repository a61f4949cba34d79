/** The content identifier the plugin stores and looks up for an image: the
    platform filename up to its first dot, i.e. `filename.split(".")[0]`. */
module ContentId {

  /** `filename.split(".")[0]`: the longest prefix of `filename` without a dot. */
  function FileUnique(filename: string): (id: string)
    ensures '.' !in id
    ensures id <= filename
    ensures |id| < |filename| ==> filename[|id|] == '.'
  {
    if filename == [] || filename[0] == '.' then []
    else [filename[0]] + FileUnique(filename[1..])
  }

  /** A filename without a dot is its own identifier; one with a dot loses
      everything from its first dot on. */
  lemma WholeNameIffNoDot(filename: string)
    ensures FileUnique(filename) == filename <==> '.' !in filename
  {
  }

  /** Two filenames that agree up to and including a first dot, or entirely,
      give the same identifier: the extension never matters. */
  lemma {:induction false} ExtensionIgnored(stem: string, ext1: string, ext2: string)
    requires '.' !in stem
    ensures FileUnique(stem + "." + ext1) == stem == FileUnique(stem + "." + ext2)
  {
    if stem != [] {
      assert (stem + "." + ext1)[1..] == stem[1..] + "." + ext1;
      assert (stem + "." + ext2)[1..] == stem[1..] + "." + ext2;
      assert stem[0] in stem;
      ExtensionIgnored(stem[1..], ext1, ext2);
    }
  }
}
