/**
 * `target_im_size_from_dir` (ilastikss/munge.py): which reference image is
 * read to obtain the target shape. A directory is probed through its first
 * `tif` entry in sorted order; any other path is read directly.
 */
module TargetProbe {
  import opened Wrappers
  import opened Strings
  import opened Paths
  import Io

  /** The suffix the probe lists a directory with. */
  const ReferenceExt: string := "tif"

  /** The first entry of the sorted listing of names ending with `ext`: the least such name. */
  function FirstWithExtension(listing: seq<string>, ext: string): (r: Option<string>)
    requires |ext| > 0
    ensures r.None? <==> forall n :: n in listing ==> !EndsWith(n, ext)
    ensures r.Some? ==> r.value in listing && EndsWith(r.value, ext)
    ensures r.Some? ==> forall n :: n in listing && EndsWith(n, ext) ==> Le(r.value, n)
  {
    var names := Io.FilesWithExtension(true, ext, listing).value;
    if |names| == 0 then
      assert forall n :: n in listing ==> !EndsWith(n, ext) by {
        forall n | n in listing
          ensures !EndsWith(n, ext)
        {
          Io.FilesWithExtensionMembership(true, ext, listing, n);
        }
      }
      None
    else
      Io.FilesWithExtensionMembership(true, ext, listing, names[0]);
      assert forall n :: n in listing && EndsWith(n, ext) ==> Le(names[0], n) by {
        forall n | n in listing && EndsWith(n, ext)
          ensures Le(names[0], n)
        {
          Io.FilesWithExtensionMembership(true, ext, listing, n);
          SortedHeadIsLeast(names, n);
        }
      }
      Some(names[0])
  }

  /**
   * The path of the image whose shape becomes the target shape; `None` when
   * a directory holds no `tif` entry (`t_im[0]` on an empty list raises
   * `IndexError`).
   */
  function ReferenceImagePath(path: string, isDir: bool, listing: seq<string>): (r: Option<string>)
    ensures !isDir ==> r == Some(path)
    ensures isDir ==> (r.None? <==> forall n :: n in listing ==> !EndsWith(n, ReferenceExt))
    ensures isDir && r.Some? ==>
      FirstWithExtension(listing, ReferenceExt).Some? &&
      r.value == Join(path, FirstWithExtension(listing, ReferenceExt).value)
  {
    if !isDir then Some(path)
    else
      match FirstWithExtension(listing, ReferenceExt)
      case None => None
      case Some(name) => Some(Join(path, name))
  }
}
