/**
 * The directory lister of ilastikss/io.py: the files of a directory whose
 * names end with a given suffix, sorted. The file system enters as two
 * inputs: whether the path is a directory, and the names `os.listdir`
 * returns for it.
 */
module Io {
  import opened Wrappers
  import opened Strings

  /** The names of `listing` that end with `ext`, in listing order. */
  function KeepEndingWith(listing: seq<string>, ext: string): (r: seq<string>)
    ensures |r| <= |listing|
    ensures forall n :: n in r ==> EndsWith(n, ext)
    ensures forall n :: multiset(r)[n] == if EndsWith(n, ext) then multiset(listing)[n] else 0
  {
    if |listing| == 0 then []
    else
      var last := listing[|listing| - 1];
      assert listing == listing[..|listing| - 1] + [last];
      KeepEndingWith(listing[..|listing| - 1], ext) + (if EndsWith(last, ext) then [last] else [])
  }

  /**
   * `get_files_with_extension_from_dir(in_dir, ext)`: an empty suffix gives
   * the empty list before the directory is looked at; a path that is not a
   * directory gives `None`; otherwise the matching names, sorted.
   */
  function FilesWithExtension(isDir: bool, ext: string, listing: seq<string>): (r: Option<seq<string>>)
    ensures |ext| == 0 ==> r == Some([])
    ensures |ext| > 0 && !isDir ==> r == None
    ensures |ext| > 0 && isDir ==> r.Some?
    ensures r.Some? ==> Sorted(r.value) && |r.value| <= |listing|
    ensures r.Some? && |ext| > 0 ==>
      forall n :: multiset(r.value)[n] == if EndsWith(n, ext) then multiset(listing)[n] else 0
  {
    if |ext| == 0 then Some([])
    else if !isDir then None
    else Some(Sort(KeepEndingWith(listing, ext)))
  }

  /** A name is returned exactly when it is listed and ends with the suffix. */
  lemma FilesWithExtensionMembership(isDir: bool, ext: string, listing: seq<string>, n: string)
    requires |ext| > 0 && isDir
    ensures n in FilesWithExtension(isDir, ext, listing).value <==> n in listing && EndsWith(n, ext)
  {
    var r := FilesWithExtension(isDir, ext, listing).value;
    assert n in r <==> multiset(r)[n] > 0;
    assert n in listing <==> multiset(listing)[n] > 0;
  }

  /** The result is the only sorted arrangement of the matching names. */
  lemma {:induction false} FilesWithExtensionIsTheSortedMatches(isDir: bool, ext: string, listing: seq<string>, other: seq<string>)
    requires |ext| > 0 && isDir
    requires Sorted(other) && multiset(other) == multiset(KeepEndingWith(listing, ext))
    ensures FilesWithExtension(isDir, ext, listing) == Some(other)
  {
    SortedPermutationUnique(Sort(KeepEndingWith(listing, ext)), other);
  }
}
