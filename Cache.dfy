/**
 * The readiness probe of the reader cache. An extracted EPUB rendition is
 * ready when its OCF container file `META-INF/container.xml` (EPUB 3.3,
 * section 4.2.6.3.1) is a regular file under the rendition's directory.
 */
module Cache {
  import opened Text
  import opened Paths
  import opened Host

  const ReaderCheckerFile: string := "META-INF/container.xml"

  /** The marker path probed for a rendition directory. */
  function CheckerPath(readerPath: string): string {
    Push(readerPath, ReaderCheckerFile)
  }

  /** `check_cache_availability`: the marker exists and is a regular file. */
  predicate CheckCacheAvailability(fs: FileSystem, readerPath: string) {
    var marker := CheckerPath(readerPath);
    marker in fs && fs[marker].File?
  }

  /**
   * The marker lies inside the directory: for a directory written without a
   * trailing separator it is the directory, a '/', and the marker's relative path.
   */
  lemma CheckerPathInside(readerPath: string)
    ensures StartsWith(CheckerPath(readerPath), readerPath)
    ensures EndsWith(CheckerPath(readerPath), ReaderCheckerFile)
    ensures readerPath != [] && readerPath[|readerPath| - 1] != '/' ==>
              CheckerPath(readerPath) == readerPath + "/" + ReaderCheckerFile
  {
    PushRelative(readerPath, ReaderCheckerFile);
  }

  /** Only the entry at the marker path decides readiness. */
  lemma ReadinessDependsOnMarkerOnly(fs1: FileSystem, fs2: FileSystem, readerPath: string)
    requires var m := CheckerPath(readerPath); (m in fs1 <==> m in fs2) && (m in fs1 ==> fs1[m] == fs2[m])
    ensures CheckCacheAvailability(fs1, readerPath) == CheckCacheAvailability(fs2, readerPath)
  {
  }

  /** A rendition holding everything except the marker is not ready. */
  lemma MissingMarkerNotReady(fs: FileSystem, readerPath: string)
    ensures !CheckCacheAvailability(fs - {CheckerPath(readerPath)}, readerPath)
  {
  }

  /** A directory where the marker should be does not count. */
  lemma DirectoryMarkerNotReady(fs: FileSystem, readerPath: string)
    ensures !CheckCacheAvailability(fs[CheckerPath(readerPath) := Directory], readerPath)
  {
  }

  /**
   * Two rendition directories written without trailing separators have
   * different markers, so writing one marker never makes another directory ready.
   */
  lemma MarkersDistinct(fs: FileSystem, d1: string, d2: string, data: seq<byte>)
    requires d1 != d2
    requires d1 != [] && d1[|d1| - 1] != '/' && d2 != [] && d2[|d2| - 1] != '/'
    ensures CheckerPath(d1) != CheckerPath(d2)
    ensures CheckCacheAvailability(fs[CheckerPath(d1) := File(data)], d2) == CheckCacheAvailability(fs, d2)
  {
    CheckerPathInside(d1);
    CheckerPathInside(d2);
    assert CheckerPath(d1)[..|d1|] == d1 && CheckerPath(d2)[..|d2|] == d2;
  }
}
