/** The image cache: a fixed array of 256 entries filled from the front,
    searched by path before an image is loaded, and released at teardown. */
module Images {
  import opened Bytes

  /** The size of the `images` array. */
  const MAX_IMAGES := 256
  /** The size of the local `path` buffer of `find_or_load_image`. */
  const PATH_BUFFER := 512

  /** `Texture2D` as far as the cache looks at it: the id `LoadTexture`
      returned, or the uninitialised local of an image that was not found. */
  datatype Texture = Texture(id: nat) | Uninitialised

  /** `ImageInfo` */
  datatype ImageInfo = ImageInfo(path: seq<Byte>, pathSize: nat, loaded: bool, image: Texture)

  /** What `find_or_load_image` does: return an entry, or end the process
      (`exit(1)`) because the path is too long, the array is full or
      `strdup` failed. */
  datatype Lookup = Found(index: nat) | PathTooLong | TooManyImages | OutOfMemory

  /** The file system as the cache sees it: the paths `access` finds, each
      with the texture id `LoadTexture` gives for it. */
  type Files = map<seq<Byte>, nat>

  /** The NUL-terminated copy of the first `pathSize` bytes of the raw
      path, read as a C string, as `strcmp` and `strdup` read it. */
  function PathKey(raw: seq<Byte>, pathSize: nat): seq<Byte>
    requires pathSize <= |raw|
  {
    CString(raw[..pathSize])
  }

  /** The search loop: the first stored entry whose path equals `key`, or -1. */
  function Search(cached: seq<ImageInfo>, key: seq<Byte>, i: nat): (k: int)
    requires i <= |cached|
    ensures k == -1 || i <= k < |cached|
    ensures k == -1 ==> forall j :: i <= j < |cached| ==> cached[j].path != key
    ensures k != -1 ==> cached[k].path == key && forall j :: i <= j < k ==> cached[j].path != key
    decreases |cached| - i
  {
    if i == |cached| then -1 else if cached[i].path == key then i else Search(cached, key, i + 1)
  }

  /** The entry stored for a path seen for the first time. */
  function NewEntry(key: seq<Byte>, pathSize: nat, files: Files): ImageInfo
  {
    if key in files then ImageInfo(key, pathSize, true, Texture(files[key]))
    else ImageInfo(key, pathSize, false, Uninitialised)
  }

  /** `find_or_load_image` on the stored entries `cached`
      (`images[0..images_array_pointer]`): the answer and the entries
      afterwards. A fatal answer leaves the entries as they were. */
  function FindOrLoad(cached: seq<ImageInfo>, raw: seq<Byte>, pathSize: nat, files: Files, strdupOk: bool)
    : (res: (Lookup, seq<ImageInfo>))
    requires pathSize <= |raw| && |cached| <= MAX_IMAGES
    ensures res.0.Found? ==> res.0.index < |res.1| <= MAX_IMAGES
    ensures !res.0.Found? ==> res.1 == cached
  {
    if pathSize >= PATH_BUFFER then (PathTooLong, cached)
    else
      var key := PathKey(raw, pathSize);
      var k := Search(cached, key, 0);
      if k != -1 then (Found(k), cached)
      else if |cached| == MAX_IMAGES then (TooManyImages, cached)
      else if !strdupOk then (OutOfMemory, cached)
      else (Found(|cached|), cached + [NewEntry(key, pathSize, files)])
  }

  /** No path is stored twice. */
  ghost predicate DistinctPaths(cached: seq<ImageInfo>)
  {
    forall i, j :: 0 <= i < j < |cached| ==> cached[i].path != cached[j].path
  }

  /** A path already stored is answered with its entry and nothing changes. */
  lemma CacheHit(cached: seq<ImageInfo>, raw: seq<Byte>, pathSize: nat, files: Files, strdupOk: bool, i: nat)
    requires pathSize <= |raw| && |cached| <= MAX_IMAGES && pathSize < PATH_BUFFER
    requires DistinctPaths(cached) && i < |cached| && cached[i].path == PathKey(raw, pathSize)
    ensures FindOrLoad(cached, raw, pathSize, files, strdupOk) == (Found(i), cached)
  {
  }

  /** A new path is appended as one entry, loaded exactly when the file is
      there, and the earlier entries stay as they were. */
  lemma CacheMiss(cached: seq<ImageInfo>, raw: seq<Byte>, pathSize: nat, files: Files)
    requires pathSize <= |raw| && |cached| < MAX_IMAGES && pathSize < PATH_BUFFER
    requires forall j :: 0 <= j < |cached| ==> cached[j].path != PathKey(raw, pathSize)
    ensures var res := FindOrLoad(cached, raw, pathSize, files, true);
      res.0 == Found(|cached|) && res.1[..|cached|] == cached && |res.1| == |cached| + 1 &&
      res.1[|cached|].path == PathKey(raw, pathSize) && res.1[|cached|].pathSize == pathSize &&
      (res.1[|cached|].loaded <==> PathKey(raw, pathSize) in files)
  {
  }

  /** The fatal cases: a path of 512 bytes or more, a 257th image and a
      failed `strdup` end the process. */
  lemma FatalCases(cached: seq<ImageInfo>, raw: seq<Byte>, pathSize: nat, files: Files, strdupOk: bool)
    requires pathSize <= |raw| && |cached| <= MAX_IMAGES
    ensures var res := FindOrLoad(cached, raw, pathSize, files, strdupOk);
      (pathSize >= PATH_BUFFER ==> res.0 == PathTooLong) &&
      (pathSize < PATH_BUFFER && Search(cached, PathKey(raw, pathSize), 0) == -1 ==>
         (|cached| == MAX_IMAGES ==> res.0 == TooManyImages) &&
         (|cached| < MAX_IMAGES && !strdupOk ==> res.0 == OutOfMemory))
  {
  }

  /** The stored paths stay distinct. */
  lemma {:induction false} KeepsPathsDistinct(cached: seq<ImageInfo>, raw: seq<Byte>, pathSize: nat, files: Files, strdupOk: bool)
    requires pathSize <= |raw| && |cached| <= MAX_IMAGES && DistinctPaths(cached)
    ensures DistinctPaths(FindOrLoad(cached, raw, pathSize, files, strdupOk).1)
  {
    if pathSize < PATH_BUFFER {
      var key := PathKey(raw, pathSize);
      var k := Search(cached, key, 0);
      if k == -1 && |cached| < MAX_IMAGES && strdupOk {
        var next := cached + [NewEntry(key, pathSize, files)];
        assert forall j :: 0 <= j < |cached| ==> next[j] == cached[j];
        assert next[|cached|].path == key;
      }
    }
  }

  /** Asking again for a path just answered gives the same entry and
      changes nothing more. */
  lemma {:induction false} SecondLookupHits(cached: seq<ImageInfo>, raw: seq<Byte>, pathSize: nat, files: Files, ok1: bool, ok2: bool)
    requires pathSize <= |raw| && |cached| <= MAX_IMAGES && DistinctPaths(cached)
    requires FindOrLoad(cached, raw, pathSize, files, ok1).0.Found?
    ensures var first := FindOrLoad(cached, raw, pathSize, files, ok1);
      FindOrLoad(first.1, raw, pathSize, files, ok2) == first
  {
    var first := FindOrLoad(cached, raw, pathSize, files, ok1);
    KeepsPathsDistinct(cached, raw, pathSize, files, ok1);
    var key := PathKey(raw, pathSize);
    assert first.1[first.0.index].path == key;
    CacheHit(first.1, raw, pathSize, files, ok2, first.0.index);
  }

  /** The entries the as-written release loop visits: `i < pointer` stops
      one short of the last stored entry. */
  function VisitedByClean(pointer: int): (r: seq<nat>)
    ensures |r| == if pointer < 0 then 0 else pointer
    ensures forall k :: 0 <= k < |r| ==> r[k] == k
  {
    if pointer <= 0 then [] else VisitedByClean(pointer - 1) + [pointer - 1]
  }

  /** The entries a release loop running to `i <= pointer` visits. */
  function VisitedByFullClean(pointer: int): (r: seq<nat>)
    ensures |r| == pointer + 1 || (pointer < 0 && r == [])
    ensures forall k :: 0 <= k < |r| ==> r[k] == k
  {
    VisitedByClean(pointer + 1)
  }

  /** The as-written loop skips the last stored entry, so its texture and
      its path copy are never released. */
  lemma CleanMissesLastEntry(pointer: int)
    requires 0 <= pointer < MAX_IMAGES
    ensures pointer !in VisitedByClean(pointer)
    ensures pointer in VisitedByFullClean(pointer)
  {
    assert VisitedByFullClean(pointer)[pointer] == pointer;
  }

  /** The corrected loop releases every stored entry exactly once. */
  lemma FullCleanVisitsEveryEntry(pointer: int)
    requires -1 <= pointer < MAX_IMAGES
    ensures forall i :: 0 <= i <= pointer <==> i in VisitedByFullClean(pointer)
  {
    var r := VisitedByFullClean(pointer);
    forall i | 0 <= i <= pointer
      ensures i in r
    {
      assert r[i] == i;
    }
  }

  class ImageCache {
    /** `images` */
    const entries: array<ImageInfo>
    /** `images_array_pointer`: the index of the last stored entry, -1 when empty. */
    var pointer: int

    ghost predicate Valid()
      reads this, entries
    {
      entries.Length == MAX_IMAGES && -1 <= pointer < MAX_IMAGES && DistinctPaths(Cached())
    }

    /** The stored entries, oldest first. */
    ghost function Cached(): seq<ImageInfo>
      reads this, entries
      requires entries.Length == MAX_IMAGES && -1 <= pointer < MAX_IMAGES
    {
      entries[..pointer + 1]
    }

    constructor ()
      ensures Valid() && pointer == -1 && fresh(entries)
    {
      entries := new ImageInfo[MAX_IMAGES](_ => ImageInfo([], 0, false, Uninitialised));
      pointer := -1;
    }

    /** `find_or_load_image(raw, pathSize)`, with the file system `files`
        and the allocator's answer for `strdup`. A found answer leaves the
        cache valid; on a fatal one the process ends (`pointer` has already
        moved when the array is full). */
    method FindOrLoadImage(raw: seq<Byte>, pathSize: nat, files: Files, strdupOk: bool) returns (r: Lookup)
      requires Valid() && pathSize <= |raw|
      modifies this, entries
      ensures r == FindOrLoad(old(Cached()), raw, pathSize, files, strdupOk).0
      ensures r.Found? ==> Valid() && Cached() == FindOrLoad(old(Cached()), raw, pathSize, files, strdupOk).1
      ensures !r.Found? ==> entries[..] == old(entries[..])
      ensures r == PathTooLong ==> pointer == old(pointer)
    {
      if pathSize >= PATH_BUFFER {
        return PathTooLong;
      }
      var path := raw[..pathSize] + [NUL];
      var key := CString(path);
      assert key == PathKey(raw, pathSize) by {
        CStringOfTerminatedPrefix(raw[..pathSize]);
      }
      ghost var cached := Cached();
      var i := 0;
      while i <= pointer
        invariant 0 <= i <= pointer + 1
        invariant Search(cached, key, 0) == Search(cached, key, i)
        decreases pointer - i
      {
        if key == entries[i].path {
          return Found(i);
        }
        i := i + 1;
      }
      pointer := pointer + 1;
      if pointer == MAX_IMAGES {
        return TooManyImages;
      }
      if !strdupOk {
        return OutOfMemory;
      }
      var entry := NewEntry(key, pathSize, files);
      entries[pointer] := entry;
      assert Cached() == cached + [entry];
      KeepsPathsDistinct(cached, raw, pathSize, files, strdupOk);
      return Found(pointer);
    }

    /** `clean_images_array` as written; `released` lists the entries whose
        texture and path copy it releases. */
    method CleanImagesArray() returns (ghost released: seq<nat>)
      requires Valid()
      modifies this
      ensures Valid() && pointer == -1
      ensures released == VisitedByClean(old(pointer))
    {
      released := [];
      if pointer < 0 {
        return;
      }
      for i := 0 to pointer
        invariant released == VisitedByClean(i)
      {
        released := released + [i];
      }
      pointer := -1;
    }

    /** The release loop running over every stored entry. */
    method CleanAllImages() returns (ghost released: seq<nat>)
      requires Valid()
      modifies this
      ensures Valid() && pointer == -1
      ensures released == VisitedByFullClean(old(pointer))
    {
      released := [];
      if pointer < 0 {
        return;
      }
      for i := 0 to pointer + 1
        invariant released == VisitedByClean(i)
      {
        released := released + [i];
      }
      pointer := -1;
    }
  }

  /** Appending a NUL does not change what a C string reader sees. */
  lemma CStringOfTerminatedPrefix(s: seq<Byte>)
    ensures CString(s + [NUL]) == CString(s)
    decreases |s|
  {
    if s != [] && s[0] != NUL {
      assert (s + [NUL])[1..] == s[1..] + [NUL];
      CStringOfTerminatedPrefix(s[1..]);
    }
  }
}
