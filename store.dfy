/** files_load (app/augmentation/store.py): the GeoTIFF files of a directory,
    as resolved paths, together with the raw listing.

    The directory listing (os.listdir) is an input, and joining plus making the
    path absolute (os.path.join followed by os.path.abspath) is the function
    `resolve`, whose workings are not modelled. */
module Store {

  /** What os.listdir(directory_path) gives: the entry names in listing
      order, or an exception. */
  datatype Listing =
    | Entries(names: seq<string>)
    | FileNotFound   // caught: the directory does not exist
    | OtherOSError   // any other failure of the listing (permissions, not a directory): not caught

  /** What files_load returns: the pair (full_paths, filenames); the bare
      empty list `[]` for a missing directory; or the exception it lets through. */
  datatype LoadResult =
    | Loaded(fullPaths: seq<string>, filenames: seq<string>)
    | EmptyList
    | Raised

  predicate StartsWith(s: string, prefix: string) {
    |prefix| <= |s| && s[..|prefix|] == prefix
  }

  predicate EndsWith(s: string, suffix: string) {
    |suffix| <= |s| && s[|s| - |suffix|..] == suffix
  }

  /** The filter of files_load: not hidden and with the .tif extension
      (case-sensitive). The bare name ".tif" counts as hidden, and the empty
      name is not hidden but has no extension. */
  function IsVisibleTif(name: string): (visible: bool)
    ensures visible <==> |name| >= 4 && name[0] != '.' && name[|name| - 4..] == ".tif"
  {
    !StartsWith(name, ".") && EndsWith(name, ".tif")
  }

  /** The names the filter keeps, in listing order: each of them passes the
      filter, and there are no more of them than names listed. */
  function Kept(names: seq<string>): (kept: seq<string>)
    ensures |kept| <= |names|
    ensures forall k :: 0 <= k < |kept| ==> IsVisibleTif(kept[k])
  {
    if names == [] then []
    else (if IsVisibleTif(names[0]) then [names[0]] else []) + Kept(names[1..])
  }

  /** `resolve(dir, n)` for every n, in order. */
  function ResolveAll(dir: string, names: seq<string>, resolve: (string, string) -> string): (paths: seq<string>)
    ensures |paths| == |names|
    ensures forall k :: 0 <= k < |names| ==> paths[k] == resolve(dir, names[k])
  {
    seq(|names|, k requires 0 <= k < |names| => resolve(dir, names[k]))
  }

  /** Filtering a concatenated listing filters each part: the kept names keep
      their listing order. */
  lemma {:induction false} KeptAppend(a: seq<string>, b: seq<string>)
    ensures Kept(a + b) == Kept(a) + Kept(b)
  {
    if a == [] {
      assert a + b == b;
    } else {
      assert (a + b)[1..] == a[1..] + b;
      KeptAppend(a[1..], b);
    }
  }

  /** A name is kept exactly when it is listed and passes the filter. */
  lemma {:induction false} KeptMembers(names: seq<string>, n: string)
    ensures n in Kept(names) <==> n in names && IsVisibleTif(n)
  {
    if names != [] {
      KeptMembers(names[1..], n);
      assert names == [names[0]] + names[1..];
    }
  }

  /** Hidden entries are dropped even when they carry the extension, the bare
      name ".tif" included; names of another extension or case are dropped too. */
  lemma HiddenTifsDropped(names: seq<string>)
    ensures ".x.tif" !in Kept(names) && ".tif" !in Kept(names)
    ensures "a.TIF" !in Kept(names) && "a.tiff" !in Kept(names)
    ensures forall n :: n in Kept(names) ==> |n| > 4 && n[0] != '.' && n[|n| - 4..] == ".tif"
  {
    KeptMembers(names, ".x.tif");
    KeptMembers(names, ".tif");
    KeptMembers(names, "a.TIF");
    KeptMembers(names, "a.tiff");
    forall n | n in Kept(names) ensures |n| > 4 && n[0] != '.' && n[|n| - 4..] == ".tif" {
      KeptMembers(names, n);
      assert n[..1] == [n[0]];
    }
  }

  /** One more listed name adds its resolved path exactly when it passes the filter. */
  lemma ResolveKeptSnoc(dir: string, names: seq<string>, name: string, resolve: (string, string) -> string)
    ensures ResolveAll(dir, Kept(names + [name]), resolve) ==
      ResolveAll(dir, Kept(names), resolve) + if IsVisibleTif(name) then [resolve(dir, name)] else []
  {
    KeptAppend(names, [name]);
    assert Kept([name]) == if IsVisibleTif(name) then [name] else [];
  }

  /** files_load(directory_path), with the listing of the directory given. */
  method FilesLoad(directoryPath: string, listing: Listing, resolve: (string, string) -> string)
    returns (r: LoadResult)
    ensures listing.FileNotFound? <==> r.EmptyList?
    ensures listing.OtherOSError? <==> r.Raised?
    ensures listing.Entries? ==>
      r == Loaded(ResolveAll(directoryPath, Kept(listing.names), resolve), listing.names)
  {
    match listing
    case FileNotFound =>
      return EmptyList;
    case OtherOSError =>
      return Raised;
    case Entries(filenames) =>
      var fullPaths: seq<string> := [];
      for i := 0 to |filenames|
        invariant fullPaths == ResolveAll(directoryPath, Kept(filenames[..i]), resolve)
      {
        var name := filenames[i];
        var absolutePath := resolve(directoryPath, name);
        assert filenames[..i + 1] == filenames[..i] + [name];
        ResolveKeptSnoc(directoryPath, filenames[..i], name, resolve);
        if IsVisibleTif(name) {
          fullPaths := fullPaths + [absolutePath];
        }
      }
      assert filenames[..|filenames|] == filenames;
      return Loaded(fullPaths, filenames);
  }

  /** The paths of a loaded listing are, in order, the resolved kept names:
      one path per kept name and no more than the names listed, and a path
      is present exactly when some listed visible .tif name resolves to it. */
  lemma LoadedPaths(dir: string, names: seq<string>, resolve: (string, string) -> string, p: string)
    ensures |ResolveAll(dir, Kept(names), resolve)| <= |names|
    ensures p in ResolveAll(dir, Kept(names), resolve) <==>
      exists n :: n in names && IsVisibleTif(n) && p == resolve(dir, n)
  {
    var paths := ResolveAll(dir, Kept(names), resolve);
    if p in paths {
      var k :| 0 <= k < |paths| && paths[k] == p;
      KeptMembers(names, Kept(names)[k]);
    }
    if exists n :: n in names && IsVisibleTif(n) && p == resolve(dir, n) {
      var n :| n in names && IsVisibleTif(n) && p == resolve(dir, n);
      KeptMembers(names, n);
      var k :| 0 <= k < |Kept(names)| && Kept(names)[k] == n;
      assert paths[k] == p;
    }
  }
}
