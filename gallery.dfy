/**
 * The album service: a fixed allow-list of albums, each backed by one
 * directory under the image root, and the four request handlers (list,
 * upload, delete one, delete all). The filesystem is abstracted to the
 * listing of every directory under the root plus two failure oracles: the
 * directories whose listing fails and the entries whose unlinking fails.
 */
module Gallery {
  import opened Wrappers
  import opened Paths
  import opened Listing

  /** The configured albums; fixed for the life of the process. */
  const Albums: seq<string> := ["me", "parents", "brother", "family"]

  /** The error bodies the handlers answer with, each with its own status. */
  datatype Error =
    | InvalidAlbum    // 400 "Invalid album category"
    | NoFile          // 400 "No file uploaded"
    | NotFound        // 404 "File not found"
    | ListFailed      // 500 "Unable to list files"
    | DeleteFailed    // 500 "Unable to delete file"

  function Message(e: Error): (text: string) {
    match e
    case InvalidAlbum => "Invalid album category"
    case NoFile => "No file uploaded"
    case NotFound => "File not found"
    case ListFailed => "Unable to list files"
    case DeleteFailed => "Unable to delete file"
  }

  /** Different errors are answered with different texts, so a client can tell them apart. */
  lemma MessageInjective(e1: Error, e2: Error)
    requires Message(e1) == Message(e2)
    ensures e1 == e2
  {
    assert |Message(e1)| == |Message(e2)|;
  }

  /** The JSON responses of the handlers. */
  datatype Response =
    | Images(urls: seq<string>)            // 200 {"images": [...]}
    | Uploaded(url: string)                // 200 {"url": ...}
    | Deleted(url: string)                 // 200 {"deleted": ...}
    | DeletedAll(album: string)            // 200 {"deletedAll": true, "album": ...}
    | Failure(error: Error)                // {"error": Message(error)}
    | PartialDelete(failed: seq<string>)   // 500 {"error": "Some files could not be deleted", "failed": [...]}

  /**
   * The HTTP status a response is sent with: 400 for a rejected request, 404
   * for a missing file, 500 for a storage failure, 200 for every answer that
   * reports success.
   */
  function Status(r: Response): (code: int)
    ensures code == 400 <==> r == Failure(InvalidAlbum) || r == Failure(NoFile)
    ensures code == 404 <==> r == Failure(NotFound)
    ensures code == 500 <==> r == Failure(ListFailed) || r == Failure(DeleteFailed) || r.PartialDelete?
    ensures code == 200 <==> !r.Failure? && !r.PartialDelete?
  {
    match r
    case Failure(InvalidAlbum) => 400
    case Failure(NoFile) => 400
    case Failure(NotFound) => 404
    case Failure(_) => 500
    case PartialDelete(_) => 500
    case _ => 200
  }

  /**
   * The middleware that runs before every handler: `None` lets the request
   * through, `Some(r)` answers it with `r` before any storage is touched.
   */
  function ValidateCategory(category: string): (r: Option<Response>)
    ensures r.None? <==> exists i :: 0 <= i < |Albums| && Albums[i] == category
    ensures r.Some? ==> r.value == Failure(InvalidAlbum) && Status(r.value) == 400
  {
    if category in Albums then None else Some(Failure(InvalidAlbum))
  }

  /** Reads the entry name back out of a URL of the album `category`. */
  function EntryOf(category: string, url: string): (entry: Option<string>) {
    var prefix := "/images/" + category + "/";
    if |prefix| <= |url| && url[..|prefix|] == prefix then Some(url[|prefix|..]) else None
  }

  /**
   * The public URL under which the static file server serves an entry; the
   * entry name can always be read back out of it.
   */
  function Url(category: string, name: string): (url: string)
    ensures EntryOf(category, url) == Some(name)
  {
    var prefix := "/images/" + category + "/";
    assert prefix + name == "/images/" + category + "/" + name;
    prefix + name
  }

  /** Within one album, distinct entries have distinct URLs. */
  lemma UrlInjective(category: string, f: string, g: string)
    requires Url(category, f) == Url(category, g)
    ensures f == g
  {
    assert EntryOf(category, Url(category, f)) == Some(f);
  }

  /** `files.map(f => url)`: one URL per entry, in listing order. */
  function Urls(category: string, files: seq<string>): (r: seq<string>)
    ensures |r| == |files|
    ensures forall i :: 0 <= i < |r| ==> EntryOf(category, r[i]) == Some(files[i])
  {
    if files == [] then []
    else [Url(category, files[0])] + Urls(category, files[1..])
  }

  /** A listing shows the URL of an entry exactly when the entry is in the album. */
  lemma ListedIff(category: string, files: seq<string>, f: string)
    ensures Url(category, f) in Urls(category, files) <==> f in files
  {
    var urls := Urls(category, files);
    assert EntryOf(category, Url(category, f)) == Some(f);
    if f in files {
      var k :| 0 <= k < |files| && files[k] == f;
      assert EntryOf(category, urls[k]) == Some(f);
      assert urls[k] == Url(category, f) by {
        var prefix := "/images/" + category + "/";
        assert urls[k] == urls[k][..|prefix|] + urls[k][|prefix|..];
      }
    }
  }

  /** Names that resolve to a directory (the album itself or the image root); unlinking them never succeeds. */
  predicate IsDirName(name: string) {
    name == "" || name == "." || name == ".."
  }

  /** Whether unlinking the entry `name` of `album` fails for a reason other than its absence. */
  predicate Fails(album: string, name: string, stuck: set<(string, string)>) {
    IsDirName(name) || (album, name) in stuck
  }

  /** The entries of `files`, in order, whose unlinking fails. */
  function Leftover(album: string, files: seq<string>, stuck: set<(string, string)>): (r: seq<string>)
    ensures forall f :: f in r <==> f in files && Fails(album, f, stuck)
    ensures |r| <= |files|
  {
    if files == [] then []
    else
      var last := files[|files| - 1];
      Leftover(album, files[..|files| - 1], stuck) + (if Fails(album, last, stuck) then [last] else [])
  }

  /** The failure report of a listing is that of its first part followed by that of the rest. */
  lemma {:induction false} LeftoverAppend(album: string, a: seq<string>, b: seq<string>, stuck: set<(string, string)>)
    ensures Leftover(album, a + b, stuck) == Leftover(album, a, stuck) + Leftover(album, b, stuck)
  {
    if b == [] {
      assert a + b == a;
    } else {
      var b' := b[..|b| - 1];
      assert (a + b)[..|a + b| - 1] == a + b';
      LeftoverAppend(album, a, b', stuck);
    }
  }

  /** The names a bulk delete reports are never repeated. */
  lemma {:induction false} LeftoverDistinct(album: string, files: seq<string>, stuck: set<(string, string)>)
    requires Distinct(files)
    ensures Distinct(Leftover(album, files, stuck))
  {
    if files != [] {
      var init := files[..|files| - 1];
      var last := files[|files| - 1];
      LeftoverDistinct(album, init, stuck);
      if Fails(album, last, stuck) {
        DistinctSnoc(Leftover(album, init, stuck), last);
      } else {
        assert Leftover(album, init, stuck) + [] == Leftover(album, init, stuck);
      }
    }
  }

  /** One more entry extends the failure report by that entry exactly when it fails. */
  lemma LeftoverStep(album: string, files: seq<string>, i: nat, stuck: set<(string, string)>)
    requires i < |files|
    ensures Leftover(album, files[..i + 1], stuck)
      == Leftover(album, files[..i], stuck) + (if Fails(album, files[i], stuck) then [files[i]] else [])
  {
    assert files[..i + 1][..i] == files[..i];
  }

  /**
   * One step of the bulk delete: with `failed` reported for the first `i`
   * entries and the rest not yet tried, entry `i` is still listed, and
   * either unlinking it takes it out or reporting it keeps the listing.
   */
  lemma DeleteAllStep(album: string, files: seq<string>, i: nat, failed: seq<string>, stuck: set<(string, string)>)
    requires Distinct(files) && i < |files|
    requires failed == Leftover(album, files[..i], stuck)
    ensures files[i] in failed + files[i..]
    ensures Remove(failed + files[i..], files[i]) == failed + files[i + 1..]
    ensures failed + [files[i]] + files[i + 1..] == failed + files[i..]
    ensures Leftover(album, files[..i + 1], stuck)
      == failed + (if Fails(album, files[i], stuck) then [files[i]] else [])
  {
    var f := files[i];
    assert files[i..] == [f] + files[i + 1..];
    DistinctSplit(files, i);
    assert f !in failed;
    assert failed + [f] + files[i + 1..] == failed + files[i..];
    RemoveSplit(failed, f, files[i + 1..]);
    LeftoverStep(album, files, i, stuck);
  }

  lemma UpdateTwice(m: map<string, seq<string>>, k: string, a: seq<string>, b: seq<string>)
    ensures m[k := a][k := b] == m[k := b]
  {
  }

  /** What `unlink` reports: the entry went away, ENOENT, or another error. */
  datatype UnlinkResult = Removed | Missing | Failed

  class AlbumStore {
    /** The listing of every directory under the image root, by directory name. */
    var dirs: map<string, seq<string>>
    /** Directories whose listing fails (permissions and the like). */
    var unreadable: set<string>
    /**
     * Names, as (directory, name), whose unlinking fails with an error other
     * than ENOENT (a name too long for the filesystem, a NUL byte, missing
     * permission and the like), whether or not the directory lists them.
     */
    var stuck: set<(string, string)>

    /** Every album has a directory, and no directory lists a name twice. */
    ghost predicate Valid()
      reads this
    {
      && (forall i :: 0 <= i < |Albums| ==> Albums[i] in dirs)
      && (forall d :: d in dirs ==> Distinct(dirs[d]))
    }

    /** Startup: create the directory of every album that has none; touch nothing else. */
    constructor Start(disk: map<string, seq<string>>, unreadable: set<string>, stuck: set<(string, string)>)
      requires forall d :: d in disk ==> Distinct(disk[d])
      ensures Valid()
      ensures forall d :: d in dirs <==> d in disk || d in Albums
      ensures forall d :: d in disk ==> dirs[d] == disk[d]
      ensures forall d :: d in dirs && d !in disk ==> dirs[d] == []
      ensures this.unreadable == unreadable && this.stuck == stuck
    {
      var listing := disk;
      for i := 0 to |Albums|
        invariant forall d :: d in listing <==> d in disk || d in Albums[..i]
        invariant forall d :: d in disk ==> listing[d] == disk[d]
        invariant forall d :: d in listing && d !in disk ==> listing[d] == []
      {
        if Albums[i] !in listing {
          listing := listing[Albums[i] := []];
        }
      }
      assert Albums[..|Albums|] == Albums;
      dirs := listing;
      this.unreadable := unreadable;
      this.stuck := stuck;
    }

    /**
     * The outcome `unlink` would report for `name` in the directory `album`:
     * any error other than ENOENT wins, listed or not; otherwise an unlisted
     * name is ENOENT and a listed one goes away.
     */
    function UnlinkOutcome(album: string, name: string): (r: UnlinkResult)
      reads this
      requires album in dirs
      ensures r == Failed <==> Fails(album, name, stuck)
      ensures r == Missing <==> !Fails(album, name, stuck) && name !in dirs[album]
      ensures r == Removed <==> !Fails(album, name, stuck) && name in dirs[album]
    {
      if Fails(album, name, stuck) then Failed
      else if name !in dirs[album] then Missing
      else Removed
    }

    /** `unlink` of one entry: on success that entry, and only it, leaves its directory. */
    method Unlink(album: string, name: string) returns (outcome: UnlinkResult)
      requires album in dirs
      modifies this
      ensures unreadable == old(unreadable) && stuck == old(stuck)
      ensures outcome == old(UnlinkOutcome(album, name))
      ensures dirs == old(dirs)[album := if outcome == Removed then Remove(old(dirs)[album], name) else old(dirs)[album]]
    {
      outcome := UnlinkOutcome(album, name);
      if outcome == Removed {
        dirs := dirs[album := Remove(dirs[album], name)];
      }
    }

    /** GET /images/:category: the album's URLs, one per entry, in listing order. */
    function List(category: string): (r: Response)
      reads this
      requires Valid()
      ensures category !in Albums ==> r == Failure(InvalidAlbum)
      ensures category in Albums && category in unreadable ==> r == Failure(ListFailed)
      ensures category in Albums && category !in unreadable ==>
        && r.Images?
        && |r.urls| == |dirs[category]|
        && forall i :: 0 <= i < |r.urls| ==> EntryOf(category, r.urls[i]) == Some(dirs[category][i])
    {
      match ValidateCategory(category)
      case Some(rejected) => rejected
      case None =>
        if category in unreadable then Failure(ListFailed)
        else Images(Urls(category, dirs[category]))
    }

    /**
     * POST /upload/:category: `file` is the original name of the uploaded
     * file as the multipart layer delivers it (`None` when it delivers no
     * file). The handler stores it under that name, verbatim; nothing here
     * cuts a name holding separators down.
     */
    method Upload(category: string, file: Option<string>) returns (r: Response)
      requires Valid()
      modifies this
      ensures Valid() && unreadable == old(unreadable) && stuck == old(stuck)
      ensures category !in Albums ==> r == Failure(InvalidAlbum) && dirs == old(dirs)
      ensures category in Albums && file.None? ==> r == Failure(NoFile) && dirs == old(dirs)
      ensures category in Albums && file.Some? ==>
        && r == Uploaded(Url(category, file.value))
        && dirs == old(dirs)[category := Put(old(dirs)[category], file.value)]
    {
      var gate := ValidateCategory(category);
      if gate.Some? {
        return gate.value;
      }
      if file.None? {
        return Failure(NoFile);
      }
      var name := file.value;
      PutDistinct(dirs[category], name);
      dirs := dirs[category := Put(dirs[category], name)];
      r := Uploaded(Url(category, name));
    }

    /**
     * DELETE /images/:category/:filename: only the basename of the requested
     * name is unlinked, and only inside the album's own directory.
     */
    method DeleteOne(category: string, filename: string) returns (r: Response)
      requires Valid()
      modifies this
      ensures Valid() && unreadable == old(unreadable) && stuck == old(stuck)
      ensures category !in Albums ==> r == Failure(InvalidAlbum) && dirs == old(dirs)
      ensures category in Albums ==>
        var safe := Basename(filename);
        && Sep !in safe
        && match old(UnlinkOutcome(category, safe))
           case Removed =>
             && r == Deleted(Url(category, safe))
             && dirs == old(dirs)[category := Remove(old(dirs)[category], safe)]
             && safe !in dirs[category]
             && |dirs[category]| == |old(dirs)[category]| - 1
           case Missing => r == Failure(NotFound) && dirs == old(dirs)
           case Failed => r == Failure(DeleteFailed) && dirs == old(dirs)
    {
      var gate := ValidateCategory(category);
      if gate.Some? {
        return gate.value;
      }
      var safe := Basename(filename);
      var before := dirs[category];
      RemoveDistinct(before, safe);
      var outcome := Unlink(category, safe);
      match outcome
      case Removed =>
        RemoveCount(before, safe);
        r := Deleted(Url(category, safe));
      case Missing =>
        r := Failure(NotFound);
      case Failed =>
        r := Failure(DeleteFailed);
    }

    /**
     * The serial pass of the bulk delete: unlink every entry of `files`, in
     * order, carrying on past failures and collecting the names that failed.
     */
    method UnlinkEach(album: string, files: seq<string>) returns (failed: seq<string>)
      requires album in dirs && dirs[album] == files && Distinct(files)
      modifies this
      ensures unreadable == old(unreadable) && stuck == old(stuck)
      ensures failed == Leftover(album, files, stuck)
      ensures dirs == old(dirs)[album := failed]
    {
      failed := [];
      var i := 0;
      assert failed + files[i..] == files;
      while i < |files|
        invariant 0 <= i <= |files|
        invariant Distinct(files)
        invariant unreadable == old(unreadable) && stuck == old(stuck)
        invariant failed == Leftover(album, files[..i], stuck)
        invariant dirs == old(dirs)[album := failed + files[i..]]
      {
        var f := files[i];
        DeleteAllStep(album, files, i, failed, stuck);
        ghost var before := dirs;
        var outcome := Unlink(album, f);
        assert outcome != Removed <==> Fails(album, f, stuck);
        if outcome != Removed {
          failed := failed + [f];
        }
        assert dirs == before[album := failed + files[i + 1..]];
        UpdateTwice(old(dirs), album, before[album], failed + files[i + 1..]);
        i := i + 1;
      }
      assert files[..i] == files;
      assert failed + files[i..] == failed;
    }

    /**
     * DELETE /images/:category: read the album once, then unlink every entry
     * in listing order, carrying on past failures and collecting the names
     * that could not be removed.
     */
    method DeleteAll(category: string) returns (r: Response)
      requires Valid()
      modifies this
      ensures Valid() && unreadable == old(unreadable) && stuck == old(stuck)
      ensures category !in Albums ==> r == Failure(InvalidAlbum) && dirs == old(dirs)
      ensures category in Albums && category in unreadable ==> r == Failure(ListFailed) && dirs == old(dirs)
      ensures category in Albums && category !in unreadable ==>
        var failed := Leftover(category, old(dirs)[category], stuck);
        && dirs == old(dirs)[category := failed]
        && r == if failed == [] then DeletedAll(category) else PartialDelete(failed)
    {
      var gate := ValidateCategory(category);
      if gate.Some? {
        return gate.value;
      }
      if category in unreadable {
        return Failure(ListFailed);
      }
      var files := dirs[category];
      var failed := UnlinkEach(category, files);
      LeftoverDistinct(category, files, stuck);
      if |failed| > 0 {
        r := PartialDelete(failed);
      } else {
        r := DeletedAll(category);
      }
    }
  }

  /** After an upload of `f`, the album's listing shows the URL of `f`. */
  lemma UploadThenListed(category: string, entries: seq<string>, f: string)
    ensures Url(category, f) in Urls(category, Put(entries, f))
  {
    ListedIff(category, Put(entries, f), f);
  }

  /** After `f` is unlinked, the album's listing no longer shows its URL. */
  lemma DeleteThenUnlisted(category: string, entries: seq<string>, f: string)
    ensures Url(category, f) !in Urls(category, Remove(entries, f))
  {
    ListedIff(category, Remove(entries, f), f);
  }

  /**
   * Should the multipart layer deliver a name holding separators, upload
   * keeps it verbatim, while delete cuts the same name down to its basename:
   * in an album that had no entry `secret`, deleting `../secret` after
   * uploading it looks for an entry that is not there.
   */
  lemma TraversalAsymmetry(entries: seq<string>)
    requires "secret" !in entries
    ensures "../secret" in Put(entries, "../secret")
    ensures Basename("../secret") == "secret"
    ensures "secret" !in Put(entries, "../secret")
  {
    BasenameDropsTraversal();
    assert "secret" != "../secret" by {
      assert |"secret"| != |"../secret"|;
    }
  }
}
