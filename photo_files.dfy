/** Finding the photos in an unpacked archive, as bot_local and rus_bot_fast
    do it: every walked file whose lower-cased name ends in ".jpg", ".jpeg" or
    ".png" (bot_local then sorts the paths), and the first few of them are
    read and sent as the job's payload. The directory walk is an input: the
    sequence of (directory, file name) pairs `os.walk` produced. */
module PhotoFiles {
  import opened Text
  import opened StringOrder
  import ImagePipeline

  datatype WalkEntry = WalkEntry(root: string, name: string)

  /** bot_local's payload cap (its local `MAX_PHOTOS`). */
  const LocalPayloadLimit: nat := 20
  /** rus_bot_fast `MAX_PHOTOS`. */
  const FastPayloadLimit: nat := 30

  /** `os.path.join(root, file)`. */
  function PathOf(e: WalkEntry): string {
    e.root + "/" + e.name
  }

  /** `file.lower().endswith(('.jpg', '.jpeg', '.png'))`. */
  predicate IsImageName(name: string) {
    EndsWith(Lower(name), ".jpg") || EndsWith(Lower(name), ".jpeg") || EndsWith(Lower(name), ".png")
  }

  /** The paths of the walked image files, in walk order. */
  function ImagePaths(walked: seq<WalkEntry>): (r: seq<string>)
    ensures |r| <= |walked|
  {
    if walked == [] then []
    else
      var e := walked[|walked| - 1];
      ImagePaths(walked[..|walked| - 1]) + (if IsImageName(e.name) then [PathOf(e)] else [])
  }

  /** A path is listed exactly when some walked image file has it. */
  lemma {:induction false} ImagePathsMembers(walked: seq<WalkEntry>, p: string)
    ensures p in ImagePaths(walked) <==> exists e :: e in walked && IsImageName(e.name) && PathOf(e) == p
  {
    if walked != [] {
      var init := walked[..|walked| - 1];
      ImagePathsMembers(init, p);
      assert walked == init + [walked[|walked| - 1]];
      if exists e :: e in walked && IsImageName(e.name) && PathOf(e) == p {
        var e :| e in walked && IsImageName(e.name) && PathOf(e) == p;
        if e != walked[|walked| - 1] {
          assert e in init;
        }
      }
    }
  }

  /** The walk loop of rus_bot_fast `download_photos` and bot_local
      `_download_photos_sync`: append the path of every image file. */
  method WalkPhotos(walked: seq<WalkEntry>) returns (photos: seq<string>)
    ensures photos == ImagePaths(walked)
  {
    photos := [];
    for i := 0 to |walked|
      invariant photos == ImagePaths(walked[..i])
    {
      assert walked[..i + 1][..i] == walked[..i];
      var e := walked[i];
      if IsImageName(e.name) {
        photos := photos + [PathOf(e)];
      }
    }
    assert walked[..|walked|] == walked;
  }

  /** bot_local `_download_photos_sync` after the archive is unpacked: the
      image paths, sorted ascending. */
  method DownloadPhotosSync(walked: seq<WalkEntry>) returns (photos: seq<string>)
    ensures Sorted(photos)
    ensures multiset(photos) == multiset(ImagePaths(walked))
  {
    photos := WalkPhotos(walked);
    photos := Sort(photos);
  }

  /** Sorting decides the list: any sorted arrangement of the same paths is
      the one `_download_photos_sync` returns. */
  lemma DownloadedPhotosDetermined(walked: seq<WalkEntry>, a: seq<string>, b: seq<string>)
    requires Sorted(a) && multiset(a) == multiset(ImagePaths(walked))
    requires Sorted(b) && multiset(b) == multiset(ImagePaths(walked))
    ensures a == b
  {
    SortedPermutationUnique(a, b);
  }

  /** The payload loop `for photo_path in photos[:limit]`: one encoded file per
      path, in list order; `read` stands for reading and base64-encoding a
      file. */
  method BuildPayload(photos: seq<string>, limit: nat, read: string -> string) returns (data: seq<string>)
    ensures |data| == if |photos| < limit then |photos| else limit
    ensures forall i :: 0 <= i < |data| ==> data[i] == read(photos[i])
  {
    var chosen := ImagePipeline.Take(photos, limit);
    data := [];
    for i := 0 to |chosen|
      invariant |data| == i
      invariant forall j :: 0 <= j < i ==> data[j] == read(chosen[j])
    {
      data := data + [read(chosen[i])];
    }
  }

  /** Lower-casing works character by character, so it keeps suffixes. */
  lemma LowerEndsWith(name: string, ext: string)
    requires EndsWith(name, ext)
    ensures EndsWith(Lower(name), Lower(ext))
  {
    assert Lower(name)[|name| - |ext|..] == Lower(name[|name| - |ext|..]);
  }

  lemma SupportedExtensionsLowered(ext: string)
    requires ext in ImagePipeline.SupportedExtensions
    ensures Lower(ext) == ".jpg" || Lower(ext) == ".jpeg" || Lower(ext) == ".png"
  {
    if ext == ".JPG" {
      assert Lower(ext) == ".jpg";
    } else if ext == ".JPEG" {
      assert Lower(ext) == ".jpeg";
    } else if ext == ".PNG" {
      assert Lower(ext) == ".png";
    } else {
      assert Lower(ext) == ext;
    }
  }

  /** Every name rus_bot's case-sensitive patterns accept is also an image
      name here. */
  lemma GlobNameIsImageName(name: string, ext: string)
    requires ext in ImagePipeline.SupportedExtensions && EndsWith(name, ext)
    ensures IsImageName(name)
  {
    LowerEndsWith(name, ext);
    SupportedExtensionsLowered(ext);
  }

  /** The converse fails: a mixed-case extension is found here but by none of
      rus_bot's patterns. */
  lemma MixedCaseOnlyHere()
    ensures IsImageName("a.Jpg")
    ensures forall ext :: ext in ImagePipeline.SupportedExtensions ==> !EndsWith("a.Jpg", ext)
  {
    assert Lower("a.Jpg") == "a.jpg";
    assert "a.Jpg"[1..] == ".Jpg";
    assert "a.Jpg"[2..] != "jpg";
  }
}
