/** The photo-backup dashboard of js/backup.js: the folder the browser is
    in, the list of files picked for upload, the checks made before an
    upload request is sent, thumbnail sizing, the icon shown for a file, and
    the byte copy that turns a decoded data URL into a blob.

    Rendering, requests to the file API, `FileReader`, `Image`, canvas and
    `atob` are outside the model; their outcomes are parameters. */
module Backup {
  import opened Wrappers
  import opened JsBuiltins
  import Encryption

  /** A file chosen by drag-and-drop or the file picker. */
  datatype File = File(name: string, mimeType: string, size: nat)

  /** What `handleFileUpload` sends: the files, the folder they go to, and
      the `isEncrypted` flag. */
  datatype UploadRequest = UploadRequest(files: seq<File>, folderId: Option<string>, isEncrypted: bool)

  const NoFilesMessage := "Please select files to upload"
  const NoPasswordMessage := "Please enter an encryption password"

  /** The `data-folder-id` attribute of a breadcrumb: the folder id, or the
      text `null` for the Home crumb. */
  function CrumbAttribute(folder: Option<string>): string {
    if folder.None? then "null" else folder.value
  }

  /** The folder a breadcrumb click asks for: `'null'` means the root. */
  function BreadcrumbFolder(attribute: string): (folder: Option<string>)
    ensures folder.None? <==> attribute == "null"
    ensures folder.Some? ==> folder.value == attribute
  {
    if attribute == "null" then None else Some(attribute)
  }

  /** Clicking the crumb rendered for a folder asks for that same folder,
      unless its id is itself the text `null`. */
  lemma BreadcrumbRoundTrip(folder: Option<string>)
    requires folder != Some("null")
    ensures BreadcrumbFolder(CrumbAttribute(folder)) == folder
  {
  }

  class BackupDashboard {
    var currentFolder: Option<string>
    var selectedFiles: seq<File>

    /** The current folder is the root (`null`) or a non-empty id. */
    predicate Valid()
      reads this
    {
      currentFolder != Some("")
    }

    constructor ()
      ensures Valid()
      ensures currentFolder == None && selectedFiles == []
    {
      currentFolder := None;
      selectedFiles := [];
    }

    /** `loadUserFiles(folderId)`: a truthy id becomes the current folder,
        anything else means the root. The listing request is not modelled. */
    method LoadUserFiles(folderId: Option<string>)
      modifies this
      ensures Valid()
      ensures Truthy(folderId) ==> currentFolder == folderId
      ensures !Truthy(folderId) ==> currentFolder == None
      ensures selectedFiles == old(selectedFiles)
    {
      if Truthy(folderId) {
        currentFolder := folderId;
      } else {
        currentFolder := None;
      }
    }

    /** A click on a breadcrumb with the given `data-folder-id`. */
    method ClickBreadcrumb(attribute: string)
      modifies this
      ensures Valid()
      ensures attribute == "null" || attribute == "" ==> currentFolder == None
      ensures attribute != "null" && attribute != "" ==> currentFolder == Some(attribute)
      ensures selectedFiles == old(selectedFiles)
    {
      LoadUserFiles(BreadcrumbFolder(attribute));
    }

    /** The drop and file-input handlers: every file is pushed onto
        `selectedFiles`, in the order given. */
    method AddFiles(files: seq<File>)
      requires Valid()
      modifies this
      ensures Valid()
      ensures selectedFiles == old(selectedFiles) + files
      ensures currentFolder == old(currentFolder)
    {
      for i := 0 to |files|
        invariant selectedFiles == old(selectedFiles) + files[..i]
        invariant currentFolder == old(currentFolder)
      {
        selectedFiles := selectedFiles + [files[i]];
        assert files[..i + 1] == files[..i] + [files[i]];
      }
      assert files[..|files|] == files;
    }

    /** A remove button: `selectedFiles.splice(index, 1)`. A negative index
        counts from the end, and one before the start means the first entry;
        an index past the end removes nothing. */
    method RemoveAt(index: int)
      requires Valid()
      modifies this
      ensures Valid()
      ensures
        var n := |old(selectedFiles)|;
        var at := if index < 0 then (if n + index < 0 then 0 else n + index) else index;
        if at < n then
          && selectedFiles == old(selectedFiles)[..at] + old(selectedFiles)[at + 1..]
          && multiset(selectedFiles) + multiset{old(selectedFiles)[at]} == multiset(old(selectedFiles))
        else selectedFiles == old(selectedFiles)
      ensures currentFolder == old(currentFolder)
    {
      var n := |selectedFiles|;
      var start := if index < 0 then (if n + index < 0 then 0 else n + index) else (if index > n then n else index);
      if start < n {
        SpliceOne(selectedFiles, start);
        selectedFiles := selectedFiles[..start] + selectedFiles[start + 1..];
      }
    }

    /** `openUploadModal`: when the modal exists, the previous selection is
        dropped. */
    method OpenUploadModal(modalPresent: bool)
      requires Valid()
      modifies this
      ensures Valid()
      ensures selectedFiles == if modalPresent then [] else old(selectedFiles)
      ensures currentFolder == old(currentFolder)
    {
      if modalPresent {
        selectedFiles := [];
      }
    }

    /** The guards of `handleFileUpload`: nothing is sent with an empty
        selection, nor when encryption is ticked and the password is empty;
        otherwise the request carries every selected file, the current
        folder if there is one, and the encryption flag. The folder id is
        never empty, so the current folder is passed on as it is. */
    method PrepareUpload(encryptChecked: bool, password: Option<string>) returns (r: Result<UploadRequest, string>)
      requires Valid()
      ensures r.Success? <==> |selectedFiles| > 0 && (encryptChecked ==> Truthy(password))
      ensures |selectedFiles| == 0 ==> r == Failure(NoFilesMessage)
      ensures |selectedFiles| > 0 && encryptChecked && !Truthy(password) ==> r == Failure(NoPasswordMessage)
      ensures r.Success? ==>
        && r.value.files == selectedFiles
        && r.value.folderId == (if Truthy(currentFolder) then currentFolder else None)
        && r.value.folderId == currentFolder
        && r.value.isEncrypted == encryptChecked
    {
      if |selectedFiles| == 0 {
        return Failure(NoFilesMessage);
      }
      var folderId := if Truthy(currentFolder) then currentFolder else None;
      if encryptChecked && !Truthy(password) {
        return Failure(NoPasswordMessage);
      }
      return Success(UploadRequest(selectedFiles, folderId, encryptChecked));
    }
  }

  /** Taking out the entry at `at` leaves every other entry. */
  lemma SpliceOne(s: seq<File>, at: nat)
    requires at < |s|
    ensures multiset(s[..at] + s[at + 1..]) + multiset{s[at]} == multiset(s)
  {
    assert s == s[..at] + [s[at]] + s[at + 1..];
  }

  // ---------------------------------------------------------------------------
  // Thumbnails

  const MaxDimension: nat := 200

  /** The thumbnail rule of `extractImageMetadata` for a `width` x `height`
      image: `w` x `h` fits in 200x200; an image within 200x200 keeps its
      size; otherwise the longer side (the height when both are equal)
      becomes 200 and the other side is the original ratio applied to it,
      rounded half up. */
  predicate IsThumbnail(width: nat, height: nat, w: nat, h: nat) {
    && w <= MaxDimension && h <= MaxDimension
    && (width <= MaxDimension && height <= MaxDimension ==> w == width && h == height)
    && (width > height && width > MaxDimension ==>
      && w == MaxDimension
      && 2 * (width * h - height * w) <= width
      && 2 * (height * w - width * h) < width)
    && (height >= width && height > MaxDimension ==>
      && h == MaxDimension
      && 2 * (height * w - width * h) <= height
      && 2 * (width * h - height * w) < height)
  }

  /** The rule leaves no choice: one image has one thumbnail size. */
  lemma ThumbnailUnique(width: nat, height: nat, w1: nat, h1: nat, w2: nat, h2: nat)
    requires IsThumbnail(width, height, w1, h1) && IsThumbnail(width, height, w2, h2)
    ensures w1 == w2 && h1 == h2
  {
    if width > height && width > MaxDimension {
      ScaledUnique(width, height, h1, h2);
    } else if height >= width && height > MaxDimension {
      ScaledUnique(height, width, w1, w2);
    }
  }

  /** Two sides that both round `other * 200 / longer` half up are equal. */
  lemma ScaledUnique(longer: nat, other: nat, a: nat, b: nat)
    requires longer > 0
    requires 2 * (longer * a - other * MaxDimension) <= longer
    requires 2 * (other * MaxDimension - longer * a) < longer
    requires 2 * (longer * b - other * MaxDimension) <= longer
    requires 2 * (other * MaxDimension - longer * b) < longer
    ensures a == b
  {
    if a < b {
      MulMonotone(longer, a + 1, b);
    } else if b < a {
      MulMonotone(longer, b + 1, a);
    }
  }

  /** The thumbnail size computed by `extractImageMetadata`. */
  method ThumbnailSize(width: nat, height: nat) returns (w: nat, h: nat)
    ensures IsThumbnail(width, height, w, h)
  {
    w, h := width, height;
    if width > height {
      if width > MaxDimension {
        h := RoundHalfUp(height * MaxDimension, width);
        w := MaxDimension;
        WideThumbnail(width, height);
      }
    } else {
      if height > MaxDimension {
        w := RoundHalfUp(width * MaxDimension, height);
        h := MaxDimension;
        TallThumbnail(width, height);
      }
    }
  }

  /** A wide image over the limit: the width becomes 200 and the height
      follows it. */
  lemma WideThumbnail(width: nat, height: nat)
    requires width > height && width > MaxDimension
    ensures IsThumbnail(width, height, MaxDimension, RoundHalfUp(height * MaxDimension, width))
  {
    ScaledSideFits(height, width);
  }

  /** A tall or square image over the limit: the height becomes 200 and the
      width follows it. */
  lemma TallThumbnail(width: nat, height: nat)
    requires height >= width && height > MaxDimension
    ensures IsThumbnail(width, height, RoundHalfUp(width * MaxDimension, height), MaxDimension)
  {
    ScaledSideFits(width, height);
  }

  /** Scaling the shorter side by 200 / longer stays within 0..200. */
  lemma ScaledSideFits(shorter: nat, longer: nat)
    requires shorter <= longer && longer > 0
    ensures 0 <= RoundHalfUp(shorter * MaxDimension, longer) <= MaxDimension
  {
    RoundHalfUpMonotone(0, shorter * MaxDimension, longer);
    RoundHalfUpExact(0, longer);
    MulMonotone(MaxDimension, shorter, longer);
    RoundHalfUpMonotone(shorter * MaxDimension, MaxDimension * longer, longer);
    RoundHalfUpExact(MaxDimension, longer);
  }

  /** The part of the metadata the model keeps: the original size and the
      thumbnail's size. */
  datatype Metadata = Metadata(width: nat, height: nat, thumbWidth: nat, thumbHeight: nat)

  /** `extractImageMetadata(file)`: `null` for a file whose type is not
      `image/...` and for an image that cannot be read or decoded
      (`decoded` is `None`); otherwise the original size and a thumbnail
      drawn at the size `ThumbnailSize` gives. */
  method ExtractImageMetadata(file: File, decoded: Option<(nat, nat)>) returns (r: Option<Metadata>)
    ensures r.Some? <==> StartsWith(file.mimeType, "image/") && decoded.Some?
    ensures r.Some? ==> r.value.width == decoded.value.0 && r.value.height == decoded.value.1
    ensures r.Some? ==> IsThumbnail(r.value.width, r.value.height, r.value.thumbWidth, r.value.thumbHeight)
  {
    if !StartsWith(file.mimeType, "image/") {
      return None;
    }
    if decoded.None? {
      return None;
    }
    var (width, height) := decoded.value;
    var w, h := ThumbnailSize(width, height);
    return Some(Metadata(width, height, w, h));
  }

  // ---------------------------------------------------------------------------
  // File icons

  /** The Font Awesome icon `renderFiles` shows for a MIME type: the first
      of `image/`, `video/`, `audio/` that prefixes it decides, and any other
      type gets the generic file icon. */
  function FileIcon(mimeType: string): (icon: string)
    ensures icon == "fa-image" <==> StartsWith(mimeType, "image/")
    ensures icon == "fa-video" <==> StartsWith(mimeType, "video/")
    ensures icon == "fa-music" <==> StartsWith(mimeType, "audio/")
    ensures icon == "fa-file" <==>
      !StartsWith(mimeType, "image/") && !StartsWith(mimeType, "video/") && !StartsWith(mimeType, "audio/")
  {
    PrefixesExclusive(mimeType);
    if StartsWith(mimeType, "image/") then "fa-image"
    else if StartsWith(mimeType, "video/") then "fa-video"
    else if StartsWith(mimeType, "audio/") then "fa-music"
    else "fa-file"
  }

  /** No MIME type starts with two of the three media prefixes. */
  lemma PrefixesExclusive(mimeType: string)
    ensures !(StartsWith(mimeType, "image/") && StartsWith(mimeType, "video/"))
    ensures !(StartsWith(mimeType, "image/") && StartsWith(mimeType, "audio/"))
    ensures !(StartsWith(mimeType, "video/") && StartsWith(mimeType, "audio/"))
  {
  }

  // ---------------------------------------------------------------------------
  // dataURLToBlob

  /** The copy loop of `dataURLToBlob`: a `Uint8Array` as long as the
      decoded string, byte i holding the char code of character i (reduced
      modulo 256, as a `Uint8Array` store does). */
  method DecodedToBytes(raw: string) returns (bytes: array<Encryption.byte>)
    ensures fresh(bytes)
    ensures bytes.Length == |raw|
    ensures forall i | 0 <= i < |raw| :: bytes[i] as int == raw[i] as int % 256
  {
    bytes := new Encryption.byte[|raw|](_ => 0);
    for i := 0 to |raw|
      invariant forall k | 0 <= k < i :: bytes[k] as int == raw[k] as int % 256
    {
      bytes[i] := (raw[i] as int % 256) as Encryption.byte;
    }
  }
}
