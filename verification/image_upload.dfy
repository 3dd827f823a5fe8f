/** The image picker of the card form: a list of image URLs bounded by
    `maxImages` (3 unless the form says otherwise), grown by typing a URL,
    choosing or dropping files, or pasting, and shrunk by removing an entry.
    File and clipboard reads are asynchronous in the browser; here each
    file or clipboard item carries the data URL its read produces, and the
    reads finish in selection order. */
module ImageUpload {
  import opened Wrappers
  import opened JsText

  const DefaultMaxImages: int := 3

  /** `canAddMore`: there is a free slot. */
  predicate CanAddMore(urls: seq<string>, maxImages: int) {
    |urls| < maxImages
  }

  /** `handleClick`: the file picker opens exactly when there is a free slot. */
  function OpensFilePicker(urls: seq<string>, maxImages: int): (r: bool)
    ensures r <==> |urls| < maxImages
  {
    CanAddMore(urls, maxImages)
  }

  /** `handleUrlAdd`: a non-blank typed URL is appended, trimmed, when there
      is a free slot, and the input is cleared; otherwise nothing changes. */
  function HandleUrlAdd(urls: seq<string>, urlInput: string, maxImages: int): (r: (seq<string>, string))
    ensures !IsBlank(urlInput) && |urls| < maxImages ==> r == (urls + [Trim(urlInput)], "")
    ensures IsBlank(urlInput) || |urls| >= maxImages ==> r == (urls, urlInput)
  {
    if Trim(urlInput) != [] && |urls| < maxImages then (urls + [Trim(urlInput)], "") else (urls, urlInput)
  }

  /** `removeImage`: every URL but the one at `index`, in order. */
  function RemoveImage(urls: seq<string>, index: int): (r: seq<string>)
    ensures 0 <= index < |urls| ==> |r| == |urls| - 1 && r == urls[..index] + urls[index + 1..]
    ensures !(0 <= index < |urls|) ==> r == urls
  {
    RemoveAt(urls, index)
  }

  /** The list stays within its bound: adding a typed URL or removing one
      never takes a list of at most `maxImages` entries above it, and a
      typed URL added and then removed again leaves the list as it was. */
  lemma UrlAddRemoveBounded(urls: seq<string>, urlInput: string, maxImages: int, index: int)
    requires |urls| <= maxImages
    ensures |HandleUrlAdd(urls, urlInput, maxImages).0| <= maxImages
    ensures |RemoveImage(urls, index)| <= maxImages
    ensures RemoveImage(HandleUrlAdd(urls, urlInput, maxImages).0, |urls|) == urls
  {
    var added := HandleUrlAdd(urls, urlInput, maxImages).0;
    if |added| > |urls| {
      assert added[..|urls|] == urls;
    }
  }

  /** A full list offers no way in: the picker stays shut, and a typed
      URL, a file selection and a paste all leave the list as it is. */
  lemma FullListTakesNothing(urls: seq<string>, urlInput: string, files: seq<File>,
                             focused: bool, items: Option<seq<ClipboardItem>>, maxImages: int)
    requires |urls| == maxImages
    ensures !OpensFilePicker(urls, maxImages)
    ensures HandleUrlAdd(urls, urlInput, maxImages).0 == urls
    ensures HandleFileSelect(urls, files, maxImages) == urls
    ensures HandlePaste(focused, items, urls, maxImages) == urls
  {
    assert FilesToProcess(urls, files, maxImages) == [];
  }

  /** A typed URL of white space only is never added, however many slots
      are free. */
  lemma WhiteSpaceUrlIgnored(urls: seq<string>, urlInput: string, maxImages: int)
    requires AllWhiteSpace(urlInput)
    ensures HandleUrlAdd(urls, urlInput, maxImages) == (urls, urlInput)
  {
    BlankIffAllWhiteSpace(urlInput);
  }

  /** A selected or dropped file: its MIME type and the data URL its read
      yields (empty when the read yields nothing). */
  datatype File = File(mimeType: string, dataUrl: string)

  predicate IsImageFile(f: File) {
    StartsWith(f.mimeType, "image/")
  }

  /** A file whose read adds a URL: an image with a non-empty data URL. */
  predicate Loads(f: File) {
    IsImageFile(f) && f.dataUrl != []
  }

  /** `fileArray.slice(0, maxImages - imageUrls.length)`. */
  function FilesToProcess(urls: seq<string>, files: seq<File>, maxImages: int): (r: seq<File>)
    ensures |r| <= |files| && r == files[..|r|]
    ensures |urls| <= maxImages ==> |r| <= maxImages - |urls|
  {
    SliceTo(files, maxImages - |urls|)
  }

  /** The data URLs of the files that load, in selection order. */
  function LoadedUrls(files: seq<File>): (r: seq<string>)
    ensures |r| <= |files|
    ensures forall u :: u in r ==> exists f :: f in files && Loads(f) && f.dataUrl == u
  {
    if |files| == 0 then []
    else LoadedUrls(files[..|files| - 1]) + (if Loads(files[|files| - 1]) then [files[|files| - 1].dataUrl] else [])
  }

  /** `handleFileSelect` as written: `processedCount` counts loaded images,
      but the list is only updated when it reaches the number of files
      taken, non-images included. So the update happens only when every
      file taken loads; one non-image in the batch discards the whole batch. */
  function HandleFileSelectAsWritten(urls: seq<string>, files: seq<File>, maxImages: int): (r: seq<string>)
    ensures var batch := FilesToProcess(urls, files, maxImages);
      && (|batch| > 0 && |LoadedUrls(batch)| == |batch| ==> r == urls + LoadedUrls(batch))
      && (|LoadedUrls(batch)| < |batch| || |batch| == 0 ==> r == urls)
  {
    var batch := FilesToProcess(urls, files, maxImages);
    var loaded := LoadedUrls(batch);
    if |batch| > 0 && |loaded| == |batch| then urls + loaded else urls
  }

  /** A batch of an image and a text file, for an empty list: as written
      nothing is added; the image alone should have been. */
  lemma MixedBatchDropsImages()
    ensures var files := [File("image/png", "data:a"), File("text/plain", "data:b")];
      && HandleFileSelectAsWritten([], files, DefaultMaxImages) == []
      && HandleFileSelect([], files, DefaultMaxImages) == ["data:a"]
  {
    var files := [File("image/png", "data:a"), File("text/plain", "data:b")];
    assert FilesToProcess([], files, DefaultMaxImages) == files;
    assert files[..1] == [File("image/png", "data:a")];
    assert [File("image/png", "data:a")][..0] == [];
    assert StartsWith("image/png", "image/");
    assert !StartsWith("text/plain", "image/") by {
      assert "text/plain"[0] != "image/"[0];
    }
    assert LoadedUrls(files) == ["data:a"];
  }

  /** `handleFileSelect` as evidently intended: the files taken that load
      are appended after the existing URLs, in order; the others are
      skipped. */
  function HandleFileSelect(urls: seq<string>, files: seq<File>, maxImages: int): (r: seq<string>)
    ensures |r| >= |urls| && r[..|urls|] == urls
    ensures r[|urls|..] == LoadedUrls(FilesToProcess(urls, files, maxImages))
    ensures |urls| <= maxImages ==> |r| <= maxImages
  {
    urls + LoadedUrls(FilesToProcess(urls, files, maxImages))
  }

  /** The two agree on every batch in which each file taken loads. */
  lemma FileSelectAgreesOnImageBatches(urls: seq<string>, files: seq<File>, maxImages: int)
    requires forall f :: f in FilesToProcess(urls, files, maxImages) ==> Loads(f)
    ensures HandleFileSelectAsWritten(urls, files, maxImages) == HandleFileSelect(urls, files, maxImages)
  {
    AllLoad(FilesToProcess(urls, files, maxImages));
  }

  /** When every file loads, each contributes its URL. */
  lemma {:induction false} AllLoad(files: seq<File>)
    requires forall f :: f in files ==> Loads(f)
    ensures |LoadedUrls(files)| == |files|
  {
    if |files| > 0 {
      AllLoad(files[..|files| - 1]);
    }
  }

  /** One clipboard entry: its type, the data URL of its file part when it
      has one, and its text. */
  datatype ClipboardItem = ClipboardItem(mimeType: string, file: Option<string>, text: string)

  predicate IsImageItem(item: ClipboardItem) {
    Contains(item.mimeType, "image") && item.file.Some?
  }

  const ImageExtensions: seq<string> := ["jpg", "jpeg", "png", "gif", "webp", "bmp", "svg"]

  /** The characters `.` does not match in a JavaScript regular expression. */
  predicate IsLineTerminator(c: char) {
    c == '\n' || c == '\r' || c == '\U{2028}' || c == '\U{2029}'
  }

  predicate NoLineTerminator(s: string) {
    forall i :: 0 <= i < |s| ==> !IsLineTerminator(s[i])
  }

  /** In the lower-cased text `l`, the `.` of an image extension sits at
      `k`, after the scheme and with no line break before it, and the text
      ends after the extension or continues with a query on the same line. */
  predicate ExtensionAt(l: string, schemeLength: nat, k: int) {
    && schemeLength <= k < |l|
    && l[k] == '.'
    && NoLineTerminator(l[schemeLength..k])
    && exists e :: e in ImageExtensions && k + 1 + |e| <= |l| && l[k + 1..k + 1 + |e|] == e
                && Tail(l, k + 1 + |e|)
  }

  /** What may follow the extension: nothing, or `?` and one line. */
  predicate Tail(l: string, j: int)
    requires 0 <= j <= |l|
  {
    j == |l| || (l[j] == '?' && NoLineTerminator(l[j..]))
  }

  /** `/^https?:\/\/.*\.(jpg|jpeg|png|gif|webp|bmp|svg)(\?.*)?$/i`. */
  predicate MatchesImageUrlPattern(t: string) {
    var l := ToLower(t);
    var n := if StartsWith(l, "https://") then 8 else if StartsWith(l, "http://") then 7 else 0;
    n > 0 && exists k :: n <= k < |l| && ExtensionAt(l, n, k)
  }

  /** The pasted-text test: a data image URL, an http(s) URL ending in an
      image extension, or a URL on one of the known image hosts. */
  predicate LooksLikeImageUrl(t: string) {
    || StartsWith(t, "data:image/")
    || MatchesImageUrlPattern(t)
    || Contains(t, "images.google.com")
    || Contains(t, "googleapis.com")
    || Contains(t, "imgur.com")
    || Contains(t, "unsplash.com")
    || Contains(t, "pixabay.com")
    || Contains(t, "pexels.com")
  }

  /** The index of the first item satisfying `p`, if any. */
  function FirstIndex(items: seq<ClipboardItem>, p: ClipboardItem -> bool): (r: Option<nat>)
    ensures r.Some? ==> r.value < |items| && p(items[r.value]) && forall j :: 0 <= j < r.value ==> !p(items[j])
    ensures r.None? ==> forall j :: 0 <= j < |items| ==> !p(items[j])
  {
    if |items| == 0 then None
    else if p(items[0]) then Some(0)
    else match FirstIndex(items[1..], p)
      case None => None
      case Some(j) => Some(j + 1)
  }

  /** What a paste may append from a clipboard: the non-empty data URL of an
      image item, or, when there is no image item, the trimmed text of a
      plain-text item that looks like an image URL. */
  predicate PastedFrom(list: seq<ClipboardItem>, url: string) {
    || (exists i :: 0 <= i < |list| && IsImageItem(list[i]) && url != [] && url == list[i].file.value
                   && forall j :: 0 <= j < i ==> !IsImageItem(list[j]))
    || (&& (forall i :: 0 <= i < |list| ==> !IsImageItem(list[i]))
        && exists i :: 0 <= i < |list| && list[i].mimeType == "text/plain"
                       && url == Trim(list[i].text) && LooksLikeImageUrl(url))
  }

  /** `handlePaste`: nothing unless the area is focused, the clipboard has
      items and there is a free slot. Then the first image item's data URL
      is appended when it is non-empty; with no image item, the first
      plain-text item is trimmed and appended when it looks like an image
      URL. */
  function HandlePaste(focused: bool, items: Option<seq<ClipboardItem>>, urls: seq<string>, maxImages: int): (r: seq<string>)
    ensures !focused || items.None? || |urls| >= maxImages ==> r == urls
    ensures |r| == |urls| || |r| == |urls| + 1
    ensures r[..|urls|] == urls
    ensures |r| == |urls| + 1 ==> focused && |urls| < maxImages
    ensures |r| == |urls| + 1 ==> items.Some? && PastedFrom(items.value, r[|urls|])
  {
    if !focused || items.None? || |urls| >= maxImages then urls
    else
      var list := items.value;
      match FirstIndex(list, IsImageItem)
      case Some(i) =>
        var dataUrl := list[i].file.value;
        if dataUrl != [] then urls + [dataUrl] else urls
      case None =>
        match FirstIndex(list, (item: ClipboardItem) => item.mimeType == "text/plain")
        case None => urls
        case Some(i) =>
          var t := Trim(list[i].text);
          if LooksLikeImageUrl(t) then urls + [t] else urls
  }

  /** With the area focused and a free slot, a paste appends what it finds:
      the first image item's data URL when it is non-empty, or, with no
      image item at all, the trimmed text of the first plain-text item when
      it looks like an image URL. */
  lemma PasteAppendsWhatItFinds(focused: bool, items: Option<seq<ClipboardItem>>, urls: seq<string>, maxImages: int, i: int)
    requires focused && items.Some? && |urls| < maxImages && 0 <= i < |items.value|
    ensures var list := items.value;
      IsImageItem(list[i]) && (forall j :: 0 <= j < i ==> !IsImageItem(list[j])) && list[i].file.value != []
      ==> HandlePaste(focused, items, urls, maxImages) == urls + [list[i].file.value]
    ensures var list := items.value;
      && (forall j :: 0 <= j < |list| ==> !IsImageItem(list[j]))
      && list[i].mimeType == "text/plain" && (forall j :: 0 <= j < i ==> list[j].mimeType != "text/plain")
      && LooksLikeImageUrl(Trim(list[i].text))
      ==> HandlePaste(focused, items, urls, maxImages) == urls + [Trim(list[i].text)]
  {
    var list := items.value;
    if IsImageItem(list[i]) && forall j :: 0 <= j < i ==> !IsImageItem(list[j]) {
      FirstIndexAt(list, IsImageItem, i);
    }
    if (forall j :: 0 <= j < |list| ==> !IsImageItem(list[j])) && list[i].mimeType == "text/plain"
       && forall j :: 0 <= j < i ==> list[j].mimeType != "text/plain" {
      assert FirstIndex(list, IsImageItem).None?;
      FirstIndexAt(list, (item: ClipboardItem) => item.mimeType == "text/plain", i);
    }
  }

  /** The first index satisfying `p` is the one before which nothing does. */
  lemma FirstIndexAt(items: seq<ClipboardItem>, p: ClipboardItem -> bool, i: nat)
    requires i < |items| && p(items[i]) && forall j :: 0 <= j < i ==> !p(items[j])
    ensures FirstIndex(items, p) == Some(i)
  {
  }

  /** Pasting never takes a list of at most `maxImages` entries above it. */
  lemma PasteKeepsBound(focused: bool, items: Option<seq<ClipboardItem>>, urls: seq<string>, maxImages: int)
    requires |urls| <= maxImages
    ensures |HandlePaste(focused, items, urls, maxImages)| <= maxImages
  {
  }

  /** A query string after the extension and upper-case letters do not
      stop an image URL from being recognised. */
  lemma PastedTextExample()
    ensures LooksLikeImageUrl("http://a.PNG?x")
  {
    var l := ToLower("http://a.PNG?x");
    assert l == "http://a.png?x";
    assert !StartsWith(l, "https://") by {
      assert l[4] != "https://"[4];
    }
    assert StartsWith(l, "http://");
    assert ImageExtensions[2] == "png";
    assert l[9] == 'p' && l[10] == 'n' && l[11] == 'g';
    assert l[9..12] == "png";
    assert Tail(l, 12);
    assert ExtensionAt(l, 7, 8);
    assert MatchesImageUrlPattern("http://a.PNG?x");
  }
}
