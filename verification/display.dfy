/**
 * What the client shows for a resource: the card's file icon, extension badge and upvote
 * button, the preview panel's mode and title, and the profile's list of the user's uploads.
 */
module Display {
  import opened Wrappers
  import opened Strings
  import opened Numbers
  import opened Collections
  import opened ResourceModel
  import ResourceController
  import Uploader

  // ---------------------------------------------------------------------------
  // the card's file badge

  /** `getFileExtension`: the text after the last '.', upper-cased, or 'FILE' when that text
      is empty. A URL without a '.' is its own last piece. */
  function FileExtension(fileUrl: string): (badge: string)
    ensures badge != ""
    ensures LastPiece(fileUrl, '.') == "" ==> badge == "FILE"
    ensures LastPiece(fileUrl, '.') != "" ==> badge == Upper(LastPiece(fileUrl, '.'))
  {
    var extension := Lower(LastPiece(fileUrl, '.'));
    UpperLower(LastPiece(fileUrl, '.'));
    if extension != "" then Upper(extension) else "FILE"
  }

  /** The badge of `x.e`, for an extension without a '.', is `e` upper-cased. */
  lemma ExtensionAfterLastDot(x: string, e: string)
    requires '.' !in e && e != ""
    ensures FileExtension(x + "." + e) == Upper(e)
  {
    LastPieceAfterLast(x, e, '.');
  }

  /** A URL without any '.' shows itself upper-cased. */
  lemma ExtensionWithoutDot(url: string)
    requires '.' !in url && url != ""
    ensures FileExtension(url) == Upper(url)
  {
    LastPieceNoSep(url, '.');
  }

  /** A file stored under its object key, at any address ending in that key, shows its
      original extension on the card. */
  lemma StoredFileShowsExtension(host: string, uuid: string, now: int, stem: string, e: string)
    requires |stem| >= 1 && '/' !in stem && '/' !in e && '.' !in e && e != ""
    requires stem + "." + e != ".."
    ensures FileExtension(host + Uploader.ObjectKey(uuid, now, stem + "." + e)) == Upper(e)
  {
    var name := stem + "." + e;
    Uploader.ExtNameOfName(stem, e);
    var middle := Uploader.KeyPrefix + uuid + "-" + IntToDecimal(now);
    Uploader.ObjectKeyParts(uuid, now, name);
    DotJoin(host, middle, e);
    ExtensionAfterLastDot(host + middle, e);
  }

  /** Prefixing `middle + ("." + e)` is prefixing `middle` and then appending `"." + e`. */
  lemma DotJoin(host: string, middle: string, e: string)
    ensures host + (middle + ("." + e)) == host + middle + "." + e
  {
  }

  // ---------------------------------------------------------------------------
  // the card's file icon

  datatype FileIcon = PdfIcon | DocumentIcon | PresentationIcon | ImageIcon | GenericIcon

  predicate IsPdf(fileType: string) { Contains(fileType, "pdf") }

  predicate IsDocument(fileType: string) { Contains(fileType, "word") || Contains(fileType, "doc") }

  predicate IsPresentation(fileType: string)
  {
    Contains(fileType, "presentation") || Contains(fileType, "powerpoint") || Contains(fileType, "ppt")
  }

  /** The image test the card and the preview share: 'image', 'jpg', 'jpeg' or 'png'. */
  predicate IsImage(fileType: string)
  {
    Contains(fileType, "image") || Contains(fileType, "jpeg") || Contains(fileType, "jpg") || Contains(fileType, "png")
  }

  /** `getFileIcon`: the first category whose words the (case-sensitive) type contains, in the
      order PDF, document, presentation, image; generic otherwise. */
  function IconOf(fileType: string): (icon: FileIcon)
    ensures icon == PdfIcon <==> IsPdf(fileType)
    ensures icon == DocumentIcon <==> !IsPdf(fileType) && IsDocument(fileType)
    ensures icon == PresentationIcon <==> !IsPdf(fileType) && !IsDocument(fileType) && IsPresentation(fileType)
    ensures icon == ImageIcon <==>
      !IsPdf(fileType) && !IsDocument(fileType) && !IsPresentation(fileType) && IsImage(fileType)
  {
    if IsPdf(fileType) then PdfIcon
    else if IsDocument(fileType) then DocumentIcon
    else if IsPresentation(fileType) then PresentationIcon
    else if IsImage(fileType) then ImageIcon
    else GenericIcon
  }

  /** The Office Open XML types all contain "officedocument", hence "doc": unless they also
      mention "pdf" they get the document icon, so a PPTX or XLSX file never shows the
      presentation or generic icon. */
  lemma OfficeTypesShowAsDocuments(fileType: string)
    requires Contains(fileType, "officedocument") && !IsPdf(fileType)
    ensures IconOf(fileType) == DocumentIcon
  {
    var i := ContainsOccurs(fileType, "officedocument");
    assert fileType[i + 6..i + 9] == "officedocument"[6..9] == "doc";
    OccursContains(fileType, "doc", i + 6);
  }

  // ---------------------------------------------------------------------------
  // the card's upvote button

  /** The card's upvote state: the count it shows and whether a request is in flight. */
  datatype Card = Card(upvotes: int, upvoting: bool)

  /** A new card shows the resource's stored count. */
  function CardOf(r: Resource): (c: Card)
    ensures c.upvotes == r.upvotes && !c.upvoting
  {
    Card(r.upvotes, false)
  }

  /** A click: the card afterwards, the toast raised, and whether a request was sent. */
  datatype Press = Press(card: Card, toast: Option<string>, sends: bool)

  /** A click with nobody logged in only shows an error; a click while a request is in flight
      does nothing; otherwise the request goes out and the card is marked busy. */
  function PressUpvote(loggedIn: bool, c: Card): (p: Press)
    ensures p.sends <==> loggedIn && !c.upvoting
    ensures !loggedIn ==> p == Press(c, Some("Please log in to upvote resources"), false)
    ensures p.card.upvotes == c.upvotes
    ensures p.sends ==> p.card.upvoting && p.toast.None?
  {
    if !loggedIn then Press(c, Some("Please log in to upvote resources"), false)
    else if c.upvoting then Press(c, None, false)
    else Press(c.(upvoting := true), None, true)
  }

  /** The request's end: the card, the toast, and whether the page's `onUpvote` was called. */
  datatype Settled = Settled(card: Card, toast: string, notified: bool)

  /** On success the card shows the server's count and tells the page; on failure the count
      stays. The card is free again either way. */
  function SettleUpvote(c: Card, serverCount: Option<int>): (s: Settled)
    ensures !s.card.upvoting
    ensures s.notified <==> serverCount.Some?
    ensures serverCount.Some? ==> s.card.upvotes == serverCount.value && s.toast == "Resource upvoted!"
    ensures serverCount.None? ==> s.card.upvotes == c.upvotes && s.toast == "Failed to upvote resource"
  {
    match serverCount
    case Some(n) => Settled(Card(n, false), "Resource upvoted!", true)
    case None => Settled(c.(upvoting := false), "Failed to upvote resource", false)
  }

  /** Two clicks before the answer arrives send one request. */
  lemma DoubleClickSendsOnce(c: Card)
    ensures var first := PressUpvote(true, c);
      var second := PressUpvote(true, first.card);
      !c.upvoting ==> first.sends && !second.sends && second.card == first.card
  {
  }

  /** After a successful upvote request against a valid store, the card shows exactly the
      number of users now recorded as upvoters. */
  lemma CardShowsStoredUpvoters(store: Store, user: UserId, id: ResourceId,
                                now: Time, c: Card)
    requires ResourceController.StoreValid(store)
    requires ResourceController.UpvoteResource(store, Some(user), id, now).reply.Success?
    ensures var step := ResourceController.UpvoteResource(store, Some(user), id, now);
      var shown := SettleUpvote(PressUpvote(true, c).card, Some(step.reply.value.upvotes)).card.upvotes;
      shown == |step.store[FindIndex(store, id)].upvotedBy|
  {
    ResourceController.UpvoteKeepsValid(store, Some(user), id, now);
  }

  // ---------------------------------------------------------------------------
  // the preview panel

  /** What the panel shows: the document in a frame, the picture, or only a download link. */
  datatype Preview = PdfFrame(src: string) | ImageView(src: string) | NoPreview

  /** PDF first, then image, then nothing previewable. The frame hides the viewer's toolbar. */
  function PreviewOf(fileUrl: string, fileType: string): (v: Preview)
    ensures v.PdfFrame? <==> IsPdf(fileType)
    ensures v.ImageView? <==> !IsPdf(fileType) && IsImage(fileType)
    ensures v.PdfFrame? ==> v.src == fileUrl + "#toolbar=0" && StartsWith(v.src, fileUrl)
    ensures v.ImageView? ==> v.src == fileUrl
  {
    if IsPdf(fileType) then PdfFrame(fileUrl + "#toolbar=0")
    else if IsImage(fileType) then ImageView(fileUrl)
    else NoPreview
  }

  /** The panel and the card agree: the frame exactly for the PDF icon, and the picture for
      every type with the image icon. */
  lemma IconAgreesWithPreview(fileUrl: string, fileType: string)
    ensures PreviewOf(fileUrl, fileType).PdfFrame? <==> IconOf(fileType) == PdfIcon
    ensures IconOf(fileType) == ImageIcon ==> PreviewOf(fileUrl, fileType).ImageView?
    ensures PreviewOf(fileUrl, fileType).NoPreview? ==> IconOf(fileType) != ImageIcon && IconOf(fileType) != PdfIcon
  {
  }

  /** `fileName || fileUrl.split('/').pop() || 'document'`. */
  function DisplayName(fileName: Option<string>, fileUrl: string): (name: string)
    ensures name != ""
    ensures fileName.Some? && fileName.value != "" ==> name == fileName.value
    ensures (fileName.None? || fileName.value == "") ==>
      name == (if LastPiece(fileUrl, '/') != "" then LastPiece(fileUrl, '/') else "document")
  {
    if fileName.Some? && fileName.value != "" then fileName.value
    else if LastPiece(fileUrl, '/') != "" then LastPiece(fileUrl, '/')
    else "document"
  }

  /** Without a file name, the panel is titled with the URL's last path segment, and a URL
      ending in '/' gives 'document'. */
  lemma DisplayNameFromUrl(x: string, segment: string)
    requires '/' !in segment
    ensures DisplayName(None, x + "/" + segment) == if segment != "" then segment else "document"
  {
    LastPieceAfterLast(x, segment, '/');
  }

  // ---------------------------------------------------------------------------
  // the profile's uploads

  /** An upload as the profile receives it; the upvote count may be missing. */
  datatype UploadItem = UploadItem(
    title: string, subject: string, fileType: string, fileUrl: string,
    upvotes: Option<Num>, createdAt: Time)

  function CreatedOf(u: UploadItem): int { u.createdAt }

  /** The profile list: a skeleton while loading, then an error message, then the empty
      notice, then the uploads newest first. */
  datatype UploadsView = Skeleton | LoadError | NoUploads | UploadRows(items: seq<UploadItem>)

  function UploadsViewOf(loading: bool, failed: bool, uploads: seq<UploadItem>): (v: UploadsView)
    ensures loading <==> v.Skeleton?
    ensures v.LoadError? <==> !loading && failed
    ensures v.NoUploads? <==> !loading && !failed && |uploads| == 0
    ensures v.UploadRows? ==>
      && SortedDesc(CreatedOf, v.items) && multiset(v.items) == multiset(uploads)
      && |v.items| == |uploads| > 0
  {
    if loading then Skeleton
    else if failed then LoadError
    else if |uploads| == 0 then NoUploads
    else
      var sorted := SortDesc(CreatedOf, uploads);
      PermutationMembers(sorted, uploads);
      UploadRows(sorted)
  }

  /** The newest upload is listed first. */
  lemma NewestListedFirst(uploads: seq<UploadItem>, k: nat)
    requires k < |uploads|
    ensures var v := UploadsViewOf(false, false, uploads);
      v.UploadRows? && v.items[0].createdAt >= uploads[k].createdAt
  {
    var v := UploadsViewOf(false, false, uploads);
    assert uploads[k] in multiset(v.items);
    var j :| 0 <= j < |v.items| && v.items[j] == uploads[k];
  }

  /** `fileType.split('/')[1]`: the text between the first and the second '/', missing when
      there is no '/'. */
  function TypeLabel(fileType: string): (shown: Option<string>)
    ensures shown.Some? ==> '/' !in shown.value
    ensures shown.None? <==> '/' !in fileType
  {
    SplitManyIff(fileType, '/');
    var parts := Split(fileType, '/');
    if |parts| >= 2 then Some(parts[1]) else None
  }

  /** For a MIME type `top/sub` the label is the subtype. */
  lemma TypeLabelOfMime(top: string, sub: string)
    requires '/' !in top && '/' !in sub
    ensures TypeLabel(top + "/" + sub) == Some(sub)
  {
    SplitFirst(top, sub, '/');
    SplitNoSep(sub, '/');
  }

  /** `upload.upvotes || 0`: a missing, zero or NaN count shows as 0. */
  function ShownUpvotes(upvotes: Option<Num>): (n: int)
    ensures upvotes.Some? && upvotes.value.Int? ==> n == upvotes.value.v
    ensures upvotes.None? || upvotes.value.NaN? ==> n == 0
  {
    if upvotes.Some? && upvotes.value.Truthy() then upvotes.value.v else 0
  }
}
