/** The attachment icon of inc/admin-mime-types.php (`sell_media_item_icon`):
    JPEG, PNG and GIF attachments are shown as their own image; every other
    attachment gets the host's icon for its MIME type, after video and
    document types are folded onto one representative each. */
module ItemIcon {
  import opened WordPress

  /** What the function prints. */
  datatype IconOutput =
    | NoOutput                                    // empty attachment id: a bare return
    | AttachmentImage(src: Option<ImageSrc>)      // `<img>` of the attachment at the size
    | TypeIcon(lookupMime: string, url: string)   // `<img>` of wp_mime_type_icon( lookupMime )

  /** The cases that return the attachment's own image. */
  predicate IsInlineImage(m: string) {
    m == "image/jpeg" || m == "image/png" || m == "image/gif"
  }

  /** The cases folded onto 'video/mpeg'. */
  predicate IsVideoAlias(m: string) {
    m == "video/mpeg" || m == "video/mp4" || m == "video/quicktime" || m == "application/octet-stream"
  }

  /** The cases folded onto 'text/document'. */
  predicate IsDocumentAlias(m: string) {
    m == "text/csv" || m == "text/plain" || m == "text/xml" || m == "text/document" || m == "application/pdf"
  }

  /** The MIME type handed to the icon lookup, as the switch rebinds it. */
  function IconMime(m: string): string {
    if IsVideoAlias(m) then "video/mpeg"
    else if IsDocumentAlias(m) then "text/document"
    else m
  }

  /** The switch partitions MIME types: the video family and only it maps to
      'video/mpeg', the document family and only it to 'text/document', and
      anything else passes through unchanged. */
  lemma IconMimeFamilies(m: string)
    ensures IconMime(m) == "video/mpeg" <==> IsVideoAlias(m)
    ensures IconMime(m) == "text/document" <==> IsDocumentAlias(m)
    ensures !IsVideoAlias(m) && !IsDocumentAlias(m) ==> IconMime(m) == m
  {
  }

  /** Folding is idempotent: a folded type is its own representative. */
  lemma IconMimeIdempotent(m: string)
    ensures IconMime(IconMime(m)) == IconMime(m)
  {
  }

  /** The printed output for `attachmentId` at `size`. */
  function ItemIcon(wp: Wp, attachmentId: int, size: string): (r: IconOutput)
    ensures r.NoOutput? <==> attachmentId == 0
    ensures r.AttachmentImage? <==> attachmentId != 0 && IsInlineImage(wp.mimeType(attachmentId))
    ensures r.AttachmentImage? ==> r.src == wp.imageSrc(attachmentId, size)
    ensures r.TypeIcon? ==>
              && r.lookupMime == IconMime(wp.mimeType(attachmentId))
              && r.url == wp.mimeIcon(r.lookupMime)
              && !IsInlineImage(r.lookupMime)
              && IconMime(r.lookupMime) == r.lookupMime
  {
    if attachmentId == 0 then NoOutput
    else
      var m := wp.mimeType(attachmentId);
      if IsInlineImage(m) then AttachmentImage(wp.imageSrc(attachmentId, size))
      else
        var lookup := IconMime(m);
        TypeIcon(lookup, wp.mimeIcon(lookup))
  }
}
