/** The REST field providers of inc/api.php: the featured image payload
    (`sell_media_api_get_image`), the attachment list
    (`sell_media_api_get_attachments`), the pricing payload
    (`sell_media_api_get_pricing`) and the template decision
    (`sell_media_api_template_redirect`). WordPress lookups come from `Wp`. */
module RestFields {
  import opened WordPress

  // ---------------------------------------------------------------------------
  // Image sizes (lines 83-86 and 113-116)
  // ---------------------------------------------------------------------------

  /** The seven sizes every image payload lists, in this order. */
  const SIZES: seq<string> :=
    ["full", "large", "medium_large", "medium", "thumbnail", "srcset", "sell_media_square"]

  /** One `'sizes'[size] => wp_get_attachment_image_src(id, size, false)` entry. */
  datatype SizeEntry = SizeEntry(size: string, src: Option<ImageSrc>)

  /** The 'sizes' array of an image payload: entry k is size SIZES[k]. */
  function SizesFor(wp: Wp, id: int): seq<SizeEntry> {
    seq(|SIZES|, k requires 0 <= k < |SIZES| => SizeEntry(SIZES[k], wp.imageSrc(id, SIZES[k])))
  }

  /** Reading key `name` of a 'sizes' array. */
  function LookupSize(entries: seq<SizeEntry>, name: string): Option<Option<ImageSrc>>
    decreases |entries|
  {
    if entries == [] then None
    else if entries[0].size == name then Some(entries[0].src)
    else LookupSize(entries[1..], name)
  }

  /** Looking a key up in the entries from SIZES[j] on finds the source at
      that size exactly when the key is one of the remaining size names. */
  lemma {:induction false} SizesSuffixLookup(wp: Wp, id: int, j: nat, name: string)
    requires j <= |SIZES|
    ensures LookupSize(SizesFor(wp, id)[j..], name) ==
            if name in SIZES[j..] then Some(wp.imageSrc(id, name)) else None
    decreases |SIZES| - j
  {
    var e := SizesFor(wp, id);
    if j < |SIZES| {
      SizesSuffixLookup(wp, id, j + 1, name);
      assert e[j..][1..] == e[j + 1..];
      assert SIZES[j..] == [SIZES[j]] + SIZES[j + 1..];
    }
  }

  /** An image payload's 'sizes' array has seven entries, and key `name` holds
      the source at that size exactly for the seven listed sizes. */
  lemma SizesForLookup(wp: Wp, id: int, name: string)
    ensures |SizesFor(wp, id)| == 7
    ensures LookupSize(SizesFor(wp, id), name) ==
            if name in SIZES then Some(wp.imageSrc(id, name)) else None
  {
    SizesSuffixLookup(wp, id, 0, name);
    assert SizesFor(wp, id)[0..] == SizesFor(wp, id);
    assert SIZES[0..] == SIZES;
  }

  /** The foreach over the seven sizes. */
  method GetSizes(wp: Wp, id: int) returns (sizes: seq<SizeEntry>)
    ensures sizes == SizesFor(wp, id)
  {
    sizes := [];
    var i := 0;
    while i < |SIZES|
      invariant 0 <= i <= |SIZES|
      invariant sizes == SizesFor(wp, id)[..i]
    {
      sizes := sizes + [SizeEntry(SIZES[i], wp.imageSrc(id, SIZES[i]))];
      i := i + 1;
    }
  }

  // ---------------------------------------------------------------------------
  // Featured image (lines 70-89)
  // ---------------------------------------------------------------------------

  datatype ImagePayload = ImagePayload(id: int, title: string, alt: string, sizes: seq<SizeEntry>)

  /** The post thumbnail when the post has one, else the item's attachment. */
  function FeaturedImageId(wp: Wp, postId: int): int {
    if wp.hasThumbnail(postId) then wp.thumbnailId(postId) else wp.attachmentIdOf(postId)
  }

  /** The featured-image payload; nothing (a bare `return`) for an empty id. */
  function ImageFor(wp: Wp, postId: int): (r: Option<ImagePayload>)
    ensures r.None? <==> FeaturedImageId(wp, postId) == 0
    ensures r.Some? ==> r.value.id == FeaturedImageId(wp, postId) && r.value.sizes == SizesFor(wp, r.value.id)
  {
    var id := FeaturedImageId(wp, postId);
    if id == 0 then None
    else Some(ImagePayload(id, wp.title(id), wp.altText(id), SizesFor(wp, id)))
  }

  method GetImage(wp: Wp, postId: int) returns (r: Option<ImagePayload>)
    ensures r == ImageFor(wp, postId)
  {
    var id := if wp.hasThumbnail(postId) then wp.thumbnailId(postId) else wp.attachmentIdOf(postId);
    if id == 0 {
      return None;
    }
    var sizes := GetSizes(wp, id);
    r := Some(ImagePayload(id, wp.title(id), wp.altText(id), sizes));
  }

  // ---------------------------------------------------------------------------
  // Attachments (lines 94-119)
  // ---------------------------------------------------------------------------

  datatype AttachmentPayload = AttachmentPayload(
    id: nat, title: string, alt: string, url: string, slug: string, mimeType: string,
    keywords: seq<string>, file: string, embed: string, sizes: seq<SizeEntry>)

  /** `absint`: the absolute value of the integer. */
  function Absint(v: int): (r: nat)
    ensures r == v || r == -v
  {
    if v < 0 then -v else v
  }

  /** The record for stored attachment id `v` of item `postId`. Only 'id' is
      passed through absint; the lookups use the stored value, and 'embed' is
      read from the item, not from the attachment. */
  function AttachmentFor(wp: Wp, postId: int, v: int): AttachmentPayload {
    AttachmentPayload(Absint(v), wp.title(v), wp.altText(v), wp.permalink(v), wp.postName(v),
                      wp.mimeType(v), wp.keywords(v), wp.fileUrl(v), wp.embedLink(postId),
                      SizesFor(wp, v))
  }

  function AttachmentList(wp: Wp, postId: int, ids: seq<int>): seq<AttachmentPayload>
    decreases |ids|
  {
    if ids == [] then [] else [AttachmentFor(wp, postId, ids[0])] + AttachmentList(wp, postId, ids[1..])
  }

  /** The attachments payload: nothing when no ids are stored, else one record
      per stored id. */
  function AttachmentsFor(wp: Wp, postId: int): Option<seq<AttachmentPayload>> {
    var ids := wp.storedAttachmentIds(postId);
    if ids == [] then None else Some(AttachmentList(wp, postId, ids))
  }

  lemma {:induction false} AttachmentListAt(wp: Wp, postId: int, ids: seq<int>)
    ensures |AttachmentList(wp, postId, ids)| == |ids|
    ensures forall k :: 0 <= k < |ids| ==> AttachmentList(wp, postId, ids)[k] == AttachmentFor(wp, postId, ids[k])
    decreases |ids|
  {
    if ids != [] {
      AttachmentListAt(wp, postId, ids[1..]);
      forall k | 0 < k < |ids| ensures AttachmentList(wp, postId, ids)[k] == AttachmentFor(wp, postId, ids[k]) {
        assert AttachmentList(wp, postId, ids)[k] == AttachmentList(wp, postId, ids[1..])[k - 1];
      }
    }
  }

  lemma {:induction false} AttachmentListAppend(wp: Wp, postId: int, ids: seq<int>, v: int)
    ensures AttachmentList(wp, postId, ids + [v]) == AttachmentList(wp, postId, ids) + [AttachmentFor(wp, postId, v)]
    decreases |ids|
  {
    if ids == [] {
      assert ids + [v] == [v];
    } else {
      AttachmentListAppend(wp, postId, ids[1..], v);
      assert (ids + [v])[1..] == ids[1..] + [v];
    }
  }

  /** No stored ids give no payload; otherwise the payload has one record per
      stored id, in stored order, whose 'id' is the absolute stored value and
      whose 'embed' is the item's embed link. */
  lemma AttachmentsShape(wp: Wp, postId: int)
    ensures var ids := wp.storedAttachmentIds(postId);
            var r := AttachmentsFor(wp, postId);
            (r.None? <==> ids == []) &&
            (r.Some? ==>
               && |r.value| == |ids|
               && forall k :: 0 <= k < |ids| ==>
                    && r.value[k].id == Absint(ids[k])
                    && r.value[k].embed == wp.embedLink(postId)
                    && r.value[k].sizes == SizesFor(wp, ids[k]))
  {
    AttachmentListAt(wp, postId, wp.storedAttachmentIds(postId));
  }

  /** `sell_media_api_get_attachments`: nothing when no ids are stored. */
  method GetAttachments(wp: Wp, postId: int) returns (r: Option<seq<AttachmentPayload>>)
    ensures r == AttachmentsFor(wp, postId)
  {
    var ids := wp.storedAttachmentIds(postId);
    if ids == [] {
      return None;
    }
    var list := BuildAttachmentList(wp, postId, ids);
    r := Some(list);
  }

  /** The foreach over the stored ids, with the nested foreach over the sizes. */
  method BuildAttachmentList(wp: Wp, postId: int, ids: seq<int>) returns (list: seq<AttachmentPayload>)
    ensures list == AttachmentList(wp, postId, ids)
  {
    list := [];
    var i := 0;
    while i < |ids|
      invariant 0 <= i <= |ids|
      invariant list == AttachmentList(wp, postId, ids[..i])
    {
      var record := GetAttachment(wp, postId, ids[i]);
      AttachmentListAppend(wp, postId, ids[..i], ids[i]);
      assert ids[..i + 1] == ids[..i] + [ids[i]];
      list := list + [record];
      i := i + 1;
    }
    assert ids[..i] == ids;
  }

  /** The body of the outer foreach: one attachment's record. */
  method GetAttachment(wp: Wp, postId: int, v: int) returns (record: AttachmentPayload)
    ensures record == AttachmentFor(wp, postId, v)
  {
    var sizes := GetSizes(wp, v);
    record := AttachmentPayload(Absint(v), wp.title(v), wp.altText(v), wp.permalink(v),
                                wp.postName(v), wp.mimeType(v), wp.keywords(v), wp.fileUrl(v),
                                wp.embedLink(postId), sizes);
  }

  // ---------------------------------------------------------------------------
  // Pricing (lines 124-143)
  // ---------------------------------------------------------------------------

  datatype Pricing = Pricing(downloads: PriceTable, prints: PriceTable)

  /** The item whose prices are shown: an attachment shows its parent's. */
  function PricedItem(wp: Wp, postId: int): int {
    if wp.postType(postId) == "attachment" then wp.parentId(postId) else postId
  }

  /** `unset( $table[1] )`: the entry at key 1 (the parent price group) goes,
      every other entry stays as it was. */
  function WithoutParentTerm(t: PriceTable): (r: PriceTable)
    ensures 1 !in r
    ensures r.Keys == t.Keys - {1}
    ensures forall k :: k in r ==> r[k] == t[k]
  {
    t - {1}
  }

  function PricingFor(wp: Wp, postId: int): Pricing {
    var item := PricedItem(wp, postId);
    var attachment := wp.attachmentIdOf(item);
    Pricing(WithoutParentTerm(wp.downloadPrices(item, attachment)),
            WithoutParentTerm(wp.printPrices(item, attachment)))
  }

  /** Neither price table of a payload holds key 1, and every other key of the
      pricing component's tables for the priced item is kept. */
  lemma PricingDropsParentTerm(wp: Wp, postId: int)
    ensures var item := PricedItem(wp, postId);
            var a := wp.attachmentIdOf(item);
            var p := PricingFor(wp, postId);
            1 !in p.downloads && 1 !in p.prints &&
            p.downloads.Keys == wp.downloadPrices(item, a).Keys - {1} &&
            p.prints.Keys == wp.printPrices(item, a).Keys - {1}
  {
  }

  /** An attachment shows the same pricing as its parent item. */
  lemma AttachmentPricedAsParent(wp: Wp, attachmentId: int)
    requires wp.postType(attachmentId) == "attachment"
    requires wp.postType(wp.parentId(attachmentId)) != "attachment"
    ensures PricingFor(wp, attachmentId) == PricingFor(wp, wp.parentId(attachmentId))
  {
  }

  // ---------------------------------------------------------------------------
  // Template redirect (lines 329-349)
  // ---------------------------------------------------------------------------

  /** The state of the current WordPress request that the decision reads. */
  datatype TemplateContext = TemplateContext(
    isItemArchive: bool,                 // is_post_type_archive( item or attachment )
    isItemTaxonomy: bool,                // is_tax( the taxonomies of those types )
    queriedPostType: Option<string>,     // get_post_type(), false when there is none
    globalPost: Option<int>,             // the global $post, when not empty
    isSellMediaAttachment: int -> bool)  // sell_media_attachment

  const APP_INDEX: string := "/themes/index.php"

  /** The four conditions under which the plugin's app index is used. */
  predicate ServesApp(ctx: TemplateContext) {
    || ctx.isItemArchive
    || ctx.isItemTaxonomy
    || ctx.queriedPostType == Some("sell_media_item")
    || (ctx.globalPost.Some? && ctx.isSellMediaAttachment(ctx.globalPost.value))
  }

  /** The template WordPress is told to load. */
  function TemplateRedirect(ctx: TemplateContext, pluginDir: string, original: string): (r: string)
    ensures ServesApp(ctx) ==> r == pluginDir + APP_INDEX
    ensures !ServesApp(ctx) ==> r == original
  {
    if ServesApp(ctx) then pluginDir + APP_INDEX else original
  }

  /** Running the filter again on its own result changes nothing. */
  lemma TemplateRedirectIdempotent(ctx: TemplateContext, pluginDir: string, original: string)
    ensures TemplateRedirect(ctx, pluginDir, TemplateRedirect(ctx, pluginDir, original)) ==
            TemplateRedirect(ctx, pluginDir, original)
  {
  }
}
