/** The WordPress services the plugin calls, taken as uninterpreted functions.
    Post and attachment ids are integers; an "empty" id (null, false, 0) is 0. */
module WordPress {

  datatype Option<+T> = None | Some(value: T)

  /** What `wp_get_attachment_image_src` returns: url, width and height. */
  datatype ImageSrc = ImageSrc(url: string, width: int, height: int)

  /** One row of a price table returned by the pricing component. */
  datatype PriceRow = PriceRow(fields: map<string, string>)

  /** A price table, keyed as the pricing component keys it. */
  type PriceTable = map<int, PriceRow>

  /** The host's read-only services, one field per WordPress call. */
  datatype Wp = Wp(
    hasThumbnail: int -> bool,           // has_post_thumbnail
    thumbnailId: int -> int,             // get_post_thumbnail_id
    attachmentIdOf: int -> int,          // sell_media_get_attachment_id
    title: int -> string,                // get_the_title
    altText: int -> string,              // get_post_meta( id, '_wp_attachment_image_alt', true )
    imageSrc: (int, string) -> Option<ImageSrc>,  // wp_get_attachment_image_src( id, size, false )
    storedAttachmentIds: int -> seq<int>,  // get_post_meta( id, '_sell_media_attachment_id', true )
    permalink: int -> string,            // get_permalink
    postName: int -> string,             // the post_name field (get_post_field / get_post)
    mimeType: int -> string,             // get_post_mime_type
    keywords: int -> seq<string>,        // wp_get_post_terms( id, 'keywords', names )
    fileUrl: int -> string,              // wp_get_attachment_url
    embedLink: int -> string,            // get_post_meta( id, 'sell_media_embed_link', true )
    postType: int -> string,             // get_post_type
    parentId: int -> int,                // wp_get_post_parent_id
    downloadPrices: (int, int) -> PriceTable,  // get_prices( post, attachment )
    printPrices: (int, int) -> PriceTable,     // get_prices( post, attachment, 'reprints-price-group' )
    mimeIcon: string -> string,          // wp_mime_type_icon
    content: string                      // get_the_content() for the global post
  )
}
