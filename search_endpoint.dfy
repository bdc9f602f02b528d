/** The REST search endpoint `sell-media/v2/search` (inc/api.php,
    `sell_media_api_search_response`): build the query, run it, and turn each
    matching attachment into a record shaped like the item endpoint's, or
    answer with the no-results error. */
module SearchEndpoint {
  import opened WordPress
  import opened SearchQuery
  import opened RestFields

  /** A post returned by the query: ID, post_parent, post_title, post_name. */
  datatype Post = Post(id: int, parent: int, title: string, name: string)

  /** One element of the response array (lines 267-285). */
  datatype SearchRecord = SearchRecord(
    id: int,
    parent: int,
    title: string,
    slug: string,
    parentSlug: string,
    link: string,
    content: string,
    featuredImage: Option<ImagePayload>,
    attachments: Option<seq<AttachmentPayload>>,
    pricing: Pricing,
    sell: seq<string>)

  /** The endpoint's answer: the WP_Error for no results, or the records. */
  datatype Response = NoResults(code: string, message: string) | Results(records: seq<SearchRecord>)

  const NO_RESULTS_CODE: string := "sell_media_no_search_results"
  const NO_RESULTS_MESSAGE: string := "No results"

  /** The record of one post. The payload providers receive the post's own id;
      the content is whatever `get_the_content()` yields for the global post. */
  function RecordFor(wp: Wp, p: Post): SearchRecord {
    SearchRecord(p.id, p.parent, p.title, p.name, wp.postName(p.parent), wp.permalink(p.id),
                 wp.content, ImageFor(wp, p.id), AttachmentsFor(wp, p.id), PricingFor(wp, p.id),
                 ["Downloads"])
  }

  function RecordsFor(wp: Wp, posts: seq<Post>): seq<SearchRecord>
    decreases |posts|
  {
    if posts == [] then [] else [RecordFor(wp, posts[0])] + RecordsFor(wp, posts[1..])
  }

  /** The answer for the posts the query returned. */
  function ResponseFor(wp: Wp, posts: seq<Post>): Response {
    if posts == [] then NoResults(NO_RESULTS_CODE, NO_RESULTS_MESSAGE)
    else Results(RecordsFor(wp, posts))
  }

  lemma {:induction false} RecordsForAt(wp: Wp, posts: seq<Post>)
    ensures |RecordsFor(wp, posts)| == |posts|
    ensures forall k :: 0 <= k < |posts| ==> RecordsFor(wp, posts)[k] == RecordFor(wp, posts[k])
    decreases |posts|
  {
    if posts != [] {
      RecordsForAt(wp, posts[1..]);
      forall k | 0 < k < |posts| ensures RecordsFor(wp, posts)[k] == RecordFor(wp, posts[k]) {
        assert RecordsFor(wp, posts)[k] == RecordsFor(wp, posts[1..])[k - 1];
      }
    }
  }

  lemma {:induction false} RecordsForAppend(wp: Wp, posts: seq<Post>, p: Post)
    ensures RecordsFor(wp, posts + [p]) == RecordsFor(wp, posts) + [RecordFor(wp, p)]
    decreases |posts|
  {
    if posts == [] {
      assert posts + [p] == [p];
    } else {
      RecordsForAppend(wp, posts[1..], p);
      assert (posts + [p])[1..] == posts[1..] + [p];
    }
  }

  /** Zero posts give the `sell_media_no_search_results` error and no records;
      otherwise there is one record per post, in query order, carrying that
      post's id and parent. */
  lemma ResponseShape(wp: Wp, posts: seq<Post>)
    ensures var r := ResponseFor(wp, posts);
            (r.NoResults? <==> posts == []) &&
            (r.NoResults? ==> r.code == NO_RESULTS_CODE && r.message == NO_RESULTS_MESSAGE) &&
            (r.Results? ==>
               && |r.records| == |posts|
               && forall k :: 0 <= k < |posts| ==>
                    r.records[k].id == posts[k].id && r.records[k].parent == posts[k].parent)
  {
    RecordsForAt(wp, posts);
  }

  /** One record, filled in field by field from the payload providers. */
  method BuildRecord(wp: Wp, post: Post) returns (record: SearchRecord)
    ensures record == RecordFor(wp, post)
  {
    var image := GetImage(wp, post.id);
    var attachments := GetAttachments(wp, post.id);
    var pricing := PricingFor(wp, post.id);
    var parentSlug := wp.postName(post.parent);
    record := SearchRecord(post.id, post.parent, post.title, post.name, parentSlug,
                           wp.permalink(post.id), wp.content, image, attachments, pricing, ["Downloads"]);
  }

  /** The foreach over the returned posts, one record per post. */
  method BuildRecords(wp: Wp, posts: seq<Post>) returns (results: seq<SearchRecord>)
    ensures results == RecordsFor(wp, posts)
  {
    results := [];
    var i := 0;
    while i < |posts|
      invariant 0 <= i <= |posts|
      invariant results == RecordsFor(wp, posts[..i])
    {
      var record := BuildRecord(wp, posts[i]);
      RecordsForAppend(wp, posts[..i], posts[i]);
      assert posts[..i + 1] == posts[..i] + [posts[i]];
      results := results + [record];
      i := i + 1;
    }
    assert posts[..i] == posts;
  }

  /** The endpoint: `query` stands for WP_Query, `relation` for the
      search_relation setting and `itemIds` for `sell_media_ids()`. */
  method SearchResponse(wp: Wp, req: Request, relation: string, itemIds: seq<int>,
                        query: QueryArgs -> seq<Post>) returns (r: Response)
    ensures r == ResponseFor(wp, query(SearchArgs(req, relation, itemIds)))
  {
    var args := BuildSearchArgs(req, relation, itemIds);
    var posts := query(args);
    var results := BuildRecords(wp, posts);
    if results == [] {
      RecordsForAt(wp, posts);
      return NoResults(NO_RESULTS_CODE, NO_RESULTS_MESSAGE);
    }
    r := Results(results);
  }
}
