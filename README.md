# Sell Media: search query builder, REST payloads and protected media

This project models the logic core of the Sell Media WordPress plugin in Dafny:

- the keyword search of the REST endpoint `sell-media/v2/search`
  (`sell_media_api_search_response` in `inc/api.php`);
- the MIME filter of the search (`sell_media_api_get_mimetype`);
- the shape rules of the REST payloads: featured image, attachment list,
  pricing (`sell_media_api_get_image`, `sell_media_api_get_attachments`,
  `sell_media_api_get_pricing`);
- the template decision (`sell_media_api_template_redirect`);
- in `inc/admin-mime-types.php`, the icon MIME switch of
  `sell_media_item_icon` and the steps of
  `sell_media_move_image_from_attachment`: IPTC saves, path derivation,
  directory creation and the two copies.

## Modules

- `PhpText` (`php_text.dfy`) holds the PHP string operations the parser uses:
  - the `\s*,\s*` clean-up;
  - the comma split that stands for `str_getcsv`;
  - hyphen stripping and comma-to-space replacement;
  - string truthiness.
- `WordPress` (`wordpress.dfy`) is the record `Wp` of read-only host services
  (`get_the_title`, `get_post_meta`, `wp_get_attachment_image_src`, ...).
  They are taken as uninterpreted functions.
- `SearchQuery` (`search_query.dfy`) covers term parsing, negative keywords,
  the page number, the MIME filter and the `tax_query` in both modes. It also
  builds the `WP_Query` arguments.
- `RestFields` (`rest_fields.dfy`) holds the image, attachment and pricing
  payloads and the template decision.
- `SearchEndpoint` (`search_endpoint.dfy`) runs the query, given as a
  parameter. It turns each post into a record, or returns the no-results error.
- `ItemIcon` (`item_icon.dfy`) is the attachment icon decision.
- `ProtectedMedia` (`protected_media.dfy`) covers paths, `dirname`/`basename`
  and IPTC gating. It also has a `Host` class with directories, files and an
  effect log, which the relocation method changes step by step.

Where the source changes state step by step, the model does too. The
`foreach` loops that build the clause list, the size entries, the attachment
list and the result list are methods with loops. Each is proved equal to a
specification function, and the properties are lemmas about that function.

## Behaviour as written

The model follows the code. In these places the code differs from a natural
reading of the endpoint's documentation:

- For `s=water,-cow`, the positive keywords are `["water", "-cow"]`, not
  `["water"]`. `array_diff` compares the terms with the stripped negatives,
  so `"-cow"` stays. A literal positive `"cow"` would be removed
  (`SearchQuery.WaterMinusCow`, `SearchQuery.HyphenatedTermStays`,
  `SearchQuery.StrippedNegativeRemoved`).
- The page ternary is inverted. An empty `page` gives `paged` 0, and any
  other page gives 1, so the requested page never reaches the query. There is
  no default of 1 for a missing page (`SearchQuery.Paged`).
- Every hyphen of a negative term is stripped, not only the leading one.
- `"0"` is dropped by `array_filter` like `""`.
- OR mode ignores the negative keywords.
- In AND mode the clause list is one nested element beside
  `'relation' => 'AND'`, not a flat list of clauses.
- The negation pattern `\B-[^\B]+` is read as the older PCRE library reads
  it. The hyphen must be at the start of the term or after a non-word
  character, and `[^\B]` means "any character but `B`".

## Model

| member | source | states |
|---|---|---|
| PhpText.CollapseKeepsNonSpace | inc/api.php:185 | the comma clean-up removes only whitespace: the non-whitespace characters, commas included, survive in order |
| PhpText.CollapseIsTight | inc/api.php:185 | after the clean-up no whitespace character stands right before or right after a comma |
| PhpText.CollapseWithoutSpace | inc/api.php:185 | a search string without whitespace is left unchanged by the clean-up |
| PhpText.CollapseWithoutComma | inc/api.php:185 | a search string without a comma is left unchanged |
| PhpText.CollapseFirstComma | inc/api.php:185 | at the first comma, the whitespace right before and right after it goes and everything before it stays; with the row above this fixes the clean-up on every input, so multi-word keywords such as "ice cream" stay whole beside commas |
| PhpText.TrimEnd | inc/api.php:185 | a prefix of the input; what it drops is whitespace; it does not end in whitespace |
| PhpText.Split | inc/api.php:186 | splitting always yields at least one field (the empty string gives one empty field) |
| PhpText.SplitJoin | inc/api.php:186 | joining the fields with commas gives back the split string, and no field holds a comma |
| PhpText.JoinSplit | inc/api.php:186 | the other direction: comma-free fields come back unchanged from splitting their join |
| PhpText.SplitFieldChars | inc/api.php:186 | every character of a split field occurs in the split string |
| PhpText.StripHyphens | inc/api.php:191 | the result holds no hyphen and every other character that occurs in the input; a hyphen-free string is unchanged |
| PhpText.StripHyphensCounts | inc/api.php:191 | exactly the hyphens go: every other character keeps its number of occurrences |
| PhpText.StripHyphensAppend | inc/api.php:191 | stripping distributes over concatenation, so the kept characters stay in order |
| PhpText.CommasToSpaces | inc/api.php:231 | same length as the raw string, no comma left, every comma now a space and every other character in place |
| SearchQuery.NegativeHasHyphen | inc/api.php:190 | a term the negation pattern matches contains a hyphen |
| SearchQuery.SplitTerms | inc/api.php:185-186 | the cleaned and split terms: at least one, none holding a comma |
| SearchQuery.NegativeTerms | inc/api.php:190-191 | at most one negative keyword per term, and no negative keyword holds a hyphen |
| SearchQuery.NegativeTermsExact | inc/api.php:190-191 | a value is a negative keyword exactly when some term matches the pattern and strips to it |
| SearchQuery.ArrayDiffMembers | inc/api.php:194 | a value survives `array_diff` exactly when it is a term and equals no negative keyword |
| SearchQuery.ArrayFilterMembers | inc/api.php:195 | a value survives `array_filter` exactly when it is a term and truthy (not "" and not "0") |
| SearchQuery.ArrayDiffAppend | inc/api.php:194 | `array_diff` keeps order: it distributes over concatenation |
| SearchQuery.ArrayFilterAppend | inc/api.php:195 | `array_filter` keeps order: it distributes over concatenation |
| SearchQuery.PositiveMembers | inc/api.php:194-195 | a value is a positive keyword exactly when it is a truthy term that is not a negative keyword |
| SearchQuery.PositiveTermsExact | inc/api.php:185-195 | the same in terms of the split terms: truthy, and no matching term strips to it |
| SearchQuery.HyphenatedTermStays | inc/api.php:194 | a term holding a hyphen, such as "-cow", is always a positive keyword |
| SearchQuery.StrippedNegativeRemoved | inc/api.php:194 | a negative keyword, such as a literal "cow", is never a positive keyword |
| SearchQuery.Paged | inc/api.php:201-202 | the page is 0 or 1, and it is 0 exactly when the page parameter is empty |
| SearchQuery.GetMimetype | inc/api.php:358-370 | a MIME list exactly for image, video and audio, of 6, 13 and 8 entries, each entry in that family; '' otherwise |
| SearchQuery.NameClausesAt | inc/api.php:206-213 | one name clause per positive keyword, clause k for keyword k |
| SearchQuery.ExcludeClausesAt | inc/api.php:214-222 | one NOT IN clause per negative keyword, clause k for keyword k |
| SearchQuery.AndClausesShape | inc/api.php:205-222 | the AND clause list has pos+negs clauses: the name clauses first, then the NOT IN clauses |
| SearchQuery.NameClausesRoundTrip | inc/api.php:206-213 | reading the names back from the name clauses gives the positives and no exclusions |
| SearchQuery.ExcludeClausesRoundTrip | inc/api.php:214-222 | reading the names back from the NOT IN clauses gives the negatives and no required names |
| SearchQuery.AndClausesRoundTrip | inc/api.php:205-222 | the AND clause list loses nothing: both keyword lists read back unchanged |
| SearchQuery.BuildAndClauses | inc/api.php:205-222 | the two foreach loops build exactly the AND clause list |
| SearchQuery.AndModeQuery | inc/api.php:204-227 | AND mode: relation AND and one nested group of pos+negs clauses, from which both lists read back |
| SearchQuery.OrModeQuery | inc/api.php:228-240 | OR mode: one clause with pos+1 names, the positives in order, then the raw search string (not the cleaned one) with every comma replaced by a space |
| SearchQuery.OrModeDropsNegatives | inc/api.php:228-240 | in OR mode no negative keyword appears among the clause's names |
| SearchQuery.BuildSearchArgs | inc/api.php:180-250 | the query arguments built step by step equal the specified query for the request |
| SearchQuery.WaterMinusCow | inc/api.php:184-202 | for s=water,-cow, type=image, page=1: positives ["water","-cow"], negatives ["cow"], the image MIME list, page 1 |
| RestFields.SizesSuffixLookup | inc/api.php:83-86 | looking a key up from any entry on finds the source at that size exactly when the key is among the remaining size names |
| RestFields.SizesForLookup | inc/api.php:83-86 | a 'sizes' array has 7 entries, and a key holds the source at that size exactly for the seven listed sizes |
| RestFields.GetSizes | inc/api.php:83-86 | the foreach over the sizes builds exactly the payload's 'sizes' array |
| RestFields.ImageFor | inc/api.php:70-89 | no payload exactly when the featured attachment id is empty; otherwise that id with its sizes |
| RestFields.GetImage | inc/api.php:70-89 | the image provider returns exactly the specified payload |
| RestFields.Absint | inc/api.php:102 | the stored id's absolute value, a natural number |
| RestFields.AttachmentListAt | inc/api.php:101-117 | one record per stored id, record k built from id k |
| RestFields.AttachmentsShape | inc/api.php:94-119 | no payload exactly when no ids are stored; otherwise one record per id in order, with the absint id, the item's embed link and the id's sizes |
| RestFields.GetAttachments | inc/api.php:94-119 | the attachments provider returns exactly the specified payload |
| RestFields.BuildAttachmentList | inc/api.php:101-117 | the outer foreach builds exactly the attachment list |
| RestFields.GetAttachment | inc/api.php:102-116 | the body of the outer foreach builds the record of one stored id |
| RestFields.WithoutParentTerm | inc/api.php:140-141 | key 1 is gone, every other key stays, and with its value unchanged |
| RestFields.PricingDropsParentTerm | inc/api.php:124-143 | neither price table holds key 1, and every other key of the priced item's tables is kept |
| RestFields.AttachmentPricedAsParent | inc/api.php:130-135 | an attachment shows the same pricing as its parent item |
| RestFields.TemplateRedirect | inc/api.php:329-349 | the plugin's app index when any of the four conditions holds, the original template otherwise |
| RestFields.TemplateRedirectIdempotent | inc/api.php:338-348 | applying the filter again to its own result changes nothing |
| SearchEndpoint.RecordsForAt | inc/api.php:256-286 | one record per post, record k built from post k |
| SearchEndpoint.ResponseShape | inc/api.php:256-292 | the no-results error exactly when there are no posts; otherwise one record per post in order, with its id and parent |
| SearchEndpoint.BuildRecord | inc/api.php:257-285 | the loop body builds the specified record of one post |
| SearchEndpoint.BuildRecords | inc/api.php:256-286 | the foreach over the posts builds exactly the record list |
| SearchEndpoint.SearchResponse | inc/api.php:160-292 | the endpoint answers with the response specified for what the query returns on the built arguments |
| ItemIcon.IconMimeFamilies | inc/admin-mime-types.php:143-163 | the switch maps to 'video/mpeg' exactly the video aliases, to 'text/document' exactly the document aliases, and leaves other types unchanged |
| ItemIcon.IconMimeIdempotent | inc/admin-mime-types.php:150-162 | folding a folded MIME type again changes nothing |
| ItemIcon.ItemIcon | inc/admin-mime-types.php:136-165 | no output exactly for an empty id; the attachment's own image exactly for JPEG, PNG and GIF; otherwise the icon of the folded MIME type |
| ProtectedMedia.LastSlash | inc/admin-mime-types.php:107 | the index of the last '/' of a path, or -1 when it has none |
| ProtectedMedia.PathUnderPrefix | inc/admin-mime-types.php:103-107 | a prefix before a path with a directory part prefixes its dirname and keeps its basename |
| ProtectedMedia.ProtectedMirrorsOriginal | inc/admin-mime-types.php:103 | the protected path mirrors the original of line 79: its directory is the original's YYYY/MM part under the protected subdirectory, with the same basename |
| ProtectedMedia.IptcSaveGate | inc/admin-mime-types.php:88-100 | a field is saved, with its value and the attachment id, exactly when the id is not empty and the value is truthy |
| ProtectedMedia.IptcSaveOrder | inc/admin-mime-types.php:88-100 | the saves follow the field order city, state, creator, keywords |
| ProtectedMedia.UnfoldSaves | inc/admin-mime-types.php:88-100 | with a non-empty id, the saves are the four guarded saves in order |
| ProtectedMedia.MkdirBeforeCopy | inc/admin-mime-types.php:102-128 | a missing directory is created once, right before the original is copied into it; an existing one is not created; the resized image is copied last |
| ProtectedMedia.Host.MakeDirectory | inc/admin-mime-types.php:108 | `wp_mkdir_p` adds the directory and logs it; files unchanged |
| ProtectedMedia.Host.CopyFile | inc/admin-mime-types.php:125 | `@copy` writes the source's content to the target when the source file and the target's directory exist, and otherwise changes nothing |
| ProtectedMedia.Host.SaveIptcField | inc/admin-mime-types.php:90 | the save is logged; directories and files unchanged |
| ProtectedMedia.SaveIfTruthy | inc/admin-mime-types.php:89-90 | one guarded save: logged exactly when the value is truthy |
| ProtectedMedia.SaveIptcFields | inc/admin-mime-types.php:88-100 | the log grows by exactly the specified saves; directories and files unchanged |
| ProtectedMedia.EnsureDirectory | inc/admin-mime-types.php:107-109 | the directory is created and logged exactly when no file or directory of that name exists |
| ProtectedMedia.CopyResult | inc/admin-mime-types.php:125 | one `@copy`: the target takes the source's content when the source file and the target's directory exist, otherwise nothing changes; no other path is touched and the source stays |
| ProtectedMedia.RelocationKeepsOthers | inc/admin-mime-types.php:124-128 | the relocation copies and does not move: every path other than the two targets, the original upload included, keeps its presence and content |
| ProtectedMedia.RelocationTargets | inc/admin-mime-types.php:124-128 | the protected copy holds the original's content when it can be written and the second copy goes elsewhere; the renamed copy holds the resized image's content when it can be written |
| ProtectedMedia.CopyOriginalAndResized | inc/admin-mime-types.php:124-128 | directories unchanged; the files are exactly those after the two copies in order; two copies logged |
| ProtectedMedia.MoveImageFromAttachment | inc/admin-mime-types.php:74-129 | the log grows by exactly the specified effects; the directory set grows by the protected directory exactly when it was missing; the files are exactly those after the two copies; every other path keeps its presence and content; the protected file then holds the original's content |

## Left out

- Hook and route registration, shortcodes, `apply_filters` (taken as the identity) and the `sell_media_api_get_meta` field: framework glue without logic.
- `sell_media_api_get_search_args`: it only declares the parameter schema. `SearchQuery.Request` carries the three parameters it declares.
- Query execution (`WP_Query`), `sell_media_ids()`, `sell_media_get_plugin_options()` and the pricing component's `get_prices` are external. They are parameters or fields of `WordPress.Wp`.
- `str_getcsv` quote handling and line endings: the split is a plain split on commas. `str_getcsv` also drops a trailing `\r`, `\n` or `\r\n` from the last unquoted field, which the model keeps: for `water,-cow` followed by a newline, PHP's negative keyword is "cow" and the model's is "cow" with the newline. A missing `s` reads as "", which gives one empty term, as `str_getcsv` gives one null term. Both are falsy.
- PCRE details beyond the model's reading of `\B-[^\B]+`: word characters are ASCII only. Newer PCRE (PCRE2, PHP 7.3 and later) rejects `\B` inside a class. There the pattern does not compile and `preg_grep` returns `false`. Line 191 turns that `false` into the string "", so line 194 passes a string to `array_diff`, which is a TypeError on PHP 8. By reading, not by execution.
- PHP array keys: `array_diff`, `array_filter` and `unset` keep keys, and the JSON encoding of a list with gaps is an object. The model keeps values in order and drops keys. Price tables keep their integer keys.
- SearchQuery.GetMimetype: the MIME list is the query argument as such. How WordPress matches it against posts is not modelled.
- ItemIcon.ItemIcon: the HTML markup is not produced, nor the width and height attributes of the `<img>` tag. The size is passed to the image lookup. A `false` MIME type of a missing attachment is modelled as a string.
- The IPTC parser, the term save, image resizing (`image_make_intermediate_size`, `image_resize`), the WordPress version check and the `date('m')` path component are not modelled. The resized image's path is a parameter. The file the resize writes (lines 118 and 121) is not part of the modelled file state. On the newer branch (line 119) the source builds it from `$destination`, which is undefined in that function.
- `sell_media_move_image_from_meta` and `sell_media_default_move` are not part of this model. They depend on undefined variables.
- ProtectedMedia.Dirname: `dirname` of paths with trailing or repeated slashes is not modelled.
- ProtectedMedia.Host.MakeDirectory: `wp_mkdir_p` creates missing parent directories too and can fail. The model creates exactly the one directory and always succeeds.
- ProtectedMedia.MoveImageFromAttachment: the content guarantee assumes the protected directory is not already an ordinary file, and that the renamed resized image does not land on the protected path.
- Concurrency between uploads is not modelled: every request runs alone.
