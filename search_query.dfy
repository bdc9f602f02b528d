/** The keyword-search query builder of the REST search endpoint
    (inc/api.php, `sell_media_api_search_response` up to the query call, and
    `sell_media_api_get_mimetype`). The raw search string is cleaned, split on
    commas, partitioned into positive and negative keywords, and turned into a
    taxonomy filter over the "keywords" taxonomy, in AND or OR mode. */
module SearchQuery {
  import opened PhpText
  import opened WordPress

  // ---------------------------------------------------------------------------
  // Negative keywords: the pattern `\B-[^\B]+`
  // ---------------------------------------------------------------------------

  /** A PCRE word character (`\w` without locale or UTF mode). */
  predicate IsWordChar(c: char) {
    'a' <= c <= 'z' || 'A' <= c <= 'Z' || '0' <= c <= '9' || c == '_'
  }

  /** The negation pattern matches at index `i`: a hyphen at a position that is
      not a word boundary (the start of the term, or after a non-word
      character), followed by at least one character of `[^\B]`, which the
      PCRE library reads as "any character but B". */
  predicate NegativeAt(t: string, i: int) {
    0 <= i && i + 1 < |t| && t[i] == '-' && (i == 0 || !IsWordChar(t[i - 1])) && t[i + 1] != 'B'
  }

  /** `preg_grep` keeps a term when the pattern matches anywhere in it. */
  predicate IsNegative(t: string) {
    exists i :: 0 <= i < |t| && NegativeAt(t, i)
  }

  lemma NegativeHasHyphen(t: string)
    requires IsNegative(t)
    ensures '-' in t
  {
    var i :| 0 <= i < |t| && NegativeAt(t, i);
    assert t[i] == '-';
  }

  // ---------------------------------------------------------------------------
  // Term parsing (lines 185-195)
  // ---------------------------------------------------------------------------

  /** The search string with whitespace around commas removed, split on commas. */
  function SplitTerms(raw: string): (terms: seq<string>)
    ensures |terms| >= 1
    ensures forall k :: 0 <= k < |terms| ==> ',' !in terms[k]
  {
    SplitJoin(CollapseCommaSpace(raw));
    Split(CollapseCommaSpace(raw))
  }

  /** `preg_grep` for the negation pattern followed by the hyphen strip: the
      negative keywords, in the order of the terms they come from. */
  function NegativeTerms(terms: seq<string>): (negs: seq<string>)
    ensures |negs| <= |terms|
    ensures forall k :: 0 <= k < |negs| ==> '-' !in negs[k]
    decreases |terms|
  {
    if terms == [] then []
    else (if IsNegative(terms[0]) then [StripHyphens(terms[0])] else []) + NegativeTerms(terms[1..])
  }

  /** `array_diff`: the terms whose value is none of `negs`, in order. */
  function ArrayDiff(terms: seq<string>, negs: seq<string>): (r: seq<string>)
    ensures |r| <= |terms|
    decreases |terms|
  {
    if terms == [] then []
    else (if terms[0] in negs then [] else [terms[0]]) + ArrayDiff(terms[1..], negs)
  }

  /** A value survives `array_diff` exactly when it is a term and none of `negs`. */
  lemma {:induction false} ArrayDiffMembers(terms: seq<string>, negs: seq<string>, x: string)
    ensures x in ArrayDiff(terms, negs) <==> x in terms && x !in negs
    decreases |terms|
  {
    if terms != [] {
      ArrayDiffMembers(terms[1..], negs, x);
      assert terms == [terms[0]] + terms[1..];
    }
  }

  /** `array_filter` without a callback: the truthy terms, in order. */
  function ArrayFilter(terms: seq<string>): (r: seq<string>)
    ensures |r| <= |terms|
    decreases |terms|
  {
    if terms == [] then []
    else (if Truthy(terms[0]) then [terms[0]] else []) + ArrayFilter(terms[1..])
  }

  /** A value survives `array_filter` exactly when it is a truthy term. */
  lemma {:induction false} ArrayFilterMembers(terms: seq<string>, x: string)
    ensures x in ArrayFilter(terms) <==> x in terms && Truthy(x)
    decreases |terms|
  {
    if terms != [] {
      ArrayFilterMembers(terms[1..], x);
      assert terms == [terms[0]] + terms[1..];
    }
  }

  /** A value is a positive keyword exactly when it is a truthy term that is
      not a negative keyword. */
  lemma PositiveMembers(terms: seq<string>, x: string)
    ensures x in PositiveTerms(terms) <==> x in terms && x !in NegativeTerms(terms) && Truthy(x)
  {
    ArrayFilterMembers(ArrayDiff(terms, NegativeTerms(terms)), x);
    ArrayDiffMembers(terms, NegativeTerms(terms), x);
  }

  /** The positive keyword list: the terms minus every value equal to a
      stripped negative keyword, minus the falsy ones. */
  function PositiveTerms(terms: seq<string>): seq<string> {
    ArrayFilter(ArrayDiff(terms, NegativeTerms(terms)))
  }

  /** The negative keywords are exactly the stripped forms of the terms the
      pattern matches. */
  lemma {:induction false} NegativeTermsExact(terms: seq<string>, n: string)
    ensures n in NegativeTerms(terms) <==>
            exists i :: 0 <= i < |terms| && IsNegative(terms[i]) && StripHyphens(terms[i]) == n
    decreases |terms|
  {
    if terms != [] {
      NegativeTermsExact(terms[1..], n);
      if n in NegativeTerms(terms[1..]) {
        var i :| 0 <= i < |terms[1..]| && IsNegative(terms[1..][i]) && StripHyphens(terms[1..][i]) == n;
        assert terms[i + 1] == terms[1..][i];
      }
      if exists i :: 0 <= i < |terms| && IsNegative(terms[i]) && StripHyphens(terms[i]) == n {
        var i :| 0 <= i < |terms| && IsNegative(terms[i]) && StripHyphens(terms[i]) == n;
        if i > 0 {
          assert terms[1..][i - 1] == terms[i];
        }
      }
    }
  }

  /** A value is a positive keyword exactly when it is a truthy term that equals
      no stripped negative keyword. */
  lemma PositiveTermsExact(terms: seq<string>, x: string)
    ensures x in PositiveTerms(terms) <==>
            x in terms && Truthy(x) &&
            forall i :: 0 <= i < |terms| && IsNegative(terms[i]) ==> StripHyphens(terms[i]) != x
  {
    NegativeTermsExact(terms, x);
    PositiveMembers(terms, x);
  }

  /** A term that holds a hyphen, such as "-cow" itself, is never removed from
      the positive keywords: every stripped negative is hyphen-free. */
  lemma HyphenatedTermStays(terms: seq<string>, t: string)
    requires t in terms && '-' in t
    ensures t in PositiveTerms(terms)
  {
    PositiveMembers(terms, t);
    assert t !in NegativeTerms(terms);
    assert Truthy(t) by {
      assert t != "0" by { assert "0"[0] != '-'; }
    }
  }

  /** Every stripped negative keyword is absent from the positive keywords, so
      a literal positive "cow" disappears when "-cow" is searched. */
  lemma StrippedNegativeRemoved(terms: seq<string>, n: string)
    requires n in NegativeTerms(terms)
    ensures n !in PositiveTerms(terms)
  {
    PositiveMembers(terms, n);
  }

  /** `array_diff` keeps order: it distributes over concatenation. */
  lemma {:induction false} ArrayDiffAppend(a: seq<string>, b: seq<string>, negs: seq<string>)
    ensures ArrayDiff(a + b, negs) == ArrayDiff(a, negs) + ArrayDiff(b, negs)
    decreases |a|
  {
    if a != [] {
      ArrayDiffAppend(a[1..], b, negs);
      assert (a + b)[0] == a[0];
      assert (a + b)[1..] == a[1..] + b;
      if a[0] in negs {
        assert ArrayDiff(a + b, negs) == ArrayDiff(a[1..] + b, negs);
        assert ArrayDiff(a, negs) == ArrayDiff(a[1..], negs);
      } else {
        assert ArrayDiff(a + b, negs) == [a[0]] + ArrayDiff(a[1..] + b, negs);
        assert ArrayDiff(a, negs) == [a[0]] + ArrayDiff(a[1..], negs);
      }
    } else {
      assert a + b == b;
    }
  }

  /** `array_filter` keeps order: it distributes over concatenation. */
  lemma {:induction false} ArrayFilterAppend(a: seq<string>, b: seq<string>)
    ensures ArrayFilter(a + b) == ArrayFilter(a) + ArrayFilter(b)
    decreases |a|
  {
    if a != [] {
      ArrayFilterAppend(a[1..], b);
      assert (a + b)[0] == a[0];
      assert (a + b)[1..] == a[1..] + b;
      var h := if Truthy(a[0]) then [a[0]] else [];
      assert ArrayFilter(a + b) == h + (ArrayFilter(a[1..]) + ArrayFilter(b));
      assert ArrayFilter(a) == h + ArrayFilter(a[1..]);
    } else {
      assert a + b == b;
    }
  }

  // ---------------------------------------------------------------------------
  // Paging (lines 201-202) and the MIME filter (lines 358-370)
  // ---------------------------------------------------------------------------

  /** PHP `empty` of the page parameter: absent or 0. */
  predicate PageEmpty(page: Option<int>) {
    page.None? || page.value == 0
  }

  /** `intval` of an integer parameter; an absent one reads as 0. */
  function IntVal(page: Option<int>): int {
    if page.None? then 0 else page.value
  }

  /** The page number as the source computes it: the ternary keeps the
      parameter when it is EMPTY and uses 1 otherwise, so the requested page
      never reaches the query. */
  function Paged(page: Option<int>): (paged: int)
    ensures paged == 0 || paged == 1
    ensures paged == 0 <==> PageEmpty(page)
  {
    IntVal(if PageEmpty(page) then page else Some(1))
  }

  /** `post_mime_type` of the query: a list of MIME types, or '' (no restriction). */
  datatype MimeFilter = AnyMime | MimeList(types: seq<string>)

  const IMAGE_MIMES: seq<string> :=
    ["image/jpeg", "image/gif", "image/png", "image/bmp", "image/tiff", "image/x-icon"]
  const VIDEO_MIMES: seq<string> :=
    ["video/x-ms-asf", "video/x-ms-wmv", "video/x-ms-wmx", "video/x-ms-wm", "video/avi",
     "video/divx", "video/x-flv", "video/quicktime", "video/mpeg", "video/mp4", "video/ogg",
     "video/webm", "video/x-matroska"]
  const AUDIO_MIMES: seq<string> :=
    ["audio/mpeg", "audio/x-realaudio", "audio/wav", "audio/ogg", "audio/midi",
     "audio/x-ms-wma", "audio/x-ms-wax", "audio/x-matroska"]

  predicate HasPrefix(s: string, p: string) {
    |p| <= |s| && s[..|p|] == p
  }

  /** Every entry of a MIME list begins with `family/`. */
  predicate AllInFamily(types: seq<string>, family: string) {
    forall k :: 0 <= k < |types| ==> HasPrefix(types[k], family + "/")
  }

  /** The product type of the request as a MIME filter: a fixed list for
      image, video and audio, each entry of that family; '' for anything else. */
  function GetMimetype(productType: string): (r: MimeFilter)
    ensures r.MimeList? <==> productType == "image" || productType == "video" || productType == "audio"
    ensures r.MimeList? ==> |r.types| > 0 && AllInFamily(r.types, productType)
    ensures productType == "image" ==> |r.types| == 6
    ensures productType == "video" ==> |r.types| == 13
    ensures productType == "audio" ==> |r.types| == 8
  {
    if productType == "image" then MimeList(IMAGE_MIMES)
    else if productType == "video" then MimeList(VIDEO_MIMES)
    else if productType == "audio" then MimeList(AUDIO_MIMES)
    else AnyMime
  }

  // ---------------------------------------------------------------------------
  // The taxonomy filter (lines 204-240)
  // ---------------------------------------------------------------------------

  /** The 'terms' entry of a clause: one name, or a list of names. */
  datatype Terms = OneTerm(name: string) | TermList(names: seq<string>)

  /** An element of a tax_query array: a clause, or a plain nested array of clauses. */
  datatype TaxNode =
    | Clause(taxonomy: string, field: string, terms: Terms, operator: Option<string>)
    | Group(nodes: seq<TaxNode>)

  /** The tax_query array: an optional 'relation' entry and its numbered elements. */
  datatype TaxQuery = TaxQuery(relation: Option<string>, nodes: seq<TaxNode>)

  /** The AND-mode clause for one positive keyword. */
  function NameClause(s: string): TaxNode {
    Clause("keywords", "name", OneTerm(s), None)
  }

  /** The AND-mode clause that excludes one negative keyword. */
  function ExcludeClause(n: string): TaxNode {
    Clause("keywords", "name", TermList([n]), Some("NOT IN"))
  }

  function NameClauses(pos: seq<string>): seq<TaxNode>
    decreases |pos|
  {
    if pos == [] then [] else [NameClause(pos[0])] + NameClauses(pos[1..])
  }

  function ExcludeClauses(negs: seq<string>): seq<TaxNode>
    decreases |negs|
  {
    if negs == [] then [] else [ExcludeClause(negs[0])] + ExcludeClauses(negs[1..])
  }

  /** The clause list AND mode builds: positives first, then negatives. */
  function AndClauses(pos: seq<string>, negs: seq<string>): seq<TaxNode> {
    NameClauses(pos) + ExcludeClauses(negs)
  }

  lemma {:induction false} NameClausesAt(pos: seq<string>)
    ensures |NameClauses(pos)| == |pos|
    ensures forall k :: 0 <= k < |pos| ==> NameClauses(pos)[k] == NameClause(pos[k])
    decreases |pos|
  {
    if pos != [] {
      NameClausesAt(pos[1..]);
      forall k | 0 < k < |pos| ensures NameClauses(pos)[k] == NameClause(pos[k]) {
        assert NameClauses(pos)[k] == NameClauses(pos[1..])[k - 1];
      }
    }
  }

  lemma {:induction false} ExcludeClausesAt(negs: seq<string>)
    ensures |ExcludeClauses(negs)| == |negs|
    ensures forall k :: 0 <= k < |negs| ==> ExcludeClauses(negs)[k] == ExcludeClause(negs[k])
    decreases |negs|
  {
    if negs != [] {
      ExcludeClausesAt(negs[1..]);
      forall k | 0 < k < |negs| ensures ExcludeClauses(negs)[k] == ExcludeClause(negs[k]) {
        assert ExcludeClauses(negs)[k] == ExcludeClauses(negs[1..])[k - 1];
      }
    }
  }

  /** AND mode emits one name clause per positive keyword, in order, then one
      NOT IN clause per negative keyword, in order. */
  lemma AndClausesShape(pos: seq<string>, negs: seq<string>)
    ensures |AndClauses(pos, negs)| == |pos| + |negs|
    ensures forall k :: 0 <= k < |pos| ==> AndClauses(pos, negs)[k] == NameClause(pos[k])
    ensures forall k :: 0 <= k < |negs| ==> AndClauses(pos, negs)[|pos| + k] == ExcludeClause(negs[k])
  {
    NameClausesAt(pos);
    ExcludeClausesAt(negs);
  }

  /** The name a single-name clause requires. */
  function IncludedBy(n: TaxNode): seq<string> {
    if n.Clause? && n.terms.OneTerm? && n.operator.None? then [n.terms.name] else []
  }

  /** The names a NOT IN clause excludes. */
  function ExcludedBy(n: TaxNode): seq<string> {
    if n.Clause? && n.terms.TermList? && n.operator == Some("NOT IN") then n.terms.names else []
  }

  /** The names a clause list requires, read back from its single-name clauses. */
  function IncludedNames(nodes: seq<TaxNode>): seq<string>
    decreases |nodes|
  {
    if nodes == [] then [] else IncludedBy(nodes[0]) + IncludedNames(nodes[1..])
  }

  /** The names a clause list excludes, read back from its NOT IN clauses. */
  function ExcludedNames(nodes: seq<TaxNode>): seq<string>
    decreases |nodes|
  {
    if nodes == [] then [] else ExcludedBy(nodes[0]) + ExcludedNames(nodes[1..])
  }

  lemma {:induction false} IncludedNamesAppend(a: seq<TaxNode>, b: seq<TaxNode>)
    ensures IncludedNames(a + b) == IncludedNames(a) + IncludedNames(b)
    decreases |a|
  {
    if a == [] {
      assert a + b == b;
    } else {
      IncludedNamesAppend(a[1..], b);
      assert (a + b)[0] == a[0];
      assert (a + b)[1..] == a[1..] + b;
      var h := IncludedBy(a[0]);
      assert IncludedNames(a + b) == h + (IncludedNames(a[1..]) + IncludedNames(b));
      assert IncludedNames(a) == h + IncludedNames(a[1..]);
    }
  }

  lemma {:induction false} ExcludedNamesAppend(a: seq<TaxNode>, b: seq<TaxNode>)
    ensures ExcludedNames(a + b) == ExcludedNames(a) + ExcludedNames(b)
    decreases |a|
  {
    if a == [] {
      assert a + b == b;
    } else {
      ExcludedNamesAppend(a[1..], b);
      assert (a + b)[0] == a[0];
      assert (a + b)[1..] == a[1..] + b;
      var h := ExcludedBy(a[0]);
      assert ExcludedNames(a + b) == h + (ExcludedNames(a[1..]) + ExcludedNames(b));
      assert ExcludedNames(a) == h + ExcludedNames(a[1..]);
    }
  }

  lemma {:induction false} NameClausesRoundTrip(pos: seq<string>)
    ensures IncludedNames(NameClauses(pos)) == pos
    ensures ExcludedNames(NameClauses(pos)) == []
    decreases |pos|
  {
    if pos != [] {
      NameClausesRoundTrip(pos[1..]);
      var c := NameClauses(pos);
      assert c[0] == NameClause(pos[0]);
      assert c[1..] == NameClauses(pos[1..]);
      assert IncludedBy(c[0]) == [pos[0]];
      assert ExcludedBy(c[0]) == [];
      assert IncludedNames(c) == [pos[0]] + pos[1..];
    }
  }

  lemma {:induction false} ExcludeClausesRoundTrip(negs: seq<string>)
    ensures IncludedNames(ExcludeClauses(negs)) == []
    ensures ExcludedNames(ExcludeClauses(negs)) == negs
    decreases |negs|
  {
    if negs != [] {
      ExcludeClausesRoundTrip(negs[1..]);
      var c := ExcludeClauses(negs);
      assert c[0] == ExcludeClause(negs[0]);
      assert c[1..] == ExcludeClauses(negs[1..]);
      assert IncludedBy(c[0]) == [];
      assert ExcludedBy(c[0]) == [negs[0]];
      assert ExcludedNames(c) == [negs[0]] + negs[1..];
    }
  }

  /** The AND clause list loses nothing: reading the required and excluded
      names back gives the positive and negative keywords. */
  lemma AndClausesRoundTrip(pos: seq<string>, negs: seq<string>)
    ensures IncludedNames(AndClauses(pos, negs)) == pos
    ensures ExcludedNames(AndClauses(pos, negs)) == negs
  {
    NameClausesRoundTrip(pos);
    ExcludeClausesRoundTrip(negs);
    IncludedNamesAppend(NameClauses(pos), ExcludeClauses(negs));
    ExcludedNamesAppend(NameClauses(pos), ExcludeClauses(negs));
  }

  /** The two foreach loops of AND mode, appending one clause per keyword. */
  method BuildAndClauses(pos: seq<string>, negs: seq<string>) returns (clauses: seq<TaxNode>)
    ensures clauses == AndClauses(pos, negs)
  {
    clauses := [];
    var i := 0;
    while i < |pos|
      invariant 0 <= i <= |pos|
      invariant |clauses| == i
      invariant forall k :: 0 <= k < i ==> clauses[k] == NameClause(pos[k])
    {
      clauses := clauses + [NameClause(pos[i])];
      i := i + 1;
    }
    var j := 0;
    while j < |negs|
      invariant 0 <= j <= |negs|
      invariant |clauses| == |pos| + j
      invariant forall k :: 0 <= k < |pos| ==> clauses[k] == NameClause(pos[k])
      invariant forall k :: 0 <= k < j ==> clauses[|pos| + k] == ExcludeClause(negs[k])
    {
      clauses := clauses + [ExcludeClause(negs[j])];
      j := j + 1;
    }
    var spec := AndClauses(pos, negs);
    AndClausesShape(pos, negs);
    forall k | 0 <= k < |clauses| ensures clauses[k] == spec[k] {
      if k >= |pos| {
        var m := k - |pos|;
        assert clauses[|pos| + m] == ExcludeClause(negs[m]);
        assert spec[|pos| + m] == ExcludeClause(negs[m]);
      }
    }
  }

  /** The single OR-mode clause: the positives plus the raw search string with
      commas turned into spaces. */
  function OrClause(pos: seq<string>, raw: string): TaxNode {
    Clause("keywords", "name", TermList(pos + [CommasToSpaces(raw)]), None)
  }

  /** AND mode is on exactly when the search_relation setting is 'and'. */
  predicate AndMode(relation: string) {
    relation == "and"
  }

  /** The tax_query of the search: in AND mode the clause list sits as ONE
      nested element beside 'relation' => 'AND'; otherwise one OR clause. */
  function BuildTaxQuery(relation: string, pos: seq<string>, negs: seq<string>, raw: string): TaxQuery {
    if AndMode(relation) then TaxQuery(Some("AND"), [Group(AndClauses(pos, negs))])
    else TaxQuery(None, [OrClause(pos, raw)])
  }

  /** AND mode: one group holding |pos| + |negs| clauses from which both keyword
      lists read back unchanged. */
  lemma AndModeQuery(relation: string, pos: seq<string>, negs: seq<string>, raw: string)
    requires AndMode(relation)
    ensures var q := BuildTaxQuery(relation, pos, negs, raw);
            q.relation == Some("AND") && |q.nodes| == 1 && q.nodes[0].Group? &&
            |q.nodes[0].nodes| == |pos| + |negs| &&
            IncludedNames(q.nodes[0].nodes) == pos && ExcludedNames(q.nodes[0].nodes) == negs
  {
    AndClausesShape(pos, negs);
    AndClausesRoundTrip(pos, negs);
  }

  /** OR mode: a single clause with |pos| + 1 names, the positives in order and
      then the raw search string with every comma turned into a space. */
  lemma OrModeQuery(relation: string, pos: seq<string>, negs: seq<string>, raw: string)
    requires !AndMode(relation)
    ensures var q := BuildTaxQuery(relation, pos, negs, raw);
            q.relation.None? && |q.nodes| == 1 && q.nodes[0].Clause? &&
            q.nodes[0].operator.None? && q.nodes[0].terms.TermList? &&
            |q.nodes[0].terms.names| == |pos| + 1 &&
            q.nodes[0].terms.names[..|pos|] == pos &&
            q.nodes[0].terms.names[|pos|] == CommasToSpaces(raw) &&
            ',' !in q.nodes[0].terms.names[|pos|]
  {
    var names := pos + [CommasToSpaces(raw)];
    assert names[..|pos|] == pos;
  }

  // ---------------------------------------------------------------------------
  // The query arguments (lines 180-250)
  // ---------------------------------------------------------------------------

  /** The request parameters: 's', 'type' and 'page' (declared as an integer).
      An absent string parameter reads as "". */
  datatype Request = Request(s: string, productType: string, page: Option<int>)

  /** The WP_Query arguments the endpoint builds. */
  datatype QueryArgs = QueryArgs(
    postType: string,
    paged: int,
    postStatus: seq<string>,
    mime: MimeFilter,
    parentIn: seq<int>,
    taxQuery: TaxQuery)

  /** The query for a request, given the search_relation setting and the ids
      of the catalog's items (`sell_media_ids()`). */
  function SearchArgs(req: Request, relation: string, itemIds: seq<int>): QueryArgs {
    var terms := SplitTerms(req.s);
    var negs := NegativeTerms(terms);
    var pos := PositiveTerms(terms);
    QueryArgs("attachment", Paged(req.page), ["publish", "inherit"], GetMimetype(req.productType),
              itemIds, BuildTaxQuery(relation, pos, negs, req.s))
  }

  /** The query arguments built step by step, as the endpoint does. */
  method BuildSearchArgs(req: Request, relation: string, itemIds: seq<int>) returns (args: QueryArgs)
    ensures args == SearchArgs(req, relation, itemIds)
  {
    var terms := SplitTerms(req.s);
    var negs := NegativeTerms(terms);
    var pos := PositiveTerms(terms);
    var mime := GetMimetype(req.productType);
    var paged := Paged(req.page);
    var taxQuery: TaxQuery;
    if AndMode(relation) {
      var clauses := BuildAndClauses(pos, negs);
      taxQuery := TaxQuery(Some("AND"), [Group(clauses)]);
    } else {
      var searchTerms := pos + [CommasToSpaces(req.s)];
      taxQuery := TaxQuery(None, [Clause("keywords", "name", TermList(searchTerms), None)]);
    }
    args := QueryArgs("attachment", paged, ["publish", "inherit"], mime, itemIds, taxQuery);
  }

  /** The raw phrase of OR mode is never one of the stripped negatives: a
      negative comes from a hyphenated term, and the phrase keeps its hyphens. */
  lemma OrModeDropsNegatives(req: Request, relation: string, itemIds: seq<int>, n: string)
    requires !AndMode(relation)
    requires n in NegativeTerms(SplitTerms(req.s))
    ensures var q := SearchArgs(req, relation, itemIds).taxQuery;
            n !in q.nodes[0].terms.names
  {
    var terms := SplitTerms(req.s);
    var pos := PositiveTerms(terms);
    StrippedNegativeRemoved(terms, n);
    NegativeTermsExact(terms, n);
    var i :| 0 <= i < |terms| && IsNegative(terms[i]) && StripHyphens(terms[i]) == n;
    NegativeHasHyphen(terms[i]);
    var c := CollapseCommaSpace(req.s);
    SplitFieldChars(c, i, '-');
    CollapseKeepsNonSpace(req.s);
    assert '-' in NonSpace(c);
    assert '-' in req.s;
    var k :| 0 <= k < |req.s| && req.s[k] == '-';
    assert CommasToSpaces(req.s)[k] == '-';
    assert CommasToSpaces(req.s) != n;
    assert n !in pos + [CommasToSpaces(req.s)];
  }

  /** "water,-cow" splits into "water" and "-cow". */
  lemma WaterMinusCowTerms()
    ensures SplitTerms("water,-cow") == ["water", "-cow"]
  {
    WaterMinusCowCleaned();
    WaterMinusCowSplit();
  }

  lemma WaterMinusCowCleaned()
    ensures CollapseCommaSpace("water,-cow") == "water,-cow"
  {
    var raw := "water,-cow";
    assert forall i :: 0 <= i < |raw| ==> !IsSpace(raw[i]);
    CollapseWithoutSpace(raw);
  }

  lemma WaterMinusCowSplit()
    ensures Split("water,-cow") == ["water", "-cow"]
  {
    var fields := ["water", "-cow"];
    assert fields[1..] == ["-cow"];
    assert Join(fields) == "water,-cow";
    assert forall k :: 0 <= k < |fields| ==> ',' !in fields[k];
    JoinSplit(fields);
  }

  /** Of "water" and "-cow" only "-cow" is negative; its keyword is "cow". */
  lemma WaterMinusCowNegatives()
    ensures NegativeTerms(["water", "-cow"]) == ["cow"]
  {
    assert NegativeAt("-cow", 0);
    assert StripHyphens("-cow") == "cow";
    assert !IsNegative("water") by {
      forall i | 0 <= i < 5 ensures !NegativeAt("water", i) {
        assert "water"[i] != '-';
      }
    }
    var terms := ["water", "-cow"];
    assert terms[1..] == ["-cow"];
    assert ["-cow"][1..] == [];
  }

  /** An example query, `s=water,-cow&type=image&page=1`: the term "-cow"
      stays positive beside "water", "cow" is the negative keyword, the image
      MIME list is used and the page is 1. */
  lemma WaterMinusCow(relation: string, itemIds: seq<int>)
    ensures var terms := SplitTerms("water,-cow");
            PositiveTerms(terms) == ["water", "-cow"] &&
            NegativeTerms(terms) == ["cow"] &&
            SearchArgs(Request("water,-cow", "image", Some(1)), relation, itemIds).mime == MimeList(IMAGE_MIMES) &&
            SearchArgs(Request("water,-cow", "image", Some(1)), relation, itemIds).paged == 1
  {
    WaterMinusCowTerms();
    WaterMinusCowNegatives();
    WaterMinusCowPositives();
    WaterMinusCowArgs(relation, itemIds);
  }

  /** Neither "water" nor "-cow" equals "cow", and both are truthy. */
  lemma WaterMinusCowPositives()
    ensures PositiveTerms(["water", "-cow"]) == ["water", "-cow"]
  {
    var terms := ["water", "-cow"];
    WaterMinusCowNegatives();
    assert terms[1..] == ["-cow"];
    assert ["-cow"][1..] == [];
    assert ArrayDiff(["-cow"], ["cow"]) == ["-cow"];
    assert ArrayDiff(terms, ["cow"]) == terms;
    assert ArrayFilter(["-cow"]) == ["-cow"];
    assert ArrayFilter(terms) == terms;
  }

  lemma WaterMinusCowArgs(relation: string, itemIds: seq<int>)
    ensures SearchArgs(Request("water,-cow", "image", Some(1)), relation, itemIds).mime == MimeList(IMAGE_MIMES)
    ensures SearchArgs(Request("water,-cow", "image", Some(1)), relation, itemIds).paged == 1
  {
    assert !PageEmpty(Some(1));
  }
}
