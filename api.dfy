/**
 * The client side of the platform's fan API: the seed token of the
 * collection endpoint, its pagination loop, the choice of a release's
 * download page item, and the two-step resolution of a download link
 * (the per-format link is rewritten into a "stat" URL whose response wraps
 * the real link).
 *
 * HTTP exchanges, the JSON decoder, the HTML unescaper and the two regular
 * expressions that cut a JSON text out of a page are parameters: a scripted
 * reply per request, or a total function standing for the library.
 */
module Api {
  import opened Results
  import opened Strings
  import opened Errors
  import Data

  // ---------------------------------------------------------------------
  // Decoded responses
  // ---------------------------------------------------------------------

  /** One purchased item of the collection summary. */
  datatype TrAlbumLookupItem = TrAlbumLookupItem(itemType: string, itemId: int, bandId: int, purchased: string)

  /** The fan's collection summary; the lookup of purchased items may be missing. */
  datatype FanCollectionSummary = FanCollectionSummary(
    fanId: int,
    username: string,
    url: string,
    tralbumLookup: Option<map<string, TrAlbumLookupItem>>)

  datatype ParsedFanCollectionSummary = ParsedFanCollectionSummary(fanId: int, collectionSummary: FanCollectionSummary)

  /** One page of the collection endpoint: sale ids to download-page URLs, and where to continue. */
  datatype ParsedCollectionItems = ParsedCollectionItems(
    moreAvailable: bool,
    lastToken: string,
    redownloadUrls: map<string, string>)

  /** One encoding of a digital item. */
  datatype DownloadData = DownloadData(sizeMb: string, description: string, encodingName: string, url: string)

  /** A purchased release as described on its download page. */
  datatype DigitalItem = DigitalItem(
    downloads: Option<map<Data.DownloadFormat, DownloadData>>,
    packageReleaseDate: Option<string>,
    title: string,
    artist: string,
    downloadType: string,
    downloadTypeStr: string,
    itemType: string,
    artId: int)

  /** The data blob of a download page. */
  datatype ParsedBandcampData = ParsedBandcampData(digitalItems: seq<DigitalItem>)

  /** The payload of the stat endpoint. */
  datatype ParsedStatDownload = ParsedStatDownload(downloadUrl: Option<string>, url: string)

  // ---------------------------------------------------------------------
  // Seed token
  // ---------------------------------------------------------------------

  /** `"{timestamp}:{item_id}:{item_type}::"`, the timestamp being whole seconds since the epoch. */
  function GenerateToken(timestamp: nat, itemId: int, itemType: string): string {
    NatToString(timestamp) + ":" + IntToString(itemId) + ":" + itemType + "::"
  }

  predicate NoColon(s: string) {
    forall i :: 0 <= i < |s| ==> s[i] != ':'
  }

  /** A printed integer is digits after an optional `-`, so it holds no `:`. */
  lemma IntToStringNoColon(i: int)
    ensures NoColon(IntToString(i))
  {
    if i < 0 {
      var d := NatToString(-i);
      assert forall k :: 1 <= k < |"-" + d| ==> ("-" + d)[k] == d[k - 1];
    }
  }

  /**
   * The token splits at `:` into the timestamp, the item id, the item type
   * and two empty fields, as long as the item type holds no `:`.
   */
  lemma TokenFields(timestamp: nat, itemId: int, itemType: string)
    requires NoColon(itemType)
    ensures Split(GenerateToken(timestamp, itemId, itemType), ':')
            == [NatToString(timestamp), IntToString(itemId), itemType, "", ""]
  {
    IntToStringNoColon(itemId);
    assert NoColon(NatToString(timestamp)) by {
      var ts := NatToString(timestamp);
      assert forall k :: 0 <= k < |ts| ==> IsDigit(ts[k]);
    }
    TokenShape(NatToString(timestamp), IntToString(itemId), itemType);
  }

  /** Three colon-free fields joined as the token is. */
  lemma TokenShape(a: string, b: string, t: string)
    requires NoColon(a) && NoColon(b) && NoColon(t)
    ensures Split(a + ":" + b + ":" + t + "::", ':') == [a, b, t, "", ""]
  {
    var t3 := t + "::";
    var s2 := b + [':'] + t3;
    TokenTail(t);
    SplitAt(b, ':', t3);
    SplitAt(a, ':', s2);
    TokenConcat(a, b, t);
    Pieces(a, b, t, Split(a + [':'] + s2, ':'), Split(s2, ':'), Split(t3, ':'));
  }

  lemma Pieces(a: string, b: string, t: string, x: seq<string>, y: seq<string>, z: seq<string>)
    requires z == [t, "", ""] && y == [b] + z && x == [a] + y
    ensures x == [a, b, t, "", ""]
  {
  }

  lemma TokenConcat(a: string, b: string, t: string)
    ensures a + ":" + b + ":" + t + "::" == a + [':'] + (b + [':'] + (t + "::"))
  {
  }

  /** The item type and the two empty fields after it. */
  lemma TokenTail(itemType: string)
    requires NoColon(itemType)
    ensures Split(itemType + "::", ':') == [itemType, "", ""]
  {
    SplitNone("", ':');
    SplitAt("", ':', "");
    assert "" + [':'] + "" == ":";
    SplitAt(itemType, ':', ":");
    assert itemType + [':'] + ":" == itemType + "::";
  }

  /** Reading the token's fields back recovers the `u64` timestamp and the `i64` item id. */
  lemma TokenRoundTrip(timestamp: nat, itemId: int, itemType: string)
    requires timestamp <= U64_MAX && I64_MIN <= itemId <= I64_MAX && NoColon(itemType)
    ensures var fields := Split(GenerateToken(timestamp, itemId, itemType), ':');
      |fields| == 5 && ParseU64(fields[0]) == Ok(timestamp) && ParseI64(fields[1]) == Ok(itemId) &&
      fields[2] == itemType
  {
    TokenFields(timestamp, itemId, itemType);
    ParseU64OfNatToString(timestamp);
    ParseI64OfIntToString(itemId);
  }

  // ---------------------------------------------------------------------
  // Pagination of the collection endpoint
  // ---------------------------------------------------------------------

  /**
   * A POST to the collection endpoint, kept as the values it is formatted
   * from; `RequestUrl` and `RequestBody` give its text.
   */
  datatype CollectionRequest = CollectionRequest(fanId: int, collectionName: string, olderThanToken: string)

  const COLLECTION_ENDPOINT := "https://bandcamp.com/api/fancollection/1/"
  const FAN_ID_FIELD := "{\"fan_id\": "
  const TOKEN_FIELD := ", \"older_than_token\": \""
  const BODY_CLOSE := "\"}"

  /** The URL a page request is posted to. */
  function RequestUrl(r: CollectionRequest): string {
    COLLECTION_ENDPOINT + r.collectionName
  }

  /** The JSON body of a page request. */
  function RequestBody(r: CollectionRequest): string {
    FAN_ID_FIELD + IntToString(r.fanId) + TOKEN_FIELD + r.olderThanToken + BODY_CLOSE
  }

  /** The URL names the collection: different collections are posted to different URLs. */
  lemma RequestUrlNamesCollection(r1: CollectionRequest, r2: CollectionRequest)
    ensures RequestUrl(r1) == RequestUrl(r2) <==> r1.collectionName == r2.collectionName
  {
    if RequestUrl(r1) == RequestUrl(r2) {
      var n := |COLLECTION_ENDPOINT|;
      assert r1.collectionName == RequestUrl(r1)[n..];
      assert r2.collectionName == RequestUrl(r2)[n..];
    }
  }

  /** For one fan, the body names the token: different tokens give different bodies. */
  lemma RequestBodyNamesToken(r1: CollectionRequest, r2: CollectionRequest)
    requires r1.fanId == r2.fanId
    ensures RequestBody(r1) == RequestBody(r2) <==> r1.olderThanToken == r2.olderThanToken
  {
    var head := FAN_ID_FIELD + IntToString(r1.fanId) + TOKEN_FIELD;
    assert RequestBody(r1) == head + r1.olderThanToken + BODY_CLOSE;
    assert RequestBody(r2) == head + r2.olderThanToken + BODY_CLOSE;
    if RequestBody(r1) == RequestBody(r2) {
      var b := RequestBody(r1);
      assert r1.olderThanToken == b[|head|..|b| - |BODY_CLOSE|];
      assert r2.olderThanToken == b[|head|..|b| - |BODY_CLOSE|];
    }
  }

  /** The server's reply to one request, already decoded; an error stands for a failed request or decode. */
  type PageReply = Result<ParsedCollectionItems, ReleaseRetrievalError>

  /** A reply that ends the loop: a failure, or a page with `more_available` false. */
  predicate IsLastReply(reply: PageReply) {
    reply.Err? || !reply.value.moreAvailable
  }

  predicate Terminates(replies: seq<PageReply>) {
    exists k :: 0 <= k < |replies| && IsLastReply(replies[k])
  }

  /** The index of the first reply that ends the loop, at or after `from`. */
  function LastRequestFrom(replies: seq<PageReply>, from: nat): (k: nat)
    requires exists k :: from <= k < |replies| && IsLastReply(replies[k])
    ensures from <= k < |replies| && IsLastReply(replies[k])
    ensures forall j :: from <= j < k ==> !IsLastReply(replies[j])
    decreases |replies| - from
  {
    if IsLastReply(replies[from]) then from else LastRequestFrom(replies, from + 1)
  }

  /** The index of the last request the loop makes. */
  function LastRequest(replies: seq<PageReply>): (k: nat)
    requires Terminates(replies)
    ensures k < |replies| && IsLastReply(replies[k])
    ensures forall j :: 0 <= j < k ==> replies[j].Ok? && replies[j].value.moreAvailable
  {
    LastRequestFrom(replies, 0)
  }

  /** The token request `i` carries: the seed first, then the previous page's `last_token`. */
  function TokenOf(seed: string, replies: seq<PageReply>, i: nat): string
    requires i <= |replies| && forall j :: 0 <= j < i ==> replies[j].Ok?
  {
    if i == 0 then seed else replies[i - 1].value.lastToken
  }

  /** The union of the first `n` pages' URL maps, taken left to right: a later page overwrites a key. */
  function Collected(replies: seq<PageReply>, n: nat): map<string, string>
    requires n <= |replies| && forall j :: 0 <= j < n ==> replies[j].Ok?
  {
    if n == 0 then map[] else Collected(replies, n - 1) + replies[n - 1].value.redownloadUrls
  }

  /** The first `n` requests of the loop. */
  function Requests(fanId: int, collectionName: string, seed: string, replies: seq<PageReply>, n: nat): seq<CollectionRequest>
    requires n <= |replies| && forall j :: 0 <= j < n - 1 ==> replies[j].Ok?
  {
    if n == 0 then []
    else Requests(fanId, collectionName, seed, replies, n - 1) + [CollectionRequest(fanId, collectionName, TokenOf(seed, replies, n - 1))]
  }

  /** Request `i` continues from the seed, or from the token of the page before it. */
  lemma {:induction false} RequestsTokens(fanId: int, collectionName: string, seed: string, replies: seq<PageReply>, n: nat)
    requires n <= |replies| && forall j :: 0 <= j < n - 1 ==> replies[j].Ok?
    ensures |Requests(fanId, collectionName, seed, replies, n)| == n
    ensures forall i :: 0 <= i < n ==>
              Requests(fanId, collectionName, seed, replies, n)[i] == CollectionRequest(fanId, collectionName, TokenOf(seed, replies, i))
  {
    if n > 0 {
      var before := Requests(fanId, collectionName, seed, replies, n - 1);
      var last := CollectionRequest(fanId, collectionName, TokenOf(seed, replies, n - 1));
      RequestsTokens(fanId, collectionName, seed, replies, n - 1);
      assert Requests(fanId, collectionName, seed, replies, n) == before + [last];
      forall i | 0 <= i < n
        ensures (before + [last])[i] == CollectionRequest(fanId, collectionName, TokenOf(seed, replies, i))
      {
        if i < n - 1 {
          assert (before + [last])[i] == before[i];
        }
      }
    }
  }

  /** What the loop returns: the first failure, or the union of all pages. */
  function PaginationResult(replies: seq<PageReply>): Result<map<string, string>, ReleaseRetrievalError>
    requires Terminates(replies)
  {
    var k := LastRequest(replies);
    if replies[k].Err? then Err(replies[k].error) else Ok(Collected(replies, k + 1))
  }

  /**
   * `get_webui_download_urls`: request pages, starting from the seed token
   * and following each page's `last_token`, until a page says no more are
   * available, accumulating the URL maps. `replies[i]` is the reply to the
   * `i`-th request.
   */
  method GetWebuiDownloadUrls(fanId: int, seedToken: string, collectionName: string, replies: seq<PageReply>)
    returns (result: Result<map<string, string>, ReleaseRetrievalError>, requests: seq<CollectionRequest>)
    requires Terminates(replies)
    ensures requests == Requests(fanId, collectionName, seedToken, replies, LastRequest(replies) + 1)
    ensures result == PaginationResult(replies)
  {
    ghost var stop := LastRequest(replies);
    var moreAvailable := true;
    var lastToken := seedToken;
    var downloadUrls: map<string, string> := map[];
    requests := [];
    var i := 0;
    while moreAvailable
      invariant if moreAvailable then i <= stop else i == stop + 1 && replies[stop].Ok?
      invariant lastToken == TokenOf(seedToken, replies, i)
      invariant downloadUrls == Collected(replies, i)
      invariant requests == Requests(fanId, collectionName, seedToken, replies, i)
      decreases |replies| - i
    {
      PaginationStep(fanId, collectionName, seedToken, replies, i);
      requests := requests + [CollectionRequest(fanId, collectionName, lastToken)];
      if replies[i].Err? {
        return Err(replies[i].error), requests;
      }
      var page := replies[i].value;
      downloadUrls := downloadUrls + page.redownloadUrls;
      moreAvailable := page.moreAvailable;
      lastToken := page.lastToken;
      i := i + 1;
    }
    result := Ok(downloadUrls);
  }

  /** One turn of the loop: request `i` is sent, and when it succeeds its page is taken in. */
  lemma PaginationStep(fanId: int, collectionName: string, seed: string, replies: seq<PageReply>, i: nat)
    requires Terminates(replies) && i <= LastRequest(replies)
    ensures forall j :: 0 <= j < i ==> replies[j].Ok?
    ensures Requests(fanId, collectionName, seed, replies, i + 1) ==
            Requests(fanId, collectionName, seed, replies, i) + [CollectionRequest(fanId, collectionName, TokenOf(seed, replies, i))]
    ensures replies[i].Err? ==> i == LastRequest(replies) && PaginationResult(replies) == Err(replies[i].error)
    ensures replies[i].Ok? ==>
              && TokenOf(seed, replies, i + 1) == replies[i].value.lastToken
              && Collected(replies, i + 1) == Collected(replies, i) + replies[i].value.redownloadUrls
              && (!replies[i].value.moreAvailable ==>
                    i == LastRequest(replies) && PaginationResult(replies) == Ok(Collected(replies, i + 1)))
  {
  }

  /**
   * A URL is collected exactly when some page lists it, and it maps to what
   * the last such page says.
   */
  lemma {:induction false} CollectedLookup(replies: seq<PageReply>, n: nat, key: string)
    requires n <= |replies| && forall j :: 0 <= j < n ==> replies[j].Ok?
    ensures key in Collected(replies, n) <==> exists j :: 0 <= j < n && key in replies[j].value.redownloadUrls
    ensures forall j ::
              (0 <= j < n && key in replies[j].value.redownloadUrls &&
               forall l :: j < l < n ==> key !in replies[l].value.redownloadUrls)
              ==> Collected(replies, n)[key] == replies[j].value.redownloadUrls[key]
  {
    if n > 0 {
      CollectedLookup(replies, n - 1, key);
    }
  }

  /** `more_available` starts true, so the loop always sends a first request, and it carries the seed token. */
  lemma FirstRequest(fanId: int, collectionName: string, seed: string, replies: seq<PageReply>)
    requires Terminates(replies)
    ensures var requests := Requests(fanId, collectionName, seed, replies, LastRequest(replies) + 1);
      |requests| >= 1 && requests[0] == CollectionRequest(fanId, collectionName, seed)
  {
    RequestsTokens(fanId, collectionName, seed, replies, LastRequest(replies) + 1);
  }

  /** The failure of any requested page is the result: no partial map is returned. */
  lemma PaginationShape(replies: seq<PageReply>)
    requires Terminates(replies)
    ensures PaginationResult(replies).Err? <==> exists k :: 0 <= k <= LastRequest(replies) && replies[k].Err?
    ensures PaginationResult(replies).Err? ==> PaginationResult(replies).error == replies[LastRequest(replies)].error
  {
  }

  /**
   * `get_all_releases`: seed the token with the first purchased item of the
   * summary, collect `collection_items`, and extend an empty map with it.
   * `firstKey` is the entry the lookup's iteration yields first; the
   * summary must hold a lookup with that entry. Hidden items are not
   * collected, whatever `includeHidden` says.
   */
  method GetAllReleases(summary: ParsedFanCollectionSummary, includeHidden: bool, timestamp: nat,
                        firstKey: string, replies: seq<PageReply>)
    returns (result: Result<map<string, string>, ReleaseRetrievalError>, requests: seq<CollectionRequest>)
    requires summary.collectionSummary.tralbumLookup.Some?
    requires firstKey in summary.collectionSummary.tralbumLookup.value
    requires Terminates(replies)
    ensures var item := summary.collectionSummary.tralbumLookup.value[firstKey];
      var seed := GenerateToken(timestamp, item.itemId, item.itemType);
      && result == PaginationResult(replies)
      && requests == Requests(summary.fanId, "collection_items", seed, replies, LastRequest(replies) + 1)
      && requests[0] == CollectionRequest(summary.fanId, "collection_items", seed)
  {
    var collection: map<string, string> := map[];
    var item := summary.collectionSummary.tralbumLookup.value[firstKey];
    var token := GenerateToken(timestamp, item.itemId, item.itemType);
    var urls;
    urls, requests := GetWebuiDownloadUrls(summary.fanId, token, "collection_items", replies);
    RequestsTokens(summary.fanId, "collection_items", token, replies, LastRequest(replies) + 1);
    if urls.Err? {
      return Err(urls.error), requests;
    }
    collection := collection + urls.value;
    assert collection == urls.value;
    result := Ok(collection);
  }

  // ---------------------------------------------------------------------
  // Download page item
  // ---------------------------------------------------------------------

  /**
   * `get_digital_download_item`: fetch the page, cut out the data blob,
   * unescape its HTML entities, decode it, and take the first digital item
   * if there is one.
   */
  function DigitalDownloadItem(
    page: Result<string, HttpError>,
    extractBlob: string -> Option<string>,
    unescape: string -> string,
    decode: string -> Result<ParsedBandcampData, JsonError>): (r: Result<Option<DigitalItem>, InformationRetrievalError>)
  {
    match page
    case Err(h) => Err(InfoHttpRequestError(h))
    case Ok(text) =>
      match extractBlob(text)
      case None => Err(DataBlobNotFound)
      case Some(blob) =>
        match decode(unescape(blob))
        case Err(j) => Err(InfoJsonParseError(j))
        case Ok(data) => if |data.digitalItems| == 0 then Ok(None) else Ok(Some(data.digitalItems[0]))
  }

  /** The item is the first of the page's items; `None` exactly when the page lists none. */
  lemma DigitalDownloadItemChoice(
    page: Result<string, HttpError>,
    extractBlob: string -> Option<string>,
    unescape: string -> string,
    decode: string -> Result<ParsedBandcampData, JsonError>)
    requires page.Ok? && extractBlob(page.value).Some?
    requires decode(unescape(extractBlob(page.value).value)).Ok?
    ensures var items := decode(unescape(extractBlob(page.value).value)).value.digitalItems;
      var r := DigitalDownloadItem(page, extractBlob, unescape, decode);
      && r.Ok?
      && (r.value.None? <==> items == [])
      && (r.value.Some? ==> r.value.value == items[0] && r.value.value in items)
  {
  }

  /** Each failure maps to its own error: the request, a missing blob, the decoder. */
  lemma DigitalDownloadItemErrors(
    page: Result<string, HttpError>,
    extractBlob: string -> Option<string>,
    unescape: string -> string,
    decode: string -> Result<ParsedBandcampData, JsonError>)
    ensures var r := DigitalDownloadItem(page, extractBlob, unescape, decode);
      && (page.Err? ==> r == Err(InfoHttpRequestError(page.error)))
      && (page.Ok? && extractBlob(page.value).None? ==> r == Err(DataBlobNotFound))
      && (r.Err? && r.error.InfoJsonParseError? ==> page.Ok? && extractBlob(page.value).Some?)
  {
  }

  // ---------------------------------------------------------------------
  // Download link resolution
  // ---------------------------------------------------------------------

  /**
   * `get_unqualified_digital_download_link`: the URL listed for the
   * requested format, if the item lists any downloads at all.
   */
  function UnqualifiedLink(item: DigitalItem, format: Data.DownloadFormat): (r: Result<string, DigitalDownloadError>)
    ensures r == Err(NoDownloadLinksFound) <==> item.downloads.None? || |item.downloads.value| == 0
    ensures r == Err(RequestedFormatLinkNotFound) <==>
              item.downloads.Some? && |item.downloads.value| > 0 && format !in item.downloads.value
    ensures r.Ok? <==> item.downloads.Some? && format in item.downloads.value
    ensures r.Ok? ==> r.value == item.downloads.value[format].url
  {
    match item.downloads
    case None => Err(NoDownloadLinksFound)
    case Some(list) =>
      if |list| == 0 then Err(NoDownloadLinksFound)
      else if format !in list then Err(RequestedFormatLinkNotFound)
      else Ok(list[format].url)
  }

  const VERSION_QUERY := "&.vrs=1"
  const RAND_QUERY := "&.rand="

  /** The download link with both rewrites applied: `/download/` to `/statdownload/`, then `http://` to `https://`. */
  function StatPath(downloadLink: string): string {
    ReplaceAll(ReplaceAll(downloadLink, "/download/", "/statdownload/"), "http://", "https://")
  }

  /** The URL of the stat request, with the version and the random `i32` nonce appended. */
  function StatUrl(downloadLink: string, nonce: int): string
    requires I32_MIN <= nonce <= I32_MAX
  {
    StatPath(downloadLink) + VERSION_QUERY + RAND_QUERY + IntToString(nonce)
  }

  /** The stat URL never asks for plain `http://`: every such occurrence has become `https://`. */
  lemma StatUrlIsHttps(downloadLink: string, nonce: int)
    requires I32_MIN <= nonce <= I32_MAX
    ensures forall i: nat :: !OccursAt(StatUrl(downloadLink, nonce), "http://", i)
  {
    var pat, rep := "http://", "https://";
    assert rep[..|pat|] == "https:/";
    ReplaceAllLeavesNone(ReplaceAll(downloadLink, "/download/", "/statdownload/"), pat, rep);
    var n := IntToString(nonce);
    var tail := VERSION_QUERY + RAND_QUERY + n;
    assert forall j :: 0 <= j < |n| ==> n[j] == '-' || IsDigit(n[j]) by {
      if nonce < 0 {
        var d := NatToString(-nonce);
        assert forall k :: 1 <= k < |n| ==> n[k] == d[k - 1];
      }
    }
    assert forall j :: 0 <= j < |tail| ==> tail[j] !in pat by {
      forall j | 0 <= j < |tail| ensures tail[j] !in pat {
        if j >= |VERSION_QUERY + RAND_QUERY| {
          assert tail[j] == n[j - |VERSION_QUERY + RAND_QUERY|];
        }
      }
    }
    NoOccurrenceAppend(StatPath(downloadLink), tail, pat);
    assert StatUrl(downloadLink, nonce) == StatPath(downloadLink) + tail;
  }

  /** The stat URL ends with the query, and its last field reads back as the nonce. */
  lemma StatUrlNonce(downloadLink: string, nonce: int)
    requires I32_MIN <= nonce <= I32_MAX
    ensures var url := StatUrl(downloadLink, nonce);
      var p := |StatPath(downloadLink)|;
      && url[..p] == StatPath(downloadLink)
      && url[p..p + 14] == "&.vrs=1&.rand="
      && ParseI32(url[p + 14..]) == Ok(nonce)
  {
    var url := StatUrl(downloadLink, nonce);
    var p := |StatPath(downloadLink)|;
    assert url == StatPath(downloadLink) + "&.vrs=1&.rand=" + IntToString(nonce);
    assert url[p + 14..] == IntToString(nonce);
    ParseI32OfIntToString(nonce);
  }

  /** A link that holds neither pattern is kept as it is, and only the query is appended. */
  lemma StatUrlOfPlainLink(downloadLink: string, nonce: int)
    requires I32_MIN <= nonce <= I32_MAX
    requires forall i: nat :: !OccursAt(downloadLink, "/download/", i)
    requires forall i: nat :: !OccursAt(downloadLink, "http://", i)
    ensures StatUrl(downloadLink, nonce) == downloadLink + "&.vrs=1&.rand=" + IntToString(nonce)
  {
    ReplaceAllAbsent(downloadLink, "/download/", "/statdownload/");
    ReplaceAllAbsent(downloadLink, "http://", "https://");
  }

  /**
   * `get_qualified_digital_download_url`: cut the JSON text out of the
   * `Downloads.statResult(...)` wrapper, decode it, and hand back its
   * `download_url`. `extractJson` stands for the wrapper's regular
   * expression, `decode` for the JSON decoder.
   */
  function QualifiedUrl(
    body: string,
    extractJson: string -> Option<string>,
    decode: string -> Result<ParsedStatDownload, JsonError>): (r: Result<string, DigitalDownloadError>)
  {
    match extractJson(body)
    case None => Err(JsonBodyNotFound)
    case Some(json) =>
      match decode(json)
      case Err(j) => Err(DownloadJsonParseError(j))
      case Ok(data) =>
        match data.downloadUrl
        case None => Err(NoLinkFound)
        case Some(u) => Ok(u)
  }

  /** The outcome for each shape of the stat response. */
  lemma QualifiedUrlCases(
    body: string,
    extractJson: string -> Option<string>,
    decode: string -> Result<ParsedStatDownload, JsonError>)
    ensures var r := QualifiedUrl(body, extractJson, decode);
      && (extractJson(body).None? <==> r == Err(JsonBodyNotFound))
      && (extractJson(body).Some? && decode(extractJson(body).value).Ok? ==>
            (r == Err(NoLinkFound) <==> decode(extractJson(body).value).value.downloadUrl.None?))
      && (r.Ok? ==> exists json :: extractJson(body) == Some(json) && decode(json).Ok? &&
                      decode(json).value.downloadUrl == Some(r.value))
  {
  }

  /**
   * Only `download_url` matters: two decoders that fail alike and agree on
   * it give the same outcome, whatever `url` holds.
   */
  lemma QualifiedUrlIgnoresUrl(
    body: string,
    extractJson: string -> Option<string>,
    decode1: string -> Result<ParsedStatDownload, JsonError>,
    decode2: string -> Result<ParsedStatDownload, JsonError>)
    requires forall json :: decode1(json).Err? <==> decode2(json).Err?
    requires forall json :: decode1(json).Err? ==> decode1(json).error == decode2(json).error
    requires forall json :: decode1(json).Ok? ==> decode1(json).value.downloadUrl == decode2(json).value.downloadUrl
    ensures QualifiedUrl(body, extractJson, decode1) == QualifiedUrl(body, extractJson, decode2)
  {
  }

  /** What the later revision's stat payload looks like to the qualifying step: its `result` is not read. */
  function FromLaterRevision(d: Data.ParsedStatDownload): ParsedStatDownload
  {
    ParsedStatDownload(d.downloadUrl, d.url)
  }

  /**
   * The `result` status of a stat payload never changes the outcome. This
   * holds by construction: `FromLaterRevision` drops `result` before
   * `QualifiedUrl` sees the payload, just as `src/api.rs:390-394` reads only
   * `download_url`. The lemma records that fact; it has no proof work.
   */
  lemma QualifiedUrlIgnoresResult(body: string, extractJson: string -> Option<string>,
                                  decode: string -> Result<Data.ParsedStatDownload, JsonError>,
                                  status: Option<string>)
    ensures var keep := (json: string) => match decode(json)
                                          case Err(e) => Err(e)
                                          case Ok(d) => Ok(FromLaterRevision(d));
      var restamp := (json: string) => match decode(json)
                                       case Err(e) => Err(e)
                                       case Ok(d) => Ok(FromLaterRevision(d.(result := status)));
      QualifiedUrl(body, extractJson, keep) == QualifiedUrl(body, extractJson, restamp)
  {
    var keep := (json: string) => match decode(json)
                                  case Err(e) => Err(e)
                                  case Ok(d) => Ok(FromLaterRevision(d));
    var restamp := (json: string) => match decode(json)
                                     case Err(e) => Err(e)
                                     case Ok(d) => Ok(FromLaterRevision(d.(result := status)));
    forall json ensures keep(json).Err? <==> restamp(json).Err? {
    }
    forall json | keep(json).Err? ensures keep(json).error == restamp(json).error {
    }
    forall json | keep(json).Ok? ensures keep(json).value.downloadUrl == restamp(json).value.downloadUrl {
      var d := decode(json).value;
      assert keep(json) == Ok(FromLaterRevision(d));
      assert restamp(json) == Ok(FromLaterRevision(d.(result := status)));
    }
    QualifiedUrlIgnoresUrl(body, extractJson, keep, restamp);
  }

  /** The requests a resolution made, and its outcome. */
  datatype Resolution = Resolution(result: Result<string, DigitalDownloadError>, requests: seq<string>)

  /**
   * `get_digital_download_link`: look up the format's link, request its
   * stat URL (`fetch` answers the request), and qualify the response.
   */
  function DigitalDownloadLink(
    item: DigitalItem,
    format: Data.DownloadFormat,
    nonce: int,
    fetch: string -> Result<string, HttpError>,
    extractJson: string -> Option<string>,
    decode: string -> Result<ParsedStatDownload, JsonError>): (r: Resolution)
    requires I32_MIN <= nonce <= I32_MAX
  {
    match UnqualifiedLink(item, format)
    case Err(e) => Resolution(Err(e), [])
    case Ok(link) =>
      var url := StatUrl(link, nonce);
      match fetch(url)
      case Err(h) => Resolution(Err(DownloadHttpRequestError(h)), [url])
      case Ok(body) => Resolution(QualifiedUrl(body, extractJson, decode), [url])
  }

  /**
   * A missing format is reported without any request; otherwise exactly one
   * request goes out, to the stat URL of that format's link, and a link
   * comes back only from its response.
   */
  lemma DigitalDownloadLinkRequests(
    item: DigitalItem,
    format: Data.DownloadFormat,
    nonce: int,
    fetch: string -> Result<string, HttpError>,
    extractJson: string -> Option<string>,
    decode: string -> Result<ParsedStatDownload, JsonError>)
    requires I32_MIN <= nonce <= I32_MAX
    ensures var r := DigitalDownloadLink(item, format, nonce, fetch, extractJson, decode);
      && (item.downloads.None? || format !in item.downloads.value ==>
            r.requests == [] && r.result.Err? &&
            (r.result.error == NoDownloadLinksFound || r.result.error == RequestedFormatLinkNotFound))
      && (item.downloads.Some? && format in item.downloads.value ==>
            var url := StatUrl(item.downloads.value[format].url, nonce);
            r.requests == [url] &&
            (r.result.Ok? ==> fetch(url).Ok? && r.result == QualifiedUrl(fetch(url).value, extractJson, decode)))
  {
  }
}
