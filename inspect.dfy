/**
 * The decision logic of `POST /api/instagram/inspect`.
 *
 * The network fetch is an input: either a transport failure or a response
 * with a status code and the page, where the page is represented by what the
 * three regular-expression scans of its text yield (property tags, name tags
 * and inline fragments, each in document order).
 */
module Inspect {
  import opened Common
  import opened PostUrl
  import opened MetaTags
  import opened Media

  /** The matches the scans of a fetched page produce. */
  datatype Page = Page(propertyTags: seq<TagMatch>, nameTags: seq<TagMatch>, inline: seq<InlineMatch>)

  /** What `requests.get` gives back: an exception, or a response with a status code. */
  datatype Fetch = TransportFailure | Response(status: int, page: Page)

  /** The endpoint's answer: an HTTP error with its detail message, or the media list. */
  datatype Outcome = Failure(status: int, detail: string) | Success(media: seq<MediaItem>)

  const InvalidUrlDetail := "Please provide a valid Instagram post/reel URL."
  const FetchFailedDetail := "Failed to fetch the Instagram page."
  const UpstreamErrorDetail := "Instagram responded with an error."
  const NoMediaDetail := "Could not extract media from this URL. It may be private or blocked."

  /** The answer for a URL and the result of fetching it. */
  function Respond(url: string, fetch: Fetch): Outcome
  {
    if !IsPostUrl(url) then Failure(400, InvalidUrlDetail)
    else match fetch
      case TransportFailure => Failure(502, FetchFailedDetail)
      case Response(status, page) =>
        if status != 200 then Failure(status, UpstreamErrorDetail)
        else
          var media := Assemble(TagTable(page.propertyTags, page.nameTags), page.inline);
          if media == [] then Failure(422, NoMediaDetail) else Success(media)
  }

  /** The body of `instagram_inspect` after a 200 response: build the tag table, pick the
      primary item, then append each inline fragment whose URL is not listed yet. */
  method CollectMedia(page: Page) returns (media: seq<MediaItem>)
    ensures media == Assemble(TagTable(page.propertyTags, page.nameTags), page.inline)
    ensures DistinctUrls(media)
    ensures PrimaryItems(TagTable(page.propertyTags, page.nameTags)) <= media
  {
    var tags := ExtractMetaTags(page.propertyTags, page.nameTags);

    media := [];
    var ogVideo := PrimaryVideo(tags);
    var ogImage := PrimaryImage(tags);
    if Truthy(ogVideo) {
      media := media + [MediaItem(Video, ogVideo.value, ogImage)];
    }
    if Truthy(ogImage) && media == [] {
      media := media + [MediaItem(Image, ogImage.value, ogImage)];
    }
    ghost var primary := media;
    assert primary == PrimaryItems(tags);

    for i := 0 to |page.inline|
      invariant media == AppendInline(primary, page.inline[..i], ogImage)
    {
      AppendInlineStep(primary, page.inline, i, ogImage);
      var m := page.inline[i];
      var candidate := UnescapeSlashes(m.raw);
      ghost var item := InlineItem(m, ogImage);
      ghost var next := AppendIfNew(media, item);
      if m.key == VideoUrl {
        assert item == MediaItem(Video, candidate, ogImage);
        if forall x | x in media :: x.url != candidate {
          media := media + [MediaItem(Video, candidate, ogImage)];
        }
      } else {
        assert item == MediaItem(Image, candidate, Some(candidate));
        if forall x | x in media :: x.url != candidate {
          media := media + [MediaItem(Image, candidate, Some(candidate))];
        }
      }
      assert media == next;
    }
    assert page.inline[..|page.inline|] == page.inline;
    AssembleProperties(tags, page.inline);
  }

  /** `instagram_inspect`: validate the URL, map the fetch result, then collect the media. */
  method InstagramInspect(url: string, fetch: Fetch) returns (out: Outcome)
    ensures out == Respond(url, fetch)
    ensures out.Success? ==> out.media != [] && DistinctUrls(out.media)
  {
    if !IsPostUrl(url) {
      return Failure(400, InvalidUrlDetail);
    }
    if fetch.TransportFailure? {
      return Failure(502, FetchFailedDetail);
    }
    if fetch.status != 200 {
      return Failure(fetch.status, UpstreamErrorDetail);
    }
    var media := CollectMedia(fetch.page);
    if media == [] {
      return Failure(422, NoMediaDetail);
    }
    return Success(media);
  }

  /** The four error outcomes and the success case, by what the request and the fetch were. */
  lemma OutcomeMapping(url: string, fetch: Fetch)
    ensures !IsPostUrl(url) ==> Respond(url, fetch) == Failure(400, InvalidUrlDetail)
    ensures IsPostUrl(url) && fetch.TransportFailure? ==> Respond(url, fetch) == Failure(502, FetchFailedDetail)
    ensures IsPostUrl(url) && fetch.Response? && fetch.status != 200 ==>
      Respond(url, fetch) == Failure(fetch.status, UpstreamErrorDetail)
    ensures IsPostUrl(url) && fetch.Response? && fetch.status == 200 ==>
      var tags := TagTable(fetch.page.propertyTags, fetch.page.nameTags);
      (Respond(url, fetch) == Failure(422, NoMediaDetail) <==> PrimaryItems(tags) == [] && fetch.page.inline == [])
    ensures Respond(url, fetch).Success? ==>
      && IsPostUrl(url) && fetch.Response? && fetch.status == 200
      && Respond(url, fetch).media != []
      && DistinctUrls(Respond(url, fetch).media)
  {
    if IsPostUrl(url) && fetch.Response? && fetch.status == 200 {
      var tags := TagTable(fetch.page.propertyTags, fetch.page.nameTags);
      AssembleEmpty(tags, fetch.page.inline);
      AssembleProperties(tags, fetch.page.inline);
    }
  }

  /** A rejected URL is answered with 400 whatever the fetch would have returned:
      the answer does not depend on the page at all. */
  lemma RejectedUrlIgnoresFetch(url: string, f1: Fetch, f2: Fetch)
    requires !IsPostUrl(url)
    ensures Respond(url, f1) == Respond(url, f2) == Failure(400, InvalidUrlDetail)
  {
  }

  /** Any status other than exactly 200, including other 2xx codes, is passed through. */
  lemma NonOkStatusPassedThrough(url: string, status: int, page: Page)
    requires IsPostUrl(url) && status != 200
    ensures Respond(url, Response(status, page)).Failure?
    ensures Respond(url, Response(status, page)).status == status
  {
  }
}
