/**
 * The media list the inspect endpoint assembles from a page.
 *
 * A primary item comes from the Open Graph / Twitter card tags (video first,
 * image as a fallback); then every inline `"video_url":"…"` or
 * `"display_url":"…"` fragment, in document order, is appended unless an
 * item with the same URL is already in the list.
 */
module Media {
  import opened Common

  datatype MediaType = Video | Image

  /** One entry of the response: a video or image URL and an optional thumbnail. */
  datatype MediaItem = MediaItem(kind: MediaType, url: string, thumbnail: Option<string>)

  /** Which of the two inline JSON keys a fragment carried. */
  datatype InlineKey = VideoUrl | DisplayUrl

  /** One inline fragment: its key and the raw string value, still JSON-escaped. */
  datatype InlineMatch = InlineMatch(key: InlineKey, raw: string)

  /** `tags.get(k)`. */
  function Get(tags: map<string, string>, k: string): Option<string>
  {
    if k in tags then Some(tags[k]) else None
  }

  /** Python truthiness of an optional string: present and not empty. */
  predicate Truthy(o: Option<string>)
  {
    o.Some? && o.value != ""
  }

  /** Python's `a or b`. */
  function Or(a: Option<string>, b: Option<string>): Option<string>
  {
    if Truthy(a) then a else b
  }

  /** `tags.get(k)` is truthy: the table holds a non-empty value for `k`. */
  predicate Present(tags: map<string, string>, k: string)
  {
    Truthy(Get(tags, k))
  }

  function PrimaryVideo(tags: map<string, string>): Option<string>
  {
    Or(Get(tags, "og:video"), Get(tags, "twitter:player:stream"))
  }

  function PrimaryImage(tags: map<string, string>): Option<string>
  {
    Or(Get(tags, "og:image"), Get(tags, "twitter:image"))
  }

  /** The items the list starts with, before any inline fragment is read. */
  function PrimaryItems(tags: map<string, string>): seq<MediaItem>
  {
    var video, image := PrimaryVideo(tags), PrimaryImage(tags);
    if Truthy(video) then [MediaItem(Video, video.value, image)]
    else if Truthy(image) then [MediaItem(Image, image.value, image)]
    else []
  }

  /** The priority order of the primary item, stated on the tag table itself. */
  lemma PrimarySelection(tags: map<string, string>)
    ensures |PrimaryItems(tags)| <= 1
    ensures Present(tags, "og:image") ==> PrimaryImage(tags) == Some(tags["og:image"])
    ensures !Present(tags, "og:image") ==> PrimaryImage(tags) == Get(tags, "twitter:image")
    ensures Present(tags, "og:video") ==>
      PrimaryItems(tags) == [MediaItem(Video, tags["og:video"], PrimaryImage(tags))]
    ensures !Present(tags, "og:video") && Present(tags, "twitter:player:stream") ==>
      PrimaryItems(tags) == [MediaItem(Video, tags["twitter:player:stream"], PrimaryImage(tags))]
    ensures !Present(tags, "og:video") && !Present(tags, "twitter:player:stream") && Present(tags, "og:image") ==>
      PrimaryItems(tags) == [MediaItem(Image, tags["og:image"], Some(tags["og:image"]))]
    ensures !Present(tags, "og:video") && !Present(tags, "twitter:player:stream") && !Present(tags, "og:image")
            && Present(tags, "twitter:image") ==>
      PrimaryItems(tags) == [MediaItem(Image, tags["twitter:image"], Some(tags["twitter:image"]))]
    ensures !Present(tags, "og:video") && !Present(tags, "twitter:player:stream") && !Present(tags, "og:image")
            && !Present(tags, "twitter:image") ==>
      PrimaryItems(tags) == []
  {
  }

  /** `s.replace('\\/', '/')`: scanning left to right, each backslash-slash pair becomes a slash. */
  function UnescapeSlashes(s: string): (r: string)
    ensures |r| <= |s|
    ensures '\\' !in s ==> r == s
    decreases |s|
  {
    if |s| >= 2 && s[0] == '\\' && s[1] == '/' then "/" + UnescapeSlashes(s[2..])
    else if s == [] then []
    else [s[0]] + UnescapeSlashes(s[1..])
  }

  /** How a JSON serialiser writes `/` inside a string value: as a backslash-slash pair. */
  function EscapeSlashes(s: string): string
    decreases |s|
  {
    if s == [] then []
    else (if s[0] == '/' then "\\/" else [s[0]]) + EscapeSlashes(s[1..])
  }

  /** Unescaping undoes the serialiser's escaping of slashes in any backslash-free string. */
  lemma {:induction false} UnescapeEscapeSlashes(s: string)
    requires '\\' !in s
    ensures UnescapeSlashes(EscapeSlashes(s)) == s
    decreases |s|
  {
    if s != [] {
      var rest := EscapeSlashes(s[1..]);
      assert '\\' !in s[1..] by { assert forall i :: 0 <= i < |s[1..]| ==> s[1..][i] == s[i + 1]; }
      UnescapeEscapeSlashes(s[1..]);
      if s[0] == '/' {
        var e := "\\/" + rest;
        assert e[2..] == rest;
      } else {
        var e := [s[0]] + rest;
        assert e[1..] == rest;
      }
      assert s == [s[0]] + s[1..];
    }
  }

  lemma UnescapePair(s: string)
    ensures UnescapeSlashes("\\/" + s) == "/" + UnescapeSlashes(s)
  {
    assert ("\\/" + s)[2..] == s;
  }

  lemma UnescapeHead(c: char, s: string)
    requires c != '\\' || s == [] || s[0] != '/'
    ensures UnescapeSlashes([c] + s) == [c] + UnescapeSlashes(s)
  {
    assert ([c] + s)[1..] == s;
  }

  /** The first step of the left-to-right scan: a backslash-slash pair, or a single character. */
  lemma FirstStep(p: string) returns (h: string, q: string)
    requires p != []
    ensures p == h + q && |q| < |p|
    ensures h == "\\/" || (|h| == 1 && (h[0] != '\\' || q == [] || q[0] != '/'))
  {
    if |p| >= 2 && p[0] == '\\' && p[1] == '/' {
      h, q := "\\/", p[2..];
    } else {
      h, q := [p[0]], p[1..];
    }
  }

  /** Unescaping splits at any point not right after a backslash. */
  lemma {:induction false} UnescapeAppend(p: string, s: string)
    requires p == [] || p[|p| - 1] != '\\'
    ensures UnescapeSlashes(p + s) == UnescapeSlashes(p) + UnescapeSlashes(s)
    decreases |p|
  {
    if p == [] {
      assert p + s == s;
    } else {
      var h, q := FirstStep(p);
      assert q == [] || q[|q| - 1] == p[|p| - 1];
      UnescapeAppend(q, s);
      ConcatAssociative(h, q, s);
      if h == "\\/" {
        UnescapePair(q);
        UnescapePair(q + s);
        ConcatAssociative("/", UnescapeSlashes(q), UnescapeSlashes(s));
      } else {
        UnescapeHead(h[0], q);
        UnescapeHead(h[0], q + s);
        assert h == [h[0]];
        ConcatAssociative(h, UnescapeSlashes(q), UnescapeSlashes(s));
      }
    }
  }

  /** The shape `https?:\/\/[^"]+` of an inline fragment's value. */
  ghost predicate IsInlineValue(raw: string)
  {
    && (StartsWith(raw, "http:\\/\\/") || StartsWith(raw, "https:\\/\\/"))
    && |raw| > (if StartsWith(raw, "https:\\/\\/") then 10 else 9)
    && '"' !in raw
  }

  /** The URL starts with `http://` or `https://`. */
  predicate HasHttpScheme(u: string)
  {
    StartsWith(u, "http://") || StartsWith(u, "https://")
  }

  lemma UnescapeSchemePrefix(scheme: string)
    requires scheme == "http:" || scheme == "https:"
    ensures UnescapeSlashes(scheme + "\\/\\/") == scheme + "//"
  {
    UnescapeAppend(scheme, "\\/\\/");
    assert '\\' !in scheme;
    assert "\\/\\/" == "\\/" + ("\\/" + "");
    UnescapePair("");
    UnescapePair("\\/" + "");
  }

  /** The candidate URL of every inline fragment carries an HTTP scheme. */
  lemma InlineUrlHasScheme(raw: string)
    requires IsInlineValue(raw)
    ensures HasHttpScheme(UnescapeSlashes(raw))
  {
    var n := if StartsWith(raw, "https:\\/\\/") then 10 else 9;
    var scheme := if n == 10 then "https:" else "http:";
    var rest := raw[n..];
    assert raw == (scheme + "\\/\\/") + rest;
    UnescapeAppend(scheme + "\\/\\/", rest);
    UnescapeSchemePrefix(scheme);
    StartsWithAppend(scheme + "//", UnescapeSlashes(rest));
  }

  /** The item an inline fragment yields. */
  function InlineItem(m: InlineMatch, image: Option<string>): MediaItem
  {
    var candidate := UnescapeSlashes(m.raw);
    match m.key
    case VideoUrl => MediaItem(Video, candidate, image)
    case DisplayUrl => MediaItem(Image, candidate, Some(candidate))
  }

  /** `any(x.url == u for x in media)`. */
  predicate HasUrl(media: seq<MediaItem>, u: string)
  {
    exists x :: x in media && x.url == u
  }

  /** Appends the item unless an item with its URL is already listed. */
  function AppendIfNew(media: seq<MediaItem>, item: MediaItem): seq<MediaItem>
  {
    if HasUrl(media, item.url) then media else media + [item]
  }

  /** The list after the inline fragments `ms` have been read, in order, starting from `start`. */
  function AppendInline(start: seq<MediaItem>, ms: seq<InlineMatch>, image: Option<string>): seq<MediaItem>
    decreases |ms|
  {
    if ms == [] then start
    else AppendIfNew(AppendInline(start, ms[..|ms| - 1], image), InlineItem(ms[|ms| - 1], image))
  }

  /** Reading fragment `i` after the first `i` ones. */
  lemma AppendInlineStep(start: seq<MediaItem>, ms: seq<InlineMatch>, i: int, image: Option<string>)
    requires 0 <= i < |ms|
    ensures AppendInline(start, ms[..i + 1], image) ==
      AppendIfNew(AppendInline(start, ms[..i], image), InlineItem(ms[i], image))
  {
    assert ms[..i + 1][..i] == ms[..i];
    assert ms[..i + 1][i] == ms[i];
  }

  /** The list the endpoint assembles from the tag table and the inline fragments. */
  function Assemble(tags: map<string, string>, ms: seq<InlineMatch>): seq<MediaItem>
  {
    AppendInline(PrimaryItems(tags), ms, PrimaryImage(tags))
  }

  /** No two items share a URL. */
  ghost predicate DistinctUrls(media: seq<MediaItem>)
  {
    forall i, j :: 0 <= i < j < |media| ==> media[i].url != media[j].url
  }

  function UrlSet(media: seq<MediaItem>): set<string>
  {
    set x | x in media :: x.url
  }

  /** The candidate URLs of a sequence of inline fragments. */
  function InlineUrls(ms: seq<InlineMatch>): set<string>
  {
    set k | 0 <= k < |ms| :: UnescapeSlashes(ms[k].raw)
  }

  /**
   * Reference definition of the appended part: walk the fragments in
   * document order, remembering the URLs seen so far, and emit a fragment's
   * item exactly when its URL has not been seen.
   */
  function FirstSeen(seen: set<string>, ms: seq<InlineMatch>, image: Option<string>): seq<MediaItem>
    decreases |ms|
  {
    if ms == [] then []
    else
      var u := UnescapeSlashes(ms[0].raw);
      if u in seen then FirstSeen(seen, ms[1..], image)
      else [InlineItem(ms[0], image)] + FirstSeen(seen + {u}, ms[1..], image)
  }

  lemma InlineUrlsSnoc(ms: seq<InlineMatch>)
    requires ms != []
    ensures InlineUrls(ms) == InlineUrls(ms[..|ms| - 1]) + {UnescapeSlashes(ms[|ms| - 1].raw)}
  {
    var init := ms[..|ms| - 1];
    forall u | u in InlineUrls(ms) ensures u in InlineUrls(init) + {UnescapeSlashes(ms[|ms| - 1].raw)} {
      var k :| 0 <= k < |ms| && UnescapeSlashes(ms[k].raw) == u;
      if k < |init| { assert init[k] == ms[k]; }
    }
    forall u | u in InlineUrls(init) ensures u in InlineUrls(ms) {
      var k :| 0 <= k < |init| && UnescapeSlashes(init[k].raw) == u;
      assert ms[k] == init[k];
    }
  }

  lemma InlineUrlsCons(ms: seq<InlineMatch>)
    requires ms != []
    ensures InlineUrls(ms) == {UnescapeSlashes(ms[0].raw)} + InlineUrls(ms[1..])
  {
    forall v | v in InlineUrls(ms) ensures v in {UnescapeSlashes(ms[0].raw)} + InlineUrls(ms[1..]) {
      var k :| 0 <= k < |ms| && UnescapeSlashes(ms[k].raw) == v;
      if k > 0 { assert ms[1..][k - 1] == ms[k]; }
    }
    forall v | v in InlineUrls(ms[1..]) ensures v in InlineUrls(ms) {
      var k :| 0 <= k < |ms[1..]| && UnescapeSlashes(ms[1..][k].raw) == v;
      assert ms[k + 1] == ms[1..][k];
    }
  }

  lemma HasUrlUrlSet(media: seq<MediaItem>, u: string)
    ensures HasUrl(media, u) <==> u in UrlSet(media)
  {
  }

  lemma UrlSetAppend(a: seq<MediaItem>, b: seq<MediaItem>)
    ensures UrlSet(a + b) == UrlSet(a) + UrlSet(b)
  {
    forall u | u in UrlSet(a + b) ensures u in UrlSet(a) + UrlSet(b) {
      var x :| x in a + b && x.url == u;
    }
    forall u | u in UrlSet(a) + UrlSet(b) ensures u in UrlSet(a + b) {
      if u in UrlSet(a) {
        var x :| x in a && x.url == u;
        assert x in a + b;
      } else {
        var x :| x in b && x.url == u;
        assert x in a + b;
      }
    }
  }

  /** Items already listed are never removed or reordered. */
  lemma {:induction false} AppendInlineKeepsPrefix(start: seq<MediaItem>, ms: seq<InlineMatch>, image: Option<string>)
    ensures start <= AppendInline(start, ms, image)
    decreases |ms|
  {
    if ms != [] {
      AppendInlineKeepsPrefix(start, ms[..|ms| - 1], image);
    }
  }

  /** The list after any prefix of the fragments is a prefix of the final list: reading
      more fragments only appends. */
  lemma {:induction false} AppendInlineGrows(start: seq<MediaItem>, ms: seq<InlineMatch>, i: int, image: Option<string>)
    requires 0 <= i <= |ms|
    ensures AppendInline(start, ms[..i], image) <= AppendInline(start, ms, image)
    decreases |ms|
  {
    if i == |ms| {
      assert ms[..i] == ms;
    } else {
      var init := ms[..|ms| - 1];
      AppendInlineGrows(start, init, i, image);
      assert init[..i] == ms[..i];
    }
  }

  /** Starting from a list without repeated URLs, no URL is ever repeated. */
  lemma {:induction false} AppendInlineDistinct(start: seq<MediaItem>, ms: seq<InlineMatch>, image: Option<string>)
    requires DistinctUrls(start)
    ensures DistinctUrls(AppendInline(start, ms, image))
    decreases |ms|
  {
    if ms != [] {
      var before := AppendInline(start, ms[..|ms| - 1], image);
      var item := InlineItem(ms[|ms| - 1], image);
      AppendInlineDistinct(start, ms[..|ms| - 1], image);
      if !HasUrl(before, item.url) {
        var after := before + [item];
        forall i, j | 0 <= i < j < |after| ensures after[i].url != after[j].url {
          if j == |before| {
            assert after[i] in before;
          }
        }
      }
    }
  }

  /** The URLs listed are those of the start list and of the fragments, nothing else. */
  lemma {:induction false} AppendInlineUrls(start: seq<MediaItem>, ms: seq<InlineMatch>, image: Option<string>)
    ensures UrlSet(AppendInline(start, ms, image)) == UrlSet(start) + InlineUrls(ms)
    decreases |ms|
  {
    if ms != [] {
      var init := ms[..|ms| - 1];
      var before := AppendInline(start, init, image);
      var item := InlineItem(ms[|ms| - 1], image);
      AppendInlineUrls(start, init, image);
      InlineUrlsSnoc(ms);
      HasUrlUrlSet(before, item.url);
      UrlSetAppend(before, [item]);
      assert UrlSet([item]) == {item.url};
    }
  }

  /** The item is the one some fragment of `ms` yields. */
  ghost predicate FromFragment(item: MediaItem, ms: seq<InlineMatch>, image: Option<string>)
  {
    exists k :: 0 <= k < |ms| && item == InlineItem(ms[k], image)
  }

  /** Every appended item is the item of some fragment: a video with the primary image as
      thumbnail for `video_url`, an image that is its own thumbnail for `display_url`. */
  lemma {:induction false} AppendInlineSources(start: seq<MediaItem>, ms: seq<InlineMatch>, image: Option<string>)
    ensures forall j :: |start| <= j < |AppendInline(start, ms, image)| ==>
      FromFragment(AppendInline(start, ms, image)[j], ms, image)
    decreases |ms|
  {
    if ms != [] {
      var init := ms[..|ms| - 1];
      var before := AppendInline(start, init, image);
      var r := AppendInline(start, ms, image);
      AppendInlineSources(start, init, image);
      AppendInlineKeepsPrefix(start, init, image);
      forall j | |start| <= j < |r| ensures FromFragment(r[j], ms, image) {
        if j < |before| {
          assert FromFragment(before[j], init, image);
          var k :| 0 <= k < |init| && before[j] == InlineItem(init[k], image);
          assert r[j] == before[j] && init[k] == ms[k];
        } else {
          assert r[j] == InlineItem(ms[|ms| - 1], image);
        }
      }
    }
  }

  lemma {:induction false} FirstSeenUrls(seen: set<string>, ms: seq<InlineMatch>, image: Option<string>)
    ensures UrlSet(FirstSeen(seen, ms, image)) <= InlineUrls(ms)
    ensures seen + UrlSet(FirstSeen(seen, ms, image)) == seen + InlineUrls(ms)
    decreases |ms|
  {
    if ms != [] {
      var u := UnescapeSlashes(ms[0].raw);
      var seen' := if u in seen then seen else seen + {u};
      var tail := FirstSeen(seen', ms[1..], image);
      FirstSeenUrls(seen', ms[1..], image);
      InlineUrlsCons(ms);
      if u !in seen {
        UrlSetAppend([InlineItem(ms[0], image)], tail);
        assert UrlSet([InlineItem(ms[0], image)]) == {u};
      }
    }
  }

  /** Reading one more fragment appends its item exactly when its URL is new. */
  lemma {:induction false} FirstSeenSnoc(seen: set<string>, ms: seq<InlineMatch>, m: InlineMatch, image: Option<string>)
    ensures FirstSeen(seen, ms + [m], image) ==
      FirstSeen(seen, ms, image) +
      (if UnescapeSlashes(m.raw) in seen + UrlSet(FirstSeen(seen, ms, image)) then [] else [InlineItem(m, image)])
    decreases |ms|
  {
    var u := UnescapeSlashes(m.raw);
    if ms == [] {
      assert [m][1..] == [];
    } else {
      var v := UnescapeSlashes(ms[0].raw);
      assert (ms + [m])[0] == ms[0] && (ms + [m])[1..] == ms[1..] + [m];
      var seen' := if v in seen then seen else seen + {v};
      FirstSeenSnoc(seen', ms[1..], m, image);
      var tail := FirstSeen(seen', ms[1..], image);
      if v !in seen {
        UrlSetAppend([InlineItem(ms[0], image)], tail);
        assert UrlSet([InlineItem(ms[0], image)]) == {v};
      }
    }
  }

  /** The loop's list is the start list followed by the reference walk over the fragments:
      first occurrence wins, in document order, and URLs already listed are skipped. */
  lemma {:induction false} AppendInlineIsFirstSeen(start: seq<MediaItem>, ms: seq<InlineMatch>, image: Option<string>)
    ensures AppendInline(start, ms, image) == start + FirstSeen(UrlSet(start), ms, image)
    decreases |ms|
  {
    if ms == [] {
    } else {
      var init := ms[..|ms| - 1];
      var m := ms[|ms| - 1];
      var before := AppendInline(start, init, image);
      var fs := FirstSeen(UrlSet(start), init, image);
      AppendInlineIsFirstSeen(start, init, image);
      assert init + [m] == ms;
      FirstSeenSnoc(UrlSet(start), init, m, image);
      UrlSetAppend(start, fs);
      HasUrlUrlSet(before, InlineItem(m, image).url);
    }
  }

  /** What the assembled list guarantees: distinct URLs, the primary item first, every
      fragment's URL listed, and every later item built from some fragment. */
  lemma AssembleProperties(tags: map<string, string>, ms: seq<InlineMatch>)
    ensures var r := Assemble(tags, ms);
      && DistinctUrls(r)
      && PrimaryItems(tags) <= r
      && UrlSet(r) == UrlSet(PrimaryItems(tags)) + InlineUrls(ms)
      && (forall j :: |PrimaryItems(tags)| <= j < |r| ==> FromFragment(r[j], ms, PrimaryImage(tags)))
  {
    var start, image := PrimaryItems(tags), PrimaryImage(tags);
    AppendInlineDistinct(start, ms, image);
    AppendInlineKeepsPrefix(start, ms, image);
    AppendInlineUrls(start, ms, image);
    AppendInlineSources(start, ms, image);
  }

  /** The list is empty exactly when there is no primary item and no inline fragment. */
  lemma AssembleEmpty(tags: map<string, string>, ms: seq<InlineMatch>)
    ensures Assemble(tags, ms) == [] <==> PrimaryItems(tags) == [] && ms == []
  {
    AppendInlineUrls(PrimaryItems(tags), ms, PrimaryImage(tags));
    if ms != [] {
      assert UnescapeSlashes(ms[0].raw) in InlineUrls(ms);
    }
  }

  /** When every fragment has the shape the scan requires, every item after the primary
      one has an `http://` or `https://` URL. */
  lemma AssembleInlineSchemes(tags: map<string, string>, ms: seq<InlineMatch>)
    requires forall k :: 0 <= k < |ms| ==> IsInlineValue(ms[k].raw)
    ensures var r := Assemble(tags, ms);
      forall j :: |PrimaryItems(tags)| <= j < |r| ==> HasHttpScheme(r[j].url)
  {
    var start, image := PrimaryItems(tags), PrimaryImage(tags);
    var r := AppendInline(start, ms, image);
    AppendInlineSources(start, ms, image);
    forall j | |start| <= j < |r| ensures HasHttpScheme(r[j].url) {
      assert FromFragment(r[j], ms, image);
      var k :| 0 <= k < |ms| && r[j] == InlineItem(ms[k], image);
      InlineUrlHasScheme(ms[k].raw);
    }
  }

  /** Every item after the primary one is a video whose thumbnail is the primary image, or an
      image that is its own thumbnail, and its URL is the unescaped value of some fragment. */
  lemma AssembleInlineItemShape(tags: map<string, string>, ms: seq<InlineMatch>)
    ensures var r := Assemble(tags, ms);
      forall j :: |PrimaryItems(tags)| <= j < |r| ==>
        && r[j].url in InlineUrls(ms)
        && ((r[j].kind == Video && r[j].thumbnail == PrimaryImage(tags)) ||
            (r[j].kind == Image && r[j].thumbnail == Some(r[j].url)))
  {
    var start, image := PrimaryItems(tags), PrimaryImage(tags);
    var r := AppendInline(start, ms, image);
    AppendInlineSources(start, ms, image);
    forall j | |start| <= j < |r|
      ensures r[j].url in InlineUrls(ms)
      ensures (r[j].kind == Video && r[j].thumbnail == image) || (r[j].kind == Image && r[j].thumbnail == Some(r[j].url))
    {
      assert FromFragment(r[j], ms, image);
      var k :| 0 <= k < |ms| && r[j] == InlineItem(ms[k], image);
    }
  }
}
