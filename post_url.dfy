/**
 * The post/reel URL validator of the inspect endpoint.
 *
 * The source compiles the pattern
 *   ^(https?://)?(www\.)?instagram\.com/(p|reel|reels|tv)/[A-Za-z0-9_-]+/?
 * without IGNORECASE and applies it with `match`, which only anchors at the
 * start: whatever follows the first identifier character is irrelevant.
 * IsPostUrl is a hand-written, deterministic recogniser of that prefix;
 * MatchesPattern is the pattern read as "the string splits into these pieces",
 * and the two are proved to agree.
 */
module PostUrl {
  import opened Common

  const Host := "instagram.com/"

  /** The character class `[A-Za-z0-9_-]` of a post identifier. */
  predicate IsIdChar(c: char)
  {
    ('A' <= c <= 'Z') || ('a' <= c <= 'z') || ('0' <= c <= '9') || c == '_' || c == '-'
  }

  /** Consumes the optional `https?://` group. */
  function AfterScheme(s: string): (r: string)
    ensures |r| <= |s| && r == s[|s| - |r|..]
  {
    if StartsWith(s, "https://") then s[8..]
    else if StartsWith(s, "http://") then s[7..]
    else s
  }

  /** Consumes the optional `www\.` group. */
  function AfterWww(s: string): (r: string)
    ensures |r| <= |s| && r == s[|s| - |r|..]
  {
    if StartsWith(s, "www.") then s[4..] else s
  }

  /** Consumes one of the alternatives `p`, `reel`, `reels`, `tv` and the slash after it. */
  function AfterKind(s: string): (r: Option<string>)
    ensures r.Some? ==> |r.value| < |s| && r.value == s[|s| - |r.value|..]
  {
    if StartsWith(s, "p/") then Some(s[2..])
    else if StartsWith(s, "reel/") then Some(s[5..])
    else if StartsWith(s, "reels/") then Some(s[6..])
    else if StartsWith(s, "tv/") then Some(s[3..])
    else None
  }

  /** `INSTAGRAM_URL_RE.match(s)` succeeds. */
  predicate IsPostUrl(s: string)
  {
    var t := AfterWww(AfterScheme(s));
    StartsWith(t, Host) &&
    var k := AfterKind(t[|Host|..]);
    k.Some? && |k.value| > 0 && IsIdChar(k.value[0])
  }

  /** The pieces of the pattern, with `tail` the identifier and anything after it. */
  ghost predicate Splits(s: string, scheme: string, www: string, kind: string, tail: string)
  {
    && (scheme == "" || scheme == "http://" || scheme == "https://")
    && (www == "" || www == "www.")
    && (kind == "p" || kind == "reel" || kind == "reels" || kind == "tv")
    && |tail| > 0 && IsIdChar(tail[0])
    && s == scheme + (www + (Host + (kind + ("/" + tail))))
  }

  /** The string begins with a match of the pattern. */
  ghost predicate MatchesPattern(s: string)
  {
    exists scheme, www, kind, tail :: Splits(s, scheme, www, kind, tail)
  }

  lemma AfterSchemeOf(scheme: string, rest: string)
    requires scheme == "" || scheme == "http://" || scheme == "https://"
    requires |rest| > 0 && rest[0] != 'h'
    ensures AfterScheme(scheme + rest) == rest
  {
    var s := scheme + rest;
    if scheme == "" {
      assert s == rest;
      assert s[0] != "https://"[0];
      assert s[0] != "http://"[0];
    } else if scheme == "http://" {
      assert s[4] == ':' != "https://"[4];
      assert s[..7] == "http://";
      assert s[7..] == rest;
    } else {
      assert s[..8] == "https://";
      assert s[8..] == rest;
    }
  }

  lemma AfterWwwOf(www: string, rest: string)
    requires www == "" || www == "www."
    requires |rest| > 0 && rest[0] == 'i'
    ensures AfterWww(www + rest) == rest
  {
    var s := www + rest;
    if www == "" {
      assert s == rest;
      assert s[0] != "www."[0];
    } else {
      assert s[..4] == "www.";
      assert s[4..] == rest;
    }
  }

  lemma AfterKindOf(kind: string, tail: string)
    requires kind == "p" || kind == "reel" || kind == "reels" || kind == "tv"
    ensures AfterKind(kind + ("/" + tail)) == Some(tail)
  {
    var s := kind + ("/" + tail);
    var n := |kind| + 1;
    assert s[..n] == kind + "/";
    assert s[n..] == tail;
    if kind == "reel" {
      assert s[0] != "p/"[0];
    } else if kind == "reels" {
      assert s[0] != "p/"[0];
      assert s[4] != "reel/"[4];
    } else if kind == "tv" {
      assert s[0] != "p/"[0];
      assert s[0] != "reel/"[0];
      assert s[0] != "reels/"[0];
    }
  }

  lemma SchemeOf(s: string) returns (scheme: string)
    ensures scheme == "" || scheme == "http://" || scheme == "https://"
    ensures s == scheme + AfterScheme(s)
  {
    scheme := s[..|s| - |AfterScheme(s)|];
  }

  lemma WwwOf(s: string) returns (www: string)
    ensures www == "" || www == "www."
    ensures s == www + AfterWww(s)
  {
    www := s[..|s| - |AfterWww(s)|];
  }

  lemma KindOf(s: string) returns (kind: string)
    requires AfterKind(s).Some?
    ensures kind == "p" || kind == "reel" || kind == "reels" || kind == "tv"
    ensures s == kind + ("/" + AfterKind(s).value)
  {
    var tail := AfterKind(s).value;
    kind := s[..|s| - |tail| - 1];
    assert s == s[..|s| - |tail|] + tail;
  }

  /** Every accepted string splits into the pieces of the pattern. */
  lemma PostUrlSplits(s: string) returns (scheme: string, www: string, kind: string, tail: string)
    requires IsPostUrl(s)
    ensures Splits(s, scheme, www, kind, tail)
  {
    var a := AfterScheme(s);
    var b := AfterWww(a);
    var c := b[|Host|..];
    tail := AfterKind(c).value;
    scheme := SchemeOf(s);
    www := WwwOf(a);
    kind := KindOf(c);
    assert b == Host + c;
  }

  /** Every string that splits into the pieces of the pattern is accepted. */
  lemma SplitsArePostUrls(s: string, scheme: string, www: string, kind: string, tail: string)
    requires Splits(s, scheme, www, kind, tail)
    ensures IsPostUrl(s)
  {
    var c := kind + ("/" + tail);
    var b := Host + c;
    var a := www + b;
    assert s == scheme + a;
    assert b[..|Host|] == Host && b[|Host|..] == c;
    assert a[0] == 'w' || a[0] == 'i';
    AfterSchemeOf(scheme, a);
    assert AfterScheme(s) == a;
    AfterWwwOf(www, b);
    assert AfterWww(a) == b;
    AfterKindOf(kind, tail);
    assert AfterKind(c) == Some(tail);
  }

  /** The recogniser accepts exactly the strings that begin with a match of the pattern. */
  lemma IsPostUrlMatchesPattern(s: string)
    ensures IsPostUrl(s) <==> MatchesPattern(s)
  {
    if IsPostUrl(s) {
      var scheme, www, kind, tail := PostUrlSplits(s);
    }
    if MatchesPattern(s) {
      var scheme, www, kind, tail :| Splits(s, scheme, www, kind, tail);
      SplitsArePostUrls(s, scheme, www, kind, tail);
    }
  }

  /** Only a prefix is examined: query strings or extra path segments never change acceptance. */
  lemma AcceptanceIgnoresSuffix(s: string, extra: string)
    requires IsPostUrl(s)
    ensures IsPostUrl(s + extra)
  {
    var scheme, www, kind, tail := PostUrlSplits(s);
    var c := kind + ("/" + tail);
    var b := Host + c;
    var a := www + b;
    ConcatAssociative("/", tail, extra);
    ConcatAssociative(kind, "/" + tail, extra);
    ConcatAssociative(Host, c, extra);
    ConcatAssociative(www, b, extra);
    ConcatAssociative(scheme, a, extra);
    assert Splits(s + extra, scheme, www, kind, tail + extra);
    SplitsArePostUrls(s + extra, scheme, www, kind, tail + extra);
  }

  /** Every canonical post link `https://www.instagram.com/p/<id>/` is accepted. */
  lemma AcceptsCanonicalPostLink(id: string)
    requires |id| > 0 && forall i :: 0 <= i < |id| ==> IsIdChar(id[i])
    ensures IsPostUrl("https://www.instagram.com/p/" + id + "/")
  {
    var tail := id + "/";
    assert "https://www.instagram.com/p/" == "https://" + ("www." + (Host + "p/"));
    ConcatAssociative("https://", "www." + (Host + "p/"), id);
    ConcatAssociative("www.", Host + "p/", id);
    ConcatAssociative(Host, "p/", id);
    assert "p/" + id == "p" + ("/" + id);
    var s := "https://" + ("www." + (Host + ("p" + ("/" + id))));
    assert "https://www.instagram.com/p/" + id == s;
    ConcatAssociative("https://", "www." + (Host + ("p" + ("/" + id))), "/");
    ConcatAssociative("www.", Host + ("p" + ("/" + id)), "/");
    ConcatAssociative(Host, "p" + ("/" + id), "/");
    ConcatAssociative("p", "/" + id, "/");
    ConcatAssociative("/", id, "/");
    assert Splits("https://www.instagram.com/p/" + id + "/", "https://", "www.", "p", tail);
    SplitsArePostUrls("https://www.instagram.com/p/" + id + "/", "https://", "www.", "p", tail);
  }

  /** A post link of the right shape is accepted. */
  lemma AcceptsExample()
    ensures IsPostUrl("https://instagram.com/p/abc")
  {
    var s := "https://instagram.com/p/abc";
    assert s == "https://" + ("" + (Host + ("p" + ("/" + "abc"))));
    SplitsArePostUrls(s, "https://", "", "p", "abc");
  }

  /** After `https://`, anything that starts neither `www.` nor the host is rejected. */
  lemma RejectsBadHostAfterHttps(s: string)
    requires |s| > 8 && s[..8] == "https://" && s[8] != 'w' && s[8] != 'i'
    ensures !IsPostUrl(s)
  {
    var a := s[8..];
    assert AfterScheme(s) == a;
    assert AfterWww(a) == a by { assert !StartsWith(a, "www.") by { if |a| >= 4 { assert a[..4][0] == a[0]; } } }
    assert !StartsWith(a, Host) by { if |a| >= 14 { assert a[..14][0] == a[0]; } }
  }

  lemma NoKindAt(c: string)
    requires |c| > 0 && c[0] != 'p' && c[0] != 'r' && c[0] != 't'
    ensures AfterKind(c) == None
  {
    assert !StartsWith(c, "p/") by { if |c| >= 2 { assert c[..2][0] == c[0]; } }
    assert !StartsWith(c, "reel/") by { if |c| >= 5 { assert c[..5][0] == c[0]; } }
    assert !StartsWith(c, "reels/") by { if |c| >= 6 { assert c[..6][0] == c[0]; } }
    assert !StartsWith(c, "tv/") by { if |c| >= 3 { assert c[..3][0] == c[0]; } }
  }

  /** After `https://` and the host, a path kind starting with another letter is rejected. */
  lemma RejectsBadKindAfterHost(rest: string)
    requires |rest| > 0 && rest[0] != 'p' && rest[0] != 'r' && rest[0] != 't'
    ensures !IsPostUrl("https://" + (Host + rest))
  {
    var a := Host + rest;
    var s := "https://" + a;
    assert s[..8] == "https://" && s[8..] == a;
    assert AfterScheme(s) == a;
    assert AfterWww(a) == a by { assert !StartsWith(a, "www.") by { assert a[..4][0] == a[0]; } }
    assert a[..14] == Host && a[14..] == rest;
    NoKindAt(rest);
  }

  /** A link to another host is rejected. */
  lemma RejectsOtherHost()
    ensures !IsPostUrl("https://example.com/p/abc")
  {
    RejectsBadHostAfterHttps("https://example.com/p/abc");
  }

  /** A path that is not `/p/`, `/reel/`, `/reels/` or `/tv/` is rejected. */
  lemma RejectsOtherPathKind()
    ensures !IsPostUrl("https://instagram.com/notp/abc")
  {
    assert "https://instagram.com/notp/abc" == "https://" + (Host + "notp/abc");
    RejectsBadKindAfterHost("notp/abc");
  }

  /** The empty string is rejected. */
  lemma RejectsEmpty()
    ensures !IsPostUrl("")
  {
  }

  /** Matching is case-sensitive: a capital letter in the host is rejected. */
  lemma RejectsCapitalHost()
    ensures !IsPostUrl("https://Instagram.com/p/abc")
  {
    RejectsBadHostAfterHttps("https://Instagram.com/p/abc");
  }

  /** Matching is case-sensitive: a capital letter in the path kind is rejected. */
  lemma RejectsCapitalPathKind()
    ensures !IsPostUrl("https://instagram.com/P/abc")
  {
    assert "https://instagram.com/P/abc" == "https://" + (Host + "P/abc");
    RejectsBadKindAfterHost("P/abc");
  }
}
