/**
  The newsfeed's template filters `format_url` and `format_plural`
  (app/utils/filters.py). `format_url` shortens a link to a crude display
  host; `format_plural` appends an `s` to a word unless the amount is one.
 */
module Filters {
  import opened PyStrings

  /**
    The first half of `format_url`: every `http://`, then every `https://`,
    then every `www.` deleted, in that order. Deleting never lengthens the
    URL.
   */
  function StripPrefixes(url: string): (r: string)
    ensures |r| <= |url|
  {
    ReplaceAll(ReplaceAll(ReplaceAll(url, "http://", ""), "https://", ""), "www.", "")
  }

  /** The three deletions leave a URL unchanged exactly when it holds none of the three strings. */
  lemma StripPrefixesUnchangedIff(url: string)
    ensures StripPrefixes(url) == url <==>
      !Contains(url, "http://") && !Contains(url, "https://") && !Contains(url, "www.")
  {
    var r1 := ReplaceAll(url, "http://", "");
    var r2 := ReplaceAll(r1, "https://", "");
    RemoveAllUnchangedIff(url, "http://");
    RemoveAllUnchangedIff(r1, "https://");
    RemoveAllUnchangedIff(r2, "www.");
    if Contains(url, "http://") {
      RemoveAllShrinks(url, "http://");
    } else if Contains(url, "https://") {
      RemoveAllShrinks(url, "https://");
    } else if Contains(url, "www.") {
      RemoveAllShrinks(url, "www.");
    }
  }

  /**
    `format_url(url)`: the prefixes deleted, then the text before the first
    `/`, then the text of that before the first `?`. The result never holds
    a `/` or a `?`, is a prefix of the stripped URL and is never longer than
    the URL itself.
   */
  function FormatUrl(url: string): (r: string)
    ensures '/' !in r && '?' !in r
    ensures r <= StripPrefixes(url)
    ensures |r| <= |url|
  {
    var c := StripPrefixes(url);
    var host := Split(c, "/")[0];
    SplitFirstChar(c, '/');
    SplitFirstChar(host, '?');
    Split(host, "?")[0]
  }

  /**
    `FormatUrl(url)` is exactly the longest prefix of the stripped URL that
    holds neither `/` nor `?`: the text up to the first of those two
    characters, or all of it when it has neither.
   */
  lemma FormatUrlIsFirstSegment(url: string, p: string)
    ensures p == FormatUrl(url) <==>
      var c := StripPrefixes(url);
      && p <= c
      && '/' !in p && '?' !in p
      && (p == c || c[|p|] == '/' || c[|p|] == '?')
  {
    var c := StripPrefixes(url);
    var host := Split(c, "/")[0];
    var r := FormatUrl(url);
    SplitFirstChar(c, '/');
    SplitFirstChar(host, '?');
    assert r == c || c[|r|] == '/' || c[|r|] == '?' by {
      if r != c && r == host {
        assert c[|r|] == '/';
      } else if r != host {
        assert host[|r|] == '?';
      }
    }
    if p <= c && '/' !in p && '?' !in p && (p == c || c[|p|] == '/' || c[|p|] == '?') {
      // Two prefixes of `c` that each end at `c`'s end or at its first
      // `/` or `?` have the same length.
      assert |p| == |r|;
      assert p == c[..|p|] && r == c[..|r|];
    }
  }

  /**
    A URL holding none of `http://`, `https://`, `www.`, `/`, `?` comes back
    from `format_url` unchanged.
   */
  lemma FormatUrlUnchanged(url: string)
    requires !Contains(url, "http://") && !Contains(url, "https://") && !Contains(url, "www.")
    requires '/' !in url && '?' !in url
    ensures FormatUrl(url) == url
  {
    ReplaceAllAbsent(url, "http://", "");
    ReplaceAllAbsent(url, "https://", "");
    ReplaceAllAbsent(url, "www.", "");
    SplitFirstChar(url, '/');
    SplitFirstChar(url, '?');
  }

  /** The three strings `format_url` deletes. */
  predicate IsStripped(prefix: string)
  {
    prefix == "http://" || prefix == "https://" || prefix == "www."
  }

  /** A leading `http://`, `https://` or `www.` is dropped by the strip. */
  lemma StripPrefixesDropsLeading(prefix: string, rest: string)
    requires IsStripped(prefix)
    ensures StripPrefixes(prefix + rest) == StripPrefixes(rest)
  {
    var s := prefix + rest;
    if prefix == "http://" {
      ReplaceAllLeading(rest, "http://", "");
      assert "" + ReplaceAll(rest, "http://", "") == ReplaceAll(rest, "http://", "");
    } else {
      // No `http://` (and, for `www.`, no `https://`) starts inside the prefix:
      // the prefix holds no `h` past its first character, and
      // `https://` itself is not `http://`.
      forall k | 0 <= k < |prefix| ensures !OccursAt(s, "http://", k) {
        if k + 7 <= |s| {
          assert s[k..k + 7][0] == s[k];
          assert s[k..k + 7][4] == s[k + 4];
        }
      }
      ReplaceAllSkip(prefix, rest, "http://", "");
      var r1 := ReplaceAll(rest, "http://", "");
      if prefix == "https://" {
        ReplaceAllLeading(r1, "https://", "");
        assert "" + ReplaceAll(r1, "https://", "") == ReplaceAll(r1, "https://", "");
      } else {
        forall k | 0 <= k < |prefix| ensures !OccursAt(prefix + r1, "https://", k) {
          if k + 8 <= |prefix + r1| {
            assert (prefix + r1)[k..k + 8][0] == (prefix + r1)[k];
          }
        }
        ReplaceAllSkip(prefix, r1, "https://", "");
        var r2 := ReplaceAll(r1, "https://", "");
        ReplaceAllLeading(r2, "www.", "");
        assert "" + ReplaceAll(r2, "www.", "") == ReplaceAll(r2, "www.", "");
      }
    }
  }

  /** Text with no `h` and no `w` holds nothing to strip. */
  lemma StripPrefixesKeeps(s: string)
    requires 'h' !in s && 'w' !in s
    ensures StripPrefixes(s) == s
  {
    AbsentByFirstChar(s, "http://");
    ReplaceAllAbsent(s, "http://", "");
    AbsentByFirstChar(s, "https://");
    ReplaceAllAbsent(s, "https://", "");
    AbsentByFirstChar(s, "www.");
    ReplaceAllAbsent(s, "www.", "");
  }

  /** A leading `http://`, `https://` or `www.` does not change what `format_url` returns. */
  lemma FormatUrlDropsLeading(prefix: string, rest: string)
    requires IsStripped(prefix)
    ensures FormatUrl(prefix + rest) == FormatUrl(rest)
  {
    StripPrefixesDropsLeading(prefix, rest);
  }

  /**
    A host with nothing to strip, followed by nothing or by text that starts
    with `/` or `?`, is what `format_url` returns.
   */
  lemma FormatUrlOfBareHost(host: string, rest: string)
    requires !Contains(host + rest, "http://") && !Contains(host + rest, "https://")
    requires !Contains(host + rest, "www.")
    requires '/' !in host && '?' !in host
    requires rest == "" || rest[0] == '/' || rest[0] == '?'
    ensures FormatUrl(host + rest) == host
  {
    StripPrefixesUnchangedIff(host + rest);
    FormatUrlIsFirstSegment(host + rest, host);
  }

  /**
    A host and what follows it, free of `h` and `w`, hold nothing to strip,
    so the host is what `format_url` returns.
   */
  lemma FormatUrlOfPlainHost(host: string, rest: string)
    requires 'h' !in host + rest && 'w' !in host + rest
    requires '/' !in host && '?' !in host
    requires rest == "" || rest[0] == '/' || rest[0] == '?'
    ensures FormatUrl(host + rest) == host
  {
    StripPrefixesKeeps(host + rest);
    StripPrefixesUnchangedIff(host + rest);
    FormatUrlOfBareHost(host, rest);
  }

  /** `format_url('http://google.com/test/') == 'google.com'`: the scheme and the path go. */
  lemma FormatUrlExamplePath()
    ensures FormatUrl("http://google.com/test/") == "google.com"
  {
    var scheme, host, path := "http://", "google.com", "/test/";
    var rest := host + path;
    assert scheme + rest == "http://google.com/test/";
    FormatUrlOfPlainHost(host, path);
    FormatUrlDropsLeading(scheme, rest);
  }

  /**
    `format_url` of a scheme, then `www.`, then a plain host and what follows
    it, is the host.
   */
  lemma FormatUrlOfSchemeWwwHost(scheme: string, host: string, rest: string)
    requires IsStripped(scheme)
    requires 'h' !in host + rest && 'w' !in host + rest
    requires '/' !in host && '?' !in host
    requires rest == "" || rest[0] == '/' || rest[0] == '?'
    ensures FormatUrl(scheme + "www." + host + rest) == host
  {
    var bare := host + rest;
    var tail := "www." + bare;
    assert scheme + "www." + host + rest == scheme + tail;
    FormatUrlOfPlainHost(host, rest);
    FormatUrlDropsLeading("www.", bare);
    FormatUrlDropsLeading(scheme, tail);
  }

  /** `format_url('https://www.google.com?q=test') == 'google.com'`: the scheme, `www.` and the query go. */
  lemma FormatUrlExampleQuery()
    ensures FormatUrl("https://www.google.com?q=test") == "google.com"
  {
    assert "https://" + "www." + "google.com" + "?q=test" == "https://www.google.com?q=test";
    FormatUrlOfSchemeWwwHost("https://", "google.com", "?q=test");
  }

  /**
    Deleting `www.` can bring a new `www.` together: in `wwwwww..` the only
    `www.` starts at index 3, and deleting it joins the `www` before it to
    the `.` after it.
   */
  lemma StripPrefixesCanJoin(url: string)
    requires url == "wwwwww.."
    ensures StripPrefixes(url) == "www."
  {
    var head, tail := url[..3], url[3..];
    assert url == head + tail;
    AbsentByFirstChar(url, "http://");
    ReplaceAllAbsent(url, "http://", "");
    AbsentByFirstChar(url, "https://");
    ReplaceAllAbsent(url, "https://", "");
    forall k | 0 <= k < 3 ensures !OccursAt(url, "www.", k) {
      assert url[k..k + 4][3] == url[k + 3] == 'w';
    }
    ReplaceAllSkip(head, tail, "www.", "");
    assert tail == "www." + ".";
    ReplaceAllLeading(".", "www.", "");
  }

  /**
    `format_url` is not idempotent: a second application deletes the `www.`
    that the first one brought together.
   */
  lemma FormatUrlNotIdempotent(url: string)
    requires url == "wwwwww.."
    ensures FormatUrl(url) == "www."
    ensures FormatUrl(FormatUrl(url)) == ""
  {
    StripPrefixesCanJoin(url);
    FormatUrlIsFirstSegment(url, "www.");
    FormatUrlDropsLeading("www.", "");
    assert "www." + "" == "www.";
  }

  /**
    `format_plural(amount, word)`: the word, with an `s` appended unless
    `amount == 1`. The result always starts with the word and is one
    character longer exactly when the amount is not one, that character
    being `s`.
   */
  function FormatPlural(amount: int, word: string): (r: string)
    ensures word <= r
    ensures |r| == if amount == 1 then |word| else |word| + 1
    ensures amount != 1 ==> r[|word|] == 's'
  {
    if amount != 1 then word + "s" else word
  }

  /**
    The word comes back bare exactly for an amount of one; every other
    amount, zero and negative ones included, gives the word plus `s`.
   */
  lemma FormatPluralCases(amount: int, word: string)
    ensures FormatPlural(amount, word) == word <==> amount == 1
    ensures amount != 1 ==> FormatPlural(amount, word) == word + "s"
  {
  }

  /** The two examples written beside `format_plural` in the source. */
  lemma FormatPluralExamples()
    ensures FormatPlural(2, "cat") == "cats"
    ensures FormatPlural(1, "dog") == "dog"
    ensures FormatPlural(0, "cat") == "cats" && FormatPlural(-1, "cat") == "cats"
  {
  }
}
