/**
 Page names and URLs, response classification and the `WikiPage` object
 of `WikiPage.py`. The network is not modelled: where the source sends a
 request, the response text (and what the HTML parser extracts from it)
 is a parameter.
 */
module WikiPages {
  import opened Wrappers
  import opened Text
  import opened LinkFilter

  const BaseWikiUrl := "https://en.wikipedia.org/"
  /** `base_wiki_url[:-1]`: the site without its trailing slash. */
  const BaseUrl := BaseWikiUrl[..|BaseWikiUrl| - 1]

  /** `__name_to_url`: the article path of a page name. */
  function NameToUrl(name: string): string
  {
    WikiPath + ReplaceAll(name, " ", "_")
  }

  /** A name's article path starts with `/wiki/` and holds no space. */
  lemma NameToUrlIsArticlePath(name: string)
    ensures StartsWith(NameToUrl(name), WikiPath) && ' ' !in NameToUrl(name)
  {
    ReplaceRemovesChar(name, ' ', "_");
  }

  /** `__full_url_to_url`: drop every occurrence of the site address. */
  function FullUrlToUrl(url: string): string
  {
    ReplaceAll(url, BaseUrl, "")
  }

  /** `__url_to_full_url`: prefix the site address. */
  function UrlToFullUrl(url: string): string
  {
    BaseUrl + url
  }

  function HexValue(c: char): nat
  {
    if '0' <= c <= '9' then (c as int - '0' as int) as nat
    else if 'a' <= c <= 'f' then (c as int - 'a' as int + 10) as nat
    else if 'A' <= c <= 'F' then (c as int - 'A' as int + 10) as nat
    else 16
  }

  /**
   `urllib.parse.unquote`, for the escapes `%XX` that stand for one ASCII
   character; every other character, and every escape of a byte of 0x80 or
   above, is kept as it is.
   */
  function Unquote(s: string): (r: string)
    ensures '%' !in s ==> r == s
    decreases |s|
  {
    if |s| == 0 then ""
    else if |s| >= 3 && s[0] == '%' && HexValue(s[1]) < 8 && HexValue(s[2]) < 16 then
      [(HexValue(s[1]) * 16 + HexValue(s[2])) as char] + Unquote(s[3..])
    else [s[0]] + Unquote(s[1..])
  }

  /** `__url_to_name`: strip the site and `/wiki/`, turn `_` into spaces, percent-decode. */
  function UrlToName(url: string): string
  {
    Unquote(ReplaceAll(ReplaceAll(FullUrlToUrl(url), WikiPath, ""), "_", " "))
  }

  /** Percent-decoding never lengthens a string. */
  lemma {:induction false} UnquoteShorter(s: string)
    ensures |Unquote(s)| <= |s|
    decreases |s|
  {
    if |s| >= 3 && s[0] == '%' && HexValue(s[1]) < 8 && HexValue(s[2]) < 16 {
      UnquoteShorter(s[3..]);
    } else if |s| > 0 {
      UnquoteShorter(s[1..]);
    }
  }

  /** Neither stripping the site address nor reading the name back lengthens a URL. */
  lemma UrlToNameShorter(url: string)
    ensures |FullUrlToUrl(url)| <= |url|
    ensures |UrlToName(url)| <= |url|
  {
    var path := FullUrlToUrl(url);
    ReplaceLength(url, BaseUrl, "");
    var bare := ReplaceAll(path, WikiPath, "");
    ReplaceLength(path, WikiPath, "");
    ReplaceLength(bare, "_", " ");
    UnquoteShorter(ReplaceAll(bare, "_", " "));
  }

  /** The label shown on the graph: `:\t` becomes `: `, then every `:` becomes U+02F8. */
  function NameToShow(name: string): (r: string)
    ensures ':' !in r
  {
    var tidy := ReplaceAll(name, ":\t", ": ");
    ReplaceRemovesChar(tidy, ':', "˸");
    ReplaceAll(tidy, ":", "˸")
  }

  /** Index of the first newline in `s`, or `|s|`. */
  function LineEnd(s: string): (r: nat)
    ensures r <= |s| && '\n' !in s[..r]
    ensures r < |s| ==> s[r] == '\n'
    decreases |s|
  {
    if |s| == 0 || s[0] == '\n' then 0
    else
      var r := LineEnd(s[1..]);
      assert s[..r + 1] == [s[0]] + s[1..][..r];
      r + 1
  }

  /**
   `clean_url`, i.e. `re.sub(r'#.*', '', url)`: every `#` is removed with the
   rest of its line (`.` does not match a newline).
   */
  function CleanUrl(url: string): (r: string)
    ensures '#' !in r
    ensures |r| <= |url|
    decreases |url|
  {
    if |url| == 0 then ""
    else if url[0] == '#' then CleanUrl(url[LineEnd(url)..])
    else [url[0]] + CleanUrl(url[1..])
  }

  /** Cleaning a URL without `#` changes nothing. */
  lemma {:induction false} CleanUrlWithoutFragment(url: string)
    requires '#' !in url
    ensures CleanUrl(url) == url
    decreases |url|
  {
    if |url| > 0 {
      CleanUrlWithoutFragment(url[1..]);
      assert [url[0]] + url[1..] == url;
    }
  }

  /** `clean_url` is idempotent. */
  lemma CleanUrlIdempotent(url: string)
    ensures CleanUrl(CleanUrl(url)) == CleanUrl(url)
  {
    CleanUrlWithoutFragment(CleanUrl(url));
  }

  /** On a single line, `clean_url` keeps exactly the part before the first `#`. */
  lemma {:induction false} CleanUrlSingleLine(url: string)
    requires '\n' !in url
    ensures StartsWith(url, CleanUrl(url))
    ensures |CleanUrl(url)| < |url| ==> url[|CleanUrl(url)|] == '#'
    decreases |url|
  {
    if |url| > 0 && url[0] != '#' {
      CleanUrlSingleLine(url[1..]);
    } else if |url| > 0 {
      assert LineEnd(url) == |url|;
    }
  }

  /** Prefixing the site address and stripping it again gives back a path that does not contain it. */
  lemma FullUrlRoundTrip(url: string)
    requires !Contains(url, BaseUrl)
    ensures FullUrlToUrl(UrlToFullUrl(url)) == url
  {
    var full := BaseUrl + url;
    assert StartsWith(full, BaseUrl);
    assert full[|BaseUrl|..] == url;
    ReplaceAbsent(url, BaseUrl, "");
  }

  /** The site address occurs in `/wiki/` + `rest` only inside `rest`. */
  lemma BaseInWikiPath(rest: string)
    requires Contains(WikiPath + rest, BaseUrl)
    ensures Contains(rest, BaseUrl)
  {
    var s := WikiPath + rest;
    var i := ContainsWitness(s, BaseUrl);
    assert s[i..][0] == BaseUrl[0] == 'h';
    assert forall j :: 0 <= j < |WikiPath| ==> s[j] != 'h';
    assert s[i..] == rest[i - |WikiPath|..];
    ContainsAt(rest, BaseUrl, i - |WikiPath|);
  }

  /** Stripping `/wiki/` from an article path leaves the rest when it holds no other `/wiki/`. */
  lemma StripWikiPath(rest: string)
    requires !Contains(rest, WikiPath)
    ensures ReplaceAll(WikiPath + rest, WikiPath, "") == rest
  {
    var url := WikiPath + rest;
    assert StartsWith(url, WikiPath) && url[|WikiPath|..] == rest;
    ReplaceAbsent(rest, WikiPath, "");
  }

  /** Turning spaces into `_` and back restores a name that had no `_`. */
  lemma UnderscoresBack(name: string)
    requires '_' !in name
    ensures ReplaceAll(ReplaceAll(name, " ", "_"), "_", " ") == name
  {
    var under := ReplaceAll(name, " ", "_");
    ReplaceCharPointwise(name, ' ', '_');
    ReplaceCharPointwise(under, '_', ' ');
  }

  /** The site address cannot appear in the path of a name that does not contain it. */
  lemma FullUrlOfNameUrl(name: string)
    requires !Contains(name, BaseUrl)
    ensures FullUrlToUrl(NameToUrl(name)) == NameToUrl(name)
  {
    var under := ReplaceAll(name, " ", "_");
    var url := WikiPath + under;
    assert NameToUrl(name) == url;
    ReplaceCharKeepsAbsence(name, ' ', '_', BaseUrl);
    if Contains(url, BaseUrl) {
      BaseInWikiPath(under);
    }
    ReplaceAbsent(url, BaseUrl, "");
  }

  /** Dropping `/wiki/` from a name's path leaves the name with spaces as underscores. */
  lemma WikiPathOfNameUrl(name: string)
    requires !Contains(name, WikiPath)
    ensures ReplaceAll(NameToUrl(name), WikiPath, "") == ReplaceAll(name, " ", "_")
  {
    var under := ReplaceAll(name, " ", "_");
    assert NameToUrl(name) == WikiPath + under;
    ReplaceCharKeepsAbsence(name, ' ', '_', WikiPath);
    StripWikiPath(under);
  }

  /**
   `__url_to_name(__name_to_url(n)) == n` for a name without `_` or `%` that
   contains neither `/wiki/` nor the site address.
   */
  lemma NameUrlRoundTrip(name: string)
    requires '_' !in name && '%' !in name
    requires !Contains(name, WikiPath) && !Contains(name, BaseUrl)
    ensures UrlToName(NameToUrl(name)) == name
  {
    var url := NameToUrl(name);
    FullUrlOfNameUrl(name);
    WikiPathOfNameUrl(name);
    assert ReplaceAll(ReplaceAll(name, " ", "_"), "_", " ") == name by {
      UnderscoresBack(name);
    }
    assert Unquote(name) == name;
  }

  /** The messages that make a page unusable as the start of a walk. */
  const BadMessages := ["The page you specified doesn't exist", "Disambiguation page", " may refer to:"]

  /** `__is_page_ok`, given the text of the page's parse response. */
  predicate IsPageOk(response: string)
  {
    !ContainsAny(response, BadMessages)
  }

  /** A start page is refused exactly when its response shows one of the three messages. */
  lemma PageOkIff(response: string)
    ensures !IsPageOk(response) <==>
      || Contains(response, "The page you specified doesn't exist")
      || Contains(response, "Disambiguation page")
      || Contains(response, " may refer to:")
  {
    if Contains(response, "Disambiguation page") {
      assert BadMessages[1] in BadMessages;
    }
    if Contains(response, " may refer to:") {
      assert BadMessages[2] in BadMessages;
    }
  }

  datatype ResponseKind = RedirectNotice | MissingTitle | Article

  /** How `get_page_html` reads a parse response: redirect first, then a missing title. */
  function ClassifyResponse(response: string): (r: ResponseKind)
    ensures r == RedirectNotice <==> Contains(response, "Redirect to:")
    ensures r == MissingTitle <==> !Contains(response, "Redirect to:") && Contains(response, "missingtitle")
  {
    if Contains(response, "Redirect to:") then RedirectNotice
    else if Contains(response, "missingtitle") then MissingTitle
    else Article
  }

  /** What one round of `get_page_html` yields. */
  datatype PageHtml = Fetched(html: string) | NotFound | Redirected

  /** How `get_first_link` ends: the href it chose (or none), or the exception the parser raises. */
  datatype LinkScan = Scanned(link: Option<string>) | ParserTypeError

  class WikiPage {
    var url: string
    var name: string
    var nameToShow: string
    var html: Option<string>
    var nextUrl: Option<string>

    /** `WikiPage(page_url)`. */
    constructor (pageUrl: string)
      ensures url == BaseUrl + CleanUrl(pageUrl)
      ensures name == UrlToName(pageUrl) && nameToShow == NameToShow(name)
      ensures html == None && nextUrl == None
    {
      url := "";
      name := UrlToName(pageUrl);
      nameToShow := NameToShow(UrlToName(pageUrl));
      html := None;
      nextUrl := None;
      new;
      SetUrl(pageUrl);
    }

    /** `set_url`: store the full address of the cleaned path. */
    method SetUrl(urlWithoutBase: string)
      modifies this`url
      ensures url == BaseUrl + CleanUrl(urlWithoutBase)
      ensures '#' !in url[|BaseUrl|..]
    {
      url := BaseUrl + CleanUrl(urlWithoutBase);
      assert url[|BaseUrl|..] == CleanUrl(urlWithoutBase);
    }

    /**
     `fix_redirect`, from the href the parser found under "Redirect to:":
     the page takes the target's name and address; its label is left as it was.
     */
    method FixRedirect(redirectHref: string)
      modifies this`name, this`url
      ensures name == UrlToName(CleanUrl(redirectHref))
      ensures url == BaseUrl + CleanUrl(redirectHref)
    {
      var target := CleanUrl(redirectHref);
      name := UrlToName(target);
      SetUrl(target);
      CleanUrlIdempotent(redirectHref);
    }

    /**
     One round of `get_page_html`, given the text of the parse response, the
     HTML body it carries and the redirect target the parser finds in it.
     */
    method GetPageHtml(response: string, body: string, redirectHref: string) returns (r: PageHtml)
      modifies this`name, this`url
      ensures ClassifyResponse(response) == RedirectNotice ==>
                r == Redirected && name == UrlToName(CleanUrl(redirectHref))
                && url == BaseUrl + CleanUrl(redirectHref)
      ensures ClassifyResponse(response) == MissingTitle ==>
                r == NotFound && name == old(name) && url == old(url)
      ensures ClassifyResponse(response) == Article ==>
                r == Fetched(body) && name == old(name) && url == old(url)
    {
      if Contains(response, "Redirect to:") {
        FixRedirect(redirectHref);
        return Redirected;
      }
      if Contains(response, "missingtitle") {
        return NotFound;
      }
      return Fetched(body);
    }

    /**
     `get_first_link`: keep the fetched page and scan its links in document
     order for the first one the filter accepts. A page that was not found
     has no HTML, and the parser refuses `None` with a `TypeError`.
     */
    method GetFirstLink(pageHtml: Option<string>, links: seq<Link>) returns (r: LinkScan)
      modifies this`html
      ensures html == pageHtml
      ensures pageHtml.None? <==> r == ParserTypeError
      ensures pageHtml.Some? ==> r == Scanned(FirstValidLink(links))
    {
      html := pageHtml;
      if pageHtml.None? {
        return ParserTypeError;
      }
      var firstLink: Option<string> := None;
      var i := 0;
      while i < |links|
        invariant 0 <= i <= |links|
        invariant firstLink == None
        invariant FirstValidLink(links[i..]) == FirstValidLink(links)
      {
        if IsHrefValid(links[i]) {
          if firstLink == None {
            firstLink := Some(links[i].href);
            break;
          }
        }
        assert links[i..][1..] == links[i + 1..];
        i := i + 1;
      }
      r := Scanned(firstLink);
    }

    /**
     `first_page_init`, given the text of the page's parse response: no
     page when the response is a bad one, otherwise the page of the name.
     */
    static method FirstPageInit(name: string, response: string) returns (page: WikiPage?)
      ensures page == null <==> !IsPageOk(response)
      ensures page != null ==> fresh(page) && page.name == UrlToName(NameToUrl(name))
                               && page.nameToShow == NameToShow(page.name)
                               && page.url == BaseUrl + CleanUrl(NameToUrl(name))
    {
      var pageUrl := NameToUrl(name);
      if !IsPageOk(response) {
        page := null;
      } else {
        page := new WikiPage(pageUrl);
      }
    }
  }
}
