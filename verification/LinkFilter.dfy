/**
 The first-link filter of `WikiPage.is_href_valid` and the scan of
 `WikiPage.get_first_link`.

 A link is what the filter reads of a parsed `<a href=…>` tag: its `href`,
 its `class` attribute (absent or a list of class names), the tag name of
 its parent, its own serialised text, the serialised text of its
 grandparent, its contents, and the class lists and ids of all the
 ancestors that carry them.
 */
module LinkFilter {
  import opened Wrappers
  import opened Text
  import opened Brackets

  datatype Link = Link(
    href: string,
    classes: Option<seq<string>>,
    parentName: string,
    linkStr: string,
    grandparentStr: string,
    contents: seq<string>,
    ancestorClasses: seq<seq<string>>,
    ancestorIds: seq<string>)

  /** The path prefix of every article, `/wiki/`. */
  const WikiPath := "/wiki/"
  /** Classes of the link itself that disqualify it (external, disambiguation, infobox data). */
  const RejectedLinkClasses := ["external_text", "mw-disambig", "infobox-data"]
  /** Namespaces that are not articles; rejected when followed by `:`. */
  const ReservedNamespaces := ["Help", "Category", "Wikipedia", "Template", "File", "Talk", "Special", "Portal"]
  /** Parent tags that mark footnotes, annotations and alternative spellings. */
  const SkippedParentTags := ["small", "sup", "i"]
  /** Ancestor classes of captions, infoboxes, navigation, sidebars, boxes, contents, edit links, thumbnails, lists. */
  const RejectedAncestorClasses := ["thumbcaption", "infobox", "navigation-not-searchable", "sidebar", "box-text",
                                    "toc", "mw-editsection", "thumb", "hlist"]
  const CoordinatesId := "coordinates"

  predicate IsAsciiLetter(c: char)
  {
    'a' <= c <= 'z' || 'A' <= c <= 'Z'
  }

  /** The path ends in `.` and `n` ASCII letters (`\.[a-zA-Z]{n}$`, `$` read as the end of the string). */
  predicate EndsWithExtension(url: string, n: nat)
  {
    n + 1 <= |url| && url[|url| - n - 1] == '.'
    && forall j :: |url| - n <= j < |url| ==> IsAsciiLetter(url[j])
  }

  /** The path looks like a file: an extension of three or four letters. */
  predicate LooksLikeFile(url: string)
  {
    EndsWithExtension(url, 3) || EndsWithExtension(url, 4)
  }

  /** Some reserved namespace followed by `:` occurs in the path. */
  predicate InReservedNamespace(url: string)
  {
    exists ns :: ns in ReservedNamespaces && Contains(url, ns + ":")
  }

  /** Some ancestor's `_`-joined classes contain a rejected class name. */
  predicate InRejectedAncestor(link: Link)
  {
    exists cs :: cs in link.ancestorClasses && ContainsAny(Join(cs, '_'), RejectedAncestorClasses)
  }

  /** `is_href_valid(link)`: its rejection rules, tried in the source's order. */
  predicate IsHrefValid(link: Link)
  {
    var url := link.href;
    if !StartsWith(url, WikiPath) then false
    else if link.classes.Some? && ContainsAny(Join(link.classes.value, '_'), RejectedLinkClasses) then false
    else if Contains(url, "wikimedia") || Contains(url, "wiktionary") then false
    else if InReservedNamespace(url) then false
    else if '#' in url then false
    else if LooksLikeFile(url) then false
    else if IsSubstringEnclosedInBrackets(link.linkStr, link.grandparentStr) then false
    else if link.parentName in SkippedParentTags then false
    else if link.contents == ["or"] then false
    else if InRejectedAncestor(link) then false
    else if CoordinatesId in link.ancestorIds then false
    else true
  }

  /**
   Rules on the href alone: a link fails the filter when its href leaves the
   article paths, names a sister project, a reserved namespace, a fragment
   or a file, whatever its classes and ancestors are.
   */
  lemma HrefRulesReject(link: Link)
    requires || !StartsWith(link.href, WikiPath)
             || Contains(link.href, "wikimedia") || Contains(link.href, "wiktionary")
             || (exists ns :: ns in ReservedNamespaces && Contains(link.href, ns + ":"))
             || '#' in link.href
             || LooksLikeFile(link.href)
    ensures !IsHrefValid(link)
  {
  }

  /** Rules on the link's own markup and its place in the page. */
  lemma MarkupRulesReject(link: Link)
    requires || (link.classes.Some? && ContainsAny(Join(link.classes.value, '_'), RejectedLinkClasses))
             || IsSubstringEnclosedInBrackets(link.linkStr, link.grandparentStr)
             || link.parentName in SkippedParentTags
             || link.contents == ["or"]
    ensures !IsHrefValid(link)
  {
  }

  /** Rules on the ancestors: a rejected class anywhere up the tree, or the coordinates block. */
  lemma AncestorRulesReject(link: Link)
    requires InRejectedAncestor(link) || CoordinatesId in link.ancestorIds
    ensures !IsHrefValid(link)
  {
  }

  /** A link passes exactly when no rejection rule fires. */
  lemma ValidIffNoRuleFires(link: Link)
    ensures IsHrefValid(link) <==>
      && StartsWith(link.href, WikiPath)
      && (link.classes.None? || !ContainsAny(Join(link.classes.value, '_'), RejectedLinkClasses))
      && !Contains(link.href, "wikimedia") && !Contains(link.href, "wiktionary")
      && !InReservedNamespace(link.href)
      && '#' !in link.href
      && !LooksLikeFile(link.href)
      && !IsSubstringEnclosedInBrackets(link.linkStr, link.grandparentStr)
      && link.parentName !in SkippedParentTags
      && link.contents != ["or"]
      && !InRejectedAncestor(link)
      && CoordinatesId !in link.ancestorIds
  {
  }

  /**
   A link whose text sits inside an innermost pair of brackets of its
   grandparent's text is rejected.
   */
  lemma BracketedLinkRejected(link: Link, i: nat, e: int)
    requires Span(1, link.grandparentStr, i, e) && Contains(link.grandparentStr[i..e], link.linkStr)
    ensures !IsHrefValid(link)
  {
    InnermostEnclosed(link.linkStr, link.grandparentStr, i, e);
  }

  /**
   A link rejected for its brackets is enclosed in a bracketed span, one to
   three levels deep, of its grandparent's text.
   */
  lemma BracketRuleNeedsSpan(link: Link)
    requires IsSubstringEnclosedInBrackets(link.linkStr, link.grandparentStr)
    ensures exists k, i, e :: 1 <= k <= 3 && Span(k, link.grandparentStr, i, e)
                              && Contains(link.grandparentStr[i..e], link.linkStr)
  {
    EnclosedSound(link.linkStr, link.grandparentStr);
  }

  /**
   The href `get_first_link` returns for the page's links in document order:
   that of the first link passing the filter, or nothing.
   */
  function FirstValidLink(links: seq<Link>): (r: Option<string>)
    ensures r.None? <==> forall j :: 0 <= j < |links| ==> !IsHrefValid(links[j])
    ensures r.Some? ==> exists j :: 0 <= j < |links| && IsHrefValid(links[j]) && r.value == links[j].href
                                    && forall l :: 0 <= l < j ==> !IsHrefValid(links[l])
    decreases |links|
  {
    if |links| == 0 then None
    else if IsHrefValid(links[0]) then Some(links[0].href)
    else FirstValidLink(links[1..])
  }
}
