/**
 The drawing side of main.py: the graph the walks are drawn on, the list of
 page names drawn so far, drawing one walk, drawing a batch of start pages,
 turning searched names into start pages, and the name of the output copy.

 The graph is modelled by the calls made on it: every `node` call and every
 `edge` call, in order. Fetching a page's first link is an oracle from page
 name to href, the autocompletion of a searched name is an oracle from the
 searched text to a page title, and the parse response for a title is an
 oracle from title to response text.
 */
module Drawing {
  import opened Wrappers
  import opened Text
  import opened WikiPages
  import opened ChainWalk

  /** The colour given to the start page of every walk. */
  const FirstPagesColor := "lightskyblue1"

  /** One `u.node(title, URL=url[, color=...])` call. */
  datatype NodeCall = NodeCall(title: string, url: string, color: Option<string>)

  /** The graphviz `Digraph`, as the sequence of calls made on it. */
  class Digraph {
    var nodes: seq<NodeCall>
    var edges: seq<(string, string)>

    constructor ()
      ensures nodes == [] && edges == []
    {
      nodes := [];
      edges := [];
    }

    /** `u.node(title, URL=url, color=...)`. */
    method Node(title: string, url: string, color: Option<string>)
      modifies this
      ensures nodes == old(nodes) + [NodeCall(title, url, color)]
      ensures edges == old(edges)
    {
      nodes := nodes + [NodeCall(title, url, color)];
    }

    /** `u.edge(from, to)`. */
    method Edge(from: string, to: string)
      modifies this
      ensures edges == old(edges) + [(from, to)]
      ensures nodes == old(nodes)
    {
      edges := edges + [(from, to)];
    }
  }

  /** The `pages_drawn` list shared by the walks of one batch. */
  class NameList {
    var items: seq<string>

    constructor ()
      ensures items == []
    {
      items := [];
    }

    /** `pages_drawn += road_of_page`. */
    method Extend(more: seq<string>)
      modifies this
      ensures items == old(items) + more
    {
      items := items + more;
    }
  }

  /** The node drawn for a page reached through `href`. */
  function PageNode(href: string): NodeCall
  {
    NodeCall(NameToShow(UrlToName(href)), BaseUrl + CleanUrl(href), None)
  }

  /** One more step adds the node of the page it reaches. */
  lemma NodeCallsSnoc(hrefs: seq<string>, href: string)
    ensures NodeCalls(hrefs + [href]) == NodeCalls(hrefs) + [PageNode(href)]
  {
    assert (hrefs + [href])[..|hrefs|] == hrefs;
  }

  /** The node calls for the pages reached through `hrefs`, in order. */
  function NodeCalls(hrefs: seq<string>): (r: seq<NodeCall>)
  {
    seq(|hrefs|, i requires 0 <= i < |hrefs| => PageNode(hrefs[i]))
  }

  /**
   The hrefs whose pages get a node: every step, except that the page reached
   by the step that stopped the walk on a drawn page gets none.
   */
  function NodeHrefs(w: Walk): seq<string>
  {
    if w.stop == AlreadyDrawn && |w.hrefs| > 0 then w.hrefs[..|w.hrefs| - 1] else w.hrefs
  }

  /** The label of the road's i-th page: the start page's own label, then names made showable. */
  function LabelAt(first: string, road: seq<string>, i: nat): string
    requires i < |road|
  {
    if i == 0 then first else NameToShow(road[i])
  }

  /** The edge calls for a road, one per step. */
  function EdgeCalls(first: string, road: seq<string>): seq<(string, string)>
  {
    if |road| <= 1 then [] else
    seq(|road| - 1, i requires 0 <= i < |road| - 1 => (LabelAt(first, road, i), NameToShow(road[i + 1])))
  }

  /** One more step adds one edge, from the label of the page left to the label of the page reached. */
  lemma EdgeCallsSnoc(first: string, road: seq<string>, next: string)
    requires |road| >= 1
    ensures EdgeCalls(first, road + [next]) == EdgeCalls(first, road) + [(LabelAt(first, road, |road| - 1), NameToShow(next))]
  {
    var road' := road + [next];
    var es, es0 := EdgeCalls(first, road'), EdgeCalls(first, road);
    var e := (LabelAt(first, road, |road| - 1), NameToShow(next));
    assert |es| == |es0| + 1;
    forall i | 0 <= i < |es0|
      ensures es[i] == es0[i]
    {
      assert road'[i] == road[i] && road'[i + 1] == road[i + 1];
    }
    assert es[|es0|] == e;
    assert es == es0 + [e];
  }

  /** Edge i goes from the label of road entry i to the label of entry i + 1, so the edges form a chain. */
  lemma {:induction false} EdgeCallsAt(first: string, road: seq<string>)
    requires |road| >= 1
    ensures var es := EdgeCalls(first, road);
      && |es| == |road| - 1
      && (forall i :: 0 <= i < |es| ==> es[i] == (LabelAt(first, road, i), NameToShow(road[i + 1])))
      && (forall i :: 0 < i < |es| ==> es[i].0 == es[i - 1].1)
    decreases |road|
  {
    if |road| > 1 {
      var init := road[..|road| - 1];
      EdgeCallsAt(first, init);
      forall i | 0 <= i < |road| - 2
        ensures LabelAt(first, init, i) == LabelAt(first, road, i) && init[i + 1] == road[i + 1]
      {
      }
    }
  }

  /**
   The nodes drawn after the start page are the pages of the road, made
   showable, with the addresses of the hrefs that led to them; one fewer
   when the walk stopped on a drawn page.
   */
  lemma DrawnNodesFollowRoad(start: string, drawn: seq<string>, firstLink: string -> Option<string>)
    ensures var w := WalkPath(start, drawn, firstLink); var ns := NodeCalls(NodeHrefs(w));
      && |ns| == (if w.stop == AlreadyDrawn then |w.road| - 2 else |w.road| - 1)
      && forall i :: 0 <= i < |ns| ==>
           ns[i].title == NameToShow(w.road[i + 1]) && ns[i].url == BaseUrl + CleanUrl(w.hrefs[i])
           && ns[i].color == None
  {
    RoadFollowsFirstLinks(start, drawn, firstLink);
    StopReasons(start, drawn, firstLink);
  }

  /** `draw_page_path`: draw the walk from `page` and add its road to the drawn names. */
  method DrawPagePath(page: WikiPage, u: Digraph, pagesDrawn: NameList, firstLink: string -> Option<string>)
      returns (road: seq<string>)
    modifies u, pagesDrawn
    ensures var w := WalkPath(old(page.name), old(pagesDrawn.items), firstLink);
      && road == w.road
      && pagesDrawn.items == old(pagesDrawn.items) + road
      && u.edges == old(u.edges) + EdgeCalls(old(page.nameToShow), road)
      && u.nodes == old(u.nodes) + [NodeCall(old(page.nameToShow), old(page.url), Some(FirstPagesColor))] + NodeCalls(NodeHrefs(w))
  {
    var drawn := pagesDrawn.items;
    var name, shownName := page.name, page.nameToShow;
    ghost var w := WalkPath(name, drawn, firstLink);
    u.Node(shownName, page.url, Some(FirstPagesColor));
    ghost var nodes0 := u.nodes;
    road := [name];
    ghost var hrefs: seq<string> := [];
    var countPages := 0;
    var current := page;
    while current.name != Target
      invariant 1 <= |road| <= MaxRoad && |hrefs| == |road| - 1 && countPages == |road| - 1
      invariant current.name == road[|road| - 1]
      invariant current.nameToShow == LabelAt(shownName, road, |road| - 1)
      invariant WalkFrom(road, hrefs, drawn, firstLink) == w
      invariant u.edges == old(u.edges) + EdgeCalls(shownName, road)
      invariant u.nodes == nodes0 + NodeCalls(hrefs)
      invariant pagesDrawn.items == drawn
      decreases MaxRoad - |road|
    {
      var nextUrl := firstLink(current.name);
      if nextUrl.None? || countPages > StepCeiling || HasDuplicate(road) {
        WalkFromStops(road, hrefs, drawn, firstLink);
        assert w.road == road && NodeHrefs(w) == hrefs;
        break;
      }
      WalkFromSteps(road, hrefs, drawn, firstLink);
      var nextPage := new WikiPage(nextUrl.value);
      var nextName, nextShown := nextPage.name, nextPage.nameToShow;
      EdgeCallsSnoc(shownName, road, nextName);
      road := road + [nextName];
      NodeCallsSnoc(hrefs, nextUrl.value);
      ghost var hrefsBefore := hrefs;
      hrefs := hrefs + [nextUrl.value];
      ghost var edgesBefore := u.edges;
      u.Edge(current.nameToShow, nextShown);
      assert u.edges == old(u.edges) + EdgeCalls(shownName, road) by {
        assert u.edges == edgesBefore + [(current.nameToShow, nextShown)];
      }
      countPages := countPages + 1;
      if current.name in drawn {
        assert NodeHrefs(w) == hrefsBefore && w.road == road by {
          assert hrefs[..|hrefs| - 1] == hrefsBefore;
        }
        break;
      }
      ghost var nodesBefore := u.nodes;
      u.Node(nextShown, nextPage.url, None);
      assert u.nodes == nodes0 + NodeCalls(hrefs) by {
        assert u.nodes == nodesBefore + [PageNode(nextUrl.value)];
      }
      current := nextPage;
      assert WalkFrom(road, hrefs, drawn, firstLink) == w;
    }
    pagesDrawn.Extend(road);
  }

  /** All roads of a batch, one after the other. */
  function Flatten(roads: seq<seq<string>>): (r: seq<string>)
  {
    if roads == [] then [] else Flatten(roads[..|roads| - 1]) + roads[|roads| - 1]
  }

  /**
   The roads a batch draws: each walk starts with the names drawn by the
   walks before it as its drawn names.
   */
  function BatchRoads(starts: seq<string>, firstLink: string -> Option<string>): (r: seq<seq<string>>)
    ensures |r| == |starts|
  {
    if starts == [] then []
    else
      var earlier := BatchRoads(starts[..|starts| - 1], firstLink);
      earlier + [WalkPath(starts[|starts| - 1], Flatten(earlier), firstLink).road]
  }

  /** One more start page appends its walk, taken with every name drawn so far as the drawn names. */
  lemma BatchRoadsSnoc(starts: seq<string>, start: string, firstLink: string -> Option<string>)
    ensures var earlier := BatchRoads(starts, firstLink);
      && BatchRoads(starts + [start], firstLink) == earlier + [WalkPath(start, Flatten(earlier), firstLink).road]
      && Flatten(BatchRoads(starts + [start], firstLink))
         == Flatten(earlier) + WalkPath(start, Flatten(earlier), firstLink).road
  {
    var earlier := BatchRoads(starts, firstLink);
    var road := WalkPath(start, Flatten(earlier), firstLink).road;
    assert (starts + [start])[..|starts|] == starts;
    assert (earlier + [road])[..|earlier|] == earlier;
  }

  /** Each road of a batch begins at its own start page. */
  lemma {:induction false} BatchRoadsStart(starts: seq<string>, firstLink: string -> Option<string>)
    ensures var r := BatchRoads(starts, firstLink);
      forall i :: 0 <= i < |r| ==> |r[i]| >= 1 && r[i][0] == starts[i]
    decreases |starts|
  {
    if starts != [] {
      BatchRoadsStart(starts[..|starts| - 1], firstLink);
    }
  }

  /** Every road has at least one entry, so a batch draws at least one name per start page. */
  lemma {:induction false} BatchLength(starts: seq<string>, firstLink: string -> Option<string>)
    ensures |Flatten(BatchRoads(starts, firstLink))| >= |starts|
    decreases |starts|
  {
    if starts != [] {
      BatchLength(starts[..|starts| - 1], firstLink);
    }
  }

  /** The roads of the first k start pages do not depend on the start pages after them. */
  lemma {:induction false} BatchRoadsPrefix(starts: seq<string>, k: nat, firstLink: string -> Option<string>)
    requires k <= |starts|
    ensures BatchRoads(starts[..k], firstLink) == BatchRoads(starts, firstLink)[..k]
    decreases |starts|
  {
    if k < |starts| {
      var init := starts[..|starts| - 1];
      BatchRoadsPrefix(init, k, firstLink);
      assert init[..k] == starts[..k];
    } else {
      assert starts[..k] == starts;
    }
  }

  /**
   Walk i of a batch is the walk from its start page with every name drawn
   by the walks before it as drawn names, so none of the pages it steps away
   from was drawn before: paths already drawn are not drawn again.
   */
  lemma BatchWalksStopAtDrawn(starts: seq<string>, i: nat, firstLink: string -> Option<string>)
    requires i < |starts|
    ensures var roads := BatchRoads(starts, firstLink); var w := WalkPath(starts[i], Flatten(roads[..i]), firstLink);
      var stepped := if w.stop == AlreadyDrawn then |w.road| - 2 else |w.road| - 1;
      && roads[i] == w.road
      && forall j :: 0 <= j < stepped ==> roads[i][j] !in Flatten(roads[..i])
  {
    var roads := BatchRoads(starts, firstLink);
    var s' := starts[..i + 1];
    BatchRoadsPrefix(starts, i + 1, firstLink);
    BatchRoadsPrefix(starts, i, firstLink);
    assert s'[..|s'| - 1] == starts[..i] && s'[|s'| - 1] == starts[i];
    var w := WalkPath(starts[i], Flatten(roads[..i]), firstLink);
    assert BatchRoads(s', firstLink) == roads[..i] + [w.road];
    assert roads[i] == w.road by {
      assert roads[..i + 1][i] == roads[i];
    }
    EarlierPagesNotDrawn(starts[i], Flatten(roads[..i]), firstLink);
  }

  /** `draw_list_of_pages`: the names of the start pages in order, and how many names were drawn in all. */
  method DrawListOfPages(pages: seq<WikiPage>, u: Digraph, firstLink: string -> Option<string>)
      returns (firstPagesDrawn: seq<string>, total: nat)
    modifies u
    ensures |firstPagesDrawn| == |pages| && forall i :: 0 <= i < |pages| ==> firstPagesDrawn[i] == pages[i].name
    ensures total == |Flatten(BatchRoads(firstPagesDrawn, firstLink))|
    ensures |u.edges| == |old(u.edges)| + total - |pages|
  {
    var pagesDrawn := new NameList();
    firstPagesDrawn := [];
    var k := 0;
    while k < |pages|
      invariant 0 <= k <= |pages|
      invariant |firstPagesDrawn| == k && forall i {:trigger firstPagesDrawn[i]} :: 0 <= i < k ==> firstPagesDrawn[i] == pages[i].name
      invariant pagesDrawn.items == Flatten(BatchRoads(firstPagesDrawn, firstLink))
      invariant |u.edges| == |old(u.edges)| + |pagesDrawn.items| - k
    {
      var page := pages[k];
      var name := page.name;
      ghost var shownName := page.nameToShow;
      ghost var edgesBefore := u.edges;
      var road := DrawPagePath(page, u, pagesDrawn, firstLink);
      assert |u.edges| == |edgesBefore| + |road| - 1 by {
        EdgeCallsAt(shownName, road);
      }
      assert pagesDrawn.items == Flatten(BatchRoads(firstPagesDrawn + [name], firstLink)) by {
        BatchRoadsSnoc(firstPagesDrawn, name, firstLink);
      }
      firstPagesDrawn := firstPagesDrawn + [name];
      k := k + 1;
    }
    total := |pagesDrawn.items|;
  }

  /**
   `init_first_page_automatically` as a value: the autocompleted title, when
   there is one and its parse response is a good one, gives the start page's name.
   */
  function InitName(searched: string, autocomplete: string -> Option<string>, respond: string -> string): (r: Option<string>)
    ensures r.Some? <==> autocomplete(searched).Some? && IsPageOk(respond(autocomplete(searched).value))
  {
    match autocomplete(searched)
    case None => None
    case Some(title) => if IsPageOk(respond(title)) then Some(UrlToName(NameToUrl(title))) else None
  }

  /** The start page names made from the searched names, in order, skipping those not found. */
  function InitializedNames(names: seq<string>, autocomplete: string -> Option<string>, respond: string -> string)
      : (r: seq<string>)
    ensures |r| <= |names|
  {
    if names == [] then []
    else
      var init := InitializedNames(names[..|names| - 1], autocomplete, respond);
      match InitName(names[|names| - 1], autocomplete, respond)
      case None => init
      case Some(x) => init + [x]
  }

  /** Every start page name comes from one of the searched names. */
  lemma {:induction false} InitializedNamesFound(names: seq<string>, autocomplete: string -> Option<string>,
                                                 respond: string -> string)
    ensures forall x :: x in InitializedNames(names, autocomplete, respond) ==>
              exists j :: 0 <= j < |names| && InitName(names[j], autocomplete, respond) == Some(x)
    decreases |names|
  {
    if names != [] {
      var init := names[..|names| - 1];
      InitializedNamesFound(init, autocomplete, respond);
      forall x | x in InitializedNames(names, autocomplete, respond)
        ensures exists j :: 0 <= j < |names| && InitName(names[j], autocomplete, respond) == Some(x)
      {
        if x in InitializedNames(init, autocomplete, respond) {
          var j :| 0 <= j < |init| && InitName(init[j], autocomplete, respond) == Some(x);
          assert names[j] == init[j];
        } else {
          assert InitName(names[|names| - 1], autocomplete, respond) == Some(x);
        }
      }
    }
  }

  /** Searching two lists one after the other finds the pages of each, in order. */
  lemma {:induction false} InitializedNamesConcat(a: seq<string>, b: seq<string>,
                                                  autocomplete: string -> Option<string>, respond: string -> string)
    ensures InitializedNames(a + b, autocomplete, respond)
            == InitializedNames(a, autocomplete, respond) + InitializedNames(b, autocomplete, respond)
    decreases |b|
  {
    if b == [] {
      assert a + b == a;
    } else {
      var b' := b[..|b| - 1];
      assert (a + b)[..|a + b| - 1] == a + b';
      InitializedNamesConcat(a, b', autocomplete, respond);
    }
  }

  /** A name is kept exactly when it is found. */
  lemma InitializedNamesSingle(name: string, autocomplete: string -> Option<string>, respond: string -> string)
    ensures InitializedNames([name], autocomplete, respond)
            == (match InitName(name, autocomplete, respond) case None => [] case Some(x) => [x])
  {
    assert [name][..0] == [];
  }

  /** `init_first_page_automatically`: autocomplete the searched name and make a start page of it. */
  method InitFirstPageAutomatically(searched: string, autocomplete: string -> Option<string>,
                                    respond: string -> string) returns (page: WikiPage?)
    ensures page == null <==> InitName(searched, autocomplete, respond).None?
    ensures page != null ==> fresh(page) && page.name == InitName(searched, autocomplete, respond).value
  {
    var name := autocomplete(searched);
    page := null;
    if name.Some? {
      page := WikiPage.FirstPageInit(name.value, respond(name.value));
    }
  }

  /** `draw_list_of_page_names`: make start pages of the names found, then draw them as a batch. */
  method DrawListOfPageNames(names: seq<string>, u: Digraph, autocomplete: string -> Option<string>,
                             respond: string -> string, firstLink: string -> Option<string>)
      returns (firstPagesDrawn: seq<string>, total: nat)
    modifies u
    ensures firstPagesDrawn == InitializedNames(names, autocomplete, respond)
    ensures total == |Flatten(BatchRoads(firstPagesDrawn, firstLink))|
    ensures |u.edges| == |old(u.edges)| + total - |firstPagesDrawn|
  {
    var pagesToDraw: seq<WikiPage> := [];
    var k := 0;
    while k < |names|
      invariant 0 <= k <= |names|
      invariant |pagesToDraw| == |InitializedNames(names[..k], autocomplete, respond)|
      invariant forall i :: 0 <= i < |pagesToDraw| ==> pagesToDraw[i].name == InitializedNames(names[..k], autocomplete, respond)[i]
      invariant u.edges == old(u.edges)
    {
      var firstPage := InitFirstPageAutomatically(names[k], autocomplete, respond);
      ghost var found := InitializedNames(names[..k], autocomplete, respond);
      ghost var kept := match InitName(names[k], autocomplete, respond) case None => [] case Some(x) => [x];
      assert InitializedNames(names[..k + 1], autocomplete, respond) == found + kept by {
        assert names[..k + 1] == names[..k] + [names[k]];
        InitializedNamesConcat(names[..k], [names[k]], autocomplete, respond);
        InitializedNamesSingle(names[k], autocomplete, respond);
      }
      if firstPage != null {
        pagesToDraw := pagesToDraw + [firstPage];
      }
      k := k + 1;
    }
    assert names[..k] == names;
    ghost var found := InitializedNames(names, autocomplete, respond);
    firstPagesDrawn, total := DrawListOfPages(pagesToDraw, u, firstLink);
    assert firstPagesDrawn == found by {
      assert forall i :: 0 <= i < |found| ==> firstPagesDrawn[i] == found[i];
    }
  }

  function Min(a: int, b: int): int
  {
    if a < b then a else b
  }

  /** The name of the output copy: count of start pages, a space, up to three of them joined by '+', a dot, the format. */
  function CopyFileName(firstPages: seq<string>, fileFormat: string): string
  {
    Decimal(|firstPages|) + " " + Join(firstPages[..Min(3, |firstPages|)], '+') + "." + fileFormat
  }

  /** No name in `names` holds the character `c`. */
  predicate NoneContains(names: seq<string>, c: char)
    decreases |names|
  {
    names == [] || (c !in names[0] && NoneContains(names[1..], c))
  }

  /** Read member by member: every name of `names` lacks `c`. */
  lemma {:induction false} NoneContainsAll(names: seq<string>, c: char)
    requires NoneContains(names, c)
    ensures forall p :: p in names ==> c !in p
    decreases |names|
  {
    if names != [] {
      NoneContainsAll(names[1..], c);
      assert forall p :: p in names ==> p == names[0] || p in names[1..];
    }
  }

  /** Where the parts of `d + " " + mid + "." + ext` sit. */
  lemma FileNameLayout(d: string, mid: string, ext: string)
    ensures var r := d + " " + mid + "." + ext;
      && |r| == |d| + |mid| + |ext| + 2
      && r[..|d|] == d && r[|d|] == ' '
      && r[|d| + 1..|r| - |ext| - 1] == mid
      && r[|r| - |ext| - 1..] == "." + ext
  {
    var r := d + " " + mid + "." + ext;
    assert r == d + (" " + mid + "." + ext);
    assert r == (d + " " + mid) + ("." + ext);
    assert r[|d| + 1..|r| - |ext| - 1] == mid by {
      assert r == (d + " ") + mid + ("." + ext);
    }
  }

  /** The copy's name starts with the number of start pages, written in decimal, then a space. */
  lemma CopyFileNameCount(firstPages: seq<string>, fileFormat: string)
    ensures var r := CopyFileName(firstPages, fileFormat); var d := Decimal(|firstPages|);
      && |d| < |r| && r[..|d|] == d && r[|d|] == ' ' && ParseDecimal(d) == |firstPages|
  {
    FileNameLayout(Decimal(|firstPages|), Join(firstPages[..Min(3, |firstPages|)], '+'), fileFormat);
    ParseDecimalOfDecimal(|firstPages|);
  }

  /** The copy's name ends with a dot and the file format. */
  lemma CopyFileNameFormat(firstPages: seq<string>, fileFormat: string)
    ensures var r := CopyFileName(firstPages, fileFormat);
      |fileFormat| < |r| && r[|r| - |fileFormat| - 1..] == "." + fileFormat
  {
    FileNameLayout(Decimal(|firstPages|), Join(firstPages[..Min(3, |firstPages|)], '+'), fileFormat);
  }

  /**
   Between the count and the format, the copy's name holds the first three
   start pages joined by '+', which split back apart when none contains '+'.
   */
  lemma CopyFileNamePages(firstPages: seq<string>, fileFormat: string)
    requires NoneContains(firstPages, '+')
    requires |firstPages| >= 1
    ensures var r := CopyFileName(firstPages, fileFormat); var d := Decimal(|firstPages|);
      && |d| + 2 + |fileFormat| <= |r|
      && Split(r[|d| + 1..|r| - |fileFormat| - 1], '+') == firstPages[..Min(3, |firstPages|)]
  {
    ShownPagesSplit(firstPages);
    SplitBetween(Decimal(|firstPages|), firstPages[..Min(3, |firstPages|)], fileFormat);
  }

  /** Whatever precedes it, the middle of `d + " " + Join(shown, '+') + "." + ext` splits back into `shown`. */
  lemma SplitBetween(d: string, shown: seq<string>, ext: string)
    requires |shown| >= 1 && Split(Join(shown, '+'), '+') == shown
    ensures var r := d + " " + Join(shown, '+') + "." + ext;
      |d| + 2 + |ext| <= |r| && Split(r[|d| + 1..|r| - |ext| - 1], '+') == shown
  {
    FileNameLayout(d, Join(shown, '+'), ext);
  }

  /** The names joined into the copy's name split back apart when none contains '+'. */
  lemma ShownPagesSplit(firstPages: seq<string>)
    requires NoneContains(firstPages, '+')
    requires |firstPages| >= 1
    ensures var shown := firstPages[..Min(3, |firstPages|)]; Split(Join(shown, '+'), '+') == shown
  {
    var shown := firstPages[..Min(3, |firstPages|)];
    NoneContainsAll(firstPages, '+');
    forall p | p in shown ensures '+' !in p {
      assert p in firstPages;
    }
    SplitJoin(shown, '+');
  }
}
