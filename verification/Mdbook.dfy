/** Published pages of an mdBook build and what its navigation reaches (controller/src/mdbook). */
module Mdbook {
  import opened Machine
  import opened Bytes
  import opened Sorting
  import opened Totals

  datatype EvidenceError = UnsupportedBuild | Path | Navigation | Output | Anchor

  datatype BookItem =
    | Chapter(path: Option<Text>, sourcePath: Option<Text>, subItems: seq<BookItem>)
    | Separator
    | PartTitle

  datatype Page = Page(output: Text, source: Option<Text>)

  /** How the build spells paths: each answers `None` where the source reports a path error. */
  datatype Site = Site(
    output: Text -> Option<Text>,
    source: Text -> Option<Text>,
    route: Text -> Option<Text>,
    index: Text)

  /** What the walk has collected so far. */
  datatype Build = Build(rows: map<Text, Page>, entrypoint: Option<Text>)

  // ----- The chapter walk -----

  /** Every item in document order, a chapter before its sub-items. */
  function Preorder(items: seq<BookItem>): seq<BookItem>
  {
    if items == [] then []
    else PreorderOf(items[0]) + Preorder(items[1..])
  }

  function PreorderOf(item: BookItem): seq<BookItem>
  {
    match item
    case Chapter(_, _, subItems) => [item] + Preorder(subItems)
    case Separator => [item]
    case PartTitle => [item]
  }

  function InsertPage(rows: map<Text, Page>, route: Text, page: Page): Result<map<Text, Page>, EvidenceError>
  {
    if route in rows then Err(UnsupportedBuild) else Ok(rows[route := page])
  }

  /** One step of the walk on one item. */
  function Visit(site: Site, build: Build, item: BookItem): Result<Build, EvidenceError>
  {
    if !item.Chapter? then Ok(build)
    else if item.path.None? then (if item.sourcePath.None? then Ok(build) else Err(UnsupportedBuild))
    else
      match site.output(item.path.value)
      case None => Err(Path)
      case Some(output) =>
        if item.sourcePath.Some? && site.source(item.sourcePath.value).None? then Err(Path)
        else
          var source := if item.sourcePath.None? then None else site.source(item.sourcePath.value);
          match site.route(output)
          case None => Err(Path)
          case Some(route) => Place(site, build, route, Page(output, source))
  }

  /** Enters a page, and the site's index beside the first one. */
  function Place(site: Site, build: Build, route: Text, page: Page): Result<Build, EvidenceError>
  {
    var rows :- InsertPage(build.rows, route, page);
    if build.entrypoint.Some? then Ok(Build(rows, build.entrypoint))
    else
      match site.route(site.index)
      case None => Err(Path)
      case Some(indexRoute) =>
        if indexRoute == route then Ok(Build(rows, Some(indexRoute)))
        else
          var withIndex :- InsertPage(rows, indexRoute, Page(site.index, page.source));
          Ok(Build(withIndex, Some(indexRoute)))
  }

  /** The pages of items taken one after another. */
  function Collect(site: Site, items: seq<BookItem>): Result<Build, EvidenceError>
  {
    if items == [] then Ok(Build(map[], None))
    else
      var build :- Collect(site, items[..|items| - 1]);
      Visit(site, build, items[|items| - 1])
  }

  /** What a stack of items still has to visit, top first. */
  function Unwind(pending: seq<BookItem>): seq<BookItem>
  {
    if pending == [] then []
    else PreorderOf(pending[|pending| - 1]) + Unwind(pending[..|pending| - 1])
  }

  function Reversed(items: seq<BookItem>): (r: seq<BookItem>)
    ensures |r| == |items| && forall i :: 0 <= i < |r| ==> r[i] == items[|items| - 1 - i]
  {
    if items == [] then [] else Reversed(items[1..]) + [items[0]]
  }

  lemma StackTop(pending: seq<BookItem>, items: seq<BookItem>)
    requires items != []
    ensures
      var stack := pending + Reversed(items);
      && |stack| == |pending| + |items|
      && stack[|stack| - 1] == items[0] && stack[..|stack| - 1] == pending + Reversed(items[1..])
  {
    hide Preorder, Unwind;
  }

  lemma {:induction false} UnwindPushed(pending: seq<BookItem>, items: seq<BookItem>)
    ensures Unwind(pending + Reversed(items)) == Preorder(items) + Unwind(pending)
  {
    hide Reversed, PreorderOf;
    if items == [] {
      assert pending + Reversed(items) == pending;
    } else {
      StackTop(pending, items);
      UnwindPushed(pending, items[1..]);
      Regroup3(PreorderOf(items[0]), Preorder(items[1..]), Unwind(pending));
    }
  }

  lemma {:induction false} CollectStopsAt(site: Site, first: seq<BookItem>, rest: seq<BookItem>)
    requires Collect(site, first).Err?
    ensures Collect(site, first + rest) == Collect(site, first)
  {
    hide Visit;
    if rest == [] {
      assert first + rest == first;
    } else {
      var init := rest[..|rest| - 1];
      CollectStopsAt(site, first, init);
      assert (first + rest)[..|first + rest| - 1] == first + init;
    }
  }

  function Finished(collected: Result<Build, EvidenceError>): Result<Build, EvidenceError>
  {
    match collected
    case Err(error) => Err(error)
    case Ok(build) => if build.entrypoint.None? then Err(UnsupportedBuild) else Ok(build)
  }

  function Pushed(item: BookItem): seq<BookItem>
  {
    if item.Chapter? then Reversed(item.subItems) else []
  }

  lemma UnwindTop(pending: seq<BookItem>)
    requires pending != []
    ensures Unwind(pending) == PreorderOf(pending[|pending| - 1]) + Unwind(pending[..|pending| - 1])
  {
    hide PreorderOf;
  }

  lemma PoppedAndPushed(pending: seq<BookItem>)
    requires pending != []
    ensures
      var item := pending[|pending| - 1];
      Unwind(pending) == [item] + Unwind(pending[..|pending| - 1] + Pushed(item))
  {
    hide Preorder, Reversed, Unwind;
    var item, rest := pending[|pending| - 1], pending[..|pending| - 1];
    UnwindTop(pending);
    if item.Chapter? {
      UnwindPushed(rest, item.subItems);
      Regroup3([item], Preorder(item.subItems), Unwind(rest));
    } else {
      assert rest + [] == rest;
    }
  }

  lemma Regroup3(a: seq<BookItem>, b: seq<BookItem>, c: seq<BookItem>)
    ensures (a + b) + c == a + (b + c)
  {
  }

  lemma CollectNext(site: Site, done: seq<BookItem>, item: BookItem)
    requires Collect(site, done).Ok?
    ensures Collect(site, done + [item]) == Visit(site, Collect(site, done).value, item)
  {
    hide Visit;
    assert (done + [item])[..|done|] == done;
  }

  /** The explicit stack visits exactly the document order. */
  method Pages(site: Site, items: seq<BookItem>) returns (r: Result<Build, EvidenceError>)
    ensures r == Finished(Collect(site, Preorder(items)))
  {
    hide Visit, Collect, Preorder, Unwind, Reversed;
    var pending := Reversed(items);
    var build := Build(map[], None);
    ghost var done: seq<BookItem> := [];
    StackIsWhole(site, items);
    while pending != []
      invariant Preorder(items) == done + Unwind(pending)
      invariant Collect(site, done) == Ok(build)
      decreases |Unwind(pending)|
    {
      var item := pending[|pending| - 1];
      PoppedAndPushed(pending);
      CollectNext(site, done, item);
      pending := pending[..|pending| - 1] + Pushed(item);
      Regroup3(done, [item], Unwind(pending));
      done := done + [item];
      var visited := Visit(site, build, item);
      if visited.Err? {
        CollectStopsAt(site, done, Unwind(pending));
        return Err(visited.error);
      }
      build := visited.value;
    }
    StackIsEmpty(done, pending);
    r := Finished(Ok(build));
  }

  lemma StackIsWhole(site: Site, items: seq<BookItem>)
    ensures Preorder(items) == [] + Unwind(Reversed(items))
    ensures Collect(site, []) == Ok(Build(map[], None))
  {
    UnwindPushed([], items);
    assert [] + Reversed(items) == Reversed(items);
  }

  lemma StackIsEmpty(done: seq<BookItem>, pending: seq<BookItem>)
    requires pending == []
    ensures done + Unwind(pending) == done
  {
  }

  // ----- What the rows are -----

  /** The page a chapter publishes, if it publishes one. */
  function Published(site: Site, item: BookItem): Option<(Text, Page)>
  {
    if !item.Chapter? || item.path.None? || site.output(item.path.value).None? then None
    else
      var output := site.output(item.path.value).value;
      if site.route(output).None? || (item.sourcePath.Some? && site.source(item.sourcePath.value).None?) then None
      else
        Some((site.route(output).value,
              Page(output, if item.sourcePath.None? then None else site.source(item.sourcePath.value))))
  }

  predicate Silent(item: BookItem)
  {
    !item.Chapter? || (item.path.None? && item.sourcePath.None?)
  }

  /** The book can be published: no broken chapter, no route twice, the index free for its page. */
  ghost predicate Clean(site: Site, items: seq<BookItem>)
  {
    && (forall i :: 0 <= i < |items| ==> Silent(items[i]) || Published(site, items[i]).Some?)
    && (forall i :: 0 <= i < |items| && Published(site, items[i]).Some? ==> site.route(site.index).Some?)
    && (forall i, j :: 0 <= i < j < |items| && Published(site, items[i]).Some? && Published(site, items[j]).Some? ==>
          && Published(site, items[i]).value.0 != Published(site, items[j]).value.0
          && Some(Published(site, items[j]).value.0) != site.route(site.index))
  }

  ghost predicate FirstPublished(site: Site, items: seq<BookItem>, i: int)
  {
    && 0 <= i < |items| && Published(site, items[i]).Some?
    && forall j :: 0 <= j < i ==> Published(site, items[j]).None?
  }

  /** The rows are exactly the published pages, and the index with the first one's source. */
  ghost predicate RowsAre(site: Site, items: seq<BookItem>, build: Build)
  {
    && (build.entrypoint.Some? ==> build.entrypoint == site.route(site.index) && build.entrypoint.value in build.rows)
    && (build.entrypoint.None? ==> build.rows == map[])
    && (forall i :: 0 <= i < |items| && Published(site, items[i]).Some? ==>
          && build.entrypoint.Some? && Published(site, items[i]).value.0 in build.rows
          && build.rows[Published(site, items[i]).value.0] == Published(site, items[i]).value.1)
    && (forall route :: route in build.rows ==>
          || (exists i :: 0 <= i < |items| && Published(site, items[i]) == Some((route, build.rows[route])))
          || (Some(route) == build.entrypoint
              && exists i :: FirstPublished(site, items, i)
                   && build.rows[route] == Page(site.index, Published(site, items[i]).value.1.source)))
  }

  lemma SilentVisit(site: Site, build: Build, item: BookItem)
    ensures Silent(item) ==> Visit(site, build, item) == Ok(build) && Published(site, item).None?
    ensures !Silent(item) && Published(site, item).None? ==> Visit(site, build, item).Err?
    ensures Published(site, item).Some? ==>
      Visit(site, build, item) == Place(site, build, Published(site, item).value.0, Published(site, item).value.1)
      && !Silent(item)
  {
    hide Place;
  }

  /** Collecting succeeds exactly on a clean book, and then yields exactly its pages. */
  lemma {:induction false} CollectIsExact(site: Site, items: seq<BookItem>)
    ensures Collect(site, items).Ok? <==> Clean(site, items)
    ensures Collect(site, items).Ok? ==> RowsAre(site, items, Collect(site, items).value)
  {
    hide Visit, Place, Published, Silent, RowsAre, Clean;
    if items == [] {
      NothingCollected(site);
    } else {
      var init, item := items[..|items| - 1], items[|items| - 1];
      assert items == init + [item];
      CollectIsExact(site, init);
      CleanPrefix(site, init, item);
      if Collect(site, init).Ok? {
        VisitIsExact(site, init, item, Collect(site, init).value);
      }
    }
  }

  lemma NothingCollected(site: Site)
    ensures Clean(site, []) && RowsAre(site, [], Build(map[], None))
  {
  }

  lemma CleanPrefix(site: Site, init: seq<BookItem>, item: BookItem)
    ensures Clean(site, init + [item]) ==> Clean(site, init)
  {
    hide Published, Silent;
    var items := init + [item];
    assert forall i :: 0 <= i < |init| ==> items[i] == init[i];
  }

  lemma VisitIsExact(site: Site, init: seq<BookItem>, item: BookItem, build: Build)
    requires Clean(site, init) && RowsAre(site, init, build)
    ensures Visit(site, build, item).Ok? <==> Clean(site, init + [item])
    ensures Visit(site, build, item).Ok? ==> RowsAre(site, init + [item], Visit(site, build, item).value)
  {
    hide Visit, Published, Silent, Place;
    SilentVisit(site, build, item);
    var items := init + [item];
    assert items[|init|] == item && forall i :: 0 <= i < |init| ==> items[i] == init[i];
    if Published(site, item).Some? {
      PlaceIsExact(site, init, item, build);
    }
  }

  lemma PlaceIsExact(site: Site, init: seq<BookItem>, item: BookItem, build: Build)
    requires Clean(site, init) && RowsAre(site, init, build) && Published(site, item).Some?
    ensures
      var (route, page) := Published(site, item).value;
      var placed := Place(site, build, route, page);
      (placed.Ok? <==> Clean(site, init + [item]))
      && (placed.Ok? ==> RowsAre(site, init + [item], placed.value))
  {
    hide Published, RowsAre, Clean, Place;
    PlacedIffClean(site, init, item, build);
    if build.entrypoint.Some? {
      PlacedLater(site, init, item, build);
    } else {
      PlacedFirst(site, init, item, build);
    }
  }

  lemma PlacedIffClean(site: Site, init: seq<BookItem>, item: BookItem, build: Build)
    requires Clean(site, init) && RowsAre(site, init, build) && Published(site, item).Some?
    ensures Place(site, build, Published(site, item).value.0, Published(site, item).value.1).Ok?
       <==> Clean(site, init + [item])
  {
    hide Published, Silent;
    var items := init + [item];
    assert items[|init|] == item && forall i :: 0 <= i < |init| ==> items[i] == init[i];
    PublishedIsNotSilent(site, item);
  }

  lemma PublishedIsNotSilent(site: Site, item: BookItem)
    ensures Published(site, item).Some? ==> !Silent(item)
  {
  }

  lemma PlacedLater(site: Site, init: seq<BookItem>, item: BookItem, build: Build)
    requires RowsAre(site, init, build) && Published(site, item).Some? && build.entrypoint.Some?
    ensures
      var placed := Place(site, build, Published(site, item).value.0, Published(site, item).value.1);
      placed.Ok? ==> RowsAre(site, init + [item], placed.value)
  {
    hide Published;
    var (route, page) := Published(site, item).value;
    var placed := Place(site, build, route, page);
    if placed.Ok? {
      var items := init + [item];
      assert items[|init|] == item && forall i :: 0 <= i < |init| ==> items[i] == init[i];
      forall r | r in placed.value.rows
        ensures
          || (exists i :: 0 <= i < |items| && Published(site, items[i]) == Some((r, placed.value.rows[r])))
          || (Some(r) == placed.value.entrypoint
              && exists i :: FirstPublished(site, items, i)
                   && placed.value.rows[r] == Page(site.index, Published(site, items[i]).value.1.source))
      {
        if r == route {
          assert Published(site, items[|init|]) == Some((r, placed.value.rows[r]));
        } else {
          KnownRow(site, init, item, build, r);
        }
      }
    }
  }

  /** A row explained by some items is explained by more of them. */
  lemma KnownRow(site: Site, init: seq<BookItem>, item: BookItem, build: Build, r: Text)
    requires RowsAre(site, init, build) && r in build.rows
    ensures
      var items := init + [item];
      || (exists i :: 0 <= i < |items| && Published(site, items[i]) == Some((r, build.rows[r])))
      || (Some(r) == build.entrypoint
          && exists i :: FirstPublished(site, items, i)
               && build.rows[r] == Page(site.index, Published(site, items[i]).value.1.source))
  {
    hide Published;
    var items := init + [item];
    assert forall i :: 0 <= i < |init| ==> items[i] == init[i];
    if i :| 0 <= i < |init| && Published(site, init[i]) == Some((r, build.rows[r])) {
      assert items[i] == init[i];
    } else {
      var i :| FirstPublished(site, init, i)
        && build.rows[r] == Page(site.index, Published(site, init[i]).value.1.source);
      assert FirstPublished(site, items, i);
    }
  }

  lemma PlacedFirst(site: Site, init: seq<BookItem>, item: BookItem, build: Build)
    requires RowsAre(site, init, build) && Published(site, item).Some? && build.entrypoint.None?
    ensures
      var placed := Place(site, build, Published(site, item).value.0, Published(site, item).value.1);
      placed.Ok? ==> RowsAre(site, init + [item], placed.value)
  {
    hide Published;
    var (route, page) := Published(site, item).value;
    var placed := Place(site, build, route, page);
    if placed.Ok? {
      var items := init + [item];
      assert items[|init|] == item && forall i :: 0 <= i < |init| ==> items[i] == init[i];
      assert FirstPublished(site, items, |init|);
    }
  }

  // ----- Links between pages -----

  const MDBOOK_HTML_BYTES: nat := 16_777_216

  const SEMANTIC_OBSERVATIONS_LIMIT: nat := 100_000

  /** A rendered page: its size, its distinct anchors and links, and the on-site paths the links resolve to. */
  datatype Html = Html(length: nat, anchors: nat, hrefs: nat, targets: Result<set<Text>, EvidenceError>)

  /** What the pages of a build share a limit on. */
  datatype Measure = HtmlBytes | Anchors | Hrefs

  function Limit(measure: Measure): nat
  {
    if measure == HtmlBytes then MDBOOK_HTML_BYTES else SEMANTIC_OBSERVATIONS_LIMIT
  }

  /** One page's links: exactly the targets that are pages, each once and in order. */
  ghost predicate LinksOf(rows: map<Text, Page>, html: map<Text, Html>, page: Page, links: seq<Text>)
  {
    && StrictlyAscending(links)
    && page.output in html && html[page.output].targets.Ok?
    && forall target :: target in links <==> target in rows && target in html[page.output].targets.value
  }

  /** Every page's links, to other pages of the same build only. */
  ghost predicate LinksWithin(rows: map<Text, Page>, html: map<Text, Html>, links: map<Text, seq<Text>>)
  {
    links.Keys == rows.Keys && forall route :: route in links ==> LinksOf(rows, html, rows[route], links[route])
  }

  function WeightOf(html: map<Text, Html>, page: Page, measure: Measure): nat
  {
    if page.output !in html then 0
    else
      match measure
      case HtmlBytes => html[page.output].length
      case Anchors => html[page.output].anchors
      case Hrefs => html[page.output].hrefs
  }

  ghost function Weights(
    rows: map<Text, Page>, html: map<Text, Html>, routes: set<Text>, measure: Measure): map<Text, nat>
  {
    map route | route in routes && route in rows :: WeightOf(html, rows[route], measure)
  }

  predicate Rendered(html: map<Text, Html>, page: Page)
  {
    page.output in html && html[page.output].targets.Ok?
  }

  ghost predicate Within(rows: map<Text, Page>, html: map<Text, Html>, measure: Measure)
  {
    Total(Weights(rows, html, rows.Keys, measure)) <= Limit(measure)
  }

  ghost predicate WithinBudget(rows: map<Text, Page>, html: map<Text, Html>)
  {
    Within(rows, html, HtmlBytes) && Within(rows, html, Anchors) && Within(rows, html, Hrefs)
  }

  /** What refuses a build: a missing output, an exceeded limit, or a page whose links cannot be read. */
  ghost predicate LinkDefect(rows: map<Text, Page>, html: map<Text, Html>, error: EvidenceError)
  {
    || (error == Output
        && (!Within(rows, html, HtmlBytes) || exists route :: route in rows && rows[route].output !in html))
    || (error == Anchor && !Within(rows, html, Anchors))
    || (error == Navigation && !Within(rows, html, Hrefs))
    || (exists route :: route in rows && rows[route].output in html && html[rows[route].output].targets == Err(error))
  }

  lemma OneMoreWeight(rows: map<Text, Page>, html: map<Text, Html>, routes: set<Text>, route: Text, measure: Measure)
    requires route in rows && route !in routes && routes <= rows.Keys
    ensures
      var more := Total(Weights(rows, html, routes + {route}, measure));
      more == Total(Weights(rows, html, routes, measure)) + WeightOf(html, rows[route], measure)
      && more <= Total(Weights(rows, html, rows.Keys, measure))
  {
    hide WeightOf, Total;
    var weights := Weights(rows, html, routes, measure);
    assert Weights(rows, html, routes + {route}, measure) == weights[route := WeightOf(html, rows[route], measure)];
    TotalPut(weights, route, WeightOf(html, rows[route], measure));
    TotalOfPart(Weights(rows, html, routes + {route}, measure), Weights(rows, html, rows.Keys, measure));
  }

  lemma NoWeights(rows: map<Text, Page>, html: map<Text, Html>, measure: Measure)
    ensures Total(Weights(rows, html, {}, measure)) == 0
  {
    assert Weights(rows, html, {}, measure) == map[];
  }

  /** What is left of the byte budget, and the anchors and links counted so far. */
  datatype Spent = Spent(remaining: nat, anchors: nat, hrefs: nat)

  ghost predicate Counted(rows: map<Text, Page>, html: map<Text, Html>, routes: set<Text>, spent: Spent)
  {
    && spent.remaining == MDBOOK_HTML_BYTES - Total(Weights(rows, html, routes, HtmlBytes))
    && spent.anchors == Total(Weights(rows, html, routes, Anchors)) <= SEMANTIC_OBSERVATIONS_LIMIT
    && spent.hrefs == Total(Weights(rows, html, routes, Hrefs)) <= SEMANTIC_OBSERVATIONS_LIMIT
  }

  /** The links collected so far. */
  ghost predicate CollectedSoFar(
    rows: map<Text, Page>, html: map<Text, Html>, links: map<Text, seq<Text>>, spent: Spent)
  {
    && links.Keys <= rows.Keys && Counted(rows, html, links.Keys, spent)
    && (forall route :: route in links ==>
          LinksOf(rows, html, rows[route], links[route]) && Rendered(html, rows[route]))
  }

  ghost predicate AllRendered(rows: map<Text, Page>, html: map<Text, Html>)
  {
    forall route :: route in rows ==> Rendered(html, rows[route])
  }

  /** Counts one more page against the three limits. */
  method CountPage(rows: map<Text, Page>, html: map<Text, Html>, ghost routes: set<Text>, spent: Spent, route: Text)
    returns (r: Result<Spent, EvidenceError>)
    requires Counted(rows, html, routes, spent) && routes <= rows.Keys && route in rows && route !in routes
    ensures r.Ok? ==> rows[route].output in html && Counted(rows, html, routes + {route}, r.value)
    ensures r.Err? ==> LinkDefect(rows, html, r.error) && !(WithinBudget(rows, html) && AllRendered(rows, html))
  {
    hide Weights, Total;
    OneMoreWeight(rows, html, routes, route, HtmlBytes);
    OneMoreWeight(rows, html, routes, route, Anchors);
    OneMoreWeight(rows, html, routes, route, Hrefs);
    var output := rows[route].output;
    if output !in html || html[output].length > spent.remaining { return Err(Output); }
    var anchors, hrefs := spent.anchors + html[output].anchors, spent.hrefs + html[output].hrefs;
    if anchors > SEMANTIC_OBSERVATIONS_LIMIT { return Err(Anchor); }
    if hrefs > SEMANTIC_OBSERVATIONS_LIMIT { return Err(Navigation); }
    r := Ok(Spent(spent.remaining - html[output].length, anchors, hrefs));
  }

  method CollectPage(
    rows: map<Text, Page>, html: map<Text, Html>, links: map<Text, seq<Text>>, spent: Spent, route: Text)
    returns (r: Result<(seq<Text>, Spent), EvidenceError>)
    requires CollectedSoFar(rows, html, links, spent) && route in rows && route !in links
    ensures r.Ok? ==> CollectedSoFar(rows, html, links[route := r.value.0], r.value.1)
    ensures r.Err? ==> LinkDefect(rows, html, r.error) && !(WithinBudget(rows, html) && AllRendered(rows, html))
  {
    hide StrictlyAscending, LinksOf, Counted, WithinBudget, Within;
    var counted := CountPage(rows, html, links.Keys, spent, route);
    if counted.Err? { return Err(counted.error); }
    var kept := Destinations(rows, html, rows[route]);
    if kept.Err? { return Err(kept.error); }
    assert links[route := kept.value].Keys == links.Keys + {route};
    r := Ok((kept.value, counted.value));
  }

  /** Collects every page's links, exactly when every page is rendered and all fit the three limits. */
  method CollectLinks(rows: map<Text, Page>, html: map<Text, Html>)
    returns (r: Result<map<Text, seq<Text>>, EvidenceError>)
    ensures r.Ok? ==> LinksWithin(rows, html, r.value)
    ensures r.Ok? <==> WithinBudget(rows, html) && AllRendered(rows, html)
    ensures r.Err? ==> LinkDefect(rows, html, r.error)
  {
    hide StrictlyAscending, CollectedSoFar, LinkDefect, WithinBudget, AllRendered, LinksWithin;
    var routes := InKeyOrder(rows.Keys);
    var links: map<Text, seq<Text>> := map[];
    var spent := Spent(MDBOOK_HTML_BYTES, 0, 0);
    NothingCollectedYet(rows, html);
    for i := 0 to |routes|
      invariant CollectedSoFar(rows, html, links, spent)
      invariant forall j :: 0 <= j < i ==> routes[j] in links
      invariant forall route :: route in links ==> route in routes[..i]
    {
      var route := routes[i];
      assert route in routes;
      NotYetListed(routes, i);
      var page := CollectPage(rows, html, links, spent, route);
      if page.Err? { return Err(page.error); }
      assert routes[..i + 1] == routes[..i] + [route];
      links, spent := links[route := page.value.0], page.value.1;
    }
    forall route | route in rows ensures route in links {
      assert route in routes;
    }
    AllCollected(rows, html, links, spent);
    r := Ok(links);
  }

  lemma NothingCollectedYet(rows: map<Text, Page>, html: map<Text, Html>)
    ensures CollectedSoFar(rows, html, map[], Spent(MDBOOK_HTML_BYTES, 0, 0))
  {
    NoWeights(rows, html, HtmlBytes);
    NoWeights(rows, html, Anchors);
    NoWeights(rows, html, Hrefs);
    var none: map<Text, seq<Text>> := map[];
    assert none.Keys == {};
  }

  lemma AllCollected(rows: map<Text, Page>, html: map<Text, Html>, links: map<Text, seq<Text>>, spent: Spent)
    requires CollectedSoFar(rows, html, links, spent) && forall route :: route in rows ==> route in links
    ensures LinksWithin(rows, html, links) && WithinBudget(rows, html) && AllRendered(rows, html)
  {
    hide LinksOf, Weights, Total, Rendered;
    assert links.Keys == rows.Keys;
  }

  lemma NotYetListed(routes: seq<Text>, i: nat)
    requires StrictlyAscending(routes) && i < |routes|
    ensures routes[i] !in routes[..i]
  {
    hide LexLeq;
  }

  /** The destination filter at the end of `page_facts`. */
  method Destinations(rows: map<Text, Page>, html: map<Text, Html>, page: Page)
    returns (r: Result<seq<Text>, EvidenceError>)
    requires page.output in html
    ensures r.Ok? <==> html[page.output].targets.Ok?
    ensures r.Ok? ==> LinksOf(rows, html, page, r.value)
    ensures r.Err? ==> html[page.output].targets == Err(r.error)
  {
    hide StrictlyAscending;
    var targets :- html[page.output].targets;
    var kept := InKeyOrder(set target | target in targets && target in rows);
    r := Ok(kept);
  }

  // ----- Reachability -----

  ghost predicate IsTrail(links: map<Text, seq<Text>>, trail: seq<Text>)
  {
    && trail != []
    && forall i :: 0 <= i < |trail| - 1 ==> trail[i] in links && trail[i + 1] in links[trail[i]]
  }

  /** Some trail of links leads from the entrypoint to the route. */
  ghost predicate Reachable(links: map<Text, seq<Text>>, entrypoint: Text, route: Text)
  {
    exists trail :: IsTrail(links, trail) && trail[0] == entrypoint && trail[|trail| - 1] == route
  }

  lemma ReachableStart(links: map<Text, seq<Text>>, entrypoint: Text)
    ensures Reachable(links, entrypoint, entrypoint)
  {
    assert IsTrail(links, [entrypoint]);
  }

  lemma ReachableNext(links: map<Text, seq<Text>>, entrypoint: Text, route: Text, next: Text)
    requires Reachable(links, entrypoint, route) && route in links && next in links[route]
    ensures Reachable(links, entrypoint, next)
  {
    var trail :| IsTrail(links, trail) && trail[0] == entrypoint && trail[|trail| - 1] == route;
    assert IsTrail(links, trail + [next]);
  }

  ghost predicate ClosedUnder(links: map<Text, seq<Text>>, reached: set<Text>)
  {
    forall route :: route in reached ==> route in links && forall next :: next in links[route] ==> next in reached
  }

  lemma {:induction false} TrailStaysInside(links: map<Text, seq<Text>>, reached: set<Text>, trail: seq<Text>)
    requires ClosedUnder(links, reached) && IsTrail(links, trail) && trail[0] in reached
    ensures trail[|trail| - 1] in reached
  {
    if |trail| > 1 {
      assert trail[1] in links[trail[0]];
      var rest := trail[1..];
      forall i | 0 <= i < |rest| - 1 ensures rest[i] in links && rest[i + 1] in links[rest[i]] {
        assert rest[i] == trail[i + 1] && rest[i + 1] == trail[i + 2];
      }
      TrailStaysInside(links, reached, rest);
    }
  }

  lemma ReachableIsInside(links: map<Text, seq<Text>>, reached: set<Text>, entrypoint: Text, route: Text)
    requires ClosedUnder(links, reached) && entrypoint in reached && Reachable(links, entrypoint, route)
    ensures route in reached
  {
    var trail :| IsTrail(links, trail) && trail[0] == entrypoint && trail[|trail| - 1] == route;
    TrailStaysInside(links, reached, trail);
  }

  /** The worklist reaches exactly the reachable routes, unless one of them has no links entry. */
  method Reach(entrypoint: Text, links: map<Text, seq<Text>>) returns (reached: Option<set<Text>>)
    ensures reached.Some? ==> forall route :: route in reached.value <==> Reachable(links, entrypoint, route)
    ensures reached.None? ==> exists route :: Reachable(links, entrypoint, route) && route !in links
    ensures reached.Some? ==> reached.value <= links.Keys
  {
    hide Reachable;
    var pending := [entrypoint];
    var seen: set<Text> := {};
    ReachableStart(links, entrypoint);
    while pending != []
      invariant forall route :: route in pending ==> Reachable(links, entrypoint, route)
      invariant forall route :: route in seen ==> Reachable(links, entrypoint, route) && route in links
      invariant entrypoint in seen || entrypoint in pending
      invariant forall route, next :: route in seen && next in links[route] ==> next in seen || next in pending
      decreases links.Keys - seen, |pending|
    {
      var route := pending[|pending| - 1];
      assert route in pending;
      pending := pending[..|pending| - 1];
      if route !in seen {
        if route !in links { return None; }
        forall next | next in links[route] ensures Reachable(links, entrypoint, next) {
          ReachableNext(links, entrypoint, route, next);
        }
        assert route in links.Keys - seen;
        seen := seen + {route};
        pending := pending + ReversedRoutes(links[route]);
      }
    }
    forall route | Reachable(links, entrypoint, route) ensures route in seen {
      ReachableIsInside(links, seen, entrypoint, route);
    }
    reached := Some(seen);
  }

  function ReversedRoutes(routes: seq<Text>): (r: seq<Text>)
    ensures forall route :: route in r <==> route in routes
  {
    if routes == [] then [] else ReversedRoutes(routes[1..]) + [routes[0]]
  }

  ghost predicate SourceReached(
    entrypoint: Text, links: map<Text, seq<Text>>, pages: map<Text, Page>, source: Text)
  {
    exists route :: route in pages && Reachable(links, entrypoint, route) && pages[route].source == Some(source)
  }

  /**
   * The sources of exactly the reachable pages, each once and in order; a
   * navigation error exactly when something reachable is no page or has no links.
   */
  method ReachableSources(entrypoint: Text, links: map<Text, seq<Text>>, pages: map<Text, Page>)
    returns (r: Result<seq<Text>, EvidenceError>)
    ensures r.Ok? <==> forall route :: Reachable(links, entrypoint, route) ==> route in links && route in pages
    ensures r.Ok? ==> StrictlyAscending(r.value)
    ensures r.Ok? ==> forall source :: source in r.value <==> SourceReached(entrypoint, links, pages, source)
    ensures r.Err? ==> r.error == Navigation
  {
    hide Reachable, LexLeq;
    var reached := Reach(entrypoint, links);
    if reached.None? { return Err(Navigation); }
    var sources: set<Text> := {};
    var left := reached.value;
    while left != {}
      invariant left <= reached.value
      invariant forall route :: route in reached.value - left ==> route in pages
      invariant forall source :: source in sources <==>
        exists route :: route in reached.value - left && route in pages && pages[route].source == Some(source)
      decreases left
    {
      var route :| route in left;
      if route !in pages { return Err(Navigation); }
      ghost var before := reached.value - left;
      assert reached.value - (left - {route}) == before + {route};
      left := left - {route};
      if pages[route].source.Some? { sources := sources + {pages[route].source.value}; }
    }
    assert reached.value - left == reached.value;
    var ordered := InKeyOrder(sources);
    r := Ok(ordered);
  }

  /** On the rows of a build and the links collected from them, nothing reachable is missing. */
  lemma BuiltNavigationIsWhole(
    rows: map<Text, Page>, html: map<Text, Html>, links: map<Text, seq<Text>>, entrypoint: Text, route: Text)
    requires LinksWithin(rows, html, links) && entrypoint in rows && Reachable(links, entrypoint, route)
    ensures route in links && route in rows
  {
    hide Reachable, StrictlyAscending;
    ReachableIsInside(links, rows.Keys, entrypoint, route);
  }

  lemma EntrypointIsRow(site: Site, items: seq<BookItem>, build: Build)
    requires Finished(Collect(site, items)) == Ok(build)
    ensures Clean(site, items) && RowsAre(site, items, build)
    ensures build.entrypoint.Some? && build.entrypoint.value in build.rows
  {
    CollectIsExact(site, items);
  }

  /** From the book to its navigation: once pages and links are built, the sources always are. */
  method Navigate(site: Site, items: seq<BookItem>, html: map<Text, Html>)
    returns (build: Result<Build, EvidenceError>, links: Result<map<Text, seq<Text>>, EvidenceError>,
             sources: Result<seq<Text>, EvidenceError>)
    ensures build == Finished(Collect(site, Preorder(items)))
    ensures links.Ok? ==> build.Ok? && LinksWithin(build.value.rows, html, links.value)
    ensures sources.Ok? <==> links.Ok?
    ensures sources.Ok? ==>
      && build.value.entrypoint.Some? && StrictlyAscending(sources.value)
      && forall source :: source in sources.value <==>
           SourceReached(build.value.entrypoint.value, links.value, build.value.rows, source)
  {
    hide Reachable, LexLeq, Collect, Preorder, Clean, RowsAre, LinksWithin, SourceReached, StrictlyAscending;
    build := Pages(site, items);
    if build.Err? { return build, Err(build.error), Err(build.error); }
    links := CollectLinks(build.value.rows, html);
    if links.Err? { return build, links, Err(links.error); }
    EntrypointIsRow(site, Preorder(items), build.value);
    forall route | Reachable(links.value, build.value.entrypoint.value, route)
      ensures route in links.value && route in build.value.rows
    {
      BuiltNavigationIsWhole(build.value.rows, html, links.value, build.value.entrypoint.value, route);
    }
    sources := ReachableSources(build.value.entrypoint.value, links.value, build.value.rows);
  }
}
