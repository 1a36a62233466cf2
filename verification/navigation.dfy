/** Highlighting of the current page in the navigation bar: the page is
    the last segment of the location's pathname, and the links whose href
    names it are marked active. */
module Navigation {
  import opened Wrappers
  import opened Strings

  /** The page a pathname ending in "/" stands for. */
  const DefaultPage := "index.html"

  /** A link of the navigation bar: its href attribute (None when absent),
      membership of the "active" class, and its aria-current attribute
      (None when absent). */
  datatype Link = Link(href: Option<string>, active: bool, ariaCurrent: Option<string>)

  /** `pathname.split("/").pop() || "index.html"`: the text after the last
      "/", or the default page when that text is empty. */
  function CurrentPage(pathname: string): (page: string)
    ensures page != ""
    ensures '/' !in page
    ensures page == DefaultPage || (|page| <= |pathname| && pathname[|pathname| - |page|..] == page)
  {
    var last := LastSegment(pathname, '/');
    if last == "" then DefaultPageHasNoSlash(); DefaultPage else last
  }

  lemma DefaultPageHasNoSlash()
    ensures DefaultPage != "" && '/' !in DefaultPage
  {
    assert forall k :: 0 <= k < |DefaultPage| ==> DefaultPage[k] != '/';
  }

  /** The current page is the pathname's final segment whenever that
      segment is non-empty, and the default page exactly when the pathname
      is empty or ends in "/". */
  lemma CurrentPageIsFinalSegment(pathname: string)
    ensures pathname == [] || pathname[|pathname| - 1] == '/' ==> CurrentPage(pathname) == DefaultPage
    ensures pathname != [] && pathname[|pathname| - 1] != '/' ==>
              var page := CurrentPage(pathname);
              && pathname[|pathname| - |page|..] == page
              && (|page| == |pathname| || pathname[|pathname| - |page| - 1] == '/')
  {
    SuffixEndsAlike(pathname, LastSegment(pathname, '/'));
  }

  /** A non-empty suffix ends with the same character as the whole. */
  lemma SuffixEndsAlike(s: string, r: string)
    requires |r| <= |s| && s[|s| - |r|..] == r
    ensures |r| > 0 ==> r[|r| - 1] == s[|s| - 1]
  {
    if |r| > 0 {
      assert r[|r| - 1] == s[|s| - |r|..][|r| - 1];
    }
  }

  /** The second alternative of the highlighting test, `currentPage === ""
      && href === "index.html"`, never holds. */
  lemma SecondDisjunctUnreachable(pathname: string)
    ensures CurrentPage(pathname) != ""
  {
  }

  /** The highlighting test for one link. */
  predicate Matches(href: Option<string>, page: string) {
    href == Some(page) || (page == "" && href == Some(DefaultPage))
  }

  /** Highlights one link: a matching link gains the "active" class and
      aria-current="page"; any other link is left as it is. For a
      non-empty page, the only kind CurrentPage yields, a link ends up
      active exactly when it already was or its href is the page, and it
      carries aria-current="page" exactly when its href is the page or it
      already did; its href never changes. */
  function HighlightLink(link: Link, page: string): (r: Link)
    ensures Matches(link.href, page) ==> r == link.(active := true, ariaCurrent := Some("page"))
    ensures !Matches(link.href, page) ==> r == link
    ensures r.href == link.href
    ensures page != "" ==> (r.active <==> link.active || link.href == Some(page))
    ensures page != "" ==>
              r.ariaCurrent == if link.href == Some(page) then Some("page") else link.ariaCurrent
  {
    if Matches(link.href, page) then link.(active := true, ariaCurrent := Some("page")) else link
  }

  /** initializeNavigation's highlighting pass over the navigation links. */
  function Highlight(links: seq<Link>, pathname: string): (r: seq<Link>)
    ensures |r| == |links|
    ensures forall k :: 0 <= k < |r| ==> r[k].href == links[k].href
  {
    seq(|links|, k requires 0 <= k < |links| => HighlightLink(links[k], CurrentPage(pathname)))
  }

  /** After the pass a link is active exactly when it was already active
      or its href is the current page, and it carries aria-current="page"
      exactly when its href is the current page or it already did. */
  lemma HighlightExactMatch(links: seq<Link>, pathname: string, k: nat)
    requires k < |links|
    ensures var page, r := CurrentPage(pathname), Highlight(links, pathname);
            r[k].active <==> links[k].active || links[k].href == Some(page)
    ensures var page, r := CurrentPage(pathname), Highlight(links, pathname);
            r[k].ariaCurrent == if links[k].href == Some(page) then Some("page") else links[k].ariaCurrent
  {
    SecondDisjunctUnreachable(pathname);
  }

  /** "/about.html" highlights "about.html"; "/" and "" highlight the
      default page. */
  lemma ExamplePages()
    ensures CurrentPage("/about.html") == "about.html"
    ensures CurrentPage("/") == DefaultPage
    ensures CurrentPage("") == DefaultPage
  {
    CurrentPageIsFinalSegment("/about.html");
    assert "/about.html"[0] == '/';
    CurrentPageIsFinalSegment("/");
  }
}
