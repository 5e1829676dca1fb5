/**
 * setActiveNavLink (js/main.js, section 6): the current page is the last
 * '/'-separated segment of the location's pathname, or index.html when that
 * segment is empty; every desktop and mobile navigation link whose href ends
 * in that segment gains its "active" class.
 */
module ActiveNav {

  const DefaultPage: string := "index.html"

  /** What s.split('/').pop() yields: the text after the last '/' of s, or
      all of s when it has none. */
  function LastSegment(s: string): string {
    if s == [] || s[|s| - 1] == '/' then [] else LastSegment(s[..|s| - 1]) + [s[|s| - 1]]
  }

  /** The last segment is a suffix of s free of '/', and it is either all of
      s or preceded by a '/'. */
  lemma {:induction false} LastSegmentSpec(s: string)
    ensures |LastSegment(s)| <= |s| && LastSegment(s) == s[|s| - |LastSegment(s)|..]
    ensures '/' !in LastSegment(s)
    ensures |LastSegment(s)| < |s| ==> s[|s| - |LastSegment(s)| - 1] == '/'
  {
    if s != [] && s[|s| - 1] != '/' {
      var init := s[..|s| - 1];
      LastSegmentSpec(init);
      var r := LastSegment(init);
      assert init[|init| - |r|..] + [s[|s| - 1]] == s[|s| - |r| - 1..];
    }
  }

  /** The contract of LastSegment determines its result: the only suffix of
      s that holds no '/' and is either all of s or preceded by a '/'. */
  lemma LastSegmentUnique(s: string, r: string)
    requires |r| <= |s| && r == s[|s| - |r|..]
    requires '/' !in r
    requires |r| < |s| ==> s[|s| - |r| - 1] == '/'
    ensures r == LastSegment(s)
  {
    LastSegmentSpec(s);
  }

  /** The segment after a '/' does not depend on what comes before it. */
  lemma LastSegmentAfterSlash(a: string, b: string)
    ensures LastSegment(a + "/" + b) == LastSegment(b)
  {
    var s := a + "/" + b;
    LastSegmentSpec(b);
    var r := LastSegment(b);
    assert s[|s| - |r|..] == r;
    if |r| == |b| {
      assert s[|s| - |r| - 1] == '/';
    } else {
      assert s[|s| - |r| - 1] == b[|b| - |r| - 1];
    }
    LastSegmentUnique(s, r);
  }

  /** The page the location's pathname names. */
  function CurrentPage(pathname: string): (page: string)
    ensures page != [] && '/' !in page
    ensures pathname == [] || pathname[|pathname| - 1] == '/' ==> page == DefaultPage
    ensures pathname != [] && pathname[|pathname| - 1] != '/' ==>
      && |page| <= |pathname| && page == pathname[|pathname| - |page|..]
      && (|page| < |pathname| ==> pathname[|pathname| - |page| - 1] == '/')
  {
    LastSegmentSpec(pathname);
    var segment := LastSegment(pathname);
    if segment == [] then DefaultPage else segment
  }

  /** A navigation link: its href attribute and whether it has its active
      class (nav__link--active for a desktop link, nav-mobile__link--active
      for a mobile one). */
  datatype NavLink = NavLink(href: string, active: bool)

  /** One step of the forEach: the link gains its active class when its
      href's last segment is page, and is otherwise left as it was. */
  function Mark(link: NavLink, page: string): NavLink {
    if LastSegment(link.href) == page then link.(active := true) else link
  }

  /** The links after marking: the same links, each active when it already
      was or when its href's last segment is page. */
  ghost predicate Highlighted(before: seq<NavLink>, after: seq<NavLink>, page: string) {
    && |after| == |before|
    && forall i :: 0 <= i < |before| ==>
         && after[i].href == before[i].href
         && (after[i].active <==> before[i].active || LastSegment(before[i].href) == page)
  }

  /** Marking each link on its own is what Highlighted describes. */
  lemma MarkHighlights(before: seq<NavLink>, after: seq<NavLink>, page: string)
    requires |after| == |before|
    requires forall i :: 0 <= i < |before| ==> after[i] == Mark(before[i], page)
    ensures Highlighted(before, after, page)
  {
  }

  /** Marking again for the same page changes nothing. */
  lemma HighlightedIdempotent(a: seq<NavLink>, b: seq<NavLink>, c: seq<NavLink>, page: string)
    requires Highlighted(a, b, page) && Highlighted(b, c, page)
    ensures c == b
  {
    assert forall i :: 0 <= i < |b| ==> c[i] == b[i];
  }

  /** Only links whose last segment is the page are active afterwards,
      unless they were active before. */
  lemma HighlightedExactly(before: seq<NavLink>, after: seq<NavLink>, page: string, i: nat)
    requires Highlighted(before, after, page) && i < |before| && !before[i].active
    ensures after[i].active <==> LastSegment(after[i].href) == page
  {
  }

  class Navigation {
    var desktopLinks: seq<NavLink>
    var mobileLinks: seq<NavLink>

    constructor (desktopLinks: seq<NavLink>, mobileLinks: seq<NavLink>)
      ensures this.desktopLinks == desktopLinks && this.mobileLinks == mobileLinks
    {
      this.desktopLinks := desktopLinks;
      this.mobileLinks := mobileLinks;
    }

    /** setActiveNavLink: every desktop and then every mobile link is marked
        for the current page; no link loses its active class. */
    method SetActiveNavLink(pathname: string)
      modifies this
      ensures Highlighted(old(desktopLinks), desktopLinks, CurrentPage(pathname))
      ensures Highlighted(old(mobileLinks), mobileLinks, CurrentPage(pathname))
    {
      var currentPage := CurrentPage(pathname);
      ghost var desktop := desktopLinks;
      ghost var mobile := mobileLinks;

      var i := 0;
      while i < |desktopLinks|
        invariant 0 <= i <= |desktopLinks| == |desktop|
        invariant mobileLinks == mobile
        invariant forall k :: i <= k < |desktopLinks| ==> desktopLinks[k] == desktop[k]
        invariant forall k :: 0 <= k < i ==> desktopLinks[k] == Mark(desktop[k], currentPage)
      {
        if LastSegment(desktopLinks[i].href) == currentPage {
          desktopLinks := desktopLinks[i := desktopLinks[i].(active := true)];
        }
        i := i + 1;
      }
      MarkHighlights(desktop, desktopLinks, currentPage);

      i := 0;
      while i < |mobileLinks|
        invariant 0 <= i <= |mobileLinks| == |mobile|
        invariant Highlighted(desktop, desktopLinks, currentPage)
        invariant forall k :: i <= k < |mobileLinks| ==> mobileLinks[k] == mobile[k]
        invariant forall k :: 0 <= k < i ==> mobileLinks[k] == Mark(mobile[k], currentPage)
      {
        if LastSegment(mobileLinks[i].href) == currentPage {
          mobileLinks := mobileLinks[i := mobileLinks[i].(active := true)];
        }
        i := i + 1;
      }
      MarkHighlights(mobile, mobileLinks, currentPage);
    }
  }
}
