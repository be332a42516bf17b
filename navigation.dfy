/** The site-wide navigation bar: which route the current path names, which
    nav item is highlighted, and the manager object that renders the bar once
    and afterwards updates the highlight in place. The browser's location is
    passed in as the path string; the page's elements are reduced to their
    href and one "active" flag each. */
module Navigation {
  import opened Optional
  import opened JsText


  datatype NavItem = NavItem(title: string, href: string, route: string)

  /** The five entries of the bar, in display order. */
  const NAV_ITEMS: seq<NavItem> := [
    NavItem("서비스 소개", "/", "index"),
    NavItem("랜덤 매칭", "/chat", "chat"),
    NavItem("게시판", "/boards", "boards"),
    NavItem("마이페이지", "/mypage", "mypage"),
    NavItem("로그인", "/login", "login")
  ]

  /** What a route string stands for once the first slash is gone: nothing
      left means the landing page, and the profile set-up page belongs to
      the chat section. */
  function PageOfRoute(route: string): (page: string)
    ensures page != []
    ensures route == [] ==> page == "index"
    ensures route == "profile-setup" ==> page == "chat"
    ensures route != [] && route != "profile-setup" ==> page == route
  {
    if route == [] then "index"
    else if route == "profile-setup" then "chat"
    else route
  }

  /** The page name derived from `window.location.pathname`: "/" and
      "/index" name the landing page; otherwise the first '/' is removed
      (wherever it stands), an empty rest names the landing page, and
      "profile-setup" is shown as part of the chat section. */
  function CurrentPage(path: string): (page: string)
    ensures page != []
    ensures page == PageOfRoute(RemoveFirst(path, '/'))
  {
    if path == "/" || path == "/index" then
      assert RemoveFirst("/", '/') == [];
      assert RemoveFirst("/index", '/') == "index";
      "index"
    else
      var route := RemoveFirst(path, '/');
      var stripped := if route == [] then "index" else route;
      if stripped == "profile-setup" then "chat" else stripped
  }

  /** A path that starts with a slash selects the page its remainder
      stands for; the special case for "/" and "/index" agrees with this. */
  lemma PageOfSlashPath(rest: string)
    ensures CurrentPage("/" + rest) == PageOfRoute(rest)
  {
    assert ("/" + rest)[0] == '/' && ("/" + rest)[1..] == rest;
  }

  /** The profile set-up page highlights the chat item, and the bare "/"
      the landing page. */
  lemma ProfileSetupShowsChat()
    ensures CurrentPage("/profile-setup") == "chat"
    ensures CurrentPage("/") == "index"
  {
    PageOfSlashPath("profile-setup");
  }

  /** Only the first slash is removed: a trailing slash survives, so
      "/boards/" names the page "boards/", which no nav item carries. */
  lemma TrailingSlashKept(name: string)
    requires name != []
    ensures CurrentPage("/" + name + "/") == name + "/"
  {
    assert "/" + name + "/" == "/" + (name + "/");
    PageOfSlashPath(name + "/");
    assert (name + "/")[|name|] == '/';
    assert name + "/" != "profile-setup" by {
      assert "profile-setup"[12] == 'p';
    }
  }

  /** `isActive(href, route)`: an item is highlighted exactly when its route
      equals the current page; the href plays no part (callers pass `null`
      for it, modelled as `None`). */
  function IsActive(currentPage: string, href: Option<string>, route: string): bool {
    route == currentPage
  }

  /** The highlight flags of the bar as the render functions compute them,
      one per nav item in display order. */
  function Highlights(page: string): (flags: seq<bool>)
    ensures |flags| == |NAV_ITEMS|
    ensures forall i :: 0 <= i < |flags| ==> flags[i] == (NAV_ITEMS[i].route == page)
  {
    seq(|NAV_ITEMS|, i requires 0 <= i < |NAV_ITEMS| =>
      IsActive(page, Some(NAV_ITEMS[i].href), NAV_ITEMS[i].route))
  }

  /** The five routes are distinct, so at most one item is ever highlighted,
      and a page that is one of the routes highlights exactly its item. */
  lemma AtMostOneHighlighted(page: string)
    ensures forall i, j :: 0 <= i < j < |NAV_ITEMS| ==> !(Highlights(page)[i] && Highlights(page)[j])
    ensures forall i :: 0 <= i < |NAV_ITEMS| && NAV_ITEMS[i].route == page ==>
      forall j :: 0 <= j < |NAV_ITEMS| ==> (Highlights(page)[j] <==> j == i)
  {
    var routes := seq(|NAV_ITEMS|, k requires 0 <= k < |NAV_ITEMS| => NAV_ITEMS[k].route);
    assert routes == ["index", "chat", "boards", "mypage", "login"];
  }

  /** Following any nav link highlights that link's own item. */
  lemma NavLinksSelectTheirItem()
    ensures forall i :: 0 <= i < |NAV_ITEMS| ==> CurrentPage(NAV_ITEMS[i].href) == NAV_ITEMS[i].route
  {
    forall i | 0 <= i < |NAV_ITEMS|
      ensures CurrentPage(NAV_ITEMS[i].href) == NAV_ITEMS[i].route
    {
      var route := NAV_ITEMS[i].route;
      assert NAV_ITEMS[i].href == "/" + (if i == 0 then "" else route);
      PageOfSlashPath(if i == 0 then "" else route);
    }
  }

  /** The route the update step reads off a mobile link: its href with the
      first slash removed, empty meaning the landing page. */
  function MobileRoute(href: string): (route: string)
    ensures route != []
  {
    var stripped := RemoveFirst(href, '/');
    if stripped == [] then "index" else stripped
  }

  /** The mobile links' hrefs lead back to exactly the routes of the
      desktop items: read by their hrefs, the links name the same routes in
      the same order. */
  lemma MobileRoutesMatch()
    ensures forall i :: 0 <= i < |NAV_ITEMS| ==> MobileRoute(NAV_ITEMS[i].href) == NAV_ITEMS[i].route
  {
    forall i | 0 <= i < |NAV_ITEMS|
      ensures MobileRoute(NAV_ITEMS[i].href) == NAV_ITEMS[i].route
    {
      var rest := if i == 0 then "" else NAV_ITEMS[i].route;
      var href := NAV_ITEMS[i].href;
      assert href == "/" + rest;
      assert href[0] == '/' && href[1..] == rest;
    }
  }

  /** The elements the selector `#mobileNav .py-2` matches, in document
      order, reduced to their `href` attribute: first the links' container
      (its class list contains "py-2" and it has no href), then the five
      rendered links. */
  const MOBILE_ELEMENTS: seq<Option<string>> :=
    [None, Some("/"), Some("/chat"), Some("/boards"), Some("/mypage"), Some("/login")]

  /** After the container come the links of the nav items, in display order,
      and each one's href reads back as its item's route. */
  lemma MobileElementsFollowNavItems()
    ensures |MOBILE_ELEMENTS| == |NAV_ITEMS| + 1 && MOBILE_ELEMENTS[0] == None
    ensures forall k :: 1 <= k < |MOBILE_ELEMENTS| ==>
      MOBILE_ELEMENTS[k] == Some(NAV_ITEMS[k - 1].href)
      && MobileRoute(NAV_ITEMS[k - 1].href) == NAV_ITEMS[k - 1].route
  {
    MobileRoutesMatch();
  }

  /** The "active" flags of the matched mobile elements as the render step
      leaves them: the container never carries the class, and each link
      carries it exactly when its item is highlighted. */
  function MobileFlags(page: string): (flags: seq<bool>)
    ensures |flags| == |MOBILE_ELEMENTS| && !flags[0]
    ensures forall k :: 1 <= k < |flags| ==> flags[k] == (NAV_ITEMS[k - 1].route == page)
  {
    [false] + Highlights(page)
  }

  /** How an update pass over the mobile elements ends: it ran over all of
      them, or it threw a TypeError part way. */
  datatype Outcome = Completed | Threw

  /** The mobile update pass from element `j` on: each element's flag is set
      from the route its href names, and the first element without an href
      ends the pass with a TypeError (`null.replace`), leaving itself and
      every later element as they were. */
  function MobilePass(hrefs: seq<Option<string>>, flags: seq<bool>, page: string, j: nat): (r: (Outcome, seq<bool>))
    requires |flags| == |hrefs| && j <= |hrefs|
    decreases |hrefs| - j
    ensures |r.1| == |flags|
    ensures forall k :: 0 <= k < j ==> r.1[k] == flags[k]
    ensures r.0 == Completed <==> forall k :: j <= k < |hrefs| ==> hrefs[k].Some?
  {
    if j == |hrefs| then (Completed, flags)
    else match hrefs[j]
      case None => (Threw, flags)
      case Some(h) => MobilePass(hrefs, flags[j := IsActive(page, None, MobileRoute(h))], page, j + 1)
  }

  /** As written, the pass stops at the container, the first element
      matched: it throws and no mobile flag changes, whatever the page. */
  lemma MobilePassThrowsAtContainer(flags: seq<bool>, page: string)
    requires |flags| == |MOBILE_ELEMENTS|
    ensures MobilePass(MOBILE_ELEMENTS, flags, page, 0) == (Threw, flags)
  {
  }

  /** So after a move from one page to the page of nav item `i`, the mobile
      bar still highlights the old page and not item `i`. */
  lemma AsWrittenLeavesMobileStale(oldPage: string, i: nat)
    requires i < |NAV_ITEMS| && oldPage != NAV_ITEMS[i].route
    ensures MobilePass(MOBILE_ELEMENTS, MobileFlags(oldPage), NAV_ITEMS[i].route, 0).1
      != MobileFlags(NAV_ITEMS[i].route)
  {
    var newPage := NAV_ITEMS[i].route;
    MobilePassThrowsAtContainer(MobileFlags(oldPage), newPage);
    assert MobileFlags(newPage)[i + 1] && !MobileFlags(oldPage)[i + 1];
  }

  /** The manager object the page keeps for its whole life. */
  class NavigationManager {
    var currentPage: string
    const navItems: seq<NavItem>
    var isInitialized: bool
    /** Whether each desktop nav element carries the "is-active" class. */
    var desktopActive: seq<bool>
    /** The href of each element `#mobileNav .py-2` matches. */
    var mobileHrefs: seq<Option<string>>
    /** Whether each of those elements carries the "active" class. */
    var mobileActive: seq<bool>
    /** How often the bar's markup has been built from scratch. */
    var renders: nat

    /** The bar has been rendered and its highlight shows the current page. */
    ghost predicate Valid()
      reads this
    {
      navItems == NAV_ITEMS && mobileHrefs == MOBILE_ELEMENTS
      && desktopActive == Highlights(currentPage)
      && mobileActive == MobileFlags(currentPage)
    }

    /** Built on page load: reads the page, then initialises, which renders
        the bar once. */
    constructor (path: string)
      ensures Valid() && isInitialized && renders == 1
      ensures currentPage == CurrentPage(path)
    {
      currentPage := CurrentPage(path);
      navItems := NAV_ITEMS;
      isInitialized := false;
      desktopActive, mobileHrefs, mobileActive := [], [], [];
      renders := 0;
      new;
      Init(path);
    }

    /** `renderDesktopNav` and `renderMobileNav`: rebuild both bars, each
        item highlighted when `isActive` holds for it. */
    method Render()
      requires navItems == NAV_ITEMS
      modifies this`desktopActive, this`mobileHrefs, this`mobileActive, this`renders
      ensures Valid() && renders == old(renders) + 1
    {
      desktopActive := Highlights(currentPage);
      mobileHrefs := MOBILE_ELEMENTS;
      mobileActive := MobileFlags(currentPage);
      renders := renders + 1;
    }

    /** `init`: the first call renders and sets the flag; every later call
        only delegates to `UpdateNavigation` and never renders again. */
    method Init(path: string)
      requires navItems == NAV_ITEMS
      requires isInitialized ==> Valid()
      modifies this
      ensures Valid() && isInitialized
      ensures !old(isInitialized) ==> renders == old(renders) + 1 && currentPage == old(currentPage)
      ensures old(isInitialized) ==> renders == old(renders) && currentPage == CurrentPage(path)
    {
      if isInitialized {
        UpdateNavigation(path);
        return;
      }
      Render();
      isInitialized := true;
    }

    /** The desktop half of the update: every `.nav-item` takes the
        "is-active" class exactly when its route is the current page. */
    method MoveDesktopHighlight()
      requires navItems == NAV_ITEMS && |desktopActive| == |NAV_ITEMS|
      modifies this`desktopActive
      ensures desktopActive == Highlights(currentPage)
    {
      var i := 0;
      while i < |desktopActive|
        invariant 0 <= i <= |desktopActive| == |NAV_ITEMS|
        invariant forall k :: 0 <= k < i ==> desktopActive[k] == (NAV_ITEMS[k].route == currentPage)
      {
        var route := navItems[i].route;
        desktopActive := desktopActive[i := IsActive(currentPage, None, route)];
        i := i + 1;
      }
    }

    /** `updateNavigation` as written: recompute the page; when it is
        unchanged nothing happens, otherwise store it, move the desktop
        highlight, and run the mobile pass over every element the selector
        matches. The container comes first and has no href, so the pass
        throws before any mobile flag changes. */
    method UpdateNavigationAsWritten(path: string) returns (outcome: Outcome)
      requires Valid()
      modifies this`currentPage, this`desktopActive, this`mobileActive
      ensures currentPage == CurrentPage(path) && desktopActive == Highlights(currentPage)
      ensures CurrentPage(path) == old(currentPage) ==>
        (outcome == Completed && Valid()
         && desktopActive == old(desktopActive) && mobileActive == old(mobileActive))
      ensures CurrentPage(path) != old(currentPage) ==>
        ((outcome, mobileActive) == MobilePass(mobileHrefs, old(mobileActive), currentPage, 0)
         && outcome == Threw && mobileActive == old(mobileActive))
    {
      var newPage := CurrentPage(path);
      if newPage == currentPage {
        return Completed;
      }
      currentPage := newPage;
      MoveDesktopHighlight();

      ghost var pass := MobilePass(mobileHrefs, mobileActive, newPage, 0);
      outcome := Completed;
      var j := 0;
      while j < |mobileHrefs|
        invariant 0 <= j <= |mobileHrefs| == |mobileActive|
        invariant currentPage == newPage && desktopActive == Highlights(currentPage)
        invariant MobilePass(mobileHrefs, mobileActive, newPage, j) == pass
      {
        if mobileHrefs[j].None? {
          outcome := Threw;
          break;
        }
        var route := MobileRoute(mobileHrefs[j].value);
        mobileActive := mobileActive[j := IsActive(currentPage, None, route)];
        j := j + 1;
      }
      MobilePassThrowsAtContainer(old(mobileActive), newPage);
    }

    /** `updateNavigation` as evidently intended: the same steps, with the
        mobile pass visiting only the links (elements that carry an href), so
        both bars end up highlighting the new page. */
    method UpdateNavigation(path: string)
      requires Valid()
      modifies this`currentPage, this`desktopActive, this`mobileActive
      ensures Valid()
      ensures currentPage == CurrentPage(path)
      ensures CurrentPage(path) == old(currentPage) ==>
        desktopActive == old(desktopActive) && mobileActive == old(mobileActive)
    {
      var newPage := CurrentPage(path);
      if newPage == currentPage {
        return;
      }
      currentPage := newPage;
      MoveDesktopHighlight();

      MobileElementsFollowNavItems();
      var j := 0;
      while j < |mobileHrefs|
        invariant 0 <= j <= |mobileHrefs| == |mobileActive|
        invariant currentPage == newPage && desktopActive == Highlights(currentPage)
        invariant forall k :: 0 <= k < j ==> mobileActive[k] == MobileFlags(newPage)[k]
        invariant forall k :: j <= k < |mobileActive| ==> mobileActive[k] == old(mobileActive)[k]
      {
        match mobileHrefs[j] {
          case Some(href) =>
            var route := MobileRoute(href);
            mobileActive := mobileActive[j := IsActive(currentPage, None, route)];
          case None =>
        }
        j := j + 1;
      }
    }

    /** `updateCurrentPage`, run on history navigation: the same update. */
    method UpdateCurrentPage(path: string)
      requires Valid()
      modifies this`currentPage, this`desktopActive, this`mobileActive
      ensures Valid() && currentPage == CurrentPage(path)
      ensures CurrentPage(path) == old(currentPage) ==>
        desktopActive == old(desktopActive) && mobileActive == old(mobileActive)
    {
      UpdateNavigation(path);
    }
  }
}
