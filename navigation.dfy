/**
 * The navigation classifier: is an element inside a navigation region?
 *
 * The test never looks at the element itself, only at its proper ancestors,
 * so it is given the ancestor frames from the top of the document down to the
 * element's parent.
 */
module Navigation {
  import opened Strings
  import opened Dom

  /** Class fragments that mark a navigation ancestor, tested as substrings of the joined class string. */
  const NavClassFragments: seq<string> := ["nav", "navigation", "menu", "navbar", "sl-nav", "offcanvas"]

  /** `id` values that mark a navigation ancestor, compared exactly. */
  const NavIds: seq<string> := ["nav-header", "sl-nav", "sl-header-offcanvas", "menuOpen", "menuClose"]

  /** `any(nav_class in classes for nav_class in [...])` */
  predicate HasNavClass(joined: string) {
    exists p | p in NavClassFragments :: Contains(joined, p)
  }

  /** One ancestor makes its descendants navigation-interior. */
  predicate IsNavMarker(f: Frame) {
    || f.tag in ["nav", "header"]
    || (|f.classes| > 0 && HasNavClass(Join(f.classes, " ")))
    || (f.elemId.Some? && f.elemId.value in NavIds)
  }

  /** Some proper ancestor is a navigation marker. */
  predicate InNavigation(chain: seq<Frame>) {
    exists k | 0 <= k < |chain| :: IsNavMarker(chain[k])
  }

  /**
   * `is_in_navigation`: walk from the parent up to the top of the document and
   * stop at the first ancestor that marks navigation.
   */
  method IsInNavigation(chain: seq<Frame>) returns (r: bool)
    ensures r <==> exists k | 0 <= k < |chain| :: IsNavMarker(chain[k])
  {
    var k := |chain|;
    while k > 0
      invariant 0 <= k <= |chain|
      invariant forall j | k <= j < |chain| :: !IsNavMarker(chain[j])
    {
      var parent := chain[k - 1];
      if parent.tag in ["nav", "header"] {
        return true;
      }
      if |parent.classes| > 0 {
        var classes := Join(parent.classes, " ");
        if HasNavClass(classes) {
          return true;
        }
      }
      if parent.elemId.Some? && parent.elemId.value in NavIds {
        return true;
      }
      k := k - 1;
    }
    return false;
  }

  /**
   * Of the six class fragments only three matter: "navigation", "navbar" and
   * "sl-nav" all contain "nav".
   */
  lemma NavClassReduces(joined: string)
    ensures HasNavClass(joined) <==>
            Contains(joined, "nav") || Contains(joined, "menu") || Contains(joined, "offcanvas")
  {
    if Contains(joined, "navigation") {
      assert "navigation" == "nav" + "igation";
      ContainsParts(joined, "nav", "igation");
    }
    if Contains(joined, "navbar") {
      assert "navbar" == "nav" + "bar";
      ContainsParts(joined, "nav", "bar");
    }
    if Contains(joined, "sl-nav") {
      assert "sl-nav" == "sl-" + "nav";
      ContainsParts(joined, "sl-", "nav");
    }
  }

  /** Everything below a navigation-interior element is navigation-interior too. */
  lemma InNavigationExtends(chain: seq<Frame>, f: Frame)
    requires InNavigation(chain)
    ensures InNavigation(chain + [f])
  {
    var k :| 0 <= k < |chain| && IsNavMarker(chain[k]);
    assert (chain + [f])[k] == chain[k];
  }
}
