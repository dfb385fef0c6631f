/**
 * The cleaner's removal rules.
 *
 * Each rule of the cleaner is a `find_all` selector, which picks the elements
 * a pass collects before touching the tree, and a check that the pass
 * evaluates on each collected element, still attached, just before it calls
 * `decompose()`. A rule that decomposes everything it collects has a check
 * that always holds.
 */
module Rules {
  import opened Strings
  import opened Dom
  import opened Navigation

  datatype Rule =
    | TagIs(name: string)       // find_all(name); every match is decomposed
    | HeaderWithoutNav          // find_all('header'); decomposed unless navigation-related
    | TrackingScript            // find_all('script'); decomposed when it tracks
    | ExtensionTag              // find_all([...]) of browser-extension tags
    | ExtensionClass            // find_all(attrs={'class': re.compile(...)})
    | ResourceHintLink          // find_all('link', rel=['preload', 'prefetch'])
    | MetaTag                   // find_all('meta'); decomposed unless charset/viewport
    | SeoLink                   // find_all('link', rel=['canonical', 'alternate'])
    | IdIs(value: string)       // find(id=value)
    | ClassToken(name: string)  // find_all(class_=name)
    | AriaHidden                // find_all(attrs={'aria-hidden': 'true'}); short text decomposed
    | DisplayNone               // find_all(style=True); display:none with short text decomposed
    | EmptyContainer            // find_all(['div', 'span']); empty ones decomposed
    | AnyElement                // find_all(True)

  const Trackers: seq<string> := [
    "analytics", "gtag", "google-analytics", "googletagmanager",
    "facebook.net", "fbevents", "connect.facebook",
    "linkedin.com", "li.lms-analytics",
    "reddit", "pixel",
    "pinterest", "pintrk",
    "tiq.sunlife", "utag", "tealium",
    "cookielaw", "onetrust",
    "decibelinsight",
    "go-mpulse", "boomerang",
    "chrome-extension://",
    "coveo"]

  const InlineTrackingKeywords: seq<string> := ["utag_data", "fbq(", "gtag(", "_linkedin_data_partner_ids"]

  const ExtensionTags: seq<string> := ["grammarly-desktop-integration", "simplify-jobs-page-script"]

  const ExtensionMarkers: seq<string> := ["apolloio", "extension-opener", "simplify-jobs"]

  const HeaderNavFragments: seq<string> := ["nav", "navigation", "menu", "header-nav"]

  /** Descendants that keep an empty `div` or `span`. */
  const ContentTags: set<string> := {"img", "a", "h1", "h2", "h3", "h4", "h5", "h6", "svg"}

  /** Texts of at least this many characters are "substantial". */
  const SubstantialText: nat := 10

  // ----- display:none -----

  /** The regular expression `display\s*:\s*none` matches at index `i` (the `\s*` are greedy). */
  predicate DisplayNoneAt(s: string, i: nat) {
    && OccursAt(s, "display", i)
    && var j := SkipSpaces(s, i + 7);
    && j < |s| && s[j] == ':'
    && OccursAt(s, "none", SkipSpaces(s, j + 1))
  }

  /** `re.search(r'display\s*:\s*none', s[i:])`: try every start position from `i` on. */
  predicate SearchDisplayNone(s: string, i: nat)
    requires i <= |s|
    decreases |s| - i
  {
    DisplayNoneAt(s, i) || (i < |s| && SearchDisplayNone(s, i + 1))
  }

  /**
   * The text of the pattern: "display" at `i`, whitespace up to the colon at `j`,
   * whitespace up to "none" at `k`.
   */
  ghost predicate DisplayNoneMatch(s: string, i: nat, j: nat, k: nat) {
    && i + 7 <= j < k && k + 4 <= |s|
    && s[i..i + 7] == "display" && AllSpaces(s[i + 7..j])
    && s[j] == ':' && AllSpaces(s[j + 1..k]) && s[k..k + 4] == "none"
  }

  /** A match found by the scanner at `i` is an occurrence of the pattern. */
  lemma DisplayNoneAtSound(s: string, i: nat)
    requires DisplayNoneAt(s, i)
    ensures var j := SkipSpaces(s, i + 7); DisplayNoneMatch(s, i, j, SkipSpaces(s, j + 1))
  {
    var j := SkipSpaces(s, i + 7);
    var k := SkipSpaces(s, j + 1);
    AllSpacesSlice(s, i + 7, j);
    AllSpacesSlice(s, j + 1, k);
  }

  /** Every occurrence of the pattern at `i` is found by the scanner at `i`. */
  lemma DisplayNoneAtComplete(s: string, i: nat, j: nat, k: nat)
    requires DisplayNoneMatch(s, i, j, k)
    ensures DisplayNoneAt(s, i)
  {
    assert s[j] == ':' && !IsSpace(s[j]);
    SkipSpacesStopsAt(s, i + 7, j);
    assert !IsSpace(s[k]) by {
      assert s[k] == s[k..k + 4][0] == 'n';
    }
    SkipSpacesStopsAt(s, j + 1, k);
  }

  /** The scanner started at `i` finds any occurrence at or after `i`. */
  lemma {:induction false} SearchDisplayNoneFinds(s: string, i: nat, a: nat, j: nat, k: nat)
    requires i <= a && DisplayNoneMatch(s, a, j, k)
    ensures SearchDisplayNone(s, i)
    decreases a - i
  {
    if a == i {
      DisplayNoneAtComplete(s, a, j, k);
    } else {
      SearchDisplayNoneFinds(s, i + 1, a, j, k);
    }
  }

  /** When the scanner started at `i` reports a match, the pattern occurs at or after `i`. */
  lemma {:induction false} SearchDisplayNoneSound(s: string, i: nat)
    requires i <= |s| && SearchDisplayNone(s, i)
    ensures exists a, j, k :: i <= a && DisplayNoneMatch(s, a, j, k)
    decreases |s| - i
  {
    if DisplayNoneAt(s, i) {
      DisplayNoneAtSound(s, i);
      var j := SkipSpaces(s, i + 7);
      assert DisplayNoneMatch(s, i, j, SkipSpaces(s, j + 1));
    } else {
      SearchDisplayNoneSound(s, i + 1);
    }
  }

  /** The scanner finds a match exactly when the pattern occurs somewhere in the text. */
  lemma SearchDisplayNoneIff(s: string)
    ensures SearchDisplayNone(s, 0) <==> exists a, j, k :: DisplayNoneMatch(s, a, j, k)
  {
    if SearchDisplayNone(s, 0) {
      SearchDisplayNoneSound(s, 0);
    }
    if exists a, j, k :: DisplayNoneMatch(s, a, j, k) {
      var a, j, k :| DisplayNoneMatch(s, a, j, k);
      SearchDisplayNoneFinds(s, 0, a, j, k);
    }
  }

  // ----- The selectors and checks -----

  function ClassString(e: Node): string
    requires e.Element?
  {
    Join(e.classes, " ")
  }

  /** The element is one that the rule's `find_all` collects. */
  predicate Selects(rule: Rule, e: Node)
    requires e.Element?
  {
    match rule
    case TagIs(name) => e.tag == name
    case HeaderWithoutNav => e.tag == "header"
    case TrackingScript => e.tag == "script"
    case ExtensionTag => e.tag in ExtensionTags
    case ExtensionClass => exists p | p in ExtensionMarkers :: Contains(ClassString(e), p)
    case ResourceHintLink => e.tag == "link" && exists r | r in e.rels :: r in ["preload", "prefetch"]
    case MetaTag => e.tag == "meta"
    case SeoLink => e.tag == "link" && exists r | r in e.rels :: r in ["canonical", "alternate"]
    case IdIs(v) => Get(e.attrs, "id") == Some(v)
    case ClassToken(name) => name in e.classes
    case AriaHidden => Get(e.attrs, "aria-hidden") == Some("true")
    case DisplayNone => "style" in e.attrs
    case EmptyContainer => e.tag in ["div", "span"]
    case AnyElement => true
  }

  /** A script that loads or runs tracking code. */
  predicate IsTrackingScript(e: Node)
    requires e.Element?
  {
    var src := GetOr(e.attrs, "src");
    var text := TextOf(e.children);
    || (exists t | t in Trackers :: Contains(Lower(src), t))
    || Contains(GetOr(e.attrs, "id"), "utag")
    || Contains(text, "BOOMR")
    || Get(e.attrs, "type") == Some("application/ld+json")
    || (exists k | k in InlineTrackingKeywords :: Contains(text, k))
  }

  /** A `meta` element that declares the charset or the viewport. */
  predicate IsEssentialMeta(e: Node)
    requires e.Element?
  {
    (Get(e.attrs, "charset").Some? && Get(e.attrs, "charset").value != "")
    || GetOr(e.attrs, "name") in ["viewport", "charset"]
  }

  /** The check a pass makes on a collected element before it decomposes it. */
  predicate Check(rule: Rule, e: Node, chain: seq<Frame>)
    requires e.Element?
  {
    match rule
    case HeaderWithoutNav =>
      && !HasTag(e.children, {"nav"})
      && !(exists p | p in HeaderNavFragments :: Contains(ClassString(e), p))
    case TrackingScript => IsTrackingScript(e)
    case MetaTag => !IsEssentialMeta(e)
    case AriaHidden =>
      && !(e.tag == "svg" || InNavigation(chain))
      && |StrippedText(e.children)| < SubstantialText
    case DisplayNone =>
      && SearchDisplayNone(Lower(GetOr(e.attrs, "style")), 0)
      && |StrippedText(e.children)| < SubstantialText
    case EmptyContainer =>
      && !(InNavigation(chain) || HasTag(e.children, {"svg"}))
      && StrippedText(e.children) == ""
      && !HasTag(e.children, ContentTags)
    case _ => true
  }

  /** The pass decomposes the element. */
  predicate Removes(rule: Rule, e: Node, chain: seq<Frame>)
    requires e.Element?
  {
    Selects(rule, e) && Check(rule, e, chain)
  }

  /**
   * The body of a pass's loop for one collected element: the same tests in the
   * same order as the cleaner, with `is_in_navigation` walking the ancestors.
   */
  method Decide(rule: Rule, e: Node, chain: seq<Frame>) returns (decompose: bool)
    requires e.Element?
    ensures decompose <==> Check(rule, e, chain)
  {
    match rule
    case HeaderWithoutNav =>
      var hasNav := HasTag(e.children, {"nav"});
      var hasNavClass := exists p | p in HeaderNavFragments :: Contains(ClassString(e), p);
      decompose := !hasNav && !hasNavClass;
    case TrackingScript =>
      var src := GetOr(e.attrs, "src");
      var scriptId := GetOr(e.attrs, "id");
      var text := TextOf(e.children);
      if (exists t | t in Trackers :: Contains(Lower(src), t))
         || Contains(scriptId, "utag") || Contains(text, "BOOMR") {
        decompose := true;
      } else if Get(e.attrs, "type") == Some("application/ld+json") {
        decompose := true;
      } else if exists k | k in InlineTrackingKeywords :: Contains(text, k) {
        decompose := true;
      } else {
        decompose := false;
      }
    case MetaTag =>
      decompose := !IsEssentialMeta(e);
    case AriaHidden =>
      var inNav := false;
      if e.tag != "svg" {
        inNav := IsInNavigation(chain);
      }
      if e.tag == "svg" || inNav {
        decompose := false;
      } else {
        var textContent := StrippedText(e.children);
        decompose := |textContent| < SubstantialText;
      }
    case DisplayNone =>
      var styleValue := Lower(GetOr(e.attrs, "style"));
      if SearchDisplayNone(styleValue, 0) {
        var textContent := StrippedText(e.children);
        decompose := |textContent| < SubstantialText;
      } else {
        decompose := false;
      }
    case EmptyContainer =>
      var inNav := IsInNavigation(chain);
      if inNav || HasTag(e.children, {"svg"}) {
        decompose := false;
      } else {
        decompose := StrippedText(e.children) == "" && !HasTag(e.children, ContentTags);
      }
    case _ =>
      decompose := true;
  }

  // ----- What the individual rules decide -----

  /**
   * An aria-hidden element holding one text goes exactly when it is not an
   * `svg`, has no navigation ancestor, and its stripped text is under ten characters.
   */
  lemma AriaHiddenShortText(e: Node, chain: seq<Frame>, t: string)
    requires e.Element? && e.children == [Text(t)] && Get(e.attrs, "aria-hidden") == Some("true")
    ensures Removes(AriaHidden, e, chain) <==>
      e.tag != "svg" && !InNavigation(chain) && |Strip(t)| < SubstantialText
  {
    assert StrippedText(e.children) == Strip(t) + StrippedText([]);
  }

  /**
   * Only the element's own tag protects it: an aria-hidden `div` whose only
   * content is an icon `svg` is removed by the aria-hidden pass, although the
   * empty-container pass would keep it.
   */
  lemma AriaHiddenIconContainer(e: Node, icon: Node)
    requires icon.Element? && icon.tag == "svg" && icon.children == []
    requires e.Element? && e.tag == "div" && e.children == [icon]
    requires Get(e.attrs, "aria-hidden") == Some("true")
    ensures Removes(AriaHidden, e, [])
    ensures !Removes(EmptyContainer, e, [])
  {
    assert StrippedText(e.children) == StrippedText(icon.children) + StrippedText([]);
    assert HasTag(e.children, {"svg"});
  }

  /**
   * A `display:none` element holding one text goes exactly when its stripped text
   * is under ten characters, whatever its ancestors are.
   */
  lemma DisplayNoneShortText(e: Node, chain: seq<Frame>, t: string)
    requires e.Element? && e.children == [Text(t)] && "style" in e.attrs
    requires SearchDisplayNone(Lower(e.attrs["style"]), 0)
    ensures Removes(DisplayNone, e, chain) <==> |Strip(t)| < SubstantialText
  {
    assert StrippedText(e.children) == Strip(t) + StrippedText([]);
  }

  /**
   * The tag, script, id, class-token and `display:none` passes do not look at the
   * ancestors: an element inside navigation goes exactly when it would go elsewhere.
   */
  lemma NoNavigationExemption(rule: Rule, e: Node, chain: seq<Frame>, other: seq<Frame>)
    requires e.Element?
    requires rule.TagIs? || rule == TrackingScript || rule.IdIs? || rule.ClassToken? || rule == DisplayNone
    ensures Removes(rule, e, chain) <==> Removes(rule, e, other)
  {
  }

  /** A header that holds a `nav` element or has a navigation class survives its pass. */
  lemma NavigationHeaderKept(e: Node, chain: seq<Frame>)
    requires e.Element? && e.tag == "header"
    ensures Removes(HeaderWithoutNav, e, chain) <==>
      !HasTag(e.children, {"nav"}) && !Contains(ClassString(e), "nav") && !Contains(ClassString(e), "menu")
  {
    if Contains(ClassString(e), "navigation") {
      assert "navigation" == "nav" + "igation";
      ContainsParts(ClassString(e), "nav", "igation");
    }
    if Contains(ClassString(e), "header-nav") {
      assert "header-nav" == "header-" + "nav";
      ContainsParts(ClassString(e), "header-", "nav");
    }
  }

  /** A script loaded from Google Tag Manager is removed. */
  lemma TagManagerScriptRemoved(e: Node, chain: seq<Frame>)
    requires e.Element? && e.tag == "script"
    requires Get(e.attrs, "src") == Some("https://www." + "googletagmanager" + ".com/gtm.js")
    ensures Removes(TrackingScript, e, chain)
  {
    var src := "https://www." + "googletagmanager" + ".com/gtm.js";
    LowerKeeps(src);
    assert src[12..28] == "googletagmanager";
    assert OccursAt(Lower(src), "googletagmanager", 12);
    assert "googletagmanager" in Trackers;
  }

  /** A string shorter than `p` does not contain it. */
  lemma TooLong(s: string, p: string)
    requires |s| < |p|
    ensures !Contains(s, p)
  {
  }

  /** A string lacking one of the characters of `p` does not contain it. */
  lemma ForeignChar(s: string, p: string, k: nat)
    requires k < |p| && p[k] !in s
    ensures !Contains(s, p)
  {
    if Contains(s, p) {
      ContainsChar(s, p, k);
    }
  }

  /** A first-party script with no inline code, no `id` and no `type` stays. */
  lemma FirstPartyScriptKept(e: Node, chain: seq<Frame>)
    requires e.Element? && e.tag == "script" && e.children == []
    requires e.attrs == map["src" := "/app.js"]
    ensures !Removes(TrackingScript, e, chain)
  {
    AppSourceUntracked();
    assert TextOf(e.children) == "";
    EmptyTextUntracked();
  }

  /** The path `/app.js` names none of the trackers. */
  lemma AppSourceUntracked()
    ensures forall t | t in Trackers :: !Contains(Lower("/app.js"), t)
  {
    var src := "/app.js";
    LowerKeeps(src);
    TooLong(src, "analytics");
    ForeignChar(src, "gtag", 0);
    TooLong(src, "google-analytics");
    TooLong(src, "googletagmanager");
    TooLong(src, "facebook.net");
    TooLong(src, "fbevents");
    TooLong(src, "connect.facebook");
    TooLong(src, "linkedin.com");
    TooLong(src, "li.lms-analytics");
    ForeignChar(src, "reddit", 0);
    ForeignChar(src, "pixel", 1);
    TooLong(src, "pinterest");
    ForeignChar(src, "pintrk", 1);
    TooLong(src, "tiq.sunlife");
    ForeignChar(src, "utag", 0);
    ForeignChar(src, "tealium", 0);
    TooLong(src, "cookielaw");
    TooLong(src, "onetrust");
    TooLong(src, "decibelinsight");
    TooLong(src, "go-mpulse");
    TooLong(src, "boomerang");
    TooLong(src, "chrome-extension://");
    ForeignChar(src, "coveo", 0);
  }

  /** Empty script text holds none of the inline markers. */
  lemma EmptyTextUntracked()
    ensures !Contains("", "BOOMR") && !Contains("", "utag")
    ensures forall k | k in InlineTrackingKeywords :: !Contains("", k)
  {
    TooLong("", "BOOMR");
    TooLong("", "utag");
    TooLong("", "utag_data");
    TooLong("", "fbq(");
    TooLong("", "gtag(");
    TooLong("", "_linkedin_data_partner_ids");
  }
}
