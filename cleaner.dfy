/**
 * `clean_html`: the fixed sequence of passes the cleaner runs over a parsed
 * document, from the unwanted tags to the empty containers.
 */
module Cleaner {
  import opened Strings
  import opened Dom
  import opened Navigation
  import opened Rules
  import opened Passes
  import opened Attributes

  const UnwantedTags: seq<string> := ["style", "footer", "iframe", "noscript"]

  /** The single passes between the tag loop and the consent elements, in order. */
  const MarkupRules: seq<Rule> :=
    [HeaderWithoutNav, TrackingScript, ExtensionTag, ExtensionClass, ResourceHintLink, MetaTag, SeoLink]

  const ConsentIds: seq<string> := ["onetrust-consent-sdk", "onetrust-banner-sdk", "onetrust-pc-sdk"]

  const ConsentClasses: seq<string> := ["cookie", "banner"]

  /** The passes of `rules`, in order, each over the result of the one before. */
  function PruneAll(ns: seq<Node>, rules: seq<Rule>): seq<Node>
    decreases |rules|
  {
    if rules == [] then ns
    else Prune(PruneAll(ns, rules[..|rules| - 1]), [], rules[|rules| - 1])
  }

  /** One pass per tag name. */
  function TagRules(tags: seq<string>): (r: seq<Rule>)
    ensures |r| == |tags| && forall k | 0 <= k < |tags| :: r[k] == TagIs(tags[k])
  {
    seq(|tags|, k requires 0 <= k < |tags| => TagIs(tags[k]))
  }

  /** One pass per class name. */
  function ClassRules(names: seq<string>): (r: seq<Rule>)
    ensures |r| == |names| && forall k | 0 <= k < |names| :: r[k] == ClassToken(names[k])
  {
    seq(|names|, k requires 0 <= k < |names| => ClassToken(names[k]))
  }

  /** `soup.find(id=v)` followed by `decompose()` when something was found. */
  function DropFirst(ns: seq<Node>, v: string): seq<Node> {
    var found := Collect(ns, IdIs(v));
    if found == [] then ns else Detach(ns, found[0])
  }

  /** The consent elements of `ids`, one lookup each, in order. */
  function DropFirstAll(ns: seq<Node>, ids: seq<string>): seq<Node>
    decreases |ids|
  {
    if ids == [] then ns
    else DropFirst(DropFirstAll(ns, ids[..|ids| - 1]), ids[|ids| - 1])
  }

  /** The document `clean_html` produces, before it is serialised. */
  function Cleaned(doc: seq<Node>): seq<Node> {
    var tagsGone := PruneAll(doc, TagRules(UnwantedTags));
    var markupGone := PruneAll(tagsGone, MarkupRules);
    var consentGone := DropFirstAll(markupGone, ConsentIds);
    var bannersGone := PruneAll(consentGone, ClassRules(ConsentClasses));
    var hiddenGone := Prune(Prune(bannersGone, [], AriaHidden), [], DisplayNone);
    Prune(Scrub(hiddenGone, []), [], EmptyContainer)
  }

  // ----- The loops of clean_html -----

  /** A run of passes, one after the other. */
  method RunPasses(doc: seq<Node>, rules: seq<Rule>) returns (out: seq<Node>)
    requires Unique(doc)
    ensures out == PruneAll(doc, rules) && Unique(out)
  {
    out := doc;
    var k := 0;
    while k < |rules|
      invariant 0 <= k <= |rules|
      invariant out == PruneAll(doc, rules[..k]) && Unique(out)
    {
      assert rules[..k + 1][..k] == rules[..k];
      PruneUnique(out, [], rules[k]);
      out := DecomposeSelected(out, rules[k]);
      k := k + 1;
    }
    assert rules[..k] == rules;
  }

  /** The consent elements: find each id and decompose what is found. */
  method DropConsent(doc: seq<Node>, ids: seq<string>) returns (out: seq<Node>)
    requires Unique(doc)
    ensures out == DropFirstAll(doc, ids) && Unique(out)
  {
    out := doc;
    var k := 0;
    while k < |ids|
      invariant 0 <= k <= |ids|
      invariant out == DropFirstAll(doc, ids[..k]) && Unique(out)
    {
      assert ids[..k + 1][..k] == ids[..k];
      var found := Collect(out, IdIs(ids[k]));
      if found != [] {
        DetachUnique(out, found[0]);
        out := Detach(out, found[0]);
      }
      k := k + 1;
    }
    assert ids[..k] == ids;
  }

  /** `clean_html` on a parsed document. */
  method CleanHtml(doc: seq<Node>) returns (out: seq<Node>)
    requires Unique(doc)
    ensures out == Cleaned(doc)
  {
    out := RunPasses(doc, TagRules(UnwantedTags));
    out := RunPasses(out, MarkupRules);
    out := DropConsent(out, ConsentIds);
    out := RunPasses(out, ClassRules(ConsentClasses));
    PruneUnique(out, [], AriaHidden);
    out := DecomposeSelected(out, AriaHidden);
    PruneUnique(out, [], DisplayNone);
    out := DecomposeSelected(out, DisplayNone);
    ScrubIds(out, []);
    out := StripAttributes(out);
    out := DecomposeSelected(out, EmptyContainer);
  }

  // ----- What clean_html guarantees -----

  /** `find(id=v)` finds the first element whose `id` attribute is `v`, and it goes with its subtree. */
  lemma DropFirstRemoves(ns: seq<Node>, v: string)
    requires Unique(ns)
    ensures Collect(ns, IdIs(v)) == [] <==> !HasSelected(ns, IdIs(v))
    ensures !HasSelected(ns, IdIs(v)) ==> DropFirst(ns, v) == ns
    ensures Collect(ns, IdIs(v)) != [] ==>
      var x := Collect(ns, IdIs(v))[0];
      && Locate(ns, [], x).Some?
      && var n := Locate(ns, [], x).value.node;
      && n.Element? && Get(n.attrs, "id") == Some(v)
      && IdSet(DropFirst(ns, v)) == IdSet(ns) - ({x} + Below(n))
  {
    CollectEmpty(ns, IdIs(v));
    if HasSelected(ns, IdIs(v)) {
      var x := Collect(ns, IdIs(v))[0];
      CollectOrder(ns, [], IdIs(v), 0);
      DetachExact(ns, [], x);
    }
  }

  lemma {:induction false} PruneAllIds(ns: seq<Node>, rules: seq<Rule>)
    requires Unique(ns)
    ensures Unique(PruneAll(ns, rules)) && IdSet(PruneAll(ns, rules)) <= IdSet(ns)
    decreases |rules|
  {
    if rules != [] {
      PruneAllIds(ns, rules[..|rules| - 1]);
      PruneUnique(PruneAll(ns, rules[..|rules| - 1]), [], rules[|rules| - 1]);
      PruneIds(PruneAll(ns, rules[..|rules| - 1]), [], rules[|rules| - 1]);
    }
  }

  lemma {:induction false} DropFirstAllIds(ns: seq<Node>, ids: seq<string>)
    requires Unique(ns)
    ensures Unique(DropFirstAll(ns, ids)) && IdSet(DropFirstAll(ns, ids)) <= IdSet(ns)
    decreases |ids|
  {
    if ids != [] {
      var before := DropFirstAll(ns, ids[..|ids| - 1]);
      DropFirstAllIds(ns, ids[..|ids| - 1]);
      var found := Collect(before, IdIs(ids[|ids| - 1]));
      if found != [] {
        DetachUnique(before, found[0]);
      }
    }
  }

  /** The cleaner only takes elements away, and keeps every element object distinct. */
  lemma CleanedIds(doc: seq<Node>)
    requires Unique(doc)
    ensures Unique(Cleaned(doc)) && IdSet(Cleaned(doc)) <= IdSet(doc)
  {
    var tagsGone := PruneAll(doc, TagRules(UnwantedTags));
    var markupGone := PruneAll(tagsGone, MarkupRules);
    var consentGone := DropFirstAll(markupGone, ConsentIds);
    var bannersGone := PruneAll(consentGone, ClassRules(ConsentClasses));
    var ariaGone := Prune(bannersGone, [], AriaHidden);
    var hiddenGone := Prune(ariaGone, [], DisplayNone);
    PruneAllIds(doc, TagRules(UnwantedTags));
    PruneAllIds(tagsGone, MarkupRules);
    DropFirstAllIds(markupGone, ConsentIds);
    PruneAllIds(consentGone, ClassRules(ConsentClasses));
    PruneUnique(bannersGone, [], AriaHidden);
    PruneIds(bannersGone, [], AriaHidden);
    PruneUnique(ariaGone, [], DisplayNone);
    PruneIds(ariaGone, [], DisplayNone);
    ScrubIds(hiddenGone, []);
    PruneUnique(Scrub(hiddenGone, []), [], EmptyContainer);
    PruneIds(Scrub(hiddenGone, []), [], EmptyContainer);
  }

  lemma {:induction false} PruneAllNoNew(ns: seq<Node>, rules: seq<Rule>, other: Rule)
    requires !HasSelected(ns, other)
    ensures !HasSelected(PruneAll(ns, rules), other)
    decreases |rules|
  {
    if rules != [] {
      PruneAllNoNew(ns, rules[..|rules| - 1], other);
      PruneNoNewSelected(PruneAll(ns, rules[..|rules| - 1]), [], rules[|rules| - 1], other);
    }
  }

  lemma {:induction false} PruneAllGone(ns: seq<Node>, rules: seq<Rule>, k: nat)
    requires k < |rules| && Unconditional(rules[k])
    ensures !HasSelected(PruneAll(ns, rules), rules[k])
    decreases |rules|
  {
    var last := |rules| - 1;
    if k == last {
      PruneSelectedGone(PruneAll(ns, rules[..last]), [], rules[k]);
    } else {
      PruneAllGone(ns, rules[..last], k);
      PruneNoNewSelected(PruneAll(ns, rules[..last]), [], rules[last], rules[k]);
    }
  }

  lemma {:induction false} DropFirstAllNoNew(ns: seq<Node>, ids: seq<string>, other: Rule)
    requires !HasSelected(ns, other)
    ensures !HasSelected(DropFirstAll(ns, ids), other)
    decreases |ids|
  {
    if ids != [] {
      var before := DropFirstAll(ns, ids[..|ids| - 1]);
      DropFirstAllNoNew(ns, ids[..|ids| - 1], other);
      var found := Collect(before, IdIs(ids[|ids| - 1]));
      if found != [] {
        DetachNoNewSelected(before, found[0], other);
      }
    }
  }

  /** What the passes after the consent elements leave of an unconditional selector's absence. */
  lemma LaterPassesNoNew(consentGone: seq<Node>, other: Rule)
    requires Unconditional(other) && !HasSelected(consentGone, other)
    ensures var bannersGone := PruneAll(consentGone, ClassRules(ConsentClasses));
      var hiddenGone := Prune(Prune(bannersGone, [], AriaHidden), [], DisplayNone);
      !HasSelected(Prune(Scrub(hiddenGone, []), [], EmptyContainer), other)
  {
    var bannersGone := PruneAll(consentGone, ClassRules(ConsentClasses));
    var ariaGone := Prune(bannersGone, [], AriaHidden);
    var hiddenGone := Prune(ariaGone, [], DisplayNone);
    PruneAllNoNew(consentGone, ClassRules(ConsentClasses), other);
    PruneNoNewSelected(bannersGone, [], AriaHidden, other);
    PruneNoNewSelected(ariaGone, [], DisplayNone, other);
    ScrubNoNewSelected(hiddenGone, [], other);
    PruneNoNewSelected(Scrub(hiddenGone, []), [], EmptyContainer, other);
  }

  /**
   * No `style`, `footer`, `iframe` or `noscript` element, no browser-extension
   * element, no preload, prefetch, canonical or alternate link and no element of
   * class `cookie` or `banner` is left in the cleaned document.
   */
  lemma CleanedRemovesUnconditional(doc: seq<Node>, rule: Rule)
    requires rule in TagRules(UnwantedTags) || rule in [ExtensionTag, ExtensionClass, ResourceHintLink, SeoLink]
             || rule in ClassRules(ConsentClasses)
    ensures !HasSelected(Cleaned(doc), rule)
  {
    var tagsGone := PruneAll(doc, TagRules(UnwantedTags));
    var markupGone := PruneAll(tagsGone, MarkupRules);
    var consentGone := DropFirstAll(markupGone, ConsentIds);
    if rule in ClassRules(ConsentClasses) {
      var k :| 0 <= k < |ClassRules(ConsentClasses)| && ClassRules(ConsentClasses)[k] == rule;
      var bannersGone := PruneAll(consentGone, ClassRules(ConsentClasses));
      PruneAllGone(consentGone, ClassRules(ConsentClasses), k);
      var ariaGone := Prune(bannersGone, [], AriaHidden);
      var hiddenGone := Prune(ariaGone, [], DisplayNone);
      PruneNoNewSelected(bannersGone, [], AriaHidden, rule);
      PruneNoNewSelected(ariaGone, [], DisplayNone, rule);
      ScrubNoNewSelected(hiddenGone, [], rule);
      PruneNoNewSelected(Scrub(hiddenGone, []), [], EmptyContainer, rule);
    } else {
      if rule in TagRules(UnwantedTags) {
        var k :| 0 <= k < |TagRules(UnwantedTags)| && TagRules(UnwantedTags)[k] == rule;
        PruneAllGone(doc, TagRules(UnwantedTags), k);
        PruneAllNoNew(tagsGone, MarkupRules, rule);
      } else {
        var k := if rule == ExtensionTag then 2 else if rule == ExtensionClass then 3
                 else if rule == ResourceHintLink then 4 else 6;
        assert MarkupRules[k] == rule;
        PruneAllGone(tagsGone, MarkupRules, k);
      }
      DropFirstAllNoNew(markupGone, ConsentIds, rule);
      LaterPassesNoNew(consentGone, rule);
    }
  }

  /** Every element of the cleaned document has its attributes cleaned for its position. */
  lemma CleanedIsClean(doc: seq<Node>)
    ensures Clean(Cleaned(doc), [])
  {
    var tagsGone := PruneAll(doc, TagRules(UnwantedTags));
    var markupGone := PruneAll(tagsGone, MarkupRules);
    var consentGone := DropFirstAll(markupGone, ConsentIds);
    var bannersGone := PruneAll(consentGone, ClassRules(ConsentClasses));
    var hiddenGone := Prune(Prune(bannersGone, [], AriaHidden), [], DisplayNone);
    ScrubIsClean(hiddenGone, []);
    PruneKeepsClean(Scrub(hiddenGone, []), [], EmptyContainer);
  }
}
