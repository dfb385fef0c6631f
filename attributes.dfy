/**
 * The attribute pass of the cleaner: every element loses its inline style and
 * a fixed list of framework and tracking data attributes; inside navigation the
 * style, the Font Awesome and the Bootstrap attributes stay.
 */
module Attributes {
  import opened Strings
  import opened Dom
  import opened Navigation
  import opened Rules
  import opened Passes

  /** Removed from every element. */
  const AlwaysRemoved: seq<string> := [
    "data-sl-aem-component", "data-sl-component", "data-cmp-hook-accordion",
    "data-class", "data-class-icon",
    "data-parsley-validate", "data-parsley-error-message",
    "data-parsley-id", "data-parsley-pattern", "data-parsley-pattern-message",
    "data-parsley-required", "data-parsley-required-message", "data-single-expansion",
    "data-title", "data-cy", "data-grammarly-shadow-root"]

  /** Font Awesome attributes, removed outside navigation only. */
  const FontAwesomeAttrs: seq<string> := ["data-fa-i2svg", "data-icon", "data-prefix"]

  /** Bootstrap attributes, removed outside navigation only. */
  const BootstrapAttrs: seq<string> := ["data-bs-target", "data-bs-toggle", "data-bs-dismiss"]

  /**
   * Attributes the cleaner keeps so that links, forms and inputs still work.
   * `class` is kept too; its tokens live in `Node.classes`, which the pass never touches.
   */
  const Essential: set<string> := {
    "href", "src", "action", "type", "name", "value", "id", "placeholder", "required"}

  /** The pass deletes attribute `key` from an element inside (or outside) navigation. */
  predicate Dropped(key: string, inNav: bool) {
    || key in AlwaysRemoved
    || (!inNav && (key == "style" || key in FontAwesomeAttrs || key in BootstrapAttrs))
  }

  /** The attributes an element keeps. */
  function Scrubbed(attrs: map<string, string>, inNav: bool): map<string, string> {
    map k | k in attrs && !Dropped(k, inNav) :: attrs[k]
  }

  /** No attribute the pass deletes is left. */
  predicate AttrsClean(attrs: map<string, string>, inNav: bool) {
    forall k | k in attrs :: !Dropped(k, inNav)
  }

  /** `attrs` with the style (when `style` holds) and every key of `keys` deleted. */
  function Without(attrs: map<string, string>, style: bool, keys: seq<string>): map<string, string> {
    map key | key in attrs && !(style && key == "style") && key !in keys :: attrs[key]
  }

  lemma WithoutMore(attrs: map<string, string>, style: bool, keys: seq<string>, key: string)
    ensures Without(attrs, style, keys + [key]) == Without(attrs, style, keys) - {key}
  {
  }

  lemma WithoutAll(attrs: map<string, string>, outside: bool, keys: seq<string>)
    requires keys == AlwaysRemoved + (if outside then FontAwesomeAttrs + BootstrapAttrs else [])
    ensures Without(attrs, outside, keys) == Scrubbed(attrs, !outside)
  {
    forall key ensures key in keys <==> key in AlwaysRemoved || (outside && (key in FontAwesomeAttrs || key in BootstrapAttrs)) {
    }
  }

  /**
   * The pass's work on one element: delete the style outside navigation, build
   * the list of attributes to delete, and delete those the element has.
   */
  method ScrubAttrs(attrs: map<string, string>, chain: seq<Frame>) returns (r: map<string, string>)
    ensures r == Scrubbed(attrs, InNavigation(chain))
  {
    var inNav := IsInNavigation(chain);
    var outside := !inNav;
    r := attrs;
    if outside && "style" in r {
      r := r - {"style"};
    }
    var attrsToRemove := AlwaysRemoved;
    if outside {
      attrsToRemove := attrsToRemove + FontAwesomeAttrs;
    }
    if outside {
      attrsToRemove := attrsToRemove + BootstrapAttrs;
    }
    assert attrsToRemove == AlwaysRemoved + (if outside then FontAwesomeAttrs + BootstrapAttrs else []);
    assert r == Without(attrs, outside, attrsToRemove[..0]);
    var k := 0;
    while k < |attrsToRemove|
      invariant 0 <= k <= |attrsToRemove|
      invariant r == Without(attrs, outside, attrsToRemove[..k])
    {
      var attr := attrsToRemove[k];
      if attr in r {
        r := r - {attr};
      }
      assert attrsToRemove[..k + 1] == attrsToRemove[..k] + [attr];
      WithoutMore(attrs, outside, attrsToRemove[..k], attr);
      k := k + 1;
    }
    assert attrsToRemove[..k] == attrsToRemove;
    WithoutAll(attrs, outside, attrsToRemove);
  }

  /** The pass leaves an element's attributes clean for its position. */
  lemma ScrubbedClean(attrs: map<string, string>, inNav: bool)
    ensures AttrsClean(Scrubbed(attrs, inNav), inNav)
    ensures Scrubbed(attrs, inNav).Keys <= attrs.Keys
  {
  }

  /** The attributes links, forms and inputs need are never deleted. */
  lemma EssentialKept(attrs: map<string, string>, inNav: bool, key: string)
    requires key in attrs && key in Essential
    ensures key in Scrubbed(attrs, inNav) && Scrubbed(attrs, inNav)[key] == attrs[key]
  {
    EssentialNotDropped(key, inNav);
  }

  lemma EssentialNotDropped(key: string, inNav: bool)
    requires key in Essential
    ensures !Dropped(key, inNav)
  {
    EssentialShape(key);
    NotDataNotDropped(key, inNav);
  }

  /** No essential attribute is the style or starts with `d`. */
  lemma EssentialShape(key: string)
    requires key in Essential
    ensures key != "style" && |key| > 0 && key[0] != 'd'
  {
  }

  /** The pass deletes only the style and attributes starting with `d`. */
  lemma NotDataNotDropped(key: string, inNav: bool)
    requires key != "style" && (|key| == 0 || key[0] != 'd')
    ensures !Dropped(key, inNav)
  {
  }

  /** Inside navigation the style, Font Awesome and Bootstrap attributes survive. */
  lemma NavigationKeepsStyling(attrs: map<string, string>, key: string)
    requires key in attrs && (key == "style" || key in FontAwesomeAttrs || key in BootstrapAttrs)
    ensures key in Scrubbed(attrs, true) && Scrubbed(attrs, true)[key] == attrs[key]
  {
    assert !Dropped(key, true);
  }

  /** Running the pass's element step twice deletes nothing more. */
  lemma ScrubbedIdempotent(attrs: map<string, string>, inNav: bool)
    ensures Scrubbed(Scrubbed(attrs, inNav), inNav) == Scrubbed(attrs, inNav)
  {
  }

  /** The `id` attribute is never deleted, so the navigation test of descendants does not change. */
  lemma ScrubbedFrame(e: Node, inNav: bool)
    requires e.Element?
    ensures FrameOf(e.(attrs := Scrubbed(e.attrs, inNav))) == FrameOf(e)
  {
    assert !Dropped("id", inNav);
  }

  // ----- The pass over the document -----

  /** The document after the attribute pass; `chain` holds the frames above `ns`. */
  function Scrub(ns: seq<Node>, chain: seq<Frame>): seq<Node> {
    if ns == [] then []
    else match ns[0]
      case Text(_) => [ns[0]] + Scrub(ns[1..], chain)
      case Element(_, _, attrs, _, _, ch) =>
        [ns[0].(attrs := Scrubbed(attrs, InNavigation(chain)),
                children := Scrub(ch, chain + [FrameOf(ns[0])]))]
        + Scrub(ns[1..], chain)
  }

  /** The document with every attribute map emptied: what the attribute pass must not change. */
  function Bare(ns: seq<Node>): seq<Node> {
    if ns == [] then []
    else match ns[0]
      case Text(_) => [ns[0]] + Bare(ns[1..])
      case Element(_, _, _, _, _, ch) => [ns[0].(attrs := map[], children := Bare(ch))] + Bare(ns[1..])
  }

  /** The document once the loop has handled the elements in `done`. */
  function ScrubWhere(ns: seq<Node>, chain: seq<Frame>, done: set<nat>): seq<Node> {
    if ns == [] then []
    else match ns[0]
      case Text(_) => [ns[0]] + ScrubWhere(ns[1..], chain, done)
      case Element(i, _, attrs, _, _, ch) =>
        [ns[0].(attrs := if i in done then Scrubbed(attrs, InNavigation(chain)) else attrs,
                children := ScrubWhere(ch, chain + [FrameOf(ns[0])], done))]
        + ScrubWhere(ns[1..], chain, done)
  }

  /** Every element of the forest is clean for its position. */
  predicate Clean(ns: seq<Node>, chain: seq<Frame>) {
    ns == [] ||
    ((ns[0].Element? ==>
        AttrsClean(ns[0].attrs, InNavigation(chain)) && Clean(ns[0].children, chain + [FrameOf(ns[0])]))
     && Clean(ns[1..], chain))
  }

  lemma {:induction false} ScrubWhereIds(ns: seq<Node>, chain: seq<Frame>, done: set<nat>)
    ensures IdSet(ScrubWhere(ns, chain, done)) == IdSet(ns)
  {
    if ns != [] {
      ScrubWhereIds(ns[1..], chain, done);
      var rest := ScrubWhere(ns[1..], chain, done);
      match ns[0]
      case Text(_) =>
        Cons(ns[0], rest);
      case Element(i, _, attrs, _, _, ch) =>
        ScrubWhereIds(ch, chain + [FrameOf(ns[0])], done);
        Cons(ScrubWhere(ns, chain, done)[0], rest);
        assert ScrubWhere(ns, chain, done) == [ScrubWhere(ns, chain, done)[0]] + rest;
    }
  }

  lemma {:induction false} ScrubWhereNone(ns: seq<Node>, chain: seq<Frame>)
    ensures ScrubWhere(ns, chain, {}) == ns
  {
    if ns != [] {
      ScrubWhereNone(ns[1..], chain);
      match ns[0]
      case Text(_) =>
        assert [ns[0]] + ns[1..] == ns;
      case Element(_, _, _, _, _, ch) =>
        ScrubWhereNone(ch, chain + [FrameOf(ns[0])]);
        assert [ns[0]] + ns[1..] == ns;
    }
  }

  lemma {:induction false} ScrubWhereOther(ns: seq<Node>, chain: seq<Frame>, done: set<nat>, y: nat)
    requires y !in IdSet(ns)
    ensures ScrubWhere(ns, chain, done + {y}) == ScrubWhere(ns, chain, done)
  {
    if ns != [] {
      ScrubWhereOther(ns[1..], chain, done, y);
      match ns[0]
      case Text(_) =>
      case Element(_, _, _, _, _, ch) =>
        ScrubWhereOther(ch, chain + [FrameOf(ns[0])], done, y);
    }
  }

  lemma {:induction false} ScrubWhereAll(ns: seq<Node>, chain: seq<Frame>, done: set<nat>)
    requires IdSet(ns) <= done
    ensures ScrubWhere(ns, chain, done) == Scrub(ns, chain)
  {
    if ns != [] {
      ScrubWhereAll(ns[1..], chain, done);
      match ns[0]
      case Text(_) =>
      case Element(_, _, _, _, _, ch) =>
        ScrubWhereAll(ch, chain + [FrameOf(ns[0])], done);
    }
  }

  lemma {:induction false} SetAttrsAbsent(ns: seq<Node>, x: nat, attrs: map<string, string>)
    requires x !in IdSet(ns)
    ensures SetAttrs(ns, x, attrs) == ns
  {
    if ns != [] {
      SetAttrsAbsent(ns[1..], x, attrs);
      match ns[0]
      case Text(_) =>
        assert [ns[0]] + ns[1..] == ns;
      case Element(_, _, _, _, _, ch) =>
        SetAttrsAbsent(ch, x, attrs);
        assert [ns[0]] + ns[1..] == ns;
    }
  }

  /**
   * What one turn of the loop does: the element `x` is found with the attributes
   * and the ancestors it had at the start of the pass, and giving it its scrubbed
   * attributes is the same as marking it handled.
   */
  ghost predicate ScrubTurn(ns: seq<Node>, chain: seq<Frame>, done: set<nat>, x: nat) {
    var cur := ScrubWhere(ns, chain, done);
    && Locate(ns, chain, x).Some?
    && Locate(cur, chain, x).Some?
    && var l := Locate(ns, chain, x).value;
    && var m := Locate(cur, chain, x).value;
    && l.node.Element? && m.node.Element?
    && m.node.attrs == l.node.attrs && m.chain == l.chain
    && ScrubWhere(ns, chain, done + {x}) == SetAttrs(cur, x, Scrubbed(l.node.attrs, InNavigation(l.chain)))
  }

  lemma {:induction false} ScrubStep(ns: seq<Node>, chain: seq<Frame>, done: set<nat>, x: nat)
    requires Unique(ns) && x !in done && x in IdSet(ns)
    ensures ScrubTurn(ns, chain, done, x)
  {
    var cur := ScrubWhere(ns, chain, done);
    var rest := ScrubWhere(ns[1..], chain, done);
    ScrubWhereIds(ns[1..], chain, done);
    assert ns == [ns[0]] + ns[1..];
    match ns[0]
    case Text(_) =>
      Cons(ns[0], ns[1..]);
      Cons(ns[0], rest);
      assert cur == [ns[0]] + rest;
      ScrubStep(ns[1..], chain, done, x);
    case Element(i, _, attrs, _, _, ch) =>
      var sub := chain + [FrameOf(ns[0])];
      var e := cur[0];
      assert cur == [e] + rest;
      var a := if i in done then Scrubbed(attrs, InNavigation(chain)) else attrs;
      assert e == ns[0].(attrs := a, children := ScrubWhere(ch, sub, done));
      assert FrameOf(e) == FrameOf(ns[0]) by {
        ScrubbedFrame(ns[0], InNavigation(chain));
      }
      ScrubWhereIds(ch, sub, done);
      if i == x {
        ScrubWhereOther(ch, sub, done, x);
        ScrubWhereOther(ns[1..], chain, done, x);
        SetAttrsAbsent(ScrubWhere(ch, sub, done), x, Scrubbed(attrs, InNavigation(chain)));
        SetAttrsAbsent(rest, x, Scrubbed(attrs, InNavigation(chain)));
      } else if x in IdSet(ch) {
        LocateCons(ns[0], ns[1..], chain, x);
        LocateCons(e, rest, chain, x);
        LocatePresent(ch, sub, x);
        ScrubStep(ch, sub, done, x);
        ScrubWhereOther(ns[1..], chain, done, x);
        SetAttrsAbsent(rest, x, Scrubbed(Locate(ns, chain, x).value.node.attrs, InNavigation(Locate(ns, chain, x).value.chain)));
      } else {
        LocateCons(ns[0], ns[1..], chain, x);
        LocateCons(e, rest, chain, x);
        LocateAbsent(ch, sub, x);
        LocateAbsent(ScrubWhere(ch, sub, done), sub, x);
        ScrubStep(ns[1..], chain, done, x);
        ScrubWhereOther(ch, sub, done, x);
        SetAttrsAbsent(ScrubWhere(ch, sub, done), x, Scrubbed(Locate(ns, chain, x).value.node.attrs, InNavigation(Locate(ns, chain, x).value.chain)));
      }
  }

  /** `find_all(True)` lists every element. */
  lemma {:induction false} CollectAll(ns: seq<Node>)
    ensures forall y | y in IdSet(ns) :: y in Collect(ns, AnyElement)
  {
    if ns != [] {
      CollectAll(ns[1..]);
      match ns[0]
      case Text(_) =>
      case Element(_, _, _, _, _, ch) =>
        CollectAll(ch);
    }
  }

  /** The attribute pass: every element, in document order, has its attributes scrubbed. */
  method StripAttributes(doc: seq<Node>) returns (out: seq<Node>)
    requires Unique(doc)
    ensures out == Scrub(doc, [])
  {
    var tags := Collect(doc, AnyElement);
    CollectIds(doc, AnyElement);
    ghost var done: set<nat> := {};
    ScrubWhereNone(doc, []);
    out := doc;
    var k := 0;
    while k < |tags|
      invariant 0 <= k <= |tags|
      invariant done == set j | 0 <= j < k :: tags[j]
      invariant out == ScrubWhere(doc, [], done)
    {
      var x := tags[k];
      CollectOrder(doc, [], AnyElement, k);
      ScrubStep(doc, [], done, x);
      var tag := Locate(out, [], x).value;
      var scrubbed := ScrubAttrs(tag.node.attrs, tag.chain);
      out := SetAttrs(out, x, scrubbed);
      done := done + {x};
      k := k + 1;
    }
    CollectAll(doc);
    ScrubWhereAll(doc, [], done);
  }

  // ----- What the attribute pass guarantees -----

  /** After the pass every element is clean for its position. */
  lemma {:induction false} ScrubIsClean(ns: seq<Node>, chain: seq<Frame>)
    ensures Clean(Scrub(ns, chain), chain)
  {
    if ns != [] {
      ScrubIsClean(ns[1..], chain);
      var r := Scrub(ns, chain);
      match ns[0]
      case Text(_) =>
        assert r[1..] == Scrub(ns[1..], chain);
      case Element(_, _, attrs, _, _, ch) =>
        ScrubIsClean(ch, chain + [FrameOf(ns[0])]);
        ScrubbedClean(attrs, InNavigation(chain));
        ScrubbedFrame(ns[0], InNavigation(chain));
        assert r[1..] == Scrub(ns[1..], chain);
    }
  }

  /**
   * The pass keeps every element and text node: only attributes change. Tags,
   * `class` and `rel` tokens, texts and the order of children stay as they were.
   */
  lemma {:induction false} ScrubIds(ns: seq<Node>, chain: seq<Frame>)
    ensures Bare(Scrub(ns, chain)) == Bare(ns)
    ensures IdSet(Scrub(ns, chain)) == IdSet(ns)
    ensures Unique(ns) ==> Unique(Scrub(ns, chain))
    ensures TextOf(Scrub(ns, chain)) == TextOf(ns)
    ensures forall tags :: HasTag(Scrub(ns, chain), tags) == HasTag(ns, tags)
  {
    if ns != [] {
      ScrubIds(ns[1..], chain);
      var rest := Scrub(ns[1..], chain);
      var r := Scrub(ns, chain);
      assert r == [r[0]] + rest;
      match ns[0]
      case Text(_) =>
        Cons(ns[0], rest);
        Cons(ns[0], ns[1..]);
        assert ns == [ns[0]] + ns[1..];
      case Element(_, _, _, _, _, ch) =>
        ScrubIds(ch, chain + [FrameOf(ns[0])]);
        Cons(r[0], rest);
        Cons(ns[0], ns[1..]);
        assert ns == [ns[0]] + ns[1..];
    }
  }

  /** Scrubbing a scrubbed document changes nothing. */
  lemma {:induction false} ScrubIdempotent(ns: seq<Node>, chain: seq<Frame>)
    ensures Scrub(Scrub(ns, chain), chain) == Scrub(ns, chain)
  {
    if ns != [] {
      ScrubIdempotent(ns[1..], chain);
      var r := Scrub(ns, chain);
      assert r[1..] == Scrub(ns[1..], chain);
      match ns[0]
      case Text(_) =>
      case Element(_, _, attrs, _, _, ch) =>
        ScrubbedFrame(ns[0], InNavigation(chain));
        ScrubbedIdempotent(attrs, InNavigation(chain));
        ScrubIdempotent(ch, chain + [FrameOf(ns[0])]);
    }
  }

  /** A removal pass keeps a clean document clean: it only takes subtrees away. */
  lemma {:induction false} PruneKeepsClean(ns: seq<Node>, chain: seq<Frame>, rule: Rule)
    requires Clean(ns, chain)
    ensures Clean(Prune(ns, chain, rule), chain)
  {
    if ns != [] {
      PruneKeepsClean(ns[1..], chain, rule);
      var rest := Prune(ns[1..], chain, rule);
      match ns[0]
      case Text(_) =>
        assert ([ns[0]] + rest)[1..] == rest;
      case Element(_, _, _, _, _, ch) =>
        if !Removes(rule, ns[0], chain) {
          PruneKeepsClean(ch, chain + [FrameOf(ns[0])], rule);
          var e := ns[0].(children := Prune(ch, chain + [FrameOf(ns[0])], rule));
          assert ([e] + rest)[0] == e && ([e] + rest)[1..] == rest;
        }
    }
  }

  /**
   * Changing attributes does not make an element match a selector that reads
   * only tags, classes and `rel` tokens.
   */
  lemma {:induction false} ScrubNoNewSelected(ns: seq<Node>, chain: seq<Frame>, other: Rule)
    requires Unconditional(other) && !HasSelected(ns, other)
    ensures !HasSelected(Scrub(ns, chain), other)
  {
    if ns != [] {
      ScrubNoNewSelected(ns[1..], chain, other);
      var r := Scrub(ns, chain);
      assert r[1..] == Scrub(ns[1..], chain);
      match ns[0]
      case Text(_) =>
      case Element(_, _, _, _, _, ch) =>
        ScrubNoNewSelected(ch, chain + [FrameOf(ns[0])], other);
    }
  }
}
