/**
 * One removal pass of the cleaner: collect the elements a rule selects, then
 * walk the collected list and decompose each element that is still in the
 * document and passes the rule's check.
 *
 * The specification of a pass is `Prune`: the document walked in document
 * order, where an element the rule removes leaves with its whole subtree and
 * every other element is kept with its children pruned in turn. The loop in
 * `DecomposeSelected` is proved to compute exactly `Prune`.
 */
module Passes {
  import opened Strings
  import opened Dom
  import opened Navigation
  import opened Rules

  /** The document after one pass of `rule`; `chain` holds the frames above `ns`. */
  function Prune(ns: seq<Node>, chain: seq<Frame>, rule: Rule): seq<Node> {
    if ns == [] then []
    else match ns[0]
      case Text(_) => [ns[0]] + Prune(ns[1..], chain, rule)
      case Element(_, _, _, _, _, ch) =>
        if Removes(rule, ns[0], chain) then Prune(ns[1..], chain, rule)
        else [ns[0].(children := Prune(ch, chain + [FrameOf(ns[0])], rule))] + Prune(ns[1..], chain, rule)
  }

  /** The rule's `find_all`: identities of the selected elements in document order. */
  function Collect(ns: seq<Node>, rule: Rule): seq<nat> {
    if ns == [] then []
    else match ns[0]
      case Text(_) => Collect(ns[1..], rule)
      case Element(i, _, _, _, _, ch) =>
        (if Selects(rule, ns[0]) then [i] else []) + Collect(ch, rule) + Collect(ns[1..], rule)
  }

  /**
   * The document after the loop has handled the collected elements in `done`:
   * an element goes when it has been handled and the rule removes it.
   */
  function RemoveWhere(ns: seq<Node>, chain: seq<Frame>, done: set<nat>, rule: Rule): seq<Node> {
    if ns == [] then []
    else match ns[0]
      case Text(_) => [ns[0]] + RemoveWhere(ns[1..], chain, done, rule)
      case Element(i, _, _, _, _, ch) =>
        if i in done && Removes(rule, ns[0], chain) then RemoveWhere(ns[1..], chain, done, rule)
        else [ns[0].(children := RemoveWhere(ch, chain + [FrameOf(ns[0])], done, rule))]
             + RemoveWhere(ns[1..], chain, done, rule)
  }

  // ----- Facts about the loop's intermediate documents -----

  lemma {:induction false} RemoveWhereIds(ns: seq<Node>, chain: seq<Frame>, done: set<nat>, rule: Rule)
    ensures IdSet(RemoveWhere(ns, chain, done, rule)) <= IdSet(ns)
  {
    if ns != [] {
      var rest := RemoveWhere(ns[1..], chain, done, rule);
      RemoveWhereIds(ns[1..], chain, done, rule);
      match ns[0]
      case Text(_) =>
        assert ([ns[0]] + rest)[1..] == rest;
      case Element(i, _, _, _, _, ch) =>
        if !(i in done && Removes(rule, ns[0], chain)) {
          RemoveWhereIds(ch, chain + [FrameOf(ns[0])], done, rule);
          var e := ns[0].(children := RemoveWhere(ch, chain + [FrameOf(ns[0])], done, rule));
          assert ([e] + rest)[1..] == rest;
        }
    }
  }

  /** Nothing handled in the forest: the forest is unchanged. */
  lemma {:induction false} RemoveWhereNone(ns: seq<Node>, chain: seq<Frame>, done: set<nat>, rule: Rule)
    requires IdSet(ns) !! done
    ensures RemoveWhere(ns, chain, done, rule) == ns
  {
    if ns != [] {
      RemoveWhereNone(ns[1..], chain, done, rule);
      match ns[0]
      case Text(_) =>
        assert [ns[0]] + ns[1..] == ns;
      case Element(i, _, _, _, _, ch) =>
        RemoveWhereNone(ch, chain + [FrameOf(ns[0])], done, rule);
        assert [ns[0]] + ns[1..] == ns;
    }
  }

  /** Handling an element that is not in the forest changes nothing. */
  lemma {:induction false} RemoveWhereOther(ns: seq<Node>, chain: seq<Frame>, done: set<nat>, y: nat, rule: Rule)
    requires y !in IdSet(ns)
    ensures RemoveWhere(ns, chain, done + {y}, rule) == RemoveWhere(ns, chain, done, rule)
  {
    if ns != [] {
      RemoveWhereOther(ns[1..], chain, done, y, rule);
      match ns[0]
      case Text(_) =>
      case Element(i, _, _, _, _, ch) =>
        RemoveWhereOther(ch, chain + [FrameOf(ns[0])], done, y, rule);
    }
  }

  /** Once every selected element has been handled, the loop's document is the pass's. */
  lemma {:induction false} RemoveWhereCovers(ns: seq<Node>, chain: seq<Frame>, done: set<nat>, rule: Rule)
    requires forall y | y in Collect(ns, rule) :: y in done
    ensures RemoveWhere(ns, chain, done, rule) == Prune(ns, chain, rule)
  {
    if ns != [] {
      match ns[0]
      case Text(_) =>
        RemoveWhereCovers(ns[1..], chain, done, rule);
      case Element(i, _, _, _, _, ch) =>
        var sel := if Selects(rule, ns[0]) then [i] else [];
        assert Collect(ns, rule) == sel + Collect(ch, rule) + Collect(ns[1..], rule);
        RemoveWhereCovers(ch, chain + [FrameOf(ns[0])], done, rule);
        RemoveWhereCovers(ns[1..], chain, done, rule);
    }
  }

  lemma {:induction false} CollectIds(ns: seq<Node>, rule: Rule)
    ensures forall y | y in Collect(ns, rule) :: y in IdSet(ns)
  {
    if ns != [] {
      CollectIds(ns[1..], rule);
      match ns[0]
      case Text(_) =>
      case Element(i, _, _, _, _, ch) =>
        CollectIds(ch, rule);
    }
  }

  /**
   * Position `k` of the rule's `find_all` list names an element that is in the
   * document and selected by the rule, and nothing listed before it is the
   * element itself or one of its descendants.
   */
  ghost predicate ListedInOrder(ns: seq<Node>, chain: seq<Frame>, rule: Rule, k: nat)
    requires k < |Collect(ns, rule)|
  {
    var c := Collect(ns, rule);
    match Locate(ns, chain, c[k])
    case None => false
    case Some(l) =>
      && l.node.Element? && Selects(rule, l.node)
      && forall j | 0 <= j < k :: c[j] != c[k] && c[j] !in Below(l.node)
  }

  /** Lookup in a forest whose first node is an element other than the one sought. */
  lemma LocateCons(e: Node, rest: seq<Node>, chain: seq<Frame>, x: nat)
    requires e.Element? && e.id != x
    ensures Locate([e] + rest, chain, x) ==
      match Locate(e.children, chain + [FrameOf(e)], x)
      case Some(l) => Some(l)
      case None => Locate(rest, chain, x)
  {
    assert ([e] + rest)[0] == e && ([e] + rest)[1..] == rest;
  }

  /** `find_all` lists in document order: descendants come after their ancestors. */
  lemma {:induction false} CollectOrder(ns: seq<Node>, chain: seq<Frame>, rule: Rule, k: nat)
    requires Unique(ns) && k < |Collect(ns, rule)|
    ensures ListedInOrder(ns, chain, rule, k)
    decreases ns, 1
  {
    match ns[0]
    case Text(_) =>
      CollectOrder(ns[1..], chain, rule, k);
    case Element(i, _, _, _, _, ch) =>
      var sel := if Selects(rule, ns[0]) then [i] else [];
      if k < |sel| {
        assert Collect(ns, rule)[k] == i;
      } else if k < |sel| + |Collect(ch, rule)| {
        CollectOrderChild(ns, chain, rule, k);
      } else {
        CollectOrderRest(ns, chain, rule, k);
      }
  }

  lemma {:induction false} CollectOrderChild(ns: seq<Node>, chain: seq<Frame>, rule: Rule, k: nat)
    requires Unique(ns) && ns != [] && ns[0].Element?
    requires var sel := if Selects(rule, ns[0]) then [ns[0].id] else [];
      |sel| <= k < |sel| + |Collect(ns[0].children, rule)|
    ensures ListedInOrder(ns, chain, rule, k)
    decreases ns, 0
  {
    var ch, sub := ns[0].children, chain + [FrameOf(ns[0])];
    var sel := if Selects(rule, ns[0]) then [ns[0].id] else [];
    var q := Collect(ch, rule);
    var c := Collect(ns, rule);
    assert c == sel + q + Collect(ns[1..], rule);
    var k' := k - |sel|;
    assert c[k] == q[k'];
    CollectOrder(ch, sub, rule, k');
    LocateInFirst(ns, chain, q[k']);
    var l := Locate(ch, sub, q[k']).value;
    OrderShift(c, sel, q, Collect(ns[1..], rule), k', Below(l.node), IdSet(ch));
  }

  lemma {:induction false} CollectOrderRest(ns: seq<Node>, chain: seq<Frame>, rule: Rule, k: nat)
    requires Unique(ns) && ns != [] && ns[0].Element?
    requires var sel := if Selects(rule, ns[0]) then [ns[0].id] else [];
      |sel| + |Collect(ns[0].children, rule)| <= k < |Collect(ns, rule)|
    ensures ListedInOrder(ns, chain, rule, k)
    decreases ns, 0
  {
    var i, ch := ns[0].id, ns[0].children;
    var sel := if Selects(rule, ns[0]) then [i] else [];
    var q := Collect(ch, rule);
    var r := Collect(ns[1..], rule);
    var c := Collect(ns, rule);
    assert c == sel + q + r;
    var k' := k - |sel| - |q|;
    assert c[k] == r[k'];
    CollectOrder(ns[1..], chain, rule, k');
    CollectIds(ch, rule);
    LocateInRest(ns, chain, r[k']);
    var l := Locate(ns[1..], chain, r[k']).value;
    forall x | x in sel + q
      ensures x !in IdSet(ns[1..])
    {
      assert x in {i} + IdSet(ch);
    }
    assert c == (sel + q) + r + [];
    OrderShift(c, sel + q, r, [], k', Below(l.node), IdSet(ns[1..]));
  }

  /** An element found among the first element's descendants is found there in the whole forest. */
  lemma LocateInFirst(ns: seq<Node>, chain: seq<Frame>, x: nat)
    requires Unique(ns) && ns != [] && ns[0].Element?
    requires Locate(ns[0].children, chain + [FrameOf(ns[0])], x).Some?
    ensures Locate(ns, chain, x) == Locate(ns[0].children, chain + [FrameOf(ns[0])], x)
    ensures var l := Locate(ns, chain, x).value;
      ns[0].id !in IdSet(ns[0].children) && x in IdSet(ns[0].children)
      && Below(l.node) <= IdSet(ns[0].children)
  {
    LocateFound(ns[0].children, chain + [FrameOf(ns[0])], x);
    assert ns == [ns[0]] + ns[1..];
    LocateCons(ns[0], ns[1..], chain, x);
  }

  /** An element found after the first element is found there in the whole forest. */
  lemma LocateInRest(ns: seq<Node>, chain: seq<Frame>, x: nat)
    requires Unique(ns) && ns != [] && ns[0].Element?
    requires Locate(ns[1..], chain, x).Some?
    ensures Locate(ns, chain, x) == Locate(ns[1..], chain, x)
    ensures var l := Locate(ns, chain, x).value;
      x in IdSet(ns[1..]) && Below(l.node) <= IdSet(ns[1..])
  {
    LocateFound(ns[1..], chain, x);
    LocateAbsent(ns[0].children, chain + [FrameOf(ns[0])], x);
    assert ns == [ns[0]] + ns[1..];
    LocateCons(ns[0], ns[1..], chain, x);
  }

  /**
   * The order facts of a sub-list carry over to the whole list when nothing in
   * front of it lies where the sought element and its descendants lie.
   */
  lemma OrderShift(c: seq<nat>, pre: seq<nat>, q: seq<nat>, r: seq<nat>, k: nat, below: set<nat>, avoid: set<nat>)
    requires c == pre + q + r && k < |q|
    requires forall x | x in pre :: x !in avoid
    requires q[k] in avoid && below <= avoid
    requires forall j | 0 <= j < k :: q[j] != q[k] && q[j] !in below
    ensures forall j | 0 <= j < |pre| + k :: c[j] != c[|pre| + k] && c[j] !in below
  {
    forall j | 0 <= j < |pre| + k
      ensures c[j] != c[|pre| + k] && c[j] !in below
    {
      if j < |pre| {
        assert c[j] in pre;
      } else {
        assert c[j] == q[j - |pre|];
      }
    }
  }

  /**
   * What one turn of the loop does to the document. If the element `x` is no
   * longer in the document the turn does nothing; otherwise it is found as it
   * was at the start of the pass, and it goes exactly when the rule removes it.
   */
  ghost predicate TurnEffect(ns: seq<Node>, chain: seq<Frame>, done: set<nat>, x: nat, rule: Rule) {
    var cur := RemoveWhere(ns, chain, done, rule);
    var next := RemoveWhere(ns, chain, done + {x}, rule);
    match Locate(cur, chain, x)
    case None => next == cur
    case Some(l) =>
      && Locate(ns, chain, x) == Some(l)
      && l.node.Element?
      && next == (if Removes(rule, l.node, l.chain) then Detach(cur, x) else cur)
  }

  /** Handling `x` affects the loop's document as `TurnEffect` says, provided none of its descendants was handled before. */
  lemma {:induction false} RemoveWhereStep(ns: seq<Node>, chain: seq<Frame>, done: set<nat>, x: nat, rule: Rule)
    requires Unique(ns) && x !in done
    requires Locate(ns, chain, x).Some? ==> Below(Locate(ns, chain, x).value.node) !! done
    ensures TurnEffect(ns, chain, done, x, rule)
    decreases ns, 1
  {
    if ns == [] {
      return;
    }
    match ns[0]
    case Text(_) =>
      var restCur := RemoveWhere(ns[1..], chain, done, rule);
      var cur := RemoveWhere(ns, chain, done, rule);
      assert cur == [ns[0]] + restCur && cur[0] == ns[0] && cur[1..] == restCur;
      assert Detach(cur, x) == [ns[0]] + Detach(restCur, x);
      RemoveWhereStep(ns[1..], chain, done, x, rule);
    case Element(i, _, _, _, _, ch) =>
      if i == x {
        StepAt(ns, chain, done, x, rule);
      } else if i in done && Removes(rule, ns[0], chain) {
        StepPast(ns, chain, done, x, rule);
      } else if x in IdSet(ch) {
        StepInto(ns, chain, done, x, rule);
      } else {
        StepBeside(ns, chain, done, x, rule);
      }
  }

  /** The first node of the forest is `x` itself. */
  lemma StepAt(ns: seq<Node>, chain: seq<Frame>, done: set<nat>, x: nat, rule: Rule)
    requires Unique(ns) && x !in done && ns != [] && ns[0].Element? && ns[0].id == x
    requires Below(ns[0]) !! done
    ensures TurnEffect(ns, chain, done, x, rule)
  {
    var ch := ns[0].children;
    var sub := chain + [FrameOf(ns[0])];
    var restCur := RemoveWhere(ns[1..], chain, done, rule);
    RemoveWhereIds(ns[1..], chain, done, rule);
    RemoveWhereNone(ch, sub, done, rule);
    RemoveWhereOther(ch, sub, done, x, rule);
    RemoveWhereOther(ns[1..], chain, done, x, rule);
    DetachAbsent(restCur, x);
    var cur := RemoveWhere(ns, chain, done, rule);
    assert cur == [ns[0]] + restCur;
    assert cur[0] == ns[0];
  }

  /** The first node of the forest has already been removed; `x` is not inside it. */
  lemma {:induction false} StepPast(ns: seq<Node>, chain: seq<Frame>, done: set<nat>, x: nat, rule: Rule)
    requires Unique(ns) && x !in done && ns != [] && ns[0].Element? && ns[0].id != x
    requires ns[0].id in done && Removes(rule, ns[0], chain)
    requires Locate(ns, chain, x).Some? ==> Below(Locate(ns, chain, x).value.node) !! done
    ensures TurnEffect(ns, chain, done, x, rule)
    decreases ns, 0
  {
    var ch := ns[0].children;
    var sub := chain + [FrameOf(ns[0])];
    assert ns == [ns[0]] + ns[1..];
    LocateCons(ns[0], ns[1..], chain, x);
    if x in IdSet(ch) {
      LocatePresent(ch, sub, x);
      LocateFound(ch, sub, x);
      assert Below(Locate(ns, chain, x).value.node) !! done;
      // the element goes before `x` is reached
      RemoveWhereIds(ns[1..], chain, done, rule);
      RemoveWhereOther(ns[1..], chain, done, x, rule);
      LocateAbsent(RemoveWhere(ns[1..], chain, done, rule), chain, x);
    } else {
      LocateAbsent(ch, sub, x);
      RemoveWhereStep(ns[1..], chain, done, x, rule);
    }
  }

  /** `x` lies below the first node of the forest, which is kept. */
  lemma {:induction false} StepInto(ns: seq<Node>, chain: seq<Frame>, done: set<nat>, x: nat, rule: Rule)
    requires Unique(ns) && x !in done && ns != [] && ns[0].Element? && ns[0].id != x
    requires !(ns[0].id in done && Removes(rule, ns[0], chain))
    requires x in IdSet(ns[0].children)
    requires Locate(ns, chain, x).Some? ==> Below(Locate(ns, chain, x).value.node) !! done
    ensures TurnEffect(ns, chain, done, x, rule)
    decreases ns, 0
  {
    var ch := ns[0].children;
    var sub := chain + [FrameOf(ns[0])];
    var chCur := RemoveWhere(ch, sub, done, rule);
    var restCur := RemoveWhere(ns[1..], chain, done, rule);
    var e := ns[0].(children := chCur);
    var cur := RemoveWhere(ns, chain, done, rule);
    assert cur == [e] + restCur;
    assert FrameOf(e) == FrameOf(ns[0]);
    assert ns == [ns[0]] + ns[1..];
    LocateCons(ns[0], ns[1..], chain, x);
    LocatePresent(ch, sub, x);
    LocateFound(ch, sub, x);
    RemoveWhereStep(ch, sub, done, x, rule);
    RemoveWhereIds(ns[1..], chain, done, rule);
    RemoveWhereOther(ns[1..], chain, done, x, rule);
    DetachAbsent(restCur, x);
    LocateCons(e, restCur, chain, x);
    LocateAbsent(restCur, chain, x);
    assert Detach(cur, x) == [e.(children := Detach(chCur, x))] + Detach(restCur, x);
  }

  /** `x` is not the first node of the forest nor below it, and the first node is kept. */
  lemma {:induction false} StepBeside(ns: seq<Node>, chain: seq<Frame>, done: set<nat>, x: nat, rule: Rule)
    requires Unique(ns) && x !in done && ns != [] && ns[0].Element? && ns[0].id != x
    requires !(ns[0].id in done && Removes(rule, ns[0], chain))
    requires x !in IdSet(ns[0].children)
    requires Locate(ns, chain, x).Some? ==> Below(Locate(ns, chain, x).value.node) !! done
    ensures TurnEffect(ns, chain, done, x, rule)
    decreases ns, 0
  {
    var ch := ns[0].children;
    var sub := chain + [FrameOf(ns[0])];
    var chCur := RemoveWhere(ch, sub, done, rule);
    var restCur := RemoveWhere(ns[1..], chain, done, rule);
    var e := ns[0].(children := chCur);
    var cur := RemoveWhere(ns, chain, done, rule);
    assert cur == [e] + restCur;
    assert FrameOf(e) == FrameOf(ns[0]);
    assert ns == [ns[0]] + ns[1..];
    LocateCons(ns[0], ns[1..], chain, x);
    LocateAbsent(ch, sub, x);
    RemoveWhereIds(ch, sub, done, rule);
    LocateAbsent(chCur, sub, x);
    RemoveWhereOther(ch, sub, done, x, rule);
    DetachAbsent(chCur, x);
    LocateCons(e, restCur, chain, x);
    RemoveWhereStep(ns[1..], chain, done, x, rule);
    assert Detach(cur, x) == [e] + Detach(restCur, x);
  }

  /**
   * One removal pass: `find_all` collects the selected elements, then each one
   * still in the document is decomposed when the rule's check holds for it.
   */
  method DecomposeSelected(doc: seq<Node>, rule: Rule) returns (out: seq<Node>)
    requires Unique(doc)
    ensures out == Prune(doc, [], rule)
  {
    var selected := Collect(doc, rule);
    ghost var done: set<nat> := {};
    RemoveWhereNone(doc, [], done, rule);
    out := doc;
    var k := 0;
    while k < |selected|
      decreases |selected| - k
      invariant 0 <= k <= |selected|
      invariant done == set j | 0 <= j < k :: selected[j]
      invariant out == RemoveWhere(doc, [], done, rule)
    {
      var x := selected[k];
      CollectOrder(doc, [], rule, k);
      RemoveWhereStep(doc, [], done, x, rule);
      match Locate(out, [], x) {
        case None =>
        case Some(l) =>
          var decompose := Decide(rule, l.node, l.chain);
          if decompose {
            out := Detach(out, x);
          }
      }
      HandledStep(selected, k, done);
      done := done + {x};
      k := k + 1;
    }
    RemoveWhereCovers(doc, [], done, rule);
  }

  /** The identities handled so far grow by the one handled in this turn. */
  lemma HandledStep(selected: seq<nat>, k: nat, done: set<nat>)
    requires k < |selected| && done == set j | 0 <= j < k :: selected[j]
    ensures done + {selected[k]} == set j | 0 <= j < k + 1 :: selected[j]
  {
  }

  // ----- What a pass guarantees -----

  /** A pass only takes elements away. */
  lemma {:induction false} PruneIds(ns: seq<Node>, chain: seq<Frame>, rule: Rule)
    ensures IdSet(Prune(ns, chain, rule)) <= IdSet(ns)
  {
    if ns != [] {
      PruneIds(ns[1..], chain, rule);
      var rest := Prune(ns[1..], chain, rule);
      match ns[0]
      case Text(_) =>
        Cons(ns[0], rest);
      case Element(_, _, _, _, _, ch) =>
        if !Removes(rule, ns[0], chain) {
          PruneIds(ch, chain + [FrameOf(ns[0])], rule);
          Cons(ns[0].(children := Prune(ch, chain + [FrameOf(ns[0])], rule)), rest);
        }
    }
  }

  /** A pass leaves no element object in the document twice. */
  lemma {:induction false} PruneUnique(ns: seq<Node>, chain: seq<Frame>, rule: Rule)
    requires Unique(ns)
    ensures Unique(Prune(ns, chain, rule))
  {
    if ns != [] {
      PruneUnique(ns[1..], chain, rule);
      PruneIds(ns[1..], chain, rule);
      var rest := Prune(ns[1..], chain, rule);
      match ns[0]
      case Text(_) =>
        Cons(ns[0], rest);
      case Element(_, _, _, _, _, ch) =>
        if !Removes(rule, ns[0], chain) {
          PruneUnique(ch, chain + [FrameOf(ns[0])], rule);
          PruneIds(ch, chain + [FrameOf(ns[0])], rule);
          Cons(ns[0].(children := Prune(ch, chain + [FrameOf(ns[0])], rule)), rest);
        }
    }
  }

  /**
   * Every element still present after a pass was in the document before it,
   * at the same place, and the rule did not remove it there.
   */
  lemma {:induction false} PruneSurvivor(ns: seq<Node>, chain: seq<Frame>, rule: Rule, x: nat)
    requires Unique(ns) && x in IdSet(Prune(ns, chain, rule))
    ensures Locate(ns, chain, x).Some?
    ensures var l := Locate(ns, chain, x).value;
      l.node.Element? && !Removes(rule, l.node, l.chain)
  {
    var rest := Prune(ns[1..], chain, rule);
    match ns[0]
    case Text(_) =>
      Cons(ns[0], rest);
      PruneSurvivor(ns[1..], chain, rule, x);
    case Element(i, _, _, _, _, ch) =>
      var sub := chain + [FrameOf(ns[0])];
      assert ns == [ns[0]] + ns[1..];
      if Removes(rule, ns[0], chain) {
        PruneSurvivor(ns[1..], chain, rule, x);
        PruneIds(ns[1..], chain, rule);
        LocateAbsent(ch, sub, x);
      } else {
        Cons(ns[0].(children := Prune(ch, sub, rule)), rest);
        if x == i {
        } else if x in IdSet(Prune(ch, sub, rule)) {
          PruneSurvivor(ch, sub, rule, x);
        } else {
          PruneSurvivor(ns[1..], chain, rule, x);
          PruneIds(ns[1..], chain, rule);
          LocateAbsent(ch, sub, x);
        }
      }
  }

  /** A pass whose rule removes nothing in the document leaves it as it is. */
  lemma {:induction false} PruneNothing(ns: seq<Node>, chain: seq<Frame>, rule: Rule)
    requires forall x | x in IdSet(ns) ::
      var l := Locate(ns, chain, x); l.Some? && l.value.node.Element? ==> !Removes(rule, l.value.node, l.value.chain)
    requires Unique(ns)
    ensures Prune(ns, chain, rule) == ns
  {
    if ns != [] {
      assert ns == [ns[0]] + ns[1..];
      Cons(ns[0], ns[1..]);
      forall x | x in IdSet(ns[1..])
        ensures var l := Locate(ns[1..], chain, x);
          l.Some? && l.value.node.Element? ==> !Removes(rule, l.value.node, l.value.chain)
      {
        if ns[0].Element? {
          LocateAbsent(ns[0].children, chain + [FrameOf(ns[0])], x);
        }
      }
      PruneNothing(ns[1..], chain, rule);
      if ns[0].Element? {
        var sub := chain + [FrameOf(ns[0])];
        assert Locate(ns, chain, ns[0].id).value.node == ns[0];
        forall x | x in IdSet(ns[0].children)
          ensures var l := Locate(ns[0].children, sub, x);
            l.Some? && l.value.node.Element? ==> !Removes(rule, l.value.node, l.value.chain)
        {
          LocatePresent(ns[0].children, sub, x);
        }
        PruneNothing(ns[0].children, sub, rule);
      }
    }
  }

  /** Some element of the forest is one the rule's `find_all` collects. */
  predicate HasSelected(ns: seq<Node>, rule: Rule) {
    ns != [] &&
    ((ns[0].Element? && (Selects(rule, ns[0]) || HasSelected(ns[0].children, rule)))
     || HasSelected(ns[1..], rule))
  }

  /**
   * Rules whose pass decomposes everything it collects, and whose selector reads
   * only the tag name and the `class` and `rel` tokens.
   */
  predicate Unconditional(rule: Rule) {
    rule.TagIs? || rule.ExtensionTag? || rule.ExtensionClass?
    || rule.ResourceHintLink? || rule.SeoLink? || rule.ClassToken?
  }

  /** After an unconditional pass no element its selector matches is left. */
  lemma {:induction false} PruneSelectedGone(ns: seq<Node>, chain: seq<Frame>, rule: Rule)
    requires Unconditional(rule)
    ensures !HasSelected(Prune(ns, chain, rule), rule)
  {
    if ns != [] {
      var rest := Prune(ns[1..], chain, rule);
      PruneSelectedGone(ns[1..], chain, rule);
      match ns[0]
      case Text(_) =>
        assert ([ns[0]] + rest)[1..] == rest;
      case Element(_, _, _, _, _, ch) =>
        if !Removes(rule, ns[0], chain) {
          PruneSelectedGone(ch, chain + [FrameOf(ns[0])], rule);
          var e := ns[0].(children := Prune(ch, chain + [FrameOf(ns[0])], rule));
          assert ([e] + rest)[0] == e && ([e] + rest)[1..] == rest;
        }
    }
  }

  /** A pass never brings in an element that another rule would select. */
  lemma {:induction false} PruneNoNewSelected(ns: seq<Node>, chain: seq<Frame>, rule: Rule, other: Rule)
    requires !HasSelected(ns, other)
    ensures !HasSelected(Prune(ns, chain, rule), other)
  {
    if ns != [] {
      var rest := Prune(ns[1..], chain, rule);
      PruneNoNewSelected(ns[1..], chain, rule, other);
      match ns[0]
      case Text(_) =>
        assert ([ns[0]] + rest)[1..] == rest;
      case Element(_, _, _, _, _, ch) =>
        if !Removes(rule, ns[0], chain) {
          var sub := Prune(ch, chain + [FrameOf(ns[0])], rule);
          PruneNoNewSelected(ch, chain + [FrameOf(ns[0])], rule, other);
          SelectsIgnoresChildren(other, ns[0], sub);
          HasSelectedCons(ns[0].(children := sub), rest, other);
        }
    }
  }

  /** No selector looks at an element's children. */
  lemma SelectsIgnoresChildren(rule: Rule, e: Node, ch: seq<Node>)
    requires e.Element?
    ensures Selects(rule, e.(children := ch)) == Selects(rule, e)
  {
  }

  /** `HasSelected` on a forest that starts with an element. */
  lemma HasSelectedCons(e: Node, rest: seq<Node>, rule: Rule)
    requires e.Element?
    ensures HasSelected([e] + rest, rule) <==>
      Selects(rule, e) || HasSelected(e.children, rule) || HasSelected(rest, rule)
  {
    assert ([e] + rest)[0] == e && ([e] + rest)[1..] == rest;
  }

  /** Decomposing one element never brings in an element a rule would select. */
  lemma {:induction false} DetachNoNewSelected(ns: seq<Node>, x: nat, other: Rule)
    requires !HasSelected(ns, other)
    ensures !HasSelected(Detach(ns, x), other)
  {
    if ns != [] {
      var rest := Detach(ns[1..], x);
      DetachNoNewSelected(ns[1..], x, other);
      match ns[0]
      case Text(_) =>
        assert ([ns[0]] + rest)[1..] == rest;
      case Element(i, _, _, _, _, ch) =>
        if i != x {
          DetachNoNewSelected(ch, x, other);
          var e := ns[0].(children := Detach(ch, x));
          assert ([e] + rest)[0] == e && ([e] + rest)[1..] == rest;
        }
    }
  }

  /** The rule's `find_all` finds nothing exactly when no element is selected. */
  lemma {:induction false} CollectEmpty(ns: seq<Node>, rule: Rule)
    ensures Collect(ns, rule) == [] <==> !HasSelected(ns, rule)
  {
    if ns != [] {
      CollectEmpty(ns[1..], rule);
      match ns[0]
      case Text(_) =>
      case Element(_, _, _, _, _, ch) =>
        CollectEmpty(ch, rule);
    }
  }

  /**
   * The aria-hidden and empty-container passes leave the inside of a navigation
   * region untouched.
   */
  lemma {:induction false} PruneInsideNavigation(ns: seq<Node>, chain: seq<Frame>, rule: Rule)
    requires rule == AriaHidden || rule == EmptyContainer
    requires InNavigation(chain)
    ensures Prune(ns, chain, rule) == ns
  {
    if ns != [] {
      PruneInsideNavigation(ns[1..], chain, rule);
      match ns[0]
      case Text(_) =>
        assert [ns[0]] + ns[1..] == ns;
      case Element(_, _, _, _, _, ch) =>
        InNavigationExtends(chain, FrameOf(ns[0]));
        PruneInsideNavigation(ch, chain + [FrameOf(ns[0])], rule);
        assert [ns[0]] + ns[1..] == ns;
    }
  }
  /**
   * The aria-hidden pass is not idempotent. An aria-hidden `div` with seven
   * characters of its own text and an aria-hidden `span` child with three has ten
   * characters, so the first pass keeps it and removes only the `span`; the
   * second pass then sees seven characters and removes the `div`.
   */
  lemma AriaHiddenNotIdempotent(t: string, u: string)
    requires |Strip(t)| == 7 && |Strip(u)| == 3
    ensures var hidden := map["aria-hidden" := "true"];
            var c := Element(1, "span", hidden, [], [], [Text(u)]);
            var p := Element(0, "div", hidden, [], [], [Text(t), c]);
            && Prune([p], [], AriaHidden) == [p.(children := [Text(t)])]
            && Prune(Prune([p], [], AriaHidden), [], AriaHidden) == []
  {
    var hidden := map["aria-hidden" := "true"];
    var c := Element(1, "span", hidden, [], [], [Text(u)]);
    var p := Element(0, "div", hidden, [], [], [Text(t), c]);
    var chain := [FrameOf(p)];
    assert !InNavigation([]);
    assert !IsNavMarker(FrameOf(p));
    assert !InNavigation(chain);
    assert StrippedText([Text(u)]) == Strip(u);
    assert StrippedText([c]) == Strip(u);
    assert [Text(t), c][1..] == [c];
    assert StrippedText(p.children) == Strip(t) + Strip(u);
    assert !Removes(AriaHidden, p, []);
    assert Removes(AriaHidden, c, chain);
    assert Prune([c], chain, AriaHidden) == [];
    assert Prune(p.children, chain, AriaHidden) == [Text(t)];
    var q := p.(children := [Text(t)]);
    assert [] + [FrameOf(p)] == chain;
    assert [p][1..] == [];
    assert Prune([p], [], AriaHidden) == [q] + Prune([], [], AriaHidden);
    assert StrippedText(q.children) == Strip(t);
    assert Removes(AriaHidden, q, []);
  }
}
