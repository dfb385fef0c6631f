/**
 * The parsed HTML document, as the cleaner and the style analyser see it.
 *
 * A document is the ordered list of top-level nodes of the parse. An element
 * carries a tag name, its ordinary attributes, the multi-valued attributes
 * `class` and `rel` as token lists, and its ordered children. The field `id`
 * is not an HTML attribute: it is the identity of the element object, which
 * the cleaner uses when it collects elements first and detaches them later.
 */
module Dom {
  import opened Strings

  datatype Option<T> = None | Some(value: T)

  datatype Node =
    | Text(text: string)
    | Element(id: nat, tag: string, attrs: map<string, string>,
              classes: seq<string>, rels: seq<string>, children: seq<Node>)

  /** What an ancestor contributes to the navigation test: tag, class tokens and `id` attribute. */
  datatype Frame = Frame(tag: string, classes: seq<string>, elemId: Option<string>)

  /** An element found in the tree, with the frames of its ancestors from the top down. */
  datatype Located = Located(node: Node, chain: seq<Frame>)

  /** `tag.get(k)` */
  function Get(m: map<string, string>, k: string): Option<string> {
    if k in m then Some(m[k]) else None
  }

  /** `tag.get(k, '')` */
  function GetOr(m: map<string, string>, k: string): string {
    if k in m then m[k] else ""
  }

  function FrameOf(e: Node): Frame
    requires e.Element?
  {
    Frame(e.tag, e.classes, Get(e.attrs, "id"))
  }

  /** The identities of every element in the forest. */
  function IdSet(ns: seq<Node>): set<nat> {
    if ns == [] then {}
    else
      (match ns[0]
       case Text(_) => {}
       case Element(i, _, _, _, _, ch) => {i} + IdSet(ch))
      + IdSet(ns[1..])
  }

  /** No element object occurs twice in the forest. */
  predicate Unique(ns: seq<Node>) {
    ns == [] ||
    (match ns[0]
     case Text(_) => Unique(ns[1..])
     case Element(i, _, _, _, _, ch) =>
       && i !in IdSet(ch) && i !in IdSet(ns[1..])
       && IdSet(ch) !! IdSet(ns[1..])
       && Unique(ch) && Unique(ns[1..]))
  }

  /**
   * The element whose identity is `x`, first in document order, with its ancestor
   * frames; `chain` holds the frames above the forest `ns`.
   */
  function Locate(ns: seq<Node>, chain: seq<Frame>, x: nat): Option<Located> {
    if ns == [] then None
    else match ns[0]
      case Text(_) => Locate(ns[1..], chain, x)
      case Element(i, _, _, _, _, ch) =>
        if i == x then Some(Located(ns[0], chain))
        else match Locate(ch, chain + [FrameOf(ns[0])], x)
          case Some(l) => Some(l)
          case None => Locate(ns[1..], chain, x)
  }

  /** `decompose()` of the element `x`: its whole subtree leaves the tree. */
  function Detach(ns: seq<Node>, x: nat): seq<Node> {
    if ns == [] then []
    else match ns[0]
      case Text(_) => [ns[0]] + Detach(ns[1..], x)
      case Element(i, _, _, _, _, ch) =>
        if i == x then Detach(ns[1..], x)
        else [ns[0].(children := Detach(ch, x))] + Detach(ns[1..], x)
  }

  /** Replace the attributes of element `x` (`del tag[attr]` applied to one element). */
  function SetAttrs(ns: seq<Node>, x: nat, attrs: map<string, string>): seq<Node> {
    if ns == [] then []
    else match ns[0]
      case Text(_) => [ns[0]] + SetAttrs(ns[1..], x, attrs)
      case Element(i, _, _, _, _, ch) =>
        (if i == x then [ns[0].(attrs := attrs, children := SetAttrs(ch, x, attrs))]
         else [ns[0].(children := SetAttrs(ch, x, attrs))])
        + SetAttrs(ns[1..], x, attrs)
  }

  /** `get_text()`: every descendant text, concatenated. */
  function TextOf(ns: seq<Node>): string {
    if ns == [] then ""
    else
      (match ns[0]
       case Text(t) => t
       case Element(_, _, _, _, _, ch) => TextOf(ch))
      + TextOf(ns[1..])
  }

  /** `get_text(strip=True)`: every descendant text stripped of whitespace, concatenated. */
  function StrippedText(ns: seq<Node>): string {
    if ns == [] then ""
    else
      (match ns[0]
       case Text(t) => Strip(t)
       case Element(_, _, _, _, _, ch) => StrippedText(ch))
      + StrippedText(ns[1..])
  }

  /** The identities strictly below a node. */
  function Below(n: Node): set<nat> {
    if n.Element? then IdSet(n.children) else {}
  }

  /** `find(tags)` is not None: some element of the forest has one of `tags`. */
  predicate HasTag(ns: seq<Node>, tags: set<string>) {
    ns != [] &&
    ((ns[0].Element? && (ns[0].tag in tags || HasTag(ns[0].children, tags)))
     || HasTag(ns[1..], tags))
  }

  /** `find_all(True)`: every element of the forest in document order. */
  function Elements(ns: seq<Node>): seq<Node> {
    if ns == [] then []
    else
      (match ns[0]
       case Text(_) => []
       case Element(_, _, _, _, _, ch) => [ns[0]] + Elements(ch))
      + Elements(ns[1..])
  }

  // ----- Facts about identities, lookup and detaching -----

  /** Identities and uniqueness of a forest built from a first node and the rest. */
  lemma Cons(n: Node, rest: seq<Node>)
    ensures IdSet([n] + rest) == Below(n) + (if n.Element? then {n.id} else {}) + IdSet(rest)
    ensures Unique([n] + rest) <==>
      (n.Element? ==> n.id !in IdSet(n.children) && n.id !in IdSet(rest)
                      && IdSet(n.children) !! IdSet(rest) && Unique(n.children))
      && Unique(rest)
  {
    assert ([n] + rest)[0] == n && ([n] + rest)[1..] == rest;
  }

  lemma {:induction false} LocateFound(ns: seq<Node>, chain: seq<Frame>, x: nat)
    requires Locate(ns, chain, x).Some?
    ensures var l := Locate(ns, chain, x).value;
      l.node.Element? && l.node.id == x && x in IdSet(ns) && IdSet(l.node.children) <= IdSet(ns)
  {
    match ns[0]
    case Text(_) => LocateFound(ns[1..], chain, x);
    case Element(i, _, _, _, _, ch) =>
      if i != x {
        if Locate(ch, chain + [FrameOf(ns[0])], x).Some? {
          LocateFound(ch, chain + [FrameOf(ns[0])], x);
        } else {
          LocateFound(ns[1..], chain, x);
        }
      }
  }

  lemma {:induction false} LocateAbsent(ns: seq<Node>, chain: seq<Frame>, x: nat)
    requires x !in IdSet(ns)
    ensures Locate(ns, chain, x).None?
  {
    if ns != [] {
      match ns[0]
      case Text(_) => LocateAbsent(ns[1..], chain, x);
      case Element(i, _, _, _, _, ch) =>
        LocateAbsent(ch, chain + [FrameOf(ns[0])], x);
        LocateAbsent(ns[1..], chain, x);
    }
  }

  lemma {:induction false} LocatePresent(ns: seq<Node>, chain: seq<Frame>, x: nat)
    requires x in IdSet(ns)
    ensures Locate(ns, chain, x).Some?
  {
    match ns[0]
    case Text(_) => LocatePresent(ns[1..], chain, x);
    case Element(i, _, _, _, _, ch) =>
      if i != x {
        if x in IdSet(ch) {
          LocatePresent(ch, chain + [FrameOf(ns[0])], x);
        } else {
          LocatePresent(ns[1..], chain, x);
        }
      }
  }

  lemma {:induction false} DetachAbsent(ns: seq<Node>, x: nat)
    requires x !in IdSet(ns)
    ensures Detach(ns, x) == ns
  {
    if ns != [] {
      match ns[0]
      case Text(_) => DetachAbsent(ns[1..], x);
      case Element(i, _, _, _, _, ch) =>
        DetachAbsent(ch, x);
        DetachAbsent(ns[1..], x);
    }
  }

  /**
   * `decompose()` takes out exactly one subtree: the identities left are those of
   * the forest minus the element and its descendants.
   */
  lemma {:induction false} DetachExact(ns: seq<Node>, chain: seq<Frame>, x: nat)
    requires Unique(ns)
    requires Locate(ns, chain, x).Some?
    ensures var n := Locate(ns, chain, x).value.node;
            n.Element? && IdSet(Detach(ns, x)) == IdSet(ns) - ({x} + IdSet(n.children))
  {
    LocateFound(ns, chain, x);
    match ns[0]
    case Text(_) => DetachExact(ns[1..], chain, x);
    case Element(i, _, _, _, _, ch) =>
      if i == x {
        DetachAbsent(ns[1..], x);
      } else if Locate(ch, chain + [FrameOf(ns[0])], x).Some? {
        DetachExact(ch, chain + [FrameOf(ns[0])], x);
        LocateFound(ch, chain + [FrameOf(ns[0])], x);
        DetachAbsent(ns[1..], x);
      } else {
        LocateFound(ns[1..], chain, x);
        LocateAbsentInv(ch, chain + [FrameOf(ns[0])], x);
        DetachAbsent(ch, x);
        DetachExact(ns[1..], chain, x);
      }
  }

  lemma {:induction false} LocateAbsentInv(ns: seq<Node>, chain: seq<Frame>, x: nat)
    requires Locate(ns, chain, x).None?
    ensures x !in IdSet(ns)
  {
    if x in IdSet(ns) {
      LocatePresent(ns, chain, x);
    }
  }

  /** `decompose()` only takes elements away and keeps the others distinct. */
  lemma {:induction false} DetachUnique(ns: seq<Node>, x: nat)
    ensures IdSet(Detach(ns, x)) <= IdSet(ns)
    ensures Unique(ns) ==> Unique(Detach(ns, x))
  {
    if ns != [] {
      DetachUnique(ns[1..], x);
      var rest := Detach(ns[1..], x);
      assert ns == [ns[0]] + ns[1..];
      Cons(ns[0], ns[1..]);
      match ns[0]
      case Text(_) =>
        Cons(ns[0], rest);
      case Element(i, _, _, _, _, ch) =>
        if i != x {
          DetachUnique(ch, x);
          Cons(ns[0].(children := Detach(ch, x)), rest);
        }
    }
  }
  /** Two lookups find an element with the same tag, attributes and tokens under the same ancestors. */
  predicate SameElement(a: Located, b: Located) {
    && a.node.Element? && b.node.Element?
    && a.node.tag == b.node.tag && a.node.attrs == b.node.attrs
    && a.node.classes == b.node.classes && a.node.rels == b.node.rels
    && a.chain == b.chain
  }

  /**
   * `decompose()` changes nothing else: every element left after detaching `x`
   * has the tag, attributes, tokens and ancestors it had before.
   */
  lemma {:induction false} DetachKeeps(ns: seq<Node>, chain: seq<Frame>, x: nat, y: nat)
    requires Unique(ns) && y in IdSet(Detach(ns, x))
    ensures Locate(Detach(ns, x), chain, y).Some? && Locate(ns, chain, y).Some?
    ensures SameElement(Locate(Detach(ns, x), chain, y).value, Locate(ns, chain, y).value)
  {
    var rest := Detach(ns[1..], x);
    DetachUnique(ns[1..], x);
    match ns[0]
    case Text(_) =>
      assert Detach(ns, x) == [ns[0]] + rest;
      assert ([ns[0]] + rest)[1..] == rest;
      DetachKeeps(ns[1..], chain, x, y);
    case Element(i, _, _, _, _, ch) =>
      if i == x {
        LocateAbsent(ch, chain + [FrameOf(ns[0])], y);
        DetachKeeps(ns[1..], chain, x, y);
      } else {
        var e' := ns[0].(children := Detach(ch, x));
        assert Detach(ns, x) == [e'] + rest;
        assert ([e'] + rest)[0] == e' && ([e'] + rest)[1..] == rest;
        assert FrameOf(e') == FrameOf(ns[0]);
        DetachUnique(ch, x);
        if i != y {
          if y in IdSet(Detach(ch, x)) {
            DetachKeeps(ch, chain + [FrameOf(ns[0])], x, y);
          } else {
            LocateAbsent(Detach(ch, x), chain + [FrameOf(ns[0])], y);
            LocateAbsent(ch, chain + [FrameOf(ns[0])], y);
            DetachKeeps(ns[1..], chain, x, y);
          }
        }
      }
  }
}
