/**
 * The style analyser: it walks a parsed page, collects every colour and font
 * its CSS mentions, the external stylesheets it links, and the paint of its
 * SVG graphics, and counts them.
 *
 * The selections the analyser makes with `find_all` are `Select` over the
 * elements of the page in document order. Each pass of the analyser is a loop
 * in `AnalyzeStyles`, proved to build the list that a function over the
 * selection describes; the functions are then related to the page by lemmas.
 */
module Analysis {
  import opened Strings
  import opened Dom
  import opened Scanners
  import opened Counting

  /** The selections the analyser makes. */
  datatype Query =
    | Tag(name: string)   // find_all(name)
    | HasStyle            // find_all(style=True)
    | StylesheetLink      // find_all('link', rel='stylesheet')

  predicate Matches(q: Query, n: Node) {
    n.Element? &&
    match q
    case Tag(name) => n.tag == name
    case HasStyle => "style" in n.attrs
    case StylesheetLink => n.tag == "link" && "stylesheet" in n.rels
  }

  /** The nodes of `es` that `q` selects, in their order. */
  function Select(q: Query, es: seq<Node>): (r: seq<Node>)
    ensures forall n :: n in r <==> n in es && Matches(q, n)
  {
    if es == [] then []
    else
      assert es == [es[0]] + es[1..];
      (if Matches(q, es[0]) then [es[0]] else []) + Select(q, es[1..])
  }

  /** `tag.get(k) or ''`; a text node has no attributes. */
  function AttrOf(n: Node, k: string): string {
    if n.Element? then GetOr(n.attrs, k) else ""
  }

  /** `tag.string or ''`: the text of a node whose only descendant chain ends in one text node. */
  function StringOf(n: Node): string {
    match n
    case Text(t) => t
    case Element(_, _, _, _, _, ch) =>
      if |ch| == 1 then StringOf(ch[0]) else ""
  }

  /** Where CSS text comes from: the body of a `<style>` tag or a `style` attribute. */
  datatype Origin = StyleBody | StyleAttr

  function CssOf(o: Origin, n: Node): string {
    match o
    case StyleBody => StringOf(n)
    case StyleAttr => AttrOf(n, "style")
  }

  /** The colours of the CSS of each node, one node after another. */
  function ColorsFrom(o: Origin, ns: seq<Node>): seq<string> {
    if ns == [] then []
    else ColorsFrom(o, ns[..|ns| - 1]) + ExtractColors(CssOf(o, ns[|ns| - 1]))
  }

  /** The fonts of the CSS of each node, one node after another. */
  function FontsFrom(o: Origin, ns: seq<Node>): seq<string> {
    if ns == [] then []
    else FontsFrom(o, ns[..|ns| - 1]) + ExtractFonts(CssOf(o, ns[|ns| - 1]))
  }

  /** The non-empty `href` of each link, in order. */
  function Hrefs(links: seq<Node>): seq<string> {
    if links == [] then []
    else Hrefs(links[..|links| - 1]) + (var h := AttrOf(links[|links| - 1], "href"); if h != "" then [h] else [])
  }

  /** The non-empty `fill`, then the non-empty `stroke`, of one node. */
  function Paint(n: Node): seq<string> {
    (if AttrOf(n, "fill") != "" then [AttrOf(n, "fill")] else [])
    + (if AttrOf(n, "stroke") != "" then [AttrOf(n, "stroke")] else [])
  }

  function PaintAll(ns: seq<Node>): seq<string> {
    if ns == [] then []
    else PaintAll(ns[..|ns| - 1]) + Paint(ns[|ns| - 1])
  }

  /** `svg.find_all()`: the elements below a node. */
  function Inner(n: Node): seq<Node> {
    if n.Element? then Elements(n.children) else []
  }

  /** The paint of each svg and of everything below it, svg after svg. */
  function SvgPaint(svgs: seq<Node>): seq<string> {
    if svgs == [] then []
    else
      var s := svgs[|svgs| - 1];
      SvgPaint(svgs[..|svgs| - 1]) + Paint(s) + PaintAll(Inner(s))
  }

  /** Every colour value the analyser finds on the page, in the order it finds them. */
  function RawColors(doc: seq<Node>): seq<string> {
    var all := Elements(doc);
    ColorsFrom(StyleBody, Select(Tag("style"), all))
    + ColorsFrom(StyleAttr, Select(HasStyle, all))
    + SvgPaint(Select(Tag("svg"), all))
  }

  /** Every font name the analyser finds on the page, in the order it finds them. */
  function RawFonts(doc: seq<Node>): seq<string> {
    var all := Elements(doc);
    FontsFrom(StyleBody, Select(Tag("style"), all)) + FontsFrom(StyleAttr, Select(HasStyle, all))
  }

  function Stylesheets(doc: seq<Node>): seq<string> {
    Hrefs(Select(StylesheetLink, Elements(doc)))
  }

  /** The analyser's result. */
  datatype Report = Report(colors: Counter, fonts: Counter, stylesheets: seq<string>)

  /** Passes 1 and 2: the colours and fonts of the CSS of each node, collected in a loop. */
  method CollectCss(o: Origin, ns: seq<Node>) returns (colors: seq<string>, fonts: seq<string>)
    ensures colors == ColorsFrom(o, ns) && fonts == FontsFrom(o, ns)
  {
    colors, fonts := [], [];
    var k := 0;
    while k < |ns|
      invariant k <= |ns|
      invariant colors == ColorsFrom(o, ns[..k])
      invariant fonts == FontsFrom(o, ns[..k])
    {
      assert ns[..k + 1][..k] == ns[..k];
      var text := CssOf(o, ns[k]);
      colors := colors + ExtractColors(text);
      fonts := fonts + ExtractFonts(text);
      k := k + 1;
    }
    assert ns[..k] == ns;
  }

  /** Pass 3: the non-empty `href` of each stylesheet link. */
  method CollectHrefs(links: seq<Node>) returns (sheets: seq<string>)
    ensures sheets == Hrefs(links)
  {
    sheets := [];
    var k := 0;
    while k < |links|
      invariant k <= |links|
      invariant sheets == Hrefs(links[..k])
    {
      assert links[..k + 1][..k] == links[..k];
      var href := AttrOf(links[k], "href");
      if href != "" {
        sheets := sheets + [href];
      }
      k := k + 1;
    }
    assert links[..k] == links;
  }

  /** `if n.get('fill'): append it`, then the same for `stroke`. */
  method AppendPaint(colors: seq<string>, n: Node) returns (out: seq<string>)
    ensures out == colors + Paint(n)
    ensures |colors| <= |out| <= |colors| + 2
  {
    out := colors;
    var fill := AttrOf(n, "fill");
    if fill != "" {
      out := out + [fill];
    }
    var stroke := AttrOf(n, "stroke");
    if stroke != "" {
      out := out + [stroke];
    }
  }

  /** The non-empty `fill` and `stroke` of each node. */
  method CollectPaint(ns: seq<Node>) returns (colors: seq<string>)
    ensures colors == PaintAll(ns)
  {
    colors := [];
    var m := 0;
    while m < |ns|
      invariant m <= |ns|
      invariant colors == PaintAll(ns[..m])
    {
      assert ns[..m + 1][..m] == ns[..m];
      colors := AppendPaint(colors, ns[m]);
      m := m + 1;
    }
    assert ns[..m] == ns;
  }

  /** Pass 4: the paint of each svg, then of every element below it. */
  method CollectSvgPaint(svgs: seq<Node>) returns (colors: seq<string>)
    ensures colors == SvgPaint(svgs)
  {
    colors := [];
    var k := 0;
    while k < |svgs|
      invariant k <= |svgs|
      invariant colors == SvgPaint(svgs[..k])
    {
      var svg := svgs[k];
      assert svgs[..k + 1][..k] == svgs[..k];
      colors := AppendPaint(colors, svg);
      var below := CollectPaint(Inner(svg));
      colors := colors + below;
      assert SvgPaint(svgs[..k + 1]) == SvgPaint(svgs[..k]) + Paint(svg) + PaintAll(Inner(svg));
      k := k + 1;
    }
    assert svgs[..k] == svgs;
  }

  /**
   * `analyze_styles` on a parsed page: the four collection passes, then the
   * counting and the removal of noise keys.
   */
  method AnalyzeStyles(doc: seq<Node>) returns (r: Report)
    ensures r.colors == Keep(Tally(RawColors(doc)), ColorNoise)
    ensures r.fonts == Keep(Tally(RawFonts(doc)), GenericFonts)
    ensures r.stylesheets == Stylesheets(doc)
    ensures Valid(r.colors) && Valid(r.fonts)
    ensures forall k :: k in r.colors.counts <==> k in RawColors(doc) && Lower(k) !in ColorNoise
    ensures forall k :: k in r.colors.counts ==> r.colors.counts[k] == multiset(RawColors(doc))[k]
    ensures forall k :: k in r.fonts.counts <==> k in RawFonts(doc) && Lower(k) !in GenericFonts
    ensures forall k :: k in r.fonts.counts ==> r.fonts.counts[k] == multiset(RawFonts(doc))[k]
  {
    var all := Elements(doc);
    var bodyColors, bodyFonts := CollectCss(StyleBody, Select(Tag("style"), all));
    var attrColors, attrFonts := CollectCss(StyleAttr, Select(HasStyle, all));
    var sheets := CollectHrefs(Select(StylesheetLink, all));
    var paint := CollectSvgPaint(Select(Tag("svg"), all));
    var colors := bodyColors + attrColors + paint;
    var fonts := bodyFonts + attrFonts;
    FilteredTally(colors, ColorNoise);
    FilteredTally(fonts, GenericFonts);
    r := Report(Keep(Tally(colors), ColorNoise), Keep(Tally(fonts), GenericFonts), sheets);
  }

  // ----- What the passes collect -----

  lemma {:induction false} HrefsIff(links: seq<Node>, h: string)
    ensures h in Hrefs(links) <==> h != "" && exists n :: n in links && AttrOf(n, "href") == h
  {
    if links != [] {
      var init, last := links[..|links| - 1], links[|links| - 1];
      HrefsIff(init, h);
      assert links == init + [last];
      if h != "" && AttrOf(last, "href") != h {
        if n :| n in links && AttrOf(n, "href") == h {
          assert n in init;
        }
      }
    }
  }

  /**
   * The stylesheets reported are exactly the non-empty `href`s of the page's
   * `<link rel="stylesheet">` elements.
   */
  lemma StylesheetsIff(doc: seq<Node>, h: string)
    ensures h in Stylesheets(doc) <==>
      h != "" && exists n :: n in Elements(doc) && Matches(StylesheetLink, n) && AttrOf(n, "href") == h
  {
    HrefsIff(Select(StylesheetLink, Elements(doc)), h);
  }

  lemma {:induction false} PaintAllIff(ns: seq<Node>, x: string)
    ensures x in PaintAll(ns) <==>
      x != "" && exists n :: n in ns && (AttrOf(n, "fill") == x || AttrOf(n, "stroke") == x)
  {
    if ns != [] {
      var init, last := ns[..|ns| - 1], ns[|ns| - 1];
      PaintAllIff(init, x);
      assert ns == init + [last];
      if x != "" && AttrOf(last, "fill") != x && AttrOf(last, "stroke") != x {
        if n :| n in ns && (AttrOf(n, "fill") == x || AttrOf(n, "stroke") == x) {
          assert n in init;
        }
      }
    }
  }

  lemma {:induction false} PaintAllAppend(a: seq<Node>, b: seq<Node>)
    ensures PaintAll(a + b) == PaintAll(a) + PaintAll(b)
  {
    if b == [] {
      assert a + b == a;
    } else {
      var b' := b[..|b| - 1];
      assert (a + b)[|a + b| - 1] == b[|b| - 1];
      assert (a + b)[..|a + b| - 1] == a + b';
      PaintAllAppend(a, b');
      assert PaintAll(a + b) == PaintAll(a + b') + Paint(b[|b| - 1]);
      assert PaintAll(b) == PaintAll(b') + Paint(b[|b| - 1]);
    }
  }

  /** Each svg together with the elements below it, svg after svg. */
  function Covered(svgs: seq<Node>): seq<Node> {
    if svgs == [] then []
    else Covered(svgs[..|svgs| - 1]) + ([svgs[|svgs| - 1]] + Inner(svgs[|svgs| - 1]))
  }

  /**
   * The svg pass paints every element once per enclosing svg: its result is the
   * paint of the list that repeats an element for each svg it lies in.
   */
  lemma {:induction false} SvgPaintCovered(svgs: seq<Node>)
    ensures SvgPaint(svgs) == PaintAll(Covered(svgs))
  {
    if svgs != [] {
      var init, s := svgs[..|svgs| - 1], svgs[|svgs| - 1];
      SvgPaintCovered(init);
      PaintAllAppend(Covered(init), [s] + Inner(s));
      PaintAllAppend([s], Inner(s));
      assert PaintAll([s]) == Paint(s) by {
        assert [s][..0] == [];
      }
    }
  }

  /** A colour is found in the svg pass exactly when some svg, or an element below one, has it as non-empty `fill` or `stroke`. */
  lemma SvgPaintIff(svgs: seq<Node>, x: string)
    ensures x in SvgPaint(svgs) <==>
      x != "" && exists n :: n in Covered(svgs) && (AttrOf(n, "fill") == x || AttrOf(n, "stroke") == x)
  {
    SvgPaintCovered(svgs);
    PaintAllIff(Covered(svgs), x);
  }

  /** A fill inside two nested svgs is counted twice: once for each svg's `find_all`. */
  lemma NestedSvgCountedTwice(doc: seq<Node>)
    requires doc == [Element(1, "svg", map[], [], [], [Element(2, "svg", map["fill" := "red"], [], [], [])])]
    ensures RawColors(doc) == ["red", "red"]
  {
    var inner := Element(2, "svg", map["fill" := "red"], [], [], []);
    var outer := doc[0];
    assert Elements([inner]) == [inner] by {
      assert Elements([inner][1..]) == [];
    }
    assert Elements(doc) == [outer, inner] by {
      assert Elements(doc[1..]) == [];
    }
    assert Select(Tag("style"), [outer, inner]) == [] by {
      assert [outer, inner][1..] == [inner];
      assert Select(Tag("style"), [inner]) == [] by { assert [inner][1..] == []; }
    }
    assert Select(HasStyle, [outer, inner]) == [] by {
      assert [outer, inner][1..] == [inner];
      assert Select(HasStyle, [inner]) == [] by { assert [inner][1..] == []; }
    }
    assert Select(Tag("svg"), [outer, inner]) == [outer, inner] by {
      assert [outer, inner][1..] == [inner];
      assert Select(Tag("svg"), [inner]) == [inner] by { assert [inner][1..] == []; }
    }
    assert Paint(outer) == [];
    assert Paint(inner) == ["red"];
    assert PaintAll([inner]) == ["red"] by { assert [inner][..0] == []; }
    assert SvgPaint([outer]) == ["red"] by { assert [outer][..0] == []; }
    assert SvgPaint([outer, inner]) == ["red", "red"] by {
      assert [outer, inner][..1] == [outer];
    }
  }
}
