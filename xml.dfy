/** An ordered element tree (tag, text, attributes, children) with the in-place
    edits of an XML element, an event-stream decoder, the matching pre-order
    encoder and the character-level pretty-printer applied before saving. */
module Xml {

  datatype Option<T> = None | Some(value: T)

  datatype Result<T, E> = Ok(value: T) | Err(error: E)

  /** A key/value pair of an element; `XmlAttribute::new` is this constructor. */
  datatype XmlAttribute = XmlAttribute(key: string, value: string)

  /** The value of an element: what the tree owns and what children are. */
  datatype Element = Element(tag: string, text: string, attributes: seq<XmlAttribute>, subElements: seq<Element>)

  /** The document: an unnamed root whose children are the document's roots. */
  datatype XmlTree = XmlTree(root: Element)
  {
    function Roots(): seq<Element> { root.subElements }
  }

  /** The reader's events, with tokenizing abstracted away. `Failure` is a
      reader error; `Other` is every other event kind (declarations,
      comments, empty-element tags, ...). */
  datatype Event =
    | Start(tag: string, attributes: seq<XmlAttribute>)
    | End(tag: string)
    | Text(content: string)
    | Eof
    | Failure
    | Other

  datatype DecodeError = ReaderError

  // ---------------------------------------------------------------------
  // Sizes (termination measures for the recursive tree operations)

  function Size(e: Element): nat
  {
    1 + SizeAll(e.subElements)
  }

  function SizeAll(es: seq<Element>): nat
  {
    if es == [] then 0 else Size(es[0]) + SizeAll(es[1..])
  }

  lemma {:induction false} SizeAllBound(es: seq<Element>, k: nat)
    requires k < |es|
    ensures Size(es[k]) <= SizeAll(es)
  {
    if k > 0 {
      SizeAllBound(es[1..], k - 1);
    }
  }

  // ---------------------------------------------------------------------
  // Searching

  /** The position of the first element satisfying `p`, or `|s|` when none does. */
  function FirstIndex<T>(s: seq<T>, p: T -> bool): (i: nat)
    ensures i <= |s|
    ensures forall j :: 0 <= j < i ==> !p(s[j])
    ensures i < |s| ==> p(s[i])
  {
    if s == [] then 0
    else if p(s[0]) then 0
    else 1 + FirstIndex(s[1..], p)
  }

  /** The children left after `remove` and the child it returns. */
  function RemoveFirst(children: seq<Element>, pred: Element -> bool): (r: (seq<Element>, Option<Element>))
    ensures r.1.None? <==> forall j :: 0 <= j < |children| ==> !pred(children[j])
    ensures r.1.None? ==> r.0 == children
    ensures r.1.Some? ==>
      exists i :: 0 <= i < |children| && pred(children[i])
        && (forall j :: 0 <= j < i ==> !pred(children[j]))
        && r.1.value == children[i]
        && r.0 == children[..i] + children[i + 1..]
    ensures r.1.Some? ==> |r.0| == |children| - 1
  {
    var i := FirstIndex(children, pred);
    if i == |children| then (children, None)
    else (children[..i] + children[i + 1..], Some(children[i]))
  }

  // ---------------------------------------------------------------------
  // Merging

  /** `merge_with_or_add` on values: graft `element` onto the first child
      that `pred` pairs with it, or else append it. */
  function MergeOrAdd(parent: Element, element: Element, pred: (Element, Element) -> bool): Element
    decreases Size(element), 0
  {
    var i := FirstIndex(parent.subElements, (c: Element) => pred(c, element));
    if i == |parent.subElements| then
      parent.(subElements := parent.subElements + [element])
    else
      parent.(subElements := parent.subElements[i := MergeAll(parent.subElements[i], element.subElements, pred)])
  }

  /** Merges each of `elements`, in order, into `target`. */
  function MergeAll(target: Element, elements: seq<Element>, pred: (Element, Element) -> bool): Element
    decreases SizeAll(elements), 1
  {
    if elements == [] then target
    else MergeAll(MergeOrAdd(target, elements[0], pred), elements[1..], pred)
  }

  /** Merging never touches the target's own tag, text or attributes, and
      never loses a child position. */
  lemma {:induction false} MergeAllKeepsOwnFields(target: Element, elements: seq<Element>, pred: (Element, Element) -> bool)
    ensures var m := MergeAll(target, elements, pred);
      m.tag == target.tag && m.text == target.text && m.attributes == target.attributes
      && |m.subElements| >= |target.subElements|
    decreases |elements|
  {
    if elements != [] {
      MergeAllKeepsOwnFields(MergeOrAdd(target, elements[0], pred), elements[1..], pred);
    }
  }

  /** No child pairs with `element`: it is appended exactly once at the end
      and nothing else changes. */
  lemma MergeOrAddAppends(parent: Element, element: Element, pred: (Element, Element) -> bool)
    requires forall j :: 0 <= j < |parent.subElements| ==> !pred(parent.subElements[j], element)
    ensures MergeOrAdd(parent, element, pred) == parent.(subElements := parent.subElements + [element])
  {
    var i := FirstIndex(parent.subElements, (c: Element) => pred(c, element));
    assert i == |parent.subElements|;
  }

  /** Some child pairs with `element`: only the first such child changes, it
      receives `element`'s children by recursive merging, keeps its own tag,
      text and attributes, and no child is added at this level. */
  lemma MergeOrAddGrafts(parent: Element, element: Element, pred: (Element, Element) -> bool, i: nat)
    requires i < |parent.subElements| && pred(parent.subElements[i], element)
    requires forall j :: 0 <= j < i ==> !pred(parent.subElements[j], element)
    ensures var m := MergeOrAdd(parent, element, pred);
      && m.tag == parent.tag && m.text == parent.text && m.attributes == parent.attributes
      && |m.subElements| == |parent.subElements|
      && (forall j :: 0 <= j < |parent.subElements| && j != i ==> m.subElements[j] == parent.subElements[j])
      && m.subElements[i] == MergeAll(parent.subElements[i], element.subElements, pred)
      && m.subElements[i].tag == parent.subElements[i].tag
      && m.subElements[i].text == parent.subElements[i].text
      && m.subElements[i].attributes == parent.subElements[i].attributes
  {
    var k := FirstIndex(parent.subElements, (c: Element) => pred(c, element));
    assert k == i;
    MergeAllKeepsOwnFields(parent.subElements[i], element.subElements, pred);
  }

  // ---------------------------------------------------------------------
  // Decoding

  /** `build_from_reader` on values: the events are consumed into `acc`
      until its own `End` (consumed) or `Eof` (left in place, since the
      reader repeats it); running out of events counts as `Eof`. Returns
      the built element and the events not consumed. `started` says whether
      a start event opened `acc`: the reader checks every end tag against
      the element it closes, so an end tag that does not match, or that
      nothing opened, is a reader error. */
  function Build(events: seq<Event>, acc: Element, started: bool): (r: Result<(Element, seq<Event>), DecodeError>)
    ensures r.Ok? ==> |r.value.1| <= |events|
    ensures r.Ok? ==> r.value.0.tag == acc.tag && r.value.0.attributes == acc.attributes
    ensures r.Ok? ==> acc.subElements <= r.value.0.subElements
    decreases |events|
  {
    if events == [] then Ok((acc, []))
    else match events[0]
      case Start(t, attrs) =>
        (match Build(events[1..], Element(t, "", attrs, []), true)
          case Err(e) => Err(e)
          case Ok((child, rest)) =>
            Build(rest, acc.(subElements := acc.subElements + [child]), started))
      case End(t) => if started && t == acc.tag then Ok((acc, events[1..])) else Err(ReaderError)
      case Text(s) => Build(events[1..], acc.(text := s), started)
      case Eof => Ok((acc, events))
      case Failure => Err(ReaderError)
      case Other => Build(events[1..], acc, started)
  }

  /** `XmlTree::from_str` on events: a fresh unnamed root built from the
      whole stream. */
  function Decode(events: seq<Event>): Result<XmlTree, DecodeError>
  {
    match Build(events, Element("", "", [], []), false)
    case Ok((root, _)) => Ok(XmlTree(root))
    case Err(e) => Err(e)
  }

  // ---------------------------------------------------------------------
  // Encoding

  /** `write_to_writer`: start tag with the attributes in stored order, the
      children in order, then the end tag. Text is never written. */
  function Encode(e: Element): (r: seq<Event>)
    ensures forall k :: 0 <= k < |r| ==> !r[k].Text?
  {
    [Start(e.tag, e.attributes)] + EncodeAll(e.subElements) + [End(e.tag)]
  }

  function EncodeAll(es: seq<Element>): (r: seq<Event>)
    ensures forall k :: 0 <= k < |r| ==> !r[k].Text?
  {
    if es == [] then [] else Encode(es[0]) + EncodeAll(es[1..])
  }

  /** How many start events a sequence holds. */
  function CountStarts(events: seq<Event>): nat
  {
    if events == [] then 0 else (if events[0].Start? then 1 else 0) + CountStarts(events[1..])
  }

  /** How many end events a sequence holds. */
  function CountEnds(events: seq<Event>): nat
  {
    if events == [] then 0 else (if events[0].End? then 1 else 0) + CountEnds(events[1..])
  }

  lemma {:induction false} CountAppend(a: seq<Event>, b: seq<Event>)
    ensures CountStarts(a + b) == CountStarts(a) + CountStarts(b)
    ensures CountEnds(a + b) == CountEnds(a) + CountEnds(b)
  {
    if a != [] {
      assert (a + b)[1..] == a[1..] + b;
      CountAppend(a[1..], b);
    } else {
      assert a + b == b;
    }
  }

  /** One start and one end event per element, and nothing else. */
  lemma {:induction false} EncodeAllLength(es: seq<Element>)
    ensures |EncodeAll(es)| == 2 * SizeAll(es)
    ensures CountStarts(EncodeAll(es)) == SizeAll(es) == CountEnds(EncodeAll(es))
    decreases SizeAll(es)
  {
    if es != [] {
      var c := es[0];
      SizeAllBound(es, 0);
      EncodeAllLength(c.subElements);
      EncodeAllLength(es[1..]);
      var open, close := [Start(c.tag, c.attributes)], [End(c.tag)];
      assert CountStarts(open) == 1 && CountEnds(open) == 0 by { assert open[1..] == []; }
      assert CountStarts(close) == 0 && CountEnds(close) == 1 by { assert close[1..] == []; }
      CountAppend(open, EncodeAll(c.subElements));
      CountAppend(open + EncodeAll(c.subElements), close);
      CountAppend(Encode(c), EncodeAll(es[1..]));
    }
  }

  /** `XmlTree::as_string`: the roots only; one start and one end event per
      element below the unnamed root, and no text. */
  function AsString(tree: XmlTree): (r: seq<Event>)
    ensures |r| == 2 * (Size(tree.root) - 1)
    ensures CountStarts(r) == Size(tree.root) - 1 == CountEnds(r)
    ensures forall k :: 0 <= k < |r| ==> !r[k].Text?
  {
    EncodeAllLength(tree.Roots());
    EncodeAll(tree.Roots())
  }

  /** An element with every text in it emptied. */
  function Strip(e: Element): Element
  {
    Element(e.tag, "", e.attributes, StripAll(e.subElements))
  }

  function StripAll(es: seq<Element>): (r: seq<Element>)
    ensures |r| == |es|
  {
    if es == [] then [] else [Strip(es[0])] + StripAll(es[1..])
  }

  ghost predicate TextFree(e: Element)
  {
    e.text == "" && forall k :: 0 <= k < |e.subElements| ==> TextFree(e.subElements[k])
  }

  lemma {:induction false} StripTextFree(es: seq<Element>)
    requires forall k :: 0 <= k < |es| ==> TextFree(es[k])
    ensures StripAll(es) == es
    decreases SizeAll(es)
  {
    if es != [] {
      SizeAllBound(es, 0);
      StripTextFree(es[0].subElements);
      StripTextFree(es[1..]);
    }
  }

  /** A tail that stops the decoder at the current level: the end, an
      end-of-file, or the end tag of an element a start event opened. */
  predicate Stops(tail: seq<Event>, tag: string, started: bool)
  {
    tail == [] || tail[0].Eof? || (started && tail[0] == End(tag))
  }

  function AfterStop(tail: seq<Event>): seq<Event>
  {
    if tail != [] && tail[0].End? then tail[1..] else tail
  }

  /** Decoding the encoding of `es` appends them, texts emptied, to the
      current element, and stops where the tail says. */
  lemma {:induction false} BuildEncoded(es: seq<Element>, acc: Element, tail: seq<Event>, started: bool)
    requires Stops(tail, acc.tag, started)
    ensures Build(EncodeAll(es) + tail, acc, started) == Ok((acc.(subElements := acc.subElements + StripAll(es)), AfterStop(tail)))
    decreases SizeAll(es)
  {
    if es == [] {
      assert EncodeAll(es) + tail == tail;
      assert acc.subElements + StripAll(es) == acc.subElements;
      BuildStops(tail, acc, started);
    } else {
      var c := es[0];
      var rest := EncodeAll(es[1..]) + tail;
      var acc' := acc.(subElements := acc.subElements + [Strip(c)]);
      SizeAllBound(es, 0);
      BuildEncoded(c.subElements, Element(c.tag, "", c.attributes, []), [End(c.tag)] + rest, true);
      assert AfterStop([End(c.tag)] + rest) == rest;
      assert [] + StripAll(c.subElements) == StripAll(c.subElements);
      BuildEncoded(es[1..], acc', tail, started);
      BuildEncodedStep(es, acc, tail, started);
    }
  }

  lemma BuildEncodedStep(es: seq<Element>, acc: Element, tail: seq<Event>, started: bool)
    requires es != []
    requires var c := es[0];
      Build(EncodeAll(c.subElements) + ([End(c.tag)] + (EncodeAll(es[1..]) + tail)), Element(c.tag, "", c.attributes, []), true)
        == Ok((Element(c.tag, "", c.attributes, StripAll(c.subElements)), EncodeAll(es[1..]) + tail))
    requires var acc' := acc.(subElements := acc.subElements + [Strip(es[0])]);
      Build(EncodeAll(es[1..]) + tail, acc', started) == Ok((acc'.(subElements := acc'.subElements + StripAll(es[1..])), AfterStop(tail)))
    ensures Build(EncodeAll(es) + tail, acc, started) == Ok((acc.(subElements := acc.subElements + StripAll(es)), AfterStop(tail)))
  {
    var c := es[0];
    var rest := EncodeAll(es[1..]) + tail;
    EncodeAllSplit(es, tail);
    BuildStartStep(EncodeAll(es) + tail, acc, Strip(c), rest, started);
    assert StripAll(es) == [Strip(c)] + StripAll(es[1..]);
    AppendOne(acc.subElements, Strip(c), StripAll(es[1..]));
  }

  lemma BuildStops(tail: seq<Event>, acc: Element, started: bool)
    requires Stops(tail, acc.tag, started)
    ensures Build(tail, acc, started) == Ok((acc, AfterStop(tail)))
  {
  }

  lemma EncodeAllSplit(es: seq<Element>, tail: seq<Event>)
    requires es != []
    ensures var s := EncodeAll(es) + tail;
      && s != [] && s[0] == Start(es[0].tag, es[0].attributes)
      && s[1..] == EncodeAll(es[0].subElements) + ([End(es[0].tag)] + (EncodeAll(es[1..]) + tail))
  {
    var c := es[0];
    assert EncodeAll(es) == [Start(c.tag, c.attributes)] + EncodeAll(c.subElements) + [End(c.tag)] + EncodeAll(es[1..]);
    WrappedSplit(Start(c.tag, c.attributes), EncodeAll(c.subElements), End(c.tag), EncodeAll(es[1..]), tail);
  }

  /** A start event: the child is built from the following events and then
      appended to the current element, where decoding carries on. */
  lemma BuildStartStep(s: seq<Event>, acc: Element, child: Element, rest: seq<Event>, started: bool)
    requires s != [] && s[0].Start?
    requires Build(s[1..], Element(s[0].tag, "", s[0].attributes, []), true) == Ok((child, rest))
    ensures Build(s, acc, started) == Build(rest, acc.(subElements := acc.subElements + [child]), started)
  {
  }

  /** Round trip: decoding what `as_string` wrote reproduces every tag,
      attribute order and child order, with all texts empty. */
  lemma DecodeAsString(tree: XmlTree, tail: seq<Event>)
    requires tail == [] || tail[0].Eof?
    ensures Decode(AsString(tree) + tail) == Ok(XmlTree(Element("", "", [], StripAll(tree.Roots()))))
  {
    BuildEncoded(tree.Roots(), Element("", "", [], []), tail, false);
    assert [] + StripAll(tree.Roots()) == StripAll(tree.Roots());
  }

  /** An end tag that nothing opened is a reader error. */
  lemma DecodeUnopenedEnd(tag: string, rest: seq<Event>)
    ensures Decode([End(tag)] + rest) == Err(ReaderError)
  {
  }

  /** An end tag that does not match the open element is a reader error. */
  lemma DecodeMismatchedEnd(tag: string, attributes: seq<XmlAttribute>, other: string, rest: seq<Event>)
    requires other != tag
    ensures Decode([Start(tag, attributes), End(other)] + rest) == Err(ReaderError)
  {
    var s := [Start(tag, attributes), End(other)] + rest;
    assert s[1..] == [End(other)] + rest;
    assert Build(s[1..], Element(tag, "", attributes, []), true) == Err(ReaderError);
    assert Build(s, Element("", "", [], []), false) == Err(ReaderError);
  }

  /** A document without texts survives the round trip exactly. */
  lemma DecodeAsStringTextFree(tree: XmlTree)
    requires forall k :: 0 <= k < |tree.Roots()| ==> TextFree(tree.Roots()[k])
    ensures Decode(AsString(tree) + [Eof]) == Ok(XmlTree(Element("", "", [], tree.Roots())))
  {
    DecodeAsString(tree, [Eof]);
    StripTextFree(tree.Roots());
  }

  // ---------------------------------------------------------------------
  // Text: the writer's output and the pretty-printer

  /** The writer's text for attributes: ` key="value"` each, no escaping. */
  function RenderAttributes(attrs: seq<XmlAttribute>): string
  {
    if attrs == [] then "" else " " + attrs[0].key + "=\"" + attrs[0].value + "\"" + RenderAttributes(attrs[1..])
  }

  function RenderEvent(e: Event): string
  {
    match e
    case Start(t, attrs) => "<" + t + RenderAttributes(attrs) + ">"
    case End(t) => "</" + t + ">"
    case Text(s) => s
    case _ => ""
  }

  function Render(events: seq<Event>): string
  {
    if events == [] then "" else RenderEvent(events[0]) + Render(events[1..])
  }

  lemma {:induction false} RenderAppend(a: seq<Event>, b: seq<Event>)
    ensures Render(a + b) == Render(a) + Render(b)
  {
    if a != [] {
      assert (a + b)[1..] == a[1..] + b;
      RenderAppend(a[1..], b);
    } else {
      assert a + b == b;
    }
  }

  /** `count` levels of two spaces; nothing for a depth of zero or below. */
  function Spaces(count: int): (r: string)
    ensures |r| == if count <= 0 then 0 else 2 * count
    ensures forall k :: 0 <= k < |r| ==> r[k] == ' '
    decreases count
  {
    if count <= 0 then "" else "  " + Spaces(count - 1)
  }

  /** `indent` from a given depth: the text after a `<` is written behind
      the indentation (the depth dropping first for `</`, rising after for
      any other), `>` gains a line break, a final lone `<` is dropped. */
  function IndentFrom(text: string, depth: int): string
    decreases |text|
  {
    if text == [] then ""
    else if text[0] == '<' then
      if |text| == 1 then ""
      else if text[1] == '/' then Spaces(depth - 1) + ['<', '/'] + IndentFrom(text[2..], depth - 1)
      else Spaces(depth) + ['<', text[1]] + IndentFrom(text[2..], depth + 1)
    else if text[0] == '>' then ">\n" + IndentFrom(text[1..], depth)
    else [text[0]] + IndentFrom(text[1..], depth)
  }

  predicate Plain(s: string)
  {
    forall k :: 0 <= k < |s| ==> s[k] != '<' && s[k] != '>'
  }

  /** Text without markup is copied unchanged. */
  lemma {:induction false} IndentPlain(plain: string, rest: string, depth: int)
    requires Plain(plain)
    ensures IndentFrom(plain + rest, depth) == plain + IndentFrom(rest, depth)
  {
    if plain != [] {
      assert (plain + rest)[1..] == plain[1..] + rest;
      IndentPlain(plain[1..], rest, depth);
      assert [plain[0]] + plain[1..] == plain;
    } else {
      assert plain + rest == rest;
    }
  }

  lemma {:induction false} RenderAttributesPlain(attrs: seq<XmlAttribute>)
    requires forall k :: 0 <= k < |attrs| ==> Plain(attrs[k].key) && Plain(attrs[k].value)
    ensures Plain(RenderAttributes(attrs))
  {
    if attrs != [] {
      RenderAttributesPlain(attrs[1..]);
    }
  }

  /** Elements the writer can put out without markup characters inside a
      tag: a non-empty tag not starting with `/`, and no `<` or `>` in a
      tag, key or (escaped) value. */
  ghost predicate Writable(e: Element)
  {
    && e.tag != [] && e.tag[0] != '/' && Plain(e.tag)
    && (forall k :: 0 <= k < |e.attributes| ==> Plain(e.attributes[k].key) && Plain(e.attributes[k].value))
    && (forall k :: 0 <= k < |e.subElements| ==> Writable(e.subElements[k]))
  }

  /** The intended layout: one line per tag, indented two spaces per level. */
  function Pretty(e: Element, depth: int): string
  {
    Spaces(depth) + "<" + e.tag + RenderAttributes(e.attributes) + ">\n"
      + PrettyAll(e.subElements, depth + 1)
      + Spaces(depth) + "</" + e.tag + ">\n"
  }

  function PrettyAll(es: seq<Element>, depth: int): string
  {
    if es == [] then "" else Pretty(es[0], depth) + PrettyAll(es[1..], depth)
  }

  lemma IndentOpen(c: char, x: string, depth: int)
    requires c != '/'
    ensures IndentFrom(['<', c] + x, depth) == Spaces(depth) + ['<', c] + IndentFrom(x, depth + 1)
  {
    assert (['<', c] + x)[2..] == x;
  }

  lemma IndentClose(x: string, depth: int)
    ensures IndentFrom("</" + x, depth) == Spaces(depth - 1) + "</" + IndentFrom(x, depth - 1)
  {
    assert ("</" + x)[2..] == x;
  }

  lemma IndentGt(x: string, depth: int)
    ensures IndentFrom(">" + x, depth) == ">\n" + IndentFrom(x, depth)
  {
    assert (">" + x)[1..] == x;
  }

  lemma IndentChar(c: char, x: string, depth: int)
    requires c != '<' && c != '>'
    ensures IndentFrom([c] + x, depth) == [c] + IndentFrom(x, depth)
  {
    assert ([c] + x)[1..] == x;
  }

  lemma RenderEncode(e: Element)
    ensures Render(Encode(e)) == "<" + e.tag + RenderAttributes(e.attributes) + ">" + Render(EncodeAll(e.subElements)) + "</" + e.tag + ">"
  {
    RenderWrap(Start(e.tag, e.attributes), EncodeAll(e.subElements), End(e.tag));
    var open, inner := "<" + e.tag + RenderAttributes(e.attributes) + ">", Render(EncodeAll(e.subElements));
    ConcatClose(open + inner, e.tag);
  }

  /** Rendering one event between two others. */
  lemma RenderWrap(first: Event, middle: seq<Event>, last: Event)
    ensures Render([first] + middle + [last]) == RenderEvent(first) + Render(middle) + RenderEvent(last)
  {
    RenderAppend([first] + middle, [last]);
    RenderAppend([first], middle);
    assert Render([first]) == RenderEvent(first) + Render([]) by { assert [first][1..] == []; }
    assert Render([last]) == RenderEvent(last) + Render([]) by { assert [last][1..] == []; }
  }

  /** The writer's text of an element, cut where the indenter acts. */
  lemma RenderEncodeSplit(e: Element, rest: string)
    requires e.tag != []
    ensures Render(Encode(e)) + rest
         == ['<', e.tag[0]] + (e.tag[1..] + RenderAttributes(e.attributes)
              + (">" + (Render(EncodeAll(e.subElements)) + ("</" + (e.tag + (">" + rest))))))
  {
    RenderEncode(e);
    SplitAssoc(e.tag, RenderAttributes(e.attributes), Render(EncodeAll(e.subElements)), rest);
  }

  /** The indenter's steps over one element, put together. */
  lemma IndentLayout(c: char, head: string, kids: string, tag: string, rest: string, depth: int, pa: string)
    requires c != '/' && Plain(head) && Plain(tag)
    requires IndentFrom(kids + ("</" + (tag + (">" + rest))), depth + 1)
          == pa + IndentFrom("</" + (tag + (">" + rest)), depth + 1)
    ensures IndentFrom(['<', c] + (head + (">" + (kids + ("</" + (tag + (">" + rest)))))), depth)
         == Spaces(depth) + ['<', c] + (head + (">\n" + (pa + (Spaces(depth) + "</" + (tag + (">\n" + IndentFrom(rest, depth)))))))
  {
    var close := "</" + (tag + (">" + rest));
    IndentOpen(c, head + (">" + (kids + close)), depth);
    IndentPlain(head, ">" + (kids + close), depth + 1);
    IndentGt(kids + close, depth + 1);
    IndentClose(tag + (">" + rest), depth + 1);
    IndentPlain(tag, ">" + rest, depth);
    IndentGt(rest, depth);
  }

  /** Indenting the writer's text of an element lays it out as `Pretty`. */
  lemma {:induction false} IndentEncoded(e: Element, rest: string, depth: int)
    requires Writable(e)
    ensures IndentFrom(Render(Encode(e)) + rest, depth) == Pretty(e, depth) + IndentFrom(rest, depth)
    decreases Size(e), 0
  {
    var ra := RenderAttributes(e.attributes);
    var kids := Render(EncodeAll(e.subElements));
    var pa := PrettyAll(e.subElements, depth + 1);
    RenderAttributesPlain(e.attributes);
    assert Plain(e.tag[1..] + ra);
    RenderEncodeSplit(e, rest);
    IndentEncodedAll(e.subElements, "</" + (e.tag + (">" + rest)), depth + 1);
    IndentLayout(e.tag[0], e.tag[1..] + ra, kids, e.tag, rest, depth, pa);
    LayoutAssoc(Spaces(depth), e.tag, ra, pa, IndentFrom(rest, depth));
  }

  lemma {:induction false} IndentEncodedAll(es: seq<Element>, rest: string, depth: int)
    requires forall k :: 0 <= k < |es| ==> Writable(es[k])
    ensures IndentFrom(Render(EncodeAll(es)) + rest, depth) == PrettyAll(es, depth) + IndentFrom(rest, depth)
    decreases SizeAll(es), 1
  {
    if es == [] {
      assert Render(EncodeAll(es)) + rest == rest;
    } else {
      SizeAllBound(es, 0);
      var x := Render(Encode(es[0]));
      var y := Render(EncodeAll(es[1..]));
      RenderAppend(Encode(es[0]), EncodeAll(es[1..]));
      IndentEncoded(es[0], y + rest, depth);
      IndentEncodedAll(es[1..], rest, depth);
      IndentSeq(x, y, rest, depth, Pretty(es[0], depth), PrettyAll(es[1..], depth));
    }
  }

  /** What `write_to_file` writes: the indented text of `as_string`, which
      for writable roots is their one-tag-per-line layout. */
  function DocumentText(tree: XmlTree): (text: string)
    ensures (forall k :: 0 <= k < |tree.Roots()| ==> Writable(tree.Roots()[k])) ==> text == PrettyAll(tree.Roots(), 0)
  {
    IndentRoots(tree.Roots());
    IndentFrom(Render(AsString(tree)), 0)
  }

  lemma IndentRoots(roots: seq<Element>)
    ensures (forall k :: 0 <= k < |roots| ==> Writable(roots[k])) ==>
      IndentFrom(Render(EncodeAll(roots)), 0) == PrettyAll(roots, 0)
  {
    if forall k :: 0 <= k < |roots| ==> Writable(roots[k]) {
      IndentEncodedAll(roots, "", 0);
      assert Render(EncodeAll(roots)) + "" == Render(EncodeAll(roots));
      assert PrettyAll(roots, 0) + "" == PrettyAll(roots, 0);
    }
  }

  // ---------------------------------------------------------------------
  // The mutable element

  class XmlElement {
    var tag: string
    var text: string
    var attributes: seq<XmlAttribute>
    var subElements: seq<Element>

    /** The element's current value. */
    function Value(): Element
      reads this
    {
      Element(tag, text, attributes, subElements)
    }

    /** `XmlElement::new`. */
    constructor (tag: string, text: string, attributes: seq<XmlAttribute>, subElements: seq<Element>)
      ensures Value() == Element(tag, text, attributes, subElements)
    {
      this.tag := tag;
      this.text := text;
      this.attributes := attributes;
      this.subElements := subElements;
    }

    /** `XmlElement::from_start`: the tag and attributes of a start event,
        empty text and no children. */
    constructor FromStart(tag: string, attributes: seq<XmlAttribute>)
      ensures Value() == Element(tag, "", attributes, [])
    {
      this.tag := tag;
      this.text := "";
      this.attributes := attributes;
      this.subElements := [];
    }

    /** Removes the first child satisfying `pred` and returns it. */
    method Remove(pred: Element -> bool) returns (removed: Option<Element>)
      modifies this
      ensures tag == old(tag) && text == old(text) && attributes == old(attributes)
      ensures (subElements, removed) == RemoveFirst(old(subElements), pred)
    {
      var i := 0;
      while i < |subElements|
        invariant 0 <= i <= |subElements|
        invariant subElements == old(subElements)
        invariant forall j :: 0 <= j < i ==> !pred(subElements[j])
      {
        if pred(subElements[i]) {
          removed := Some(subElements[i]);
          subElements := subElements[..i] + subElements[i + 1..];
          return;
        }
        i := i + 1;
      }
      removed := None;
    }

    /** Appends `element` after the existing children. */
    method AddElement(element: Element)
      modifies this
      ensures tag == old(tag) && text == old(text) && attributes == old(attributes)
      ensures subElements == old(subElements) + [element]
    {
      subElements := subElements + [element];
    }

    /** Grafts `element` onto the first child `pred` pairs it with,
        merging its children recursively, or else appends it. */
    method MergeWithOrAdd(element: Element, pred: (Element, Element) -> bool)
      modifies this
      ensures Value() == MergeOrAdd(old(Value()), element, pred)
      decreases Size(element)
    {
      var i := 0;
      while i < |subElements|
        invariant 0 <= i <= |subElements|
        invariant Value() == old(Value())
        invariant forall j :: 0 <= j < i ==> !pred(subElements[j], element)
      {
        if pred(subElements[i], element) {
          var child := subElements[i];
          var target := new XmlElement(child.tag, child.text, child.attributes, child.subElements);
          var k := 0;
          while k < |element.subElements|
            invariant 0 <= k <= |element.subElements|
            invariant Value() == old(Value())
            invariant MergeAll(target.Value(), element.subElements[k..], pred)
                   == MergeAll(child, element.subElements, pred)
          {
            SizeAllBound(element.subElements, k);
            assert element.subElements[k..][1..] == element.subElements[k + 1..];
            target.MergeWithOrAdd(element.subElements[k], pred);
            k := k + 1;
          }
          subElements := subElements[i := target.Value()];
          ghost var f := (c: Element) => pred(c, element);
          assert FirstIndex(old(subElements), f) == i;
          return;
        }
        i := i + 1;
      }
      AddElement(element);
    }

    /** Reads events from `pos` into this element: a start event builds a
        child that reads up to its own end and is then appended, a text
        replaces the text, an end or end-of-file stops, a reader error
        fails, anything else is skipped. Returns where reading stopped.
        `started` is the reader's knowledge of whether a start event opened
        this element, against which it checks end tags. */
    method BuildFromReader(events: seq<Event>, pos: nat, started: bool) returns (r: Result<nat, DecodeError>)
      requires pos <= |events|
      modifies this
      ensures r.Ok? ==> pos <= r.value <= |events|
      ensures r.Ok? ==> Build(events[pos..], old(Value()), started) == Ok((Value(), events[r.value..]))
      ensures r.Err? <==> Build(events[pos..], old(Value()), started).Err?
      decreases |events| - pos
    {
      var p := pos;
      while p < |events|
        invariant pos <= p <= |events|
        invariant Build(events[p..], Value(), started) == Build(events[pos..], old(Value()), started)
        decreases |events| - p
      {
        assert events[p..][1..] == events[p + 1..];
        var event := events[p];
        if event.Start? {
          var child := new XmlElement.FromStart(event.tag, event.attributes);
          var built := child.BuildFromReader(events, p + 1, true);
          if built.Err? {
            return Err(built.error);
          }
          AddElement(child.Value());
          p := built.value;
        } else if event.End? {
          if started && event.tag == tag {
            return Ok(p + 1);
          }
          return Err(ReaderError);
        } else if event.Text? {
          text := event.content;
          p := p + 1;
        } else if event.Eof? {
          return Ok(p);
        } else if event.Failure? {
          return Err(ReaderError);
        } else {
          p := p + 1;
        }
      }
      return Ok(p);
    }
  }

  /** `XmlTree::from_str`, with the text already split into events. */
  method FromEvents(events: seq<Event>) returns (r: Result<XmlTree, DecodeError>)
    ensures r == Decode(events)
  {
    var root := new XmlElement("", "", [], []);
    assert events[0..] == events;
    var built := root.BuildFromReader(events, 0, false);
    if built.Err? {
      assert Build(events, Element("", "", [], []), false).Err?;
      assert Build(events, Element("", "", [], []), false).error == ReaderError;
      return Err(ReaderError);
    }
    return Ok(XmlTree(root.Value()));
  }

  /** The indentation closure of `indent`: two spaces, `count` times. */
  method IndentBy(count: int) returns (r: string)
    ensures r == Spaces(count)
  {
    r := "";
    var i := 0;
    while i < count
      invariant (i <= 0 && r == "") || (0 < i <= count && r == Spaces(i))
      decreases count - i
    {
      r := r + "  ";
      i := i + 1;
      assert Spaces(i) == "  " + Spaces(i - 1);
    }
  }

  /** `indent`: one pass over the characters with a depth counter. */
  method Indent(text: string) returns (result: string)
    ensures result == IndentFrom(text, 0)
  {
    result := "";
    var indentation := 0;
    var i := 0;
    while i < |text|
      invariant 0 <= i <= |text|
      invariant result + IndentFrom(text[i..], indentation) == IndentFrom(text, 0)
      decreases |text| - i
    {
      var c := text[i];
      var depth := indentation;
      var piece: string;
      var next: nat;
      if c == '<' {
        if i + 1 < |text| {
          var ch := text[i + 1];
          assert text[i..] == ['<', ch] + text[i + 2..];
          if ch == '/' {
            IndentClose(text[i + 2..], indentation);
            indentation := indentation - 1;
            piece := IndentBy(indentation);
          } else {
            IndentOpen(ch, text[i + 2..], indentation);
            piece := IndentBy(indentation);
            indentation := indentation + 1;
          }
          piece := piece + ['<', ch];
          next := i + 2;
        } else {
          assert text[i..] == ['<'];
          IndentAppend(result, "", text[i..], depth, [], depth, IndentFrom(text, 0));
          return;
        }
      } else if c == '>' {
        assert text[i..] == ">" + text[i + 1..];
        IndentGt(text[i + 1..], indentation);
        piece := ">\n";
        next := i + 1;
      } else {
        assert text[i..] == [c] + text[i + 1..];
        IndentChar(c, text[i + 1..], indentation);
        piece := [c];
        next := i + 1;
      }
      IndentAppend(result, piece, text[i..], depth, text[next..], indentation, IndentFrom(text, 0));
      result := result + piece;
      i := next;
    }
    assert text[i..] == [];
  }

  // ---------------------------------------------------------------------
  // Associativity helpers: `+` regrouped, or one step of a proof restated
  // on plain variables, so that the proofs above stay small. They state no
  // property of the model.

  lemma AppendOne(before: seq<Element>, e: Element, after: seq<Element>)
    ensures before + [e] + after == before + ([e] + after)
  {
  }

  lemma WrappedSplit(first: Event, middle: seq<Event>, last: Event, after: seq<Event>, tail: seq<Event>)
    ensures var s := [first] + middle + [last] + after + tail;
      && s != [] && s[0] == first && s[1..] == middle + ([last] + (after + tail))
  {
    var s := [first] + middle + [last] + after + tail;
    assert s == [first] + (middle + ([last] + (after + tail)));
  }

  lemma ConcatClose(before: string, tag: string)
    ensures before + ("</" + tag + ">") == before + "</" + tag + ">"
  {
  }

  lemma SplitAssoc(tag: string, ra: string, kids: string, rest: string)
    requires tag != []
    ensures ("<" + tag + ra + ">" + kids + "</" + tag + ">") + rest
         == ['<', tag[0]] + (tag[1..] + ra + (">" + (kids + ("</" + (tag + (">" + rest))))))
  {
    assert ['<', tag[0]] + tag[1..] == "<" + tag;
  }

  lemma LayoutAssoc(sp: string, tag: string, ra: string, pa: string, r: string)
    requires tag != []
    ensures sp + ['<', tag[0]] + (tag[1..] + ra + (">\n" + (pa + (sp + "</" + (tag + (">\n" + r))))))
         == sp + "<" + tag + ra + ">\n" + pa + sp + "</" + tag + ">\n" + r
  {
    assert ['<', tag[0]] + (tag[1..] + ra) == "<" + tag + ra;
  }

  lemma IndentSeq(a: string, x: string, rest: string, depth: int, pa: string, px: string)
    requires IndentFrom(a + (x + rest), depth) == pa + IndentFrom(x + rest, depth)
    requires IndentFrom(x + rest, depth) == px + IndentFrom(rest, depth)
    ensures IndentFrom((a + x) + rest, depth) == (pa + px) + IndentFrom(rest, depth)
  {
    assert (a + x) + rest == a + (x + rest);
  }

  /** One step of the indenter's loop, on plain strings. */
  lemma IndentAppend(done: string, piece: string, x: string, d: int, y: string, d': int, whole: string)
    requires done + IndentFrom(x, d) == whole
    requires IndentFrom(x, d) == piece + IndentFrom(y, d')
    ensures (done + piece) + IndentFrom(y, d') == whole
  {
  }
}
