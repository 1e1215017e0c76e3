/**
 The meaning of the code that xsd2c emits for a schema: serializers that call SAX
 callbacks, and deserializers that walk the tree of a document.
 */
module Schema {
  import opened Lists
  import opened Text

  // ---------------------------------------------------------------- schemas and objects

  datatype Kind = StringKind | IntKind | ComplexKind(typ: string)

  /** A field of a complex type: an element, single or a list, or a string attribute. */
  datatype Field = ElementField(name: string, kind: Kind, many: bool) | AttributeField(name: string)

  datatype Type = Type(base: Option<Type>, fields: seq<Field>)

  type Types = map<string, Type>

  /** A field value or a list entry; None is the null pointer. */
  datatype Item = Str(text: Option<string>) | Num(n: int) | Ref(obj: Option<Obj>)

  datatype Value = One(item: Item) | Many(items: seq<Item>)

  datatype Obj = Obj(base: Option<Obj>, values: seq<Value>)

  /** The type of a complex field is known. */
  predicate KnownField(types: Types, f: Field) {
    f.ElementField? && f.kind.ComplexKind? ==> f.kind.typ in types
  }

  /** Every complex field, in the whole inheritance chain, refers to a type of the schema. */
  predicate Linked(types: Types, typ: Type)
    decreases typ
  {
    && (typ.base.Some? ==> Linked(types, typ.base.value))
    && forall f :: f in typ.fields ==> KnownField(types, f)
  }

  ghost predicate WellFormed(types: Types) {
    forall t :: t in types ==> Linked(types, types[t]) && Distinct(AllFields(types[t]))
  }

  /** The fields of the inheritance chain, base first. */
  function AllFields(typ: Type): seq<Field>
    decreases typ
  {
    (if typ.base.Some? then AllFields(typ.base.value) else []) + typ.fields
  }

  function AllValues(obj: Obj): seq<Value>
    decreases obj
  {
    (if obj.base.Some? then AllValues(obj.base.value) else []) + obj.values
  }

  /** No two elements and no two attributes have the same name. */
  ghost predicate Distinct(fields: seq<Field>) {
    forall i, j :: 0 <= i < j < |fields| && fields[i].ElementField? == fields[j].ElementField? ==> fields[i].name != fields[j].name
  }

  // What the C types say about an object: the shape of its values. Base objects are never null.

  predicate ItemConforms(types: Types, kind: Kind, item: Item)
    decreases item
  {
    match kind
    case StringKind => item.Str?
    case IntKind => item.Num? && IsInt32(item.n)
    case ComplexKind(t) => item.Ref? && t in types && (item.obj.Some? ==> Conforms(types, types[t], item.obj.value))
  }

  predicate ValueConforms(types: Types, f: Field, v: Value)
    decreases v
  {
    match f
    case AttributeField(_) => v.One? && v.item.Str?
    case ElementField(_, kind, many) =>
      if many then v.Many? && forall i :: 0 <= i < |v.items| ==> ItemConforms(types, kind, v.items[i])
      else v.One? && ItemConforms(types, kind, v.item)
  }

  predicate Conforms(types: Types, typ: Type, obj: Obj)
    decreases obj
  {
    && typ.base.Some? == obj.base.Some?
    && (typ.base.Some? ==> Conforms(types, typ.base.value, obj.base.value))
    && Match(types, typ.fields, obj.values)
  }

  predicate Match(types: Types, fields: seq<Field>, values: seq<Value>)
    decreases values
  {
    |fields| == |values| && forall i :: 0 <= i < |values| ==> ValueConforms(types, fields[i], values[i])
  }

  // ---------------------------------------------------------------- serializing

  datatype Event = Start(name: string, attrs: seq<Pair>) | Chars(text: string) | End(name: string)

  function ItemEvents(types: Types, kind: Kind, name: string, item: Item): seq<Event>
    requires ItemConforms(types, kind, item)
    decreases item
  {
    match item
    case Str(None) => [Start(name, []), End(name)]
    case Str(Some(s)) => [Start(name, []), Chars(s), End(name)]
    case Num(n) => [Start(name, []), Chars(PrintInt(n)), End(name)]
    case Ref(None) => []
    case Ref(Some(obj)) => Serialize(types, types[kind.typ], obj, name)
  }

  function ItemsEvents(types: Types, kind: Kind, name: string, items: seq<Item>): seq<Event>
    requires forall i :: 0 <= i < |items| ==> ItemConforms(types, kind, items[i])
    decreases items
  {
    if items == [] then [] else ItemEvents(types, kind, name, items[0]) + ItemsEvents(types, kind, name, items[1..])
  }

  function ValueEvents(types: Types, f: Field, v: Value): seq<Event>
    requires ValueConforms(types, f, v)
    decreases v
  {
    if f.AttributeField? then []
    else if f.many then ItemsEvents(types, f.kind, f.name, v.items)
    else ItemEvents(types, f.kind, f.name, v.item)
  }

  /** The events of the fields, in field order. */
  function Body(types: Types, fields: seq<Field>, values: seq<Value>): seq<Event>
    requires Match(types, fields, values)
    decreases values
  {
    if values == [] then [] else ValueEvents(types, fields[0], values[0]) + Body(types, fields[1..], values[1..])
  }

  /** The attributes that are set, in field order. */
  function Attrs(types: Types, fields: seq<Field>, values: seq<Value>): seq<Pair>
    requires Match(types, fields, values)
  {
    if values == [] then [] else Attr(types, fields[0], values[0]) + Attrs(types, fields[1..], values[1..])
  }

  function Attr(types: Types, f: Field, v: Value): seq<Pair>
    requires ValueConforms(types, f, v)
  {
    if f.AttributeField? && v.item.text.Some? then [Pair(f.name, v.item.text.value)] else []
  }

  /**
   The start and end callbacks of an extended type, called with the events of its base
   type, and what they pass on: at depth 0 the type's attributes are added to those
   of the base, and when the depth is back at 0 the type's elements go out before the end.
   */
  function Intercept(depth: int, events: seq<Event>, attrs: seq<Pair>, body: seq<Event>): seq<Event>
    decreases |events|
  {
    if events == [] then []
    else
      var rest := events[1..];
      match events[0]
      case Start(name, own) =>
        [Start(name, own + if depth == 0 then attrs else [])] + Intercept(depth + 1, rest, attrs, body)
      case Chars(text) => [Chars(text)] + Intercept(depth, rest, attrs, body)
      case End(name) =>
        (if depth - 1 > 0 then [End(name)] else body + [End(name)]) + Intercept(depth - 1, rest, attrs, body)
  }

  /** The emitted Sax_Serialize function of a type. */
  function Serialize(types: Types, typ: Type, obj: Obj, name: string): seq<Event>
    requires Conforms(types, typ, obj)
    decreases obj
  {
    var attrs, body := Attrs(types, typ.fields, obj.values), Body(types, typ.fields, obj.values);
    if typ.base.Some? then Intercept(0, Serialize(types, typ.base.value, obj.base.value, name), attrs, body)
    else [Start(name, attrs)] + body + [End(name)]
  }

  // ---------------------------------------------------------------- documents

  datatype XmlNode = Element(name: string, attrs: seq<Pair>, children: seq<XmlNode>) | TextNode(text: string)

  predicate Opened(open: seq<XmlNode>) {
    open != [] && forall n :: n in open ==> n.Element?
  }

  /** The open elements, the innermost last, after one more event; empty text leaves no node. */
  function Feed(open: seq<XmlNode>, e: Event): (r: seq<XmlNode>)
    requires Opened(open)
    ensures Opened(r)
  {
    match e
    case Start(name, attrs) => open + [Element(name, attrs, [])]
    case Chars(text) => if text == "" then open else AddNodes(open, [TextNode(text)])
    case End(_) => if |open| == 1 then open else AddNodes(open[..|open| - 1], [open[|open| - 1]])
  }

  /** Children added to the innermost open element. */
  function AddNodes(open: seq<XmlNode>, nodes: seq<XmlNode>): (r: seq<XmlNode>)
    requires Opened(open)
    ensures Opened(r) && |r| == |open|
  {
    var last := open[|open| - 1];
    open[..|open| - 1] + [last.(children := last.children + nodes)]
  }

  function FeedAll(open: seq<XmlNode>, events: seq<Event>): (r: seq<XmlNode>)
    requires Opened(open)
    ensures Opened(r)
    decreases |events|
  {
    if events == [] then open else FeedAll(Feed(open, events[0]), events[1..])
  }

  const DOCUMENT := Element("", [], [])

  /** The top-level nodes of the document that the events describe. */
  function Parse(events: seq<Event>): seq<XmlNode> {
    FeedAll([DOCUMENT], events)[0].children
  }

  // ---------------------------------------------------------------- deserializing

  /** xmlNodeListGetString: the text among the nodes; None if there is none. */
  function TextOf(nodes: seq<XmlNode>): Option<string> {
    if nodes == [] then None
    else
      match (nodes[0], TextOf(nodes[1..]))
      case (TextNode(s), None) => Some(s)
      case (TextNode(s), Some(more)) => Some(s + more)
      case (_, text) => text
  }

  /** An item read from its element; None if a null pointer is used as a string. */
  function ReadItem(types: Types, kind: Kind, node: XmlNode): Option<Item>
    requires node.Element? && LinkedTypes(types) && (kind.ComplexKind? ==> kind.typ in types)
    decreases node, 1
  {
    match kind
    case StringKind => (match TextOf(node.children) case None => None case Some(s) => Some(Str(Some(s))))
    case IntKind => (match TextOf(node.children) case None => None case Some(s) => Some(Num(AToI(s))))
    case ComplexKind(t) =>
      match Deserialize(types, types[t], node)
      case None => None
      case Some(obj) => Some(Ref(Some(obj)))
  }

  predicate LinkedTypes(types: Types) {
    forall t :: t in types ==> Linked(types, types[t])
  }

  /** A setter or, for a list, an adder. */
  function Put(v: Value, item: Item): Value {
    match v
    case One(_) => One(item)
    case Many(items) => Many(items + [item])
  }

  /** What the test for one field does with a child. */
  function Absorb(types: Types, f: Field, v: Value, node: XmlNode): Option<Value>
    requires LinkedTypes(types) && KnownField(types, f)
    decreases node, 2
  {
    if node.Element? && f.ElementField? && node.name == f.name then
      match ReadItem(types, f.kind, node)
      case None => None
      case Some(item) => Some(Put(v, item))
    else Some(v)
  }

  /** The loop over the children; each one is compared with every field. */
  function Fill(types: Types, fields: seq<Field>, values: seq<Value>, children: seq<XmlNode>): (r: Option<seq<Value>>)
    requires LinkedTypes(types) && |fields| == |values|
    requires forall f :: f in fields ==> KnownField(types, f)
    ensures r.Some? ==> |r.value| == |fields|
    decreases children
  {
    if children == [] then Some(values)
    else if exists i :: 0 <= i < |fields| && Absorb(types, fields[i], values[i], children[0]).None? then None
    else
      var next := seq(|fields|, i requires 0 <= i < |fields| => Absorb(types, fields[i], values[i], children[0]).value);
      Fill(types, fields, next, children[1..])
  }

  /** The values that the emitted Create function sets, and then the attributes that are found. */
  function Initial(f: Field, attrs: seq<Pair>): Value {
    match f
    case AttributeField(name) => One(Str(FirstValue(attrs, name)))
    case ElementField(_, kind, many) =>
      if many then Many([])
      else
        match kind
        case StringKind => One(Str(None))
        case IntKind => One(Num(0))
        case ComplexKind(_) => One(Ref(None))
  }

  function Initials(fields: seq<Field>, attrs: seq<Pair>): seq<Value> {
    seq(|fields|, i requires 0 <= i < |fields| => Initial(fields[i], attrs))
  }

  /** The emitted Deserialize function of a type; the base object is read from the same element. */
  function Deserialize(types: Types, typ: Type, root: XmlNode): Option<Obj>
    requires root.Element? && LinkedTypes(types) && Linked(types, typ)
    decreases root, 0, typ
  {
    var base := if typ.base.Some? then Deserialize(types, typ.base.value, root) else None;
    if typ.base.Some? && base.None? then None
    else
      match Fill(types, typ.fields, Initials(typ.fields, root.attrs), root.children)
      case None => None
      case Some(values) => Some(Obj(base, values))
  }

  // ---------------------------------------------------------------- extension by interception

  /** The depth after the events, which begin at the given depth; 0 for good once it gets there. */
  function DepthAfter(events: seq<Event>, depth: nat): nat {
    if depth == 0 || events == [] then depth
    else
      match events[0]
      case Start(_, _) => DepthAfter(events[1..], depth + 1)
      case Chars(_) => DepthAfter(events[1..], depth)
      case End(_) => DepthAfter(events[1..], depth - 1)
  }

  lemma {:induction false} DepthJoin(a: seq<Event>, b: seq<Event>, depth: nat)
    ensures DepthAfter(a + b, depth) == DepthAfter(b, DepthAfter(a, depth))
    decreases |a|
  {
    if a == [] {
      assert a + b == b;
    } else if depth > 0 {
      assert (a + b)[1..] == a[1..] + b;
      DepthJoin(a[1..], b, if a[0].Start? then depth + 1 else if a[0].End? then depth - 1 else depth);
    }
  }

  /** Events inside an element pass the interception unchanged. */
  lemma {:induction false} PassesThrough(depth: nat, inner: seq<Event>, rest: seq<Event>, attrs: seq<Pair>, body: seq<Event>)
    requires DepthAfter(inner, depth) > 0
    ensures Intercept(depth, inner + rest, attrs, body) == inner + Intercept(DepthAfter(inner, depth), rest, attrs, body)
    decreases |inner|
  {
    if inner == [] {
      assert inner + rest == rest;
    } else {
      var more := inner[1..] + rest;
      assert (inner + rest)[1..] == more && (inner + rest)[0] == inner[0];
      var next := if inner[0].Start? then depth + 1 else if inner[0].End? then depth - 1 else depth;
      PassesThrough(next, inner[1..], rest, attrs, body);
      assert Intercept(depth, inner + rest, attrs, body) == [inner[0]] + Intercept(next, more, attrs, body) by {
        assert inner[0].Start? ==> inner[0].attrs + [] == inner[0].attrs;
      }
      HeadFirst(inner, Intercept(DepthAfter(inner, depth), rest, attrs, body));
    }
  }

  lemma HeadFirst<T>(s: seq<T>, t: seq<T>)
    requires s != []
    ensures [s[0]] + (s[1..] + t) == s + t
  {
  }

  /**
   One well-nested element that passes the interception is one element again, with its
   attributes and then the type's, and its content and then the type's.
   */
  lemma InterceptElement(name: string, own: seq<Pair>, inner: seq<Event>, attrs: seq<Pair>, body: seq<Event>)
    requires DepthAfter(inner, 1) == 1
    ensures Intercept(0, [Start(name, own)] + inner + [End(name)], attrs, body)
         == [Start(name, own + attrs)] + (inner + body) + [End(name)]
  {
    var events := [Start(name, own)] + inner + [End(name)];
    assert events[1..] == inner + [End(name)];
    PassesThrough(1, inner, [End(name)], attrs, body);
    assert Intercept(1, [End(name)], attrs, body) == body + [End(name)] + Intercept(0, [End(name)][1..], attrs, body);
  }

  /** The attributes of the whole inheritance chain, base first. */
  function AllAttrs(types: Types, typ: Type, obj: Obj): seq<Pair>
    requires Conforms(types, typ, obj)
    decreases obj
  {
    (if typ.base.Some? then AllAttrs(types, typ.base.value, obj.base.value) else []) + Attrs(types, typ.fields, obj.values)
  }

  /** The content events of the whole inheritance chain, base first. */
  function AllBody(types: Types, typ: Type, obj: Obj): seq<Event>
    requires Conforms(types, typ, obj)
    decreases obj
  {
    (if typ.base.Some? then AllBody(types, typ.base.value, obj.base.value) else []) + Body(types, typ.fields, obj.values)
  }

  lemma {:induction false} ItemDepth(types: Types, kind: Kind, name: string, item: Item, depth: nat)
    requires ItemConforms(types, kind, item) && depth > 0
    ensures DepthAfter(ItemEvents(types, kind, name, item), depth) == depth
    decreases item, 1
  {
    match item
    case Str(None) =>
      assert [Start(name, []), End(name)] == [Start(name, [])] + [] + [End(name)];
      ElementDepth(name, [], [], depth);
    case Str(Some(s)) => LeafDepth(name, s, depth);
    case Num(n) => LeafDepth(name, PrintInt(n), depth);
    case Ref(None) =>
    case Ref(Some(obj)) =>
      SerializeShape(types, types[kind.typ], obj, name);
      AllBodyDepth(types, types[kind.typ], obj, depth + 1);
      ElementDepth(name, AllAttrs(types, types[kind.typ], obj), AllBody(types, types[kind.typ], obj), depth);
  }

  lemma LeafDepth(name: string, text: string, depth: nat)
    requires depth > 0
    ensures DepthAfter([Start(name, []), Chars(text), End(name)], depth) == depth
  {
    assert [Start(name, []), Chars(text), End(name)] == [Start(name, [])] + [Chars(text)] + [End(name)];
    assert [Chars(text)][1..] == [];
    ElementDepth(name, [], [Chars(text)], depth);
  }

  lemma ElementDepth(name: string, attrs: seq<Pair>, inner: seq<Event>, depth: nat)
    requires depth > 0 && DepthAfter(inner, depth + 1) == depth + 1
    ensures DepthAfter([Start(name, attrs)] + inner + [End(name)], depth) == depth
  {
    var events := [Start(name, attrs)] + inner + [End(name)];
    assert events[1..] == inner + [End(name)];
    DepthJoin(inner, [End(name)], depth + 1);
  }

  lemma {:induction false} ItemsDepth(types: Types, kind: Kind, name: string, items: seq<Item>, depth: nat)
    requires (forall i :: 0 <= i < |items| ==> ItemConforms(types, kind, items[i])) && depth > 0
    ensures DepthAfter(ItemsEvents(types, kind, name, items), depth) == depth
    decreases items
  {
    if items != [] {
      ItemDepth(types, kind, name, items[0], depth);
      ItemsDepth(types, kind, name, items[1..], depth);
      DepthJoin(ItemEvents(types, kind, name, items[0]), ItemsEvents(types, kind, name, items[1..]), depth);
    }
  }

  lemma ValueDepth(types: Types, f: Field, v: Value, depth: nat)
    requires ValueConforms(types, f, v) && depth > 0
    ensures DepthAfter(ValueEvents(types, f, v), depth) == depth
    decreases v
  {
    if f.ElementField? {
      if f.many {
        ItemsDepth(types, f.kind, f.name, v.items, depth);
      } else {
        ItemDepth(types, f.kind, f.name, v.item, depth);
      }
    }
  }

  lemma {:induction false} BodyDepth(types: Types, fields: seq<Field>, values: seq<Value>, depth: nat)
    requires Match(types, fields, values) && depth > 0
    ensures DepthAfter(Body(types, fields, values), depth) == depth
    decreases values
  {
    if values != [] {
      ValueDepth(types, fields[0], values[0], depth);
      BodyDepth(types, fields[1..], values[1..], depth);
      DepthJoin(ValueEvents(types, fields[0], values[0]), Body(types, fields[1..], values[1..]), depth);
    }
  }

  lemma {:induction false} AllBodyDepth(types: Types, typ: Type, obj: Obj, depth: nat)
    requires Conforms(types, typ, obj) && depth > 0
    ensures DepthAfter(AllBody(types, typ, obj), depth) == depth
    decreases obj, 0
  {
    var own := Body(types, typ.fields, obj.values);
    BodyDepth(types, typ.fields, obj.values, depth);
    if typ.base.Some? {
      AllBodyDepth(types, typ.base.value, obj.base.value, depth);
      DepthJoin(AllBody(types, typ.base.value, obj.base.value), own, depth);
    } else {
      assert [] + own == own;
    }
  }

  /**
   Whatever the length of the inheritance chain, an object goes out as one element with
   the attributes of all its types and the content of all its types, base first.
   */
  lemma {:induction false} SerializeShape(types: Types, typ: Type, obj: Obj, name: string)
    requires Conforms(types, typ, obj)
    ensures Serialize(types, typ, obj, name)
         == [Start(name, AllAttrs(types, typ, obj))] + AllBody(types, typ, obj) + [End(name)]
    decreases obj, 1
  {
    var attrs, body := Attrs(types, typ.fields, obj.values), Body(types, typ.fields, obj.values);
    if typ.base.Some? {
      var base, inner := typ.base.value, obj.base.value;
      SerializeShape(types, base, inner, name);
      AllBodyDepth(types, base, inner, 1);
      InterceptElement(name, AllAttrs(types, base, inner), AllBody(types, base, inner), attrs, body);
    } else {
      assert [] + attrs == attrs && [] + body == body;
    }
  }

  // ---------------------------------------------------------------- the document of an object

  function ItemNodes(types: Types, kind: Kind, name: string, item: Item): seq<XmlNode>
    requires ItemConforms(types, kind, item)
    decreases item, 1
  {
    match item
    case Str(None) => [Element(name, [], [])]
    case Str(Some(s)) => [Element(name, [], if s == "" then [] else [TextNode(s)])]
    case Num(n) => [Element(name, [], [TextNode(PrintInt(n))])]
    case Ref(None) => []
    case Ref(Some(obj)) => [Tree(types, types[kind.typ], obj, name)]
  }

  function ItemsNodes(types: Types, kind: Kind, name: string, items: seq<Item>): seq<XmlNode>
    requires forall i :: 0 <= i < |items| ==> ItemConforms(types, kind, items[i])
    decreases items
  {
    if items == [] then [] else ItemNodes(types, kind, name, items[0]) + ItemsNodes(types, kind, name, items[1..])
  }

  function ValueNodes(types: Types, f: Field, v: Value): seq<XmlNode>
    requires ValueConforms(types, f, v)
    decreases v
  {
    if f.AttributeField? then []
    else if f.many then ItemsNodes(types, f.kind, f.name, v.items)
    else ItemNodes(types, f.kind, f.name, v.item)
  }

  function BodyNodes(types: Types, fields: seq<Field>, values: seq<Value>): seq<XmlNode>
    requires Match(types, fields, values)
    decreases values
  {
    if values == [] then [] else ValueNodes(types, fields[0], values[0]) + BodyNodes(types, fields[1..], values[1..])
  }

  function AllNodes(types: Types, typ: Type, obj: Obj): seq<XmlNode>
    requires Conforms(types, typ, obj)
    decreases obj, 0
  {
    (if typ.base.Some? then AllNodes(types, typ.base.value, obj.base.value) else []) + BodyNodes(types, typ.fields, obj.values)
  }

  /** The element that an object should become. */
  function Tree(types: Types, typ: Type, obj: Obj, name: string): (r: XmlNode)
    requires Conforms(types, typ, obj)
    ensures r.Element? && r.name == name
    decreases obj, 1
  {
    Element(name, AllAttrs(types, typ, obj), AllNodes(types, typ, obj))
  }

  lemma {:induction false} FeedJoin(open: seq<XmlNode>, a: seq<Event>, b: seq<Event>)
    requires Opened(open)
    ensures FeedAll(open, a + b) == FeedAll(FeedAll(open, a), b)
    decreases |a|
  {
    hide Feed;
    if a == [] {
      assert a + b == b;
    } else {
      assert (a + b)[1..] == a[1..] + b;
      FeedJoin(Feed(open, a[0]), a[1..], b);
    }
  }

  lemma AddJoin(open: seq<XmlNode>, a: seq<XmlNode>, b: seq<XmlNode>)
    requires Opened(open)
    ensures AddNodes(AddNodes(open, a), b) == AddNodes(open, a + b)
    ensures AddNodes(open, []) == open
  {
    var last := open[|open| - 1];
    assert last.children + a + b == last.children + (a + b);
    assert last.children + [] == last.children;
  }

  /** The events add the nodes to the innermost element. */
  ghost predicate Builds(open: seq<XmlNode>, events: seq<Event>, nodes: seq<XmlNode>) {
    Opened(open) && FeedAll(open, events) == AddNodes(open, nodes)
  }

  lemma BuildsJoin(open: seq<XmlNode>, a: seq<Event>, m: seq<XmlNode>, b: seq<Event>, n: seq<XmlNode>)
    requires Builds(open, a, m) && Builds(AddNodes(open, m), b, n)
    ensures Builds(open, a + b, m + n)
  {
    hide Feed, FeedAll, AddNodes;
    FeedJoin(open, a, b);
    AddJoin(open, m, n);
  }

  lemma BuildsElement(open: seq<XmlNode>, name: string, attrs: seq<Pair>, inner: seq<Event>, nodes: seq<XmlNode>)
    requires Opened(open) && Builds(open + [Element(name, attrs, [])], inner, nodes)
    ensures Builds(open, [Start(name, attrs)] + inner + [End(name)], [Element(name, attrs, nodes)])
  {
    var events := [Start(name, attrs)] + inner + [End(name)];
    var inside := open + [Element(name, attrs, [])];
    assert events[1..] == inner + [End(name)];
    FeedJoin(inside, inner, [End(name)]);
    var full := AddNodes(inside, nodes);
    assert [] + nodes == nodes;
    assert full == open + [Element(name, attrs, nodes)];
    assert full[..|full| - 1] == open;
    assert [End(name)][1..] == [];
  }

  lemma BuildsLeaf(open: seq<XmlNode>, name: string, text: string)
    requires Opened(open)
    ensures Builds(open, [Start(name, []), Chars(text), End(name)], [Element(name, [], if text == "" then [] else [TextNode(text)])])
  {
    hide AddNodes;
    var inside := open + [Element(name, [], [])];
    AddJoin(inside, [], []);
    assert [Chars(text)][1..] == [];
    BuildsElement(open, name, [], [Chars(text)], if text == "" then [] else [TextNode(text)]);
    assert [Start(name, []), Chars(text), End(name)] == [Start(name, [])] + [Chars(text)] + [End(name)];
  }

  lemma {:induction false} BuildsItem(open: seq<XmlNode>, types: Types, kind: Kind, name: string, item: Item)
    requires Opened(open) && ItemConforms(types, kind, item)
    ensures Builds(open, ItemEvents(types, kind, name, item), ItemNodes(types, kind, name, item))
    decreases item, 1
  {
    hide Builds;
    match item
    case Str(None) =>
      BuildsNothing(open + [Element(name, [], [])]);
      BuildsElement(open, name, [], [], []);
      assert [Start(name, []), End(name)] == [Start(name, [])] + [] + [End(name)];
    case Str(Some(s)) => BuildsLeaf(open, name, s);
    case Num(n) =>
      assert PrintInt(n) != "";
      BuildsLeaf(open, name, PrintInt(n));
    case Ref(None) => BuildsNothing(open);
    case Ref(Some(obj)) => BuildsTree(open, types, types[kind.typ], obj, name);
  }

  lemma BuildsNothing(open: seq<XmlNode>)
    requires Opened(open)
    ensures Builds(open, [], [])
  {
    AddJoin(open, [], []);
  }

  lemma {:induction false} BuildsItems(open: seq<XmlNode>, types: Types, kind: Kind, name: string, items: seq<Item>)
    requires Opened(open) && forall i :: 0 <= i < |items| ==> ItemConforms(types, kind, items[i])
    ensures Builds(open, ItemsEvents(types, kind, name, items), ItemsNodes(types, kind, name, items))
    decreases items
  {
    hide Builds, ItemConforms, ItemEvents, ItemNodes;
    if items == [] {
      BuildsNothing(open);
    } else {
      var nodes := ItemNodes(types, kind, name, items[0]);
      BuildsItem(open, types, kind, name, items[0]);
      BuildsItems(AddNodes(open, nodes), types, kind, name, items[1..]);
      BuildsJoin(open, ItemEvents(types, kind, name, items[0]), nodes,
                 ItemsEvents(types, kind, name, items[1..]), ItemsNodes(types, kind, name, items[1..]));
    }
  }

  lemma BuildsValue(open: seq<XmlNode>, types: Types, f: Field, v: Value)
    requires Opened(open) && ValueConforms(types, f, v)
    ensures Builds(open, ValueEvents(types, f, v), ValueNodes(types, f, v))
    decreases v
  {
    hide Builds, ItemConforms, ItemEvents, ItemNodes;
    if f.AttributeField? {
      BuildsNothing(open);
    } else if f.many {
      BuildsItems(open, types, f.kind, f.name, v.items);
    } else {
      BuildsItem(open, types, f.kind, f.name, v.item);
    }
  }

  lemma {:induction false} BuildsBody(open: seq<XmlNode>, types: Types, fields: seq<Field>, values: seq<Value>)
    requires Opened(open) && Match(types, fields, values)
    ensures Builds(open, Body(types, fields, values), BodyNodes(types, fields, values))
    decreases values
  {
    hide Builds, ValueConforms, ValueEvents, ValueNodes;
    if values == [] {
      BuildsNothing(open);
    } else {
      var nodes := ValueNodes(types, fields[0], values[0]);
      BuildsValue(open, types, fields[0], values[0]);
      BuildsBody(AddNodes(open, nodes), types, fields[1..], values[1..]);
      BuildsJoin(open, ValueEvents(types, fields[0], values[0]), nodes,
                 Body(types, fields[1..], values[1..]), BodyNodes(types, fields[1..], values[1..]));
    }
  }

  lemma {:induction false} BuildsAll(open: seq<XmlNode>, types: Types, typ: Type, obj: Obj)
    requires Opened(open) && Conforms(types, typ, obj)
    ensures Builds(open, AllBody(types, typ, obj), AllNodes(types, typ, obj))
    decreases obj, 0
  {
    hide Builds, Match, Body, BodyNodes;
    if typ.base.None? {
      BuildsBody(open, types, typ.fields, obj.values);
      assert AllBody(types, typ, obj) == Body(types, typ.fields, obj.values);
      assert AllNodes(types, typ, obj) == BodyNodes(types, typ.fields, obj.values);
    } else {
      var nodes := AllNodes(types, typ.base.value, obj.base.value);
      BuildsAll(open, types, typ.base.value, obj.base.value);
      BuildsBody(AddNodes(open, nodes), types, typ.fields, obj.values);
      BuildsJoin(open, AllBody(types, typ.base.value, obj.base.value), nodes,
                 Body(types, typ.fields, obj.values), BodyNodes(types, typ.fields, obj.values));
    }
  }

  lemma {:induction false} BuildsTree(open: seq<XmlNode>, types: Types, typ: Type, obj: Obj, name: string)
    requires Opened(open) && Conforms(types, typ, obj)
    ensures Builds(open, Serialize(types, typ, obj, name), [Tree(types, typ, obj, name)])
    decreases obj, 1
  {
    hide Builds, Conforms, Serialize, AllBody, AllNodes, AllAttrs;
    SerializeShape(types, typ, obj, name);
    BuildsAll(open + [Element(name, AllAttrs(types, typ, obj), [])], types, typ, obj);
    BuildsElement(open, name, AllAttrs(types, typ, obj), AllBody(types, typ, obj), AllNodes(types, typ, obj));
  }

  /** The events of an object describe a document with just its element. */
  lemma ParseSerialized(types: Types, typ: Type, obj: Obj, name: string)
    requires Conforms(types, typ, obj)
    ensures Parse(Serialize(types, typ, obj, name)) == [Tree(types, typ, obj, name)]
  {
    hide Conforms, Serialize, Tree, FeedAll;
    BuildsTree([DOCUMENT], types, typ, obj, name);
  }

  // ---------------------------------------------------------------- objects come back

  predicate ItemComplete(types: Types, kind: Kind, item: Item)
    requires ItemConforms(types, kind, item)
    decreases item
  {
    match item
    case Str(text) => text.Some? && text.value != ""
    case Num(_) => true
    case Ref(obj) => obj.Some? && Complete(types, types[kind.typ], obj.value)
  }

  predicate ValueComplete(types: Types, f: Field, v: Value)
    requires ValueConforms(types, f, v)
    decreases v
  {
    f.ElementField? ==>
      if f.many then forall i :: 0 <= i < |v.items| ==> ItemComplete(types, f.kind, v.items[i])
      else v.item == Ref(None) || ItemComplete(types, f.kind, v.item)
  }

  /**
   Every string element, throughout the object, is present and not empty, and no list has a
   null entry. Attributes may be absent or empty, and single complex fields null.
   */
  predicate Complete(types: Types, typ: Type, obj: Obj)
    requires Conforms(types, typ, obj)
    decreases obj
  {
    && (typ.base.Some? ==> Complete(types, typ.base.value, obj.base.value))
    && ValuesComplete(types, typ.fields, obj.values)
  }

  predicate ValuesComplete(types: Types, fields: seq<Field>, values: seq<Value>)
    requires Match(types, fields, values)
    decreases values
  {
    forall i :: 0 <= i < |values| ==> ValueComplete(types, fields[i], values[i])
  }

  /** The loop over the children, as it affects a single field. */
  function Slot(types: Types, f: Field, v: Value, children: seq<XmlNode>): Option<Value>
    requires LinkedTypes(types) && KnownField(types, f)
    decreases |children|
  {
    if children == [] then Some(v)
    else
      match Absorb(types, f, v, children[0])
      case None => None
      case Some(v') => Slot(types, f, v', children[1..])
  }

  /** The loop over the children fills each field independently of the others. */
  lemma {:induction false} FillSlots(types: Types, fields: seq<Field>, values: seq<Value>, children: seq<XmlNode>)
    requires LinkedTypes(types) && |fields| == |values| && forall f :: f in fields ==> KnownField(types, f)
    ensures var r := Fill(types, fields, values, children);
            && (r.Some? <==> forall i :: 0 <= i < |fields| ==> Slot(types, fields[i], values[i], children).Some?)
            && (r.Some? ==> forall i :: 0 <= i < |fields| ==> Some(r.value[i]) == Slot(types, fields[i], values[i], children))
    decreases |children|
  {
    hide Absorb;
    if children != [] {
      if forall i :: 0 <= i < |fields| ==> Absorb(types, fields[i], values[i], children[0]).Some? {
        var next := seq(|fields|, i requires 0 <= i < |fields| => Absorb(types, fields[i], values[i], children[0]).value);
        FillSlots(types, fields, next, children[1..]);
        assert forall i :: 0 <= i < |fields| ==> Slot(types, fields[i], values[i], children) == Slot(types, fields[i], next[i], children[1..]);
        assert Fill(types, fields, values, children) == Fill(types, fields, next, children[1..]);
      } else {
        var i :| 0 <= i < |fields| && Absorb(types, fields[i], values[i], children[0]).None?;
        assert Slot(types, fields[i], values[i], children).None?;
      }
    }
  }

  /** The elements with a name. */
  function Named(nodes: seq<XmlNode>, name: string): seq<XmlNode> {
    if nodes == [] then []
    else (if nodes[0].Element? && nodes[0].name == name then [nodes[0]] else []) + Named(nodes[1..], name)
  }

  lemma {:induction false} NamedJoin(a: seq<XmlNode>, b: seq<XmlNode>, name: string)
    ensures Named(a + b, name) == Named(a, name) + Named(b, name)
  {
    if a == [] {
      assert a + b == b;
    } else {
      assert (a + b)[1..] == a[1..] + b;
      NamedJoin(a[1..], b, name);
    }
  }

  lemma {:induction false} SlotNamed(types: Types, f: Field, v: Value, children: seq<XmlNode>)
    requires LinkedTypes(types) && KnownField(types, f)
    ensures f.ElementField? ==> Slot(types, f, v, children) == Slot(types, f, v, Named(children, f.name))
    ensures f.AttributeField? ==> Slot(types, f, v, children) == Some(v)
    decreases |children|
  {
    hide ReadItem, Put;
    if children != [] {
      var named, more := Named(children, f.name), Named(children[1..], f.name);
      if children[0].Element? && children[0].name == f.name {
        assert named[0] == children[0] && named[1..] == more;
      } else {
        assert named == more;
      }
      match Absorb(types, f, v, children[0])
      case None =>
      case Some(v') => SlotNamed(types, f, v', children[1..]);
    }
  }

  /** All nodes of a field have its name. */
  lemma {:induction false} NamedItems(types: Types, kind: Kind, name: string, items: seq<Item>, other: string)
    requires forall i :: 0 <= i < |items| ==> ItemConforms(types, kind, items[i])
    ensures Named(ItemsNodes(types, kind, name, items), other) == if name == other then ItemsNodes(types, kind, name, items) else []
  {
    hide ItemConforms;
    if items != [] {
      NamedItem(types, kind, name, items[0], other);
      NamedItems(types, kind, name, items[1..], other);
      NamedJoin(ItemNodes(types, kind, name, items[0]), ItemsNodes(types, kind, name, items[1..]), other);
    }
  }

  lemma NamedItem(types: Types, kind: Kind, name: string, item: Item, other: string)
    requires ItemConforms(types, kind, item)
    ensures Named(ItemNodes(types, kind, name, item), other) == if name == other then ItemNodes(types, kind, name, item) else []
  {
    var nodes := ItemNodes(types, kind, name, item);
    if nodes != [] {
      assert nodes == [nodes[0]] && nodes[0].name == name && nodes[1..] == [];
    }
  }

  lemma NamedValue(types: Types, f: Field, v: Value, name: string)
    requires ValueConforms(types, f, v)
    ensures Named(ValueNodes(types, f, v), name) == if f.name == name then ValueNodes(types, f, v) else []
  {
    hide ItemConforms, ItemNodes;
    if f.ElementField? {
      if f.many {
        NamedItems(types, f.kind, f.name, v.items, name);
      } else {
        NamedItem(types, f.kind, f.name, v.item, name);
      }
    }
  }

  lemma {:induction false} NamedAbsent(types: Types, fields: seq<Field>, values: seq<Value>, name: string)
    requires Match(types, fields, values) && forall f :: f in fields && f.ElementField? ==> f.name != name
    ensures Named(BodyNodes(types, fields, values), name) == []
    decreases |fields|
  {
    hide ValueConforms, ValueNodes;
    if values != [] {
      assert fields[0] in fields;
      NamedValue(types, fields[0], values[0], name);
      NoNodes(types, fields[0], values[0]);
      NamedAbsent(types, fields[1..], values[1..], name);
      NamedJoin(ValueNodes(types, fields[0], values[0]), BodyNodes(types, fields[1..], values[1..]), name);
    }
  }

  lemma NoNodes(types: Types, f: Field, v: Value)
    requires ValueConforms(types, f, v)
    ensures f.AttributeField? ==> ValueNodes(types, f, v) == []
  {
  }

  /** Among the nodes of all fields, those with the name of a field are the field's. */
  lemma {:induction false} NamedBody(types: Types, fields: seq<Field>, values: seq<Value>, i: nat)
    requires Match(types, fields, values) && Distinct(fields) && i < |fields| && fields[i].ElementField?
    ensures Named(BodyNodes(types, fields, values), fields[i].name) == ValueNodes(types, fields[i], values[i])
    decreases |fields|
  {
    hide ValueConforms, ValueNodes;
    var name := fields[i].name;
    var first, rest := ValueNodes(types, fields[0], values[0]), BodyNodes(types, fields[1..], values[1..]);
    NamedValue(types, fields[0], values[0], name);
    NamedJoin(first, rest, name);
    if i == 0 {
      assert forall f :: f in fields[1..] && f.ElementField? ==> f.name != name;
      NamedAbsent(types, fields[1..], values[1..], name);
    } else {
      NoNodes(types, fields[0], values[0]);
      assert fields[0].ElementField? ==> fields[0].name != name;
      NamedBody(types, fields[1..], values[1..], i - 1);
    }
  }

  lemma {:induction false} AttrAbsent(types: Types, fields: seq<Field>, values: seq<Value>, name: string)
    requires Match(types, fields, values) && forall f :: f in fields && f.AttributeField? ==> f.name != name
    ensures FirstValue(Attrs(types, fields, values), name) == None
    decreases |fields|
  {
    hide ValueConforms;
    if values != [] {
      assert fields[0] in fields;
      AttrAbsent(types, fields[1..], values[1..], name);
      FirstJoin(Attr(types, fields[0], values[0]), Attrs(types, fields[1..], values[1..]), name);
      AttrFirst(types, fields[0], values[0], name);
    }
  }

  lemma AttrFirst(types: Types, f: Field, v: Value, name: string)
    requires ValueConforms(types, f, v)
    ensures FirstValue(Attr(types, f, v), name) == if f.AttributeField? && f.name == name then v.item.text else None
  {
  }

  lemma {:induction false} FirstJoin(a: seq<Pair>, b: seq<Pair>, name: string)
    ensures FirstValue(a + b, name) == if FirstValue(a, name).Some? then FirstValue(a, name) else FirstValue(b, name)
  {
    if a == [] {
      assert a + b == b;
    } else {
      assert (a + b)[1..] == a[1..] + b;
      FirstJoin(a[1..], b, name);
    }
  }

  /** Each attribute field finds its own attribute. */
  lemma {:induction false} AttrFound(types: Types, fields: seq<Field>, values: seq<Value>, i: nat)
    requires Match(types, fields, values) && Distinct(fields) && i < |fields| && fields[i].AttributeField?
    requires ValueConforms(types, fields[i], values[i])
    ensures FirstValue(Attrs(types, fields, values), fields[i].name) == values[i].item.text
    decreases |fields|
  {
    hide Attr;
    var name := fields[i].name;
    FirstJoin(Attr(types, fields[0], values[0]), Attrs(types, fields[1..], values[1..]), name);
    AttrFirst(types, fields[0], values[0], name);
    if i == 0 {
      assert forall f :: f in fields[1..] && f.AttributeField? ==> f.name != name;
      AttrAbsent(types, fields[1..], values[1..], name);
    } else {
      assert fields[0].AttributeField? ==> fields[0].name != name;
      AttrFound(types, fields[1..], values[1..], i - 1);
    }
  }

  // The whole chain, flattened.

  lemma {:induction false} BodyNodesJoin(types: Types, f: seq<Field>, v: seq<Value>, g: seq<Field>, w: seq<Value>)
    requires Match(types, f, v) && Match(types, g, w)
    ensures Match(types, f + g, v + w)
    ensures BodyNodes(types, f + g, v + w) == BodyNodes(types, f, v) + BodyNodes(types, g, w)
    ensures Attrs(types, f + g, v + w) == Attrs(types, f, v) + Attrs(types, g, w)
    decreases |v|
  {
    hide ValueConforms, ValueNodes, Attr;
    if v == [] {
      assert f + g == g && v + w == w;
    } else {
      BodyNodesJoin(types, f[1..], v[1..], g, w);
      assert (f + g)[1..] == f[1..] + g && (v + w)[1..] == v[1..] + w;
    }
  }

  lemma {:induction false} Flatten(types: Types, typ: Type, obj: Obj)
    requires Conforms(types, typ, obj)
    ensures Match(types, AllFields(typ), AllValues(obj))
    ensures AllNodes(types, typ, obj) == BodyNodes(types, AllFields(typ), AllValues(obj))
    ensures AllAttrs(types, typ, obj) == Attrs(types, AllFields(typ), AllValues(obj))
    decreases obj
  {
    hide Match, BodyNodes, Attrs;
    if typ.base.Some? {
      Flatten(types, typ.base.value, obj.base.value);
      BodyNodesJoin(types, AllFields(typ.base.value), AllValues(obj.base.value), typ.fields, obj.values);
    } else {
      assert [] + typ.fields == typ.fields && [] + obj.values == obj.values;
      assert forall s: seq<XmlNode> :: [] + s == s;
      assert forall s: seq<Pair> :: [] + s == s;
    }
  }

  // A field finds its own attribute or elements.

  ghost predicate Sees(types: Types, f: Field, v: Value, root: XmlNode)
    requires ValueConforms(types, f, v) && root.Element?
  {
    if f.AttributeField? then FirstValue(root.attrs, f.name) == v.item.text
    else Named(root.children, f.name) == ValueNodes(types, f, v)
  }

  ghost predicate SeesAll(types: Types, fields: seq<Field>, values: seq<Value>, root: XmlNode)
    requires Match(types, fields, values) && root.Element?
  {
    forall i :: 0 <= i < |fields| ==> Sees(types, fields[i], values[i], root)
  }

  lemma TreeShowsAll(types: Types, typ: Type, obj: Obj, name: string)
    requires Conforms(types, typ, obj) && Distinct(AllFields(typ))
    ensures Match(types, AllFields(typ), AllValues(obj))
    ensures SeesAll(types, AllFields(typ), AllValues(obj), Tree(types, typ, obj, name))
  {
    hide AllNodes, AllAttrs, ValueConforms, BodyNodes, Attrs, Named, ValueNodes, Distinct, Conforms;
    Flatten(types, typ, obj);
    var fields, values, root := AllFields(typ), AllValues(obj), Tree(types, typ, obj, name);
    forall i | 0 <= i < |fields|
      ensures Sees(types, fields[i], values[i], root)
    {
      if fields[i].AttributeField? {
        AttrFound(types, fields, values, i);
      } else {
        NamedBody(types, fields, values, i);
      }
    }
  }

  /** An item of a field comes back from its element exactly if it is complete. */
  lemma {:induction false} ItemBack(types: Types, kind: Kind, name: string, item: Item)
    requires WellFormed(types) && ItemConforms(types, kind, item) && item != Ref(None)
    ensures |ItemNodes(types, kind, name, item)| == 1 && ItemNodes(types, kind, name, item)[0].Element?
    ensures ReadItem(types, kind, ItemNodes(types, kind, name, item)[0]) == Some(item) <==> ItemComplete(types, kind, item)
    decreases item, 1
  {
    match item
    case Str(None) => NoText();
    case Str(Some(s)) =>
      NoText();
      OneText(s);
    case Num(n) =>
      OneText(PrintInt(n));
      IntBack(n);
    case Ref(Some(obj)) =>
      var t := types[kind.typ];
      TreeShowsAll(types, t, obj, name);
      ObjBack(types, t, obj, Tree(types, t, obj, name));
  }

  lemma NoText()
    ensures TextOf([]) == None
  {
  }

  lemma OneText(s: string)
    ensures TextOf([TextNode(s)]) == Some(s)
  {
    assert [TextNode(s)][1..] == [];
  }

  /** A list only grows, by one entry for each element with its name. */
  lemma {:induction false} SlotGrows(types: Types, f: Field, v: Value, nodes: seq<XmlNode>)
    requires LinkedTypes(types) && KnownField(types, f) && f.ElementField? && v.Many? && Named(nodes, f.name) == nodes
    ensures var r := Slot(types, f, v, nodes);
            r.Some? ==> r.value.Many? && v.items <= r.value.items && |r.value.items| == |v.items| + |nodes|
    decreases |nodes|
  {
    hide ReadItem;
    if nodes != [] {
      NamedLength(nodes[1..], f.name);
      assert nodes[0].Element? && nodes[0].name == f.name;
      assert Named(nodes, f.name)[1..] == Named(nodes[1..], f.name);
      match Absorb(types, f, v, nodes[0])
      case None =>
      case Some(v') => SlotGrows(types, f, v', nodes[1..]);
    }
  }

  lemma {:induction false} NamedLength(nodes: seq<XmlNode>, name: string)
    ensures |Named(nodes, name)| <= |nodes|
  {
    if nodes != [] {
      NamedLength(nodes[1..], name);
    }
  }

  lemma {:induction false} FewNodes(types: Types, kind: Kind, name: string, items: seq<Item>)
    requires forall i :: 0 <= i < |items| ==> ItemConforms(types, kind, items[i])
    ensures |ItemsNodes(types, kind, name, items)| <= |items|
  {
    hide ItemConforms;
    if items != [] {
      FewNodes(types, kind, name, items[1..]);
      AtMostOne(types, kind, name, items[0]);
    }
  }

  lemma AtMostOne(types: Types, kind: Kind, name: string, item: Item)
    requires ItemConforms(types, kind, item)
    ensures |ItemNodes(types, kind, name, item)| == if item == Ref(None) then 0 else 1
    ensures item == Ref(None) ==> !ItemComplete(types, kind, item)
  {
  }

  ghost predicate AllComplete(types: Types, kind: Kind, items: seq<Item>)
    requires forall i :: 0 <= i < |items| ==> ItemConforms(types, kind, items[i])
  {
    forall i :: 0 <= i < |items| ==> ItemComplete(types, kind, items[i])
  }

  /** A list comes back, in order, exactly if all its entries are complete. */
  lemma {:induction false} ItemsBack(types: Types, f: Field, items: seq<Item>, done: seq<Item>)
    requires WellFormed(types) && f.ElementField? && KnownField(types, f)
    requires forall i :: 0 <= i < |items| ==> ItemConforms(types, f.kind, items[i])
    ensures Slot(types, f, Many(done), ItemsNodes(types, f.kind, f.name, items)) == Some(Many(done + items))
            <==> AllComplete(types, f.kind, items)
    decreases items
  {
    hide ItemConforms, ItemComplete, ItemNodes, ReadItem;
    if items == [] {
      assert done + items == done;
    } else {
      var item, rest := items[0], ItemsNodes(types, f.kind, f.name, items[1..]);
      var nodes := ItemsNodes(types, f.kind, f.name, items);
      AtMostOne(types, f.kind, f.name, item);
      NamedItems(types, f.kind, f.name, items[1..], f.name);
      if item == Ref(None) {
        assert nodes == rest;
        SlotGrows(types, f, Many(done), rest);
        FewNodes(types, f.kind, f.name, items[1..]);
      } else {
        ItemBack(types, f.kind, f.name, item);
        NamedItem(types, f.kind, f.name, item, f.name);
        assert nodes[0] == ItemNodes(types, f.kind, f.name, item)[0] && nodes[1..] == rest;
        assert nodes[0].name == f.name;
        var r := ReadItem(types, f.kind, nodes[0]);
        if r.Some? {
          SlotGrows(types, f, Many(done + [r.value]), rest);
          assert r.value != item ==> (done + items)[|done|] != (done + [r.value])[|done|];
        }
        ItemsBack(types, f, items[1..], done + [item]);
        assert done + [item] + items[1..] == done + items;
        assert forall i :: 0 < i < |items| ==> items[i] == items[1..][i - 1];
        assert AllComplete(types, f.kind, items) <==> ItemComplete(types, f.kind, item) && AllComplete(types, f.kind, items[1..]);
      }
    }
  }

  /** A field comes back exactly if its value is complete. */
  lemma FieldBack(types: Types, f: Field, v: Value, root: XmlNode)
    requires WellFormed(types) && KnownField(types, f) && ValueConforms(types, f, v)
    requires root.Element? && Sees(types, f, v, root)
    ensures Slot(types, f, Initial(f, root.attrs), root.children) == Some(v) <==> ValueComplete(types, f, v)
    decreases v, 1
  {
    hide ItemConforms, ItemComplete, ItemNodes, ReadItem;
    SlotNamed(types, f, Initial(f, root.attrs), root.children);
    if f.ElementField? {
      if f.many {
        ItemsBack(types, f, v.items, []);
        assert [] + v.items == v.items;
      } else {
        SingleBack(types, f, v, Initial(f, root.attrs));
      }
    }
  }

  lemma SingleBack(types: Types, f: Field, v: Value, initial: Value)
    requires WellFormed(types) && KnownField(types, f) && ValueConforms(types, f, v) && f.ElementField? && !f.many
    requires initial.One? && (f.kind.ComplexKind? ==> initial.item == Ref(None))
    ensures Slot(types, f, initial, ValueNodes(types, f, v)) == Some(v) <==> v.item == Ref(None) || ItemComplete(types, f.kind, v.item)
    decreases v, 0
  {
    hide ItemComplete, ItemNodes, ReadItem;
    var nodes := ValueNodes(types, f, v);
    AtMostOne(types, f.kind, f.name, v.item);
    if v.item != Ref(None) {
      ItemBack(types, f.kind, f.name, v.item);
      NamedItem(types, f.kind, f.name, v.item, f.name);
      assert nodes == [nodes[0]] && nodes[1..] == [] && nodes[0].name == f.name;
    }
  }

  lemma {:induction false} ValuesBack(types: Types, fields: seq<Field>, values: seq<Value>, root: XmlNode)
    requires WellFormed(types) && Match(types, fields, values) && root.Element? && SeesAll(types, fields, values, root)
    requires forall f :: f in fields ==> KnownField(types, f)
    ensures Fill(types, fields, Initials(fields, root.attrs), root.children) == Some(values)
            <==> ValuesComplete(types, fields, values)
    decreases values
  {
    hide Fill, Slot, Initial, Sees, ValueConforms, ValueComplete;
    var initial := Initials(fields, root.attrs);
    FillSlots(types, fields, initial, root.children);
    forall i | 0 <= i < |fields|
      ensures Slot(types, fields[i], initial[i], root.children) == Some(values[i]) <==> ValueComplete(types, fields[i], values[i])
    {
      assert fields[i] in fields;
      FieldBack(types, fields[i], values[i], root);
    }
    var r := Fill(types, fields, initial, root.children);
    if r.Some? && forall i :: 0 <= i < |fields| ==> Slot(types, fields[i], initial[i], root.children) == Some(values[i]) {
      assert forall i :: 0 <= i < |fields| ==> Some(r.value[i]) == Some(values[i]);
      assert r.value == values;
    }
  }

  /** Deserializing an element that shows the attributes and elements of an object gives the object exactly if that is complete. */
  lemma {:induction false} ObjBack(types: Types, typ: Type, obj: Obj, root: XmlNode)
    requires WellFormed(types) && Linked(types, typ) && Conforms(types, typ, obj) && root.Element?
    requires Match(types, AllFields(typ), AllValues(obj)) && SeesAll(types, AllFields(typ), AllValues(obj), root)
    ensures Deserialize(types, typ, root) == Some(obj) <==> Complete(types, typ, obj)
    decreases obj, 0
  {
    hide Fill, Initials, SeesAll, Match, ValuesComplete, AllFields, AllValues;
    SeesParts(types, typ, obj, root);
    if typ.base.Some? {
      ObjBack(types, typ.base.value, obj.base.value, root);
    }
    ValuesBack(types, typ.fields, obj.values, root);
  }

  /** What shows the whole chain shows the base and the type's own fields. */
  lemma SeesParts(types: Types, typ: Type, obj: Obj, root: XmlNode)
    requires Conforms(types, typ, obj) && root.Element?
    requires Match(types, AllFields(typ), AllValues(obj)) && SeesAll(types, AllFields(typ), AllValues(obj), root)
    ensures SeesAll(types, typ.fields, obj.values, root)
    ensures typ.base.Some? ==>
              && Match(types, AllFields(typ.base.value), AllValues(obj.base.value))
              && SeesAll(types, AllFields(typ.base.value), AllValues(obj.base.value), root)
  {
    hide Sees, SeesAll, Match;
    if typ.base.Some? {
      Flatten(types, typ.base.value, obj.base.value);
      SeesEach(types, AllFields(typ.base.value), AllValues(obj.base.value), typ.fields, obj.values, root);
    } else {
      assert [] + typ.fields == typ.fields && [] + obj.values == obj.values;
    }
  }

  lemma SeesEach(types: Types, f: seq<Field>, v: seq<Value>, g: seq<Field>, w: seq<Value>, root: XmlNode)
    requires Match(types, f, v) && Match(types, g, w) && root.Element?
    requires Match(types, f + g, v + w) && SeesAll(types, f + g, v + w, root)
    ensures SeesAll(types, f, v, root) && SeesAll(types, g, w, root)
  {
    hide Sees, ValueConforms;
    assert forall i :: 0 <= i < |f| ==> f[i] == (f + g)[i] && v[i] == (v + w)[i];
    assert forall i :: 0 <= i < |g| ==> g[i] == (f + g)[|f| + i] && w[i] == (v + w)[|v| + i];
  }

  /**
   Round trip: what is serialized is one element, and deserializing it gives back the
   object, list order included, if and only if every string element is present and not
   empty and no list has a null entry.
   */
  lemma RoundTrip(types: Types, typ: Type, obj: Obj, name: string)
    requires WellFormed(types) && Linked(types, typ) && Distinct(AllFields(typ)) && Conforms(types, typ, obj)
    ensures var document := Parse(Serialize(types, typ, obj, name));
            && |document| == 1 && document[0].Element? && document[0].name == name
            && (Deserialize(types, typ, document[0]) == Some(obj) <==> Complete(types, typ, obj))
  {
    hide Parse, Serialize, Conforms, Complete, AllNodes, AllAttrs, SeesAll, Match, Deserialize;
    ParseSerialized(types, typ, obj, name);
    TreeShowsAll(types, typ, obj, name);
    ObjBack(types, typ, obj, Tree(types, typ, obj, name));
  }
}
