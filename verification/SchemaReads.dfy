/**
 What the emitted deserializers make of any element, also of one that no serializer has
 written: told field by field, in terms of the element's attributes, children and texts.
 */
module SchemaReads {
  import opened Lists
  import opened Schema
  import opened Text

  /** The text nodes among the children. */
  function Texts(nodes: seq<XmlNode>): seq<string> {
    if nodes == [] then []
    else (if nodes[0].TextNode? then [nodes[0].text] else []) + Texts(nodes[1..])
  }

  /** The text of an element is that of all its text nodes; it has none if there are none. */
  lemma {:induction false} TextOfMeans(nodes: seq<XmlNode>)
    ensures TextOf(nodes) == if Texts(nodes) == [] then None else Some(Concat(Texts(nodes)))
  {
    if nodes != [] {
      TextOfMeans(nodes[1..]);
      var more := Texts(nodes[1..]);
      if nodes[0].TextNode? {
        assert Texts(nodes) == [nodes[0].text] + more && ([nodes[0].text] + more)[1..] == more;
        assert nodes[0].text + "" == nodes[0].text;
      } else {
        assert Texts(nodes) == more;
      }
    }
  }

  /** The elements with a name, in document order. */
  function Children(root: XmlNode, name: string): (r: seq<XmlNode>)
    requires root.Element?
    ensures forall n :: n in r ==> n in root.children && n.Element? && n.name == name
  {
    NamedAreThere(root.children, name);
    Named(root.children, name)
  }

  lemma {:induction false} NamedAreThere(nodes: seq<XmlNode>, name: string)
    ensures forall n :: n in Named(nodes, name) ==> n in nodes && n.Element? && n.name == name
  {
    if nodes != [] {
      NamedAreThere(nodes[1..], name);
    }
  }

  /** The item stands for the element. */
  ghost predicate ItemRead(types: Types, kind: Kind, item: Item, node: XmlNode)
    requires node.Element? && LinkedTypes(types) && (kind.ComplexKind? ==> kind.typ in types)
    decreases node, 2
  {
    match kind
    case StringKind => item == Str(Some(Concat(Texts(node.children))))
    case IntKind => item == Num(AToI(Concat(Texts(node.children))))
    case ComplexKind(t) => item.Ref? && item.obj.Some? && ObjRead(types, types[t], item.obj.value, node)
  }

  /**
   An attribute field has the attribute's value, or null. A list has one entry for each child
   with the field's name, in order. A single field is read from the last such child; if there
   is none, it is 0 or null.
   */
  ghost predicate FieldRead(types: Types, f: Field, v: Value, root: XmlNode)
    requires root.Element? && LinkedTypes(types) && KnownField(types, f)
    decreases root, 0
  {
    match f
    case AttributeField(name) => v == One(Str(FirstValue(root.attrs, name)))
    case ElementField(name, kind, many) =>
      var nodes := Children(root, name);
      if many then
        v.Many? && |v.items| == |nodes| && forall k :: 0 <= k < |nodes| ==> ItemRead(types, kind, v.items[k], nodes[k])
      else if nodes != [] then v.One? && ItemRead(types, kind, v.item, nodes[|nodes| - 1])
      else v == One(if kind.IntKind? then Num(0) else if kind.StringKind? then Str(None) else Ref(None))
  }

  /** The fields of the type, and those of the base object, which is read from the same element. */
  ghost predicate ObjRead(types: Types, typ: Type, obj: Obj, root: XmlNode)
    requires root.Element? && LinkedTypes(types) && Linked(types, typ)
    decreases root, 1, typ
  {
    && obj.base.Some? == typ.base.Some? && (typ.base.Some? ==> ObjRead(types, typ.base.value, obj.base.value, root))
    && |obj.values| == |typ.fields| && forall i :: 0 <= i < |typ.fields| ==> FieldRead(types, typ.fields[i], obj.values[i], root)
  }

  /** The element can be read: no string or number without text in it. */
  ghost predicate ItemReadable(types: Types, kind: Kind, node: XmlNode)
    requires node.Element? && LinkedTypes(types) && (kind.ComplexKind? ==> kind.typ in types)
    decreases node, 2
  {
    match kind
    case StringKind => Texts(node.children) != []
    case IntKind => Texts(node.children) != []
    case ComplexKind(t) => ObjReadable(types, types[t], node)
  }

  ghost predicate FieldReadable(types: Types, f: Field, root: XmlNode)
    requires root.Element? && LinkedTypes(types) && KnownField(types, f)
    decreases root, 0
  {
    f.ElementField? ==>
      var nodes := Children(root, f.name); forall k :: 0 <= k < |nodes| ==> ItemReadable(types, f.kind, nodes[k])
  }

  ghost predicate ObjReadable(types: Types, typ: Type, root: XmlNode)
    requires root.Element? && LinkedTypes(types) && Linked(types, typ)
    decreases root, 1, typ
  {
    && (typ.base.Some? ==> ObjReadable(types, typ.base.value, root))
    && forall i :: 0 <= i < |typ.fields| ==> FieldReadable(types, typ.fields[i], root)
  }

  // ---------------------------------------------------------------- the deserializers do that

  lemma {:induction false} ItemMeans(types: Types, kind: Kind, node: XmlNode)
    requires node.Element? && LinkedTypes(types) && (kind.ComplexKind? ==> kind.typ in types)
    ensures var r := ReadItem(types, kind, node);
            && (r.Some? <==> ItemReadable(types, kind, node))
            && (r.Some? ==> ItemRead(types, kind, r.value, node))
    decreases node, 2
  {
    hide TextOf, AToI, Texts, ObjRead, ObjReadable;
    TextOfMeans(node.children);
    if kind.ComplexKind? {
      DeserializeMeans(types, types[kind.typ], node);
    }
  }

  /** The loop over the children with the field's name. */
  lemma {:induction false} SlotOver(types: Types, f: Field, v: Value, nodes: seq<XmlNode>)
    requires LinkedTypes(types) && KnownField(types, f) && f.ElementField?
    requires forall n :: n in nodes ==> n.Element? && n.name == f.name
    ensures var r := Slot(types, f, v, nodes);
            && (r.Some? <==> forall k :: 0 <= k < |nodes| ==> ReadItem(types, f.kind, nodes[k]).Some?)
            && (r.Some? && v.Many? ==>
                  && r.value.Many? && |r.value.items| == |v.items| + |nodes| && v.items <= r.value.items
                  && forall k :: 0 <= k < |nodes| ==> Some(r.value.items[|v.items| + k]) == ReadItem(types, f.kind, nodes[k]))
            && (r.Some? && v.One? ==>
                  r.value.One? && if nodes == [] then r.value == v
                                  else Some(r.value.item) == ReadItem(types, f.kind, nodes[|nodes| - 1]))
    decreases |nodes|
  {
    hide ReadItem;
    if nodes != [] {
      var first := ReadItem(types, f.kind, nodes[0]);
      if first.Some? {
        SlotOver(types, f, Put(v, first.value), nodes[1..]);
        assert Slot(types, f, v, nodes) == Slot(types, f, Put(v, first.value), nodes[1..]);
        assert forall k :: 0 < k < |nodes| ==> nodes[k] == nodes[1..][k - 1];
        assert forall k :: 0 <= k < |nodes| - 1 ==> nodes[k + 1] == nodes[1..][k];
      } else {
        assert Slot(types, f, v, nodes).None?;
      }
    }
  }

  lemma {:induction false} FieldMeans(types: Types, f: Field, root: XmlNode)
    requires root.Element? && LinkedTypes(types) && KnownField(types, f)
    ensures var r := Slot(types, f, Initial(f, root.attrs), root.children);
            && (r.Some? <==> FieldReadable(types, f, root))
            && (r.Some? ==> FieldRead(types, f, r.value, root))
    decreases root, 0
  {
    hide ReadItem, ItemRead, ItemReadable, Slot;
    SlotNamed(types, f, Initial(f, root.attrs), root.children);
    if f.ElementField? {
      var nodes := Children(root, f.name);
      SlotOver(types, f, Initial(f, root.attrs), nodes);
      forall k | 0 <= k < |nodes|
        ensures var r := ReadItem(types, f.kind, nodes[k]);
                && (r.Some? <==> ItemReadable(types, f.kind, nodes[k]))
                && (r.Some? ==> ItemRead(types, f.kind, r.value, nodes[k]))
      {
        assert nodes[k] in root.children;
        ItemMeans(types, f.kind, nodes[k]);
      }
    }
  }

  /**
   For every type and every element: it can be deserialized if and only if every element that
   is used as a string or number has text; and then every field is what its attribute or its
   children say.
   */
  lemma {:induction false} DeserializeMeans(types: Types, typ: Type, root: XmlNode)
    requires root.Element? && LinkedTypes(types) && Linked(types, typ)
    ensures var r := Deserialize(types, typ, root);
            && (r.Some? <==> ObjReadable(types, typ, root))
            && (r.Some? ==> ObjRead(types, typ, r.value, root))
    decreases root, 1, typ
  {
    hide Fill, FieldRead, FieldReadable, Slot, Initial;
    if typ.base.Some? {
      DeserializeMeans(types, typ.base.value, root);
    }
    var initials := Initials(typ.fields, root.attrs);
    FillSlots(types, typ.fields, initials, root.children);
    forall i | 0 <= i < |typ.fields|
      ensures var r := Slot(types, typ.fields[i], initials[i], root.children);
              && (r.Some? <==> FieldReadable(types, typ.fields[i], root))
              && (r.Some? ==> FieldRead(types, typ.fields[i], r.value, root))
    {
      assert typ.fields[i] in typ.fields;
      FieldMeans(types, typ.fields[i], root);
    }
  }
}
