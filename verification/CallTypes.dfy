/**
 CallVar, CallFunc and CallList: three types that xsd2c generated, as objects whose
 setters and adders change them, and as instances of the meaning given to schemas.
 */
module CallTypes {
  import opened Lists
  import opened SaxCallbacks
  import opened Schema

  function CallVarType(): Type {
    Type(None, [ElementField("name", StringKind, false), ElementField("type", StringKind, false)])
  }

  function CallFuncType(): Type {
    Type(None, [ElementField("name", StringKind, false), ElementField("in", ComplexKind("CallVar"), true),
                ElementField("out", ComplexKind("CallVar"), false)])
  }

  function CallListType(): Type {
    Type(None, [ElementField("operation", ComplexKind("CallFunc"), true)])
  }

  function CallTypes(): Types {
    map["CallVar" := CallVarType(), "CallFunc" := CallFuncType(), "CallList" := CallListType()]
  }

  lemma LookUp()
    ensures "CallVar" in CallTypes() && CallTypes()["CallVar"] == CallVarType()
    ensures "CallFunc" in CallTypes() && CallTypes()["CallFunc"] == CallFuncType()
    ensures "CallList" in CallTypes() && CallTypes()["CallList"] == CallListType()
    ensures forall t :: t in CallTypes() ==> t == "CallVar" || t == "CallFunc" || t == "CallList"
  {
    hide CallVarType, CallFuncType, CallListType;
    assert |"CallVar"| == 7 && |"CallFunc"| == 8 && |"CallList"| == 8 && "CallFunc"[4] != "CallList"[4];
  }

  lemma AreLinked()
    ensures LinkedTypes(CallTypes()) && Linked(CallTypes(), CallVarType())
    ensures Linked(CallTypes(), CallFuncType()) && Linked(CallTypes(), CallListType())
  {
    LookUp();
    hide CallTypes;
  }

  /** Up to three fields with different names. */
  lemma DistinctNames(fields: seq<Field>, a: string, b: string, c: string)
    requires |fields| <= 3 && a != b && a != c && b != c
    requires |fields| > 0 ==> fields[0].name == a
    requires |fields| > 1 ==> fields[1].name == b
    requires |fields| > 2 ==> fields[2].name == c
    ensures Distinct(fields)
  {
  }

  lemma OwnFields(typ: Type)
    requires typ.base == None
    ensures AllFields(typ) == typ.fields
  {
    assert [] + typ.fields == typ.fields;
  }

  lemma AreDistinct()
    ensures Distinct(AllFields(CallVarType())) && Distinct(AllFields(CallFuncType())) && Distinct(AllFields(CallListType()))
  {
    hide Distinct, AllFields;
    OwnFields(CallVarType());
    OwnFields(CallFuncType());
    OwnFields(CallListType());
    assert "name"[0] != "type"[0] && |"in"| == 2 && |"out"| == 3;
    DistinctNames(CallVarType().fields, "name", "type", "");
    DistinctNames(CallFuncType().fields, "name", "in", "out");
    DistinctNames(CallListType().fields, "operation", "in", "out");
  }

  lemma AreWellFormed()
    ensures WellFormed(CallTypes())
  {
    hide CallTypes, CallVarType, CallFuncType, CallListType, Distinct, AllFields, Linked;
    LookUp();
    AreLinked();
    AreDistinct();
  }

  function CallVarObj(name: Option<string>, typ: Option<string>): Obj {
    Obj(None, [One(Str(name)), One(Str(typ))])
  }

  lemma CallVarConforms(name: Option<string>, typ: Option<string>)
    ensures Conforms(CallTypes(), CallVarType(), CallVarObj(name, typ))
    ensures Match(CallTypes(), CallVarType().fields, CallVarObj(name, typ).values)
  {
    hide CallTypes;
    var f, v := CallVarType().fields, CallVarObj(name, typ).values;
    assert forall i :: 0 <= i < 2 ==> ValueConforms(CallTypes(), f[i], v[i]);
  }

  // ---------------------------------------------------------------- CallVar

  /** The events of a single string element. */
  function StringEvents(name: string, text: Option<string>): seq<Event> {
    [Start(name, [])] + (if text.Some? then [Chars(text.value)] else []) + [End(name)]
  }

  method EmitString(name: string, text: Option<string>, handler: Handler)
    modifies handler
    ensures handler.events == old(handler.events) + StringEvents(name, text)
  {
    handler.Call(Start(name, []));
    if text.Some? {
      handler.Call(Chars(text.value));
    }
    handler.Call(End(name));
  }

  /** The events of an object without a base and without attributes. */
  lemma PlainShape(types: Types, typ: Type, obj: Obj, root: string)
    requires Conforms(types, typ, obj) && Match(types, typ.fields, obj.values) && typ.base == None
    requires forall f :: f in typ.fields ==> f.ElementField?
    ensures Serialize(types, typ, obj, root) == [Start(root, [])] + Body(types, typ.fields, obj.values) + [End(root)]
  {
    hide Match, Body;
    NoAttrs(types, typ.fields, obj.values);
  }

  lemma {:induction false} NoAttrs(types: Types, fields: seq<Field>, values: seq<Value>)
    requires Match(types, fields, values) && forall f :: f in fields ==> f.ElementField?
    ensures Attrs(types, fields, values) == []
    decreases |fields|
  {
    hide ValueConforms;
    if values != [] {
      assert fields[0] in fields;
      NoAttrs(types, fields[1..], values[1..]);
    }
  }

  /** The events of up to three fields. */
  lemma BodyOf(types: Types, fields: seq<Field>, values: seq<Value>)
    requires Match(types, fields, values) && |fields| <= 3
    ensures Body(types, fields, values)
         == (if |fields| > 0 then ValueEvents(types, fields[0], values[0]) else [])
            + (if |fields| > 1 then ValueEvents(types, fields[1], values[1]) else [])
            + (if |fields| > 2 then ValueEvents(types, fields[2], values[2]) else [])
  {
    hide ValueEvents, ValueConforms;
    if |fields| > 0 {
      BodyStep(types, fields, values);
      if |fields| > 1 {
        BodyStep(types, fields[1..], values[1..]);
        if |fields| > 2 {
          BodyStep(types, fields[1..][1..], values[1..][1..]);
        }
      }
    }
  }

  lemma BodyStep(types: Types, fields: seq<Field>, values: seq<Value>)
    requires Match(types, fields, values) && fields != []
    ensures Match(types, fields[1..], values[1..])
    ensures Body(types, fields, values) == ValueEvents(types, fields[0], values[0]) + Body(types, fields[1..], values[1..])
  {
    hide ValueEvents, ValueConforms;
  }

  lemma StringValue(name: string, text: Option<string>)
    ensures ValueConforms(CallTypes(), ElementField(name, StringKind, false), One(Str(text)))
    ensures ValueEvents(CallTypes(), ElementField(name, StringKind, false), One(Str(text))) == StringEvents(name, text)
  {
    hide CallTypes;
  }

  lemma CallVarShape(name: Option<string>, typ: Option<string>, root: string)
    requires Conforms(CallTypes(), CallVarType(), CallVarObj(name, typ))
    ensures Serialize(CallTypes(), CallVarType(), CallVarObj(name, typ), root)
         == [Start(root, [])] + StringEvents("name", name) + StringEvents("type", typ) + [End(root)]
  {
    hide CallTypes, Body, Serialize, ValueEvents, StringEvents, Conforms;
    CallVarConforms(name, typ);
    PlainShape(CallTypes(), CallVarType(), CallVarObj(name, typ), root);
    BodyOf(CallTypes(), CallVarType().fields, CallVarObj(name, typ).values);
    StringValue("name", name);
    StringValue("type", typ);
  }

  class CallVar {
    var name: Option<string>
    var typ: Option<string>

    ghost function View(): (r: Obj)
      reads this
      ensures Conforms(CallTypes(), CallVarType(), r)
    {
      CallVarConforms(name, typ);
      CallVarObj(name, typ)
    }

    constructor ()
      ensures name == None && typ == None
    {
      name, typ := None, None;
    }

    method SetName(name: string)
      modifies this`name
      ensures this.name == Some(name)
    {
      this.name := Some(name);
    }

    method SetType(typ: string)
      modifies this`typ
      ensures this.typ == Some(typ)
    {
      this.typ := Some(typ);
    }

    method SaxSerialize(root: string, handler: Handler)
      modifies handler
      ensures handler.events == old(handler.events) + Serialize(CallTypes(), CallVarType(), View(), root)
    {
      hide CallTypes, CallVarType, Serialize, Conforms, StringEvents;
      CallVarConforms(name, typ);
      CallVarShape(name, typ, root);
      handler.Call(Start(root, []));
      EmitString("name", name, handler);
      EmitString("type", typ, handler);
      handler.Call(End(root));
    }
  }

  /** The emitted CallVar_Deserialize, as the schema's meaning has it. */
  function ReadCallVar(root: XmlNode): Option<Obj>
    requires root.Element?
  {
    AreLinked();
    Deserialize(CallTypes(), CallVarType(), root)
  }

  /** One round of the loop over the children. */
  lemma FillStep(types: Types, fields: seq<Field>, values: seq<Value>, next: seq<Value>, children: seq<XmlNode>)
    requires LinkedTypes(types) && |fields| == |values| == |next| && children != []
    requires forall f :: f in fields ==> KnownField(types, f)
    requires Fill(types, fields, values, children).Some?
    requires forall i :: 0 <= i < |fields| && Absorb(types, fields[i], values[i], children[0]).Some? ==>
                         Absorb(types, fields[i], values[i], children[0]).value == next[i]
    ensures forall i :: 0 <= i < |fields| ==> Absorb(types, fields[i], values[i], children[0]).Some?
    ensures Fill(types, fields, values, children) == Fill(types, fields, next, children[1..])
  {
    hide Absorb;
    assert forall i :: 0 <= i < |fields| ==> Absorb(types, fields[i], values[i], children[0]).Some?;
    assert seq(|fields|, i requires 0 <= i < |fields| => Absorb(types, fields[i], values[i], children[0]).value) == next;
  }

  /** A string after the test for its element. */
  function NextString(name: string, text: Option<string>, child: XmlNode): Option<string> {
    if child.Element? && child.name == name then TextOf(child.children) else text
  }

  lemma AbsorbString(name: string, text: Option<string>, child: XmlNode)
    requires LinkedTypes(CallTypes())
    ensures var r := Absorb(CallTypes(), ElementField(name, StringKind, false), One(Str(text)), child);
            && (r.Some? ==> r.value == One(Str(NextString(name, text, child))))
            && (r.Some? && child.Element? && child.name == name ==> TextOf(child.children).Some?)
  {
    hide CallTypes;
  }

  /** CallVar_Deserialize from inside its loop. */
  function FillCallVar(name: Option<string>, typ: Option<string>, children: seq<XmlNode>): Option<Obj> {
    AreLinked();
    match Fill(CallTypes(), CallVarType().fields, CallVarObj(name, typ).values, children)
    case None => None
    case Some(values) => Some(Obj(None, values))
  }

  lemma CallVarStart(root: XmlNode)
    requires root.Element?
    ensures ReadCallVar(root) == FillCallVar(None, None, root.children)
    ensures forall name, typ :: FillCallVar(name, typ, []) == Some(CallVarObj(name, typ))
  {
    hide CallTypes;
    assert Initials(CallVarType().fields, root.attrs) == CallVarObj(None, None).values;
  }

  lemma CallVarStep(name: Option<string>, typ: Option<string>, children: seq<XmlNode>)
    requires children != [] && FillCallVar(name, typ, children).Some?
    ensures children[0].Element? && (children[0].name == "name" || children[0].name == "type") ==> TextOf(children[0].children).Some?
    ensures FillCallVar(name, typ, children)
         == FillCallVar(NextString("name", name, children[0]), NextString("type", typ, children[0]), children[1..])
  {
    hide CallTypes, Fill, Absorb, NextString, TextOf;
    AreLinked();
    AbsorbString("name", name, children[0]);
    AbsorbString("type", typ, children[0]);
    var values := CallVarObj(name, typ).values;
    var next := CallVarObj(NextString("name", name, children[0]), NextString("type", typ, children[0])).values;
    FillStep(CallTypes(), CallVarType().fields, values, next, children);
    var f := CallVarType().fields;
    assert Absorb(CallTypes(), f[0], values[0], children[0]).Some? && Absorb(CallTypes(), f[1], values[1], children[0]).Some?;
  }

  method DeserializeCallVar(root: XmlNode) returns (obj: CallVar)
    requires root.Element? && ReadCallVar(root).Some?
    ensures fresh(obj) && Some(obj.View()) == ReadCallVar(root)
  {
    hide CallTypes, CallVarType, FillCallVar, ReadCallVar, TextOf;
    CallVarStart(root);
    obj := new CallVar();
    var children, i := root.children, 0;
    assert children[0..] == children;
    while i < |children|
      invariant i <= |children| && fresh(obj)
      invariant FillCallVar(obj.name, obj.typ, children[i..]) == ReadCallVar(root)
    {
      var cur := children[i];
      CallVarStep(obj.name, obj.typ, children[i..]);
      assert children[i..][0] == cur && children[i..][1..] == children[i + 1..];
      if cur.Element? {
        if cur.name == "name" {
          obj.SetName(TextOf(cur.children).value);
        }
        if cur.name == "type" {
          obj.SetType(TextOf(cur.children).value);
        }
      }
      i := i + 1;
    }
    assert children[i..] == [];
  }

  // ---------------------------------------------------------------- CallFunc

  function CallFuncObj(name: Option<string>, ins: seq<Item>, out: Item): Obj {
    Obj(None, [One(Str(name)), Many(ins), One(out)])
  }

  ghost predicate IsVar(item: Item) {
    ItemConforms(CallTypes(), ComplexKind("CallVar"), item)
  }

  ghost predicate AreVars(items: seq<Item>) {
    forall i :: 0 <= i < |items| ==> IsVar(items[i])
  }

  lemma CallFuncConforms(name: Option<string>, ins: seq<Item>, out: Item)
    requires AreVars(ins) && IsVar(out)
    ensures Conforms(CallTypes(), CallFuncType(), CallFuncObj(name, ins, out))
    ensures Match(CallTypes(), CallFuncType().fields, CallFuncObj(name, ins, out).values)
  {
    hide CallTypes, ItemConforms;
    var f, v := CallFuncType().fields, CallFuncObj(name, ins, out).values;
    StringConforms("name", name);
    assert forall i :: 0 <= i < 3 ==> ValueConforms(CallTypes(), f[i], v[i]);
  }

  lemma StringConforms(name: string, text: Option<string>)
    ensures ValueConforms(CallTypes(), ElementField(name, StringKind, false), One(Str(text)))
  {
    hide CallTypes;
  }

  /** A pointer to a CallVar, which may be null, as a field value. */
  ghost function VarItem(v: CallVar?): (r: Item)
    reads v
    ensures r.Ref? && IsVar(r)
  {
    LookUp();
    if v == null then Ref(None) else Ref(Some(v.View()))
  }

  ghost function VarItems(vars: seq<CallVar?>): (r: seq<Item>)
    reads set v | v in vars
    ensures |r| == |vars| && forall i :: 0 <= i < |r| ==> r[i] == VarItem(vars[i])
    ensures AreVars(r)
  {
    if vars == [] then [] else [VarItem(vars[0])] + VarItems(vars[1..])
  }

  lemma CallFuncShape(name: Option<string>, ins: seq<Item>, out: Item, root: string)
    requires AreVars(ins) && IsVar(out)
    requires Conforms(CallTypes(), CallFuncType(), CallFuncObj(name, ins, out))
    ensures Serialize(CallTypes(), CallFuncType(), CallFuncObj(name, ins, out), root)
         == [Start(root, [])] + StringEvents("name", name) + VarsEvents(ins) + VarEvents("out", out) + [End(root)]
  {
    hide CallTypes, Body, Serialize, StringEvents, Conforms, ItemsEvents, ItemEvents;
    CallFuncConforms(name, ins, out);
    PlainShape(CallTypes(), CallFuncType(), CallFuncObj(name, ins, out), root);
    BodyOf(CallTypes(), CallFuncType().fields, CallFuncObj(name, ins, out).values);
    StringValue("name", name);
  }

  class CallFunc {
    var name: Option<string>
    const ins: LinkedList<CallVar?>
    var out: CallVar?

    ghost var repr: set<object>

    ghost predicate Valid()
      reads this, repr
      ensures Valid() ==> this in repr
    {
      && this in repr && ins in repr && ins.repr <= repr && ins.Valid() && this !in ins.repr
      && (out != null ==> out in repr && out !in ins.repr)
      && (forall v :: v in ins.Values() && v != null ==> v in repr && v !in ins.repr)
    }

    ghost function View(): (r: Obj)
      requires Valid()
      reads this, repr
      ensures Conforms(CallTypes(), CallFuncType(), r)
    {
      CallFuncConforms(name, VarItems(ins.Values()), VarItem(out));
      CallFuncObj(name, VarItems(ins.Values()), VarItem(out))
    }

    constructor ()
      ensures Valid() && fresh(repr) && name == None && out == null && ins.Values() == []
    {
      name, out := None, null;
      ins := new LinkedList();
      new;
      repr := {this} + ins.repr;
    }

    method SetName(name: string)
      requires Valid()
      modifies this`name
      ensures Valid() && this.name == Some(name)
    {
      this.name := Some(name);
    }

    method SetOut(out: CallVar?)
      requires Valid() && (out != null ==> out !in ins.repr)
      modifies this`out, this`repr
      ensures Valid() && this.out == out && repr == old(repr) + if out == null then {} else {out}
    {
      this.out, repr := out, repr + if out == null then {} else {out};
    }

    method AddIn(v: CallVar?)
      requires Valid() && (v != null ==> v !in ins.repr)
      modifies this`repr, ins.repr
      ensures Valid() && ins.Values() == old(ins.Values()) + [v]
      ensures old(repr) <= repr && fresh(repr - old(repr) - if v == null then {} else {v})
    {
      ins.Append(v);
      repr := repr + ins.repr + if v == null then {} else {v};
    }

    method SaxSerialize(root: string, handler: Handler)
      requires Valid() && handler !in ins.repr
      modifies handler
      ensures Valid() && View() == old(View())
      ensures handler.events == old(handler.events) + Serialize(CallTypes(), CallFuncType(), View(), root)
    {
      hide CallTypes, CallVarType, CallFuncType, Serialize, Conforms, StringEvents,
           VarsEvents, VarEvents, VarItem, VarItems, IsVar, AreVars, CallFuncObj, LinkedList.Valid, LinkedList.Values;
      ghost var items, last := VarItems(ins.Values()), VarItem(out);
      CallFuncConforms(name, items, last);
      CallFuncShape(name, items, last, root);
      handler.Call(Start(root, []));
      EmitString("name", name, handler);
      EmitIns(handler);
      EmitVar(out, "out", handler);
      handler.Call(End(root));
      Regroup(old(handler.events), [Start(root, [])], StringEvents("name", name), VarsEvents(items), VarEvents("out", last), [End(root)]);
    }

    /** The loop over the list. */
    method EmitIns(handler: Handler)
      requires ins.Valid() && handler !in ins.repr
      modifies handler
      ensures handler.events == old(handler.events) + VarsEvents(VarItems(ins.Values()))
    {
      hide VarsEvents, VarEvents, VarItem, VarItems, AreVars, LinkedList.Valid, LinkedList.Values;
      ghost var vars, i := ins.Values(), 0;
      ghost var items := VarItems(vars);
      ghost var goal := handler.events + VarsEvents(items);
      var cur := ins.head;
      ins.Links(0);
      assert items[0..] == items;
      while cur != null
        invariant ins.Valid() && ins.Values() == vars && i <= |vars| == |ins.nodes| && cur == ins.At(i)
        invariant VarItems(vars) == items && AreVars(items[i..])
        invariant goal == handler.events + VarsEvents(items[i..])
        decreases |vars| - i
      {
        ins.Links(i);
        VarsStep(items, i);
        EmitVar(cur.value, "in", handler);
        cur, i := cur.next, i + 1;
      }
      ins.Links(i);
      VarsStep(items, i);
      assert handler.events + [] == handler.events;
    }
  }

  lemma Regroup<T>(s: seq<T>, a: seq<T>, b: seq<T>, c: seq<T>, d: seq<T>, e: seq<T>)
    ensures s + a + b + c + d + e == s + (a + b + c + d + e)
  {
  }

  /** The events of a pointer to a CallVar. */
  ghost function VarEvents(name: string, item: Item): seq<Event>
    requires IsVar(item)
  {
    ItemEvents(CallTypes(), ComplexKind("CallVar"), name, item)
  }

  ghost function VarsEvents(items: seq<Item>): seq<Event>
    requires AreVars(items)
  {
    ItemsEvents(CallTypes(), ComplexKind("CallVar"), "in", items)
  }

  lemma VarsStep(items: seq<Item>, i: nat)
    requires AreVars(items) && i <= |items|
    ensures AreVars(items[i..]) && (i == |items| ==> VarsEvents(items[i..]) == [])
    ensures i < |items| ==> AreVars(items[i + 1..]) && VarsEvents(items[i..]) == VarEvents("in", items[i]) + VarsEvents(items[i + 1..])
  {
    hide CallTypes, ItemConforms, ItemEvents;
    if i < |items| {
      assert items[i..][1..] == items[i + 1..];
    }
  }

  /** The emitted test for a null pointer, and the call. */
  method EmitVar(v: CallVar?, name: string, handler: Handler)
    modifies handler
    ensures handler.events == old(handler.events) + VarEvents(name, VarItem(v))
  {
    hide CallTypes, CallVarType, Serialize, Conforms, CallVar.View;
    LookUp();
    if v != null {
      v.SaxSerialize(name, handler);
    }
  }

  /** The emitted CallFunc_Deserialize, as the schema's meaning has it. */
  function ReadCallFunc(root: XmlNode): Option<Obj>
    requires root.Element?
  {
    AreLinked();
    Deserialize(CallTypes(), CallFuncType(), root)
  }

  /** CallFunc_Deserialize from inside its loop. */
  function FillCallFunc(name: Option<string>, ins: seq<Item>, out: Item, children: seq<XmlNode>): Option<Obj> {
    AreLinked();
    match Fill(CallTypes(), CallFuncType().fields, CallFuncObj(name, ins, out).values, children)
    case None => None
    case Some(values) => Some(Obj(None, values))
  }

  lemma CallFuncStart(root: XmlNode)
    requires root.Element?
    ensures ReadCallFunc(root) == FillCallFunc(None, [], Ref(None), root.children)
    ensures forall name, ins, out :: FillCallFunc(name, ins, out, []) == Some(CallFuncObj(name, ins, out))
  {
    hide CallTypes;
    assert Initials(CallFuncType().fields, root.attrs) == CallFuncObj(None, [], Ref(None)).values;
  }

  predicate IsElement(child: XmlNode, name: string) {
    child.Element? && child.name == name
  }

  /** The CallVar that an element becomes. */
  function ReadVarItem(child: XmlNode): Item
    requires child.Element?
  {
    Ref(ReadCallVar(child))
  }

  lemma AbsorbVar(name: string, v: Value, many: bool, child: XmlNode)
    requires LinkedTypes(CallTypes()) && KnownField(CallTypes(), ElementField(name, ComplexKind("CallVar"), many))
    ensures var r := Absorb(CallTypes(), ElementField(name, ComplexKind("CallVar"), many), v, child);
            && (r.Some? && IsElement(child, name) ==> ReadCallVar(child).Some? && r.value == Put(v, ReadVarItem(child)))
            && (!IsElement(child, name) ==> r == Some(v))
  {
    LookUp();
    hide CallTypes, CallVarType;
  }

  function NextIns(ins: seq<Item>, child: XmlNode): seq<Item> {
    if IsElement(child, "in") then ins + [ReadVarItem(child)] else ins
  }

  function NextOut(out: Item, child: XmlNode): Item {
    if IsElement(child, "out") then ReadVarItem(child) else out
  }

  lemma CallFuncStep(name: Option<string>, ins: seq<Item>, out: Item, children: seq<XmlNode>)
    requires children != [] && FillCallFunc(name, ins, out, children).Some?
    ensures IsElement(children[0], "name") ==> TextOf(children[0].children).Some?
    ensures IsElement(children[0], "in") || IsElement(children[0], "out") ==> ReadCallVar(children[0]).Some?
    ensures FillCallFunc(name, ins, out, children)
         == FillCallFunc(NextString("name", name, children[0]), NextIns(ins, children[0]), NextOut(out, children[0]), children[1..])
  {
    hide CallTypes, Fill, Absorb, NextString, TextOf, ReadCallVar;
    AreLinked();
    var child := children[0];
    AbsorbString("name", name, child);
    AbsorbVar("in", Many(ins), true, child);
    AbsorbVar("out", One(out), false, child);
    var f, values := CallFuncType().fields, CallFuncObj(name, ins, out).values;
    var next := CallFuncObj(NextString("name", name, child), NextIns(ins, child), NextOut(out, child)).values;
    FillStep(CallTypes(), f, values, next, children);
    assert Absorb(CallTypes(), f[0], values[0], child).Some? && Absorb(CallTypes(), f[1], values[1], child).Some?;
    assert Absorb(CallTypes(), f[2], values[2], child).Some?;
  }

  lemma VarItemsSnoc(vars: seq<CallVar?>, v: CallVar?)
    ensures VarItems(vars + [v]) == VarItems(vars) + [VarItem(v)]
  {
  }

  method DeserializeCallFunc(root: XmlNode) returns (obj: CallFunc)
    requires root.Element? && ReadCallFunc(root).Some?
    ensures obj.Valid() && fresh(obj.repr) && Some(obj.View()) == ReadCallFunc(root)
  {
    hide FillCallFunc, ReadCallFunc, ReadCallVar, TextOf, NextString, NextIns, NextOut, VarItems, VarItem, CallFuncObj, Conforms,
         CallTypes, LinkedList.Valid, LinkedList.Values;
    CallFuncStart(root);
    obj := new CallFunc();
    var children, i := root.children, 0;
    assert children[0..] == children;
    NoVars();
    while i < |children|
      invariant i <= |children| && obj.Valid() && fresh(obj.repr)
      invariant FillCallFunc(obj.name, VarItems(obj.ins.Values()), VarItem(obj.out), children[i..]) == ReadCallFunc(root)
    {
      CallFuncStep(obj.name, VarItems(obj.ins.Values()), VarItem(obj.out), children[i..]);
      assert children[i..][0] == children[i] && children[i..][1..] == children[i + 1..];
      AbsorbChild(obj, children[i]);
      i := i + 1;
    }
    assert children[i..] == [];
  }

  lemma NoVars()
    ensures VarItems([]) == [] && VarItem(null) == Ref(None)
  {
  }

  /** The test for the list field. */
  method AbsorbIn(obj: CallFunc, cur: XmlNode)
    requires obj.Valid() && (IsElement(cur, "in") ==> ReadCallVar(cur).Some?)
    modifies obj`repr, obj.ins.repr
    ensures obj.Valid() && old(obj.repr) <= obj.repr && fresh(obj.repr - old(obj.repr)) && VarItem(obj.out) == old(VarItem(obj.out))
    ensures VarItems(obj.ins.Values()) == NextIns(old(VarItems(obj.ins.Values())), cur)
  {
    hide ReadCallVar, CallVar.View, VarItems, LinkedList.Values;
    if IsElement(cur, "in") {
      var v := DeserializeCallVar(cur);
      VarItemsSnoc(obj.ins.Values(), v);
      obj.AddIn(v);
    }
  }

  /** The test for the single field. */
  method AbsorbOut(obj: CallFunc, cur: XmlNode)
    requires obj.Valid() && (IsElement(cur, "out") ==> ReadCallVar(cur).Some?)
    modifies obj`out, obj`repr
    ensures obj.Valid() && fresh(obj.repr - old(obj.repr))
    ensures VarItem(obj.out) == NextOut(old(VarItem(obj.out)), cur)
  {
    hide ReadCallVar, CallVar.View, LinkedList.Values;
    if IsElement(cur, "out") {
      var v := DeserializeCallVar(cur);
      obj.SetOut(v);
    }
  }

  /** The tests for one child. */
  method AbsorbChild(obj: CallFunc, cur: XmlNode)
    requires obj.Valid()
    requires IsElement(cur, "name") ==> TextOf(cur.children).Some?
    requires IsElement(cur, "in") || IsElement(cur, "out") ==> ReadCallVar(cur).Some?
    modifies obj, obj.ins.repr
    ensures obj.Valid() && fresh(obj.repr - old(obj.repr))
    ensures obj.name == NextString("name", old(obj.name), cur)
    ensures VarItems(obj.ins.Values()) == NextIns(old(VarItems(obj.ins.Values())), cur)
    ensures VarItem(obj.out) == NextOut(old(VarItem(obj.out)), cur)
  {
    hide ReadCallVar, TextOf, CallVar.View, VarItems, VarItem, NextIns, NextOut, LinkedList.Valid, LinkedList.Values;
    if IsElement(cur, "name") {
      obj.SetName(TextOf(cur.children).value);
    }
    AbsorbIn(obj, cur);
    AbsorbOut(obj, cur);
  }

  // ---------------------------------------------------------------- CallList

  function CallListObj(operations: seq<Item>): Obj {
    Obj(None, [Many(operations)])
  }

  ghost predicate IsFunc(item: Item) {
    ItemConforms(CallTypes(), ComplexKind("CallFunc"), item)
  }

  ghost predicate AreFuncs(items: seq<Item>) {
    forall i :: 0 <= i < |items| ==> IsFunc(items[i])
  }

  lemma CallListConforms(operations: seq<Item>)
    requires AreFuncs(operations)
    ensures Conforms(CallTypes(), CallListType(), CallListObj(operations))
    ensures Match(CallTypes(), CallListType().fields, CallListObj(operations).values)
  {
    hide CallTypes, ItemConforms;
    var f, v := CallListType().fields, CallListObj(operations).values;
    assert ValueConforms(CallTypes(), f[0], v[0]);
  }

  /** The objects behind a pointer to a CallFunc. */
  ghost function Reach(f: CallFunc?): set<object>
    reads f
  {
    if f == null then {} else {f} + f.repr
  }

  ghost predicate FuncValid(f: CallFunc?)
    reads f, Reach(f)
  {
    f != null ==> f.Valid()
  }

  ghost function FuncItem(f: CallFunc?): (r: Item)
    requires FuncValid(f)
    reads f, Reach(f)
    ensures r.Ref? && IsFunc(r)
  {
    LookUp();
    if f == null then Ref(None) else Ref(Some(f.View()))
  }

  ghost function ReachAll(funcs: seq<CallFunc?>): set<object>
    reads funcs
  {
    set f, o | f in funcs && o in Reach(f) :: o
  }

  ghost predicate FuncsValid(funcs: seq<CallFunc?>)
    reads funcs, ReachAll(funcs)
  {
    forall f :: f in funcs ==> FuncValid(f)
  }

  ghost function FuncItems(funcs: seq<CallFunc?>): (r: seq<Item>)
    requires FuncsValid(funcs)
    reads funcs, ReachAll(funcs)
    ensures |r| == |funcs| && forall i :: 0 <= i < |r| ==> r[i] == FuncItem(funcs[i])
    ensures AreFuncs(r)
  {
    seq(|funcs|, i requires 0 <= i < |funcs| && FuncValid(funcs[i]) reads funcs, ReachAll(funcs) => FuncItem(funcs[i]))
  }

  lemma CallListShape(operations: seq<Item>, root: string)
    requires AreFuncs(operations) && Conforms(CallTypes(), CallListType(), CallListObj(operations))
    ensures Serialize(CallTypes(), CallListType(), CallListObj(operations), root)
         == [Start(root, [])] + FuncsEvents(operations) + [End(root)]
  {
    hide CallTypes, Body, Serialize, Conforms, ItemsEvents;
    CallListConforms(operations);
    PlainShape(CallTypes(), CallListType(), CallListObj(operations), root);
    BodyOf(CallTypes(), CallListType().fields, CallListObj(operations).values);
  }

  ghost function FuncEvents(item: Item): seq<Event>
    requires IsFunc(item)
  {
    ItemEvents(CallTypes(), ComplexKind("CallFunc"), "operation", item)
  }

  ghost function FuncsEvents(items: seq<Item>): seq<Event>
    requires AreFuncs(items)
  {
    ItemsEvents(CallTypes(), ComplexKind("CallFunc"), "operation", items)
  }

  lemma FuncsStep(items: seq<Item>, i: nat)
    requires AreFuncs(items) && i <= |items|
    ensures AreFuncs(items[i..]) && (i == |items| ==> FuncsEvents(items[i..]) == [])
    ensures i < |items| ==> AreFuncs(items[i + 1..]) && FuncsEvents(items[i..]) == FuncEvents(items[i]) + FuncsEvents(items[i + 1..])
  {
    hide CallTypes, ItemConforms, ItemEvents;
    if i < |items| {
      assert items[i..][1..] == items[i + 1..];
    }
  }

  /** The emitted test for a null pointer, and the call. */
  method EmitFunc(f: CallFunc?, handler: Handler)
    requires FuncValid(f) && handler !in Reach(f)
    modifies handler
    ensures FuncValid(f) && FuncItem(f) == old(FuncItem(f))
    ensures handler.events == old(handler.events) + FuncEvents(FuncItem(f))
  {
    hide CallTypes, CallFuncType, Serialize, Conforms, CallFunc.View;
    LookUp();
    if f != null {
      f.SaxSerialize("operation", handler);
    }
  }

  class CallList {
    const operations: LinkedList<CallFunc?>
    ghost var repr: set<object>

    ghost predicate Valid()
      reads this, repr
      ensures Valid() ==> this in repr
    {
      && this in repr && operations in repr && operations.repr <= repr && operations.Valid() && this !in operations.repr
      && forall f :: f in operations.Values() && f != null ==>
                       f in repr && f.repr <= repr && f.repr !! operations.repr + {this} && f.Valid()
    }

    ghost function View(): (r: Obj)
      requires Valid()
      reads this, repr
      ensures Conforms(CallTypes(), CallListType(), r)
    {
      CallListConforms(FuncItems(operations.Values()));
      CallListObj(FuncItems(operations.Values()))
    }

    constructor ()
      ensures Valid() && fresh(repr) && operations.Values() == []
    {
      operations := new LinkedList();
      new;
      repr := {this} + operations.repr;
    }

    method AddOperation(f: CallFunc?)
      requires Valid() && FuncValid(f) && (f != null ==> f.repr !! operations.repr + {this})
      modifies this`repr, operations.repr
      ensures Valid() && fresh(repr - old(repr) - if f == null then {} else f.repr) && operations.Values() == old(operations.Values()) + [f]
      ensures FuncItems(operations.Values()) == old(FuncItems(operations.Values())) + [old(FuncItem(f))]
    {
      hide CallTypes, CallFunc.Valid, CallFunc.View, LinkedList.Valid, LinkedList.Values, FuncItems, AreFuncs, IsFunc;
      ghost var funcs := operations.Values();
      operations.Append(f);
      repr := repr + operations.repr + if f == null then {} else f.repr;
      assert forall g :: g in operations.Values() <==> g in funcs || g == f;
      assert forall g :: g in funcs && g != null ==> g.Valid() && g.repr == old(g.repr);
      assert forall g :: g in funcs ==> FuncItem(g) == old(FuncItem(g));
      assert FuncItem(f) == old(FuncItem(f));
      assert FuncItems(operations.Values()) == old(FuncItems(operations.Values())) + [FuncItem(f)];
    }

    method SaxSerialize(root: string, handler: Handler)
      requires Valid() && handler !in repr
      modifies handler
      ensures Valid() && View() == old(View())
      ensures handler.events == old(handler.events) + Serialize(CallTypes(), CallListType(), View(), root)
    {
      hide CallTypes, CallListType, Serialize, Conforms, FuncsEvents, FuncItems, AreFuncs, LinkedList.Valid, LinkedList.Values;
      ghost var items := FuncItems(operations.Values());
      CallListConforms(items);
      CallListShape(items, root);
      handler.Call(Start(root, []));
      EmitOperations(handler);
      handler.Call(End(root));
    }

    /** The loop over the list. */
    method EmitOperations(handler: Handler)
      requires Valid() && handler !in repr
      modifies handler
      ensures Valid() && operations.Values() == old(operations.Values())
      ensures FuncItems(operations.Values()) == old(FuncItems(operations.Values()))
      ensures handler.events == old(handler.events) + FuncsEvents(FuncItems(operations.Values()))
    {
      hide FuncsEvents, FuncEvents, FuncItem, FuncItems, AreFuncs, CallFunc.Valid, LinkedList.Valid, LinkedList.Values;
      ghost var funcs, i := operations.Values(), 0;
      ghost var items := FuncItems(funcs);
      ghost var goal := handler.events + FuncsEvents(items);
      var cur := operations.head;
      operations.Links(0);
      assert items[0..] == items;
      while cur != null
        invariant Valid() && operations.Values() == funcs && i <= |funcs| == |operations.nodes| && cur == operations.At(i)
        invariant FuncItems(funcs) == items && AreFuncs(items[i..])
        invariant goal == handler.events + FuncsEvents(items[i..])
        decreases |funcs| - i
      {
        operations.Links(i);
        FuncsStep(items, i);
        assert funcs[i] in funcs && handler !in ReachAll(funcs);
        EmitFunc(cur.value, handler);
        cur, i := cur.next, i + 1;
      }
      operations.Links(i);
      FuncsStep(items, i);
      assert handler.events + [] == handler.events;
    }
  }

  /** The emitted CallList_Deserialize, as the schema's meaning has it. */
  function ReadCallList(root: XmlNode): Option<Obj>
    requires root.Element?
  {
    AreLinked();
    Deserialize(CallTypes(), CallListType(), root)
  }

  /** CallList_Deserialize from inside its loop. */
  function FillCallList(operations: seq<Item>, children: seq<XmlNode>): Option<Obj> {
    AreLinked();
    match Fill(CallTypes(), CallListType().fields, CallListObj(operations).values, children)
    case None => None
    case Some(values) => Some(Obj(None, values))
  }

  lemma CallListStart(root: XmlNode)
    requires root.Element?
    ensures ReadCallList(root) == FillCallList([], root.children)
    ensures forall operations :: FillCallList(operations, []) == Some(CallListObj(operations))
  {
    hide CallTypes;
    assert Initials(CallListType().fields, root.attrs) == CallListObj([]).values;
  }

  function NextOperations(operations: seq<Item>, child: XmlNode): seq<Item> {
    if IsElement(child, "operation") then operations + [Ref(ReadCallFunc(child))] else operations
  }

  lemma CallListStep(operations: seq<Item>, children: seq<XmlNode>)
    requires children != [] && FillCallList(operations, children).Some?
    ensures IsElement(children[0], "operation") ==> ReadCallFunc(children[0]).Some?
    ensures FillCallList(operations, children) == FillCallList(NextOperations(operations, children[0]), children[1..])
  {
    hide CallTypes, Fill, CallFuncType, Deserialize;
    LookUp();
    AreLinked();
    var f, values := CallListType().fields, CallListObj(operations).values;
    var next := CallListObj(NextOperations(operations, children[0])).values;
    FillStep(CallTypes(), f, values, next, children);
    assert Absorb(CallTypes(), f[0], values[0], children[0]).Some?;
  }

  /** Deserializing one child leaves the list as it is. */
  method ReadOperation(obj: CallList, child: XmlNode) returns (f: CallFunc)
    requires obj.Valid() && child.Element? && ReadCallFunc(child).Some?
    ensures obj.Valid() && FuncItems(obj.operations.Values()) == old(FuncItems(obj.operations.Values()))
    ensures f.Valid() && fresh(f.repr) && FuncItem(f) == Ref(ReadCallFunc(child))
  {
    hide ReadCallFunc, CallTypes, CallFunc.View, CallFunc.Valid, LinkedList.Valid, LinkedList.Values;
    ghost var funcs := obj.operations.Values();
    f := DeserializeCallFunc(child);
    assert forall g :: g in funcs && g != null ==> g.Valid() && g.repr == old(g.repr);
    assert forall g :: g in funcs ==> FuncItem(g) == old(FuncItem(g));
    assert FuncItems(funcs) == old(FuncItems(funcs));
    SomeFunc(f, child);
  }

  lemma SomeFunc(f: CallFunc, child: XmlNode)
    requires f.Valid() && child.Element? && Some(f.View()) == ReadCallFunc(child)
    ensures FuncItem(f) == Ref(ReadCallFunc(child))
  {
    hide CallTypes, CallFunc.View;
  }

  method DeserializeCallList(root: XmlNode) returns (obj: CallList)
    requires root.Element? && ReadCallList(root).Some?
    ensures obj.Valid() && fresh(obj.repr) && Some(obj.View()) == ReadCallList(root)
  {
    hide FillCallList, ReadCallList, ReadCallFunc, FuncItems, FuncItem, CallListObj, Conforms, CallTypes, CallFunc.Valid,
         LinkedList.Valid, LinkedList.Values;
    CallListStart(root);
    obj := new CallList();
    var children, i := root.children, 0;
    assert children[0..] == children && FuncItems([]) == [];
    while i < |children|
      invariant i <= |children| && obj.Valid() && fresh(obj.repr)
      invariant FillCallList(FuncItems(obj.operations.Values()), children[i..]) == ReadCallList(root)
    {
      CallListStep(FuncItems(obj.operations.Values()), children[i..]);
      assert children[i..][0] == children[i] && children[i..][1..] == children[i + 1..];
      if IsElement(children[i], "operation") {
        var f := ReadOperation(obj, children[i]);
        obj.AddOperation(f);
      }
      i := i + 1;
    }
    assert children[i..] == [];
  }

  /**
   CallList, CallFunc and CallVar round trip: the emitted deserializer, on the document of
   the emitted serializer, gives back an equal object exactly if all names and types are
   present and not empty and neither list has a null entry.
   */
  lemma CallListBack(obj: Obj, root: string)
    requires Conforms(CallTypes(), CallListType(), obj)
    ensures var document := Parse(Serialize(CallTypes(), CallListType(), obj, root));
            && |document| == 1 && document[0].Element?
            && (ReadCallList(document[0]) == Some(obj) <==> Complete(CallTypes(), CallListType(), obj))
  {
    hide Parse, Serialize, CallTypes, CallListType, Conforms, Complete, WellFormed, Distinct, AllFields, Deserialize;
    AreWellFormed();
    AreLinked();
    AreDistinct();
    RoundTrip(CallTypes(), CallListType(), obj, root);
  }
}
