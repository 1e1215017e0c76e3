/**
 SAX callbacks as objects: the handler at the end, and the pair of callbacks that an
 extended type puts in front of it while its base type is serialized.
 */
module SaxCallbacks {
  import opened Lists
  import opened Schema

  /** The caller's handler; it records the calls. */
  class Handler {
    var events: seq<Event>

    constructor ()
      ensures events == []
    {
      events := [];
    }

    method Call(e: Event)
      modifies this
      ensures events == old(events) + [e]
    {
      events := events + [e];
    }

    method CallAll(calls: seq<Event>)
      modifies this
      ensures events == old(events) + calls
    {
      for i := 0 to |calls|
        invariant events == old(events) + calls[..i]
      {
        Call(calls[i]);
        assert calls[..i + 1] == calls[..i] + [calls[i]];
      }
      assert calls[..|calls|] == calls;
    }
  }

  /** The structure behind Base_Sax_..._StartElement_Callback and its end counterpart. */
  class Extension {
    const handler: Handler
    const attrs: seq<Pair>
    const body: seq<Event>
    var stackDeep: int

    constructor (handler: Handler, attrs: seq<Pair>, body: seq<Event>)
      ensures this.handler == handler && this.attrs == attrs && this.body == body && stackDeep == 0
    {
      this.handler, this.attrs, this.body, stackDeep := handler, attrs, body, 0;
    }

    method OnStartElement(name: string, own: seq<Pair>)
      modifies this, handler
      ensures stackDeep == old(stackDeep) + 1
      ensures handler.events == old(handler.events) + [Start(name, own + if old(stackDeep) == 0 then attrs else [])]
    {
      handler.Call(Start(name, own + if stackDeep == 0 then attrs else []));
      stackDeep := stackDeep + 1;
    }

    method OnEndElement(name: string)
      modifies this, handler
      ensures stackDeep == old(stackDeep) - 1
      ensures handler.events == old(handler.events) + (if old(stackDeep) > 1 then [] else body) + [End(name)]
    {
      stackDeep := stackDeep - 1;
      if stackDeep <= 0 {
        handler.CallAll(body);
      }
      handler.Call(End(name));
    }

    /** The base type's serializer at work: each of its events, to the callback for it. */
    method Route(events: seq<Event>)
      modifies this, handler
      ensures handler.events == old(handler.events) + Intercept(old(stackDeep), events, attrs, body)
    {
      hide Intercept;
      ghost var goal := handler.events + Intercept(stackDeep, events, attrs, body);
      var i := 0;
      assert events[0..] == events;
      while i < |events|
        invariant i <= |events| && goal == handler.events + Intercept(stackDeep, events[i..], attrs, body)
      {
        assert events[i..][0] == events[i] && events[i..][1..] == events[i + 1..];
        InterceptStep(handler.events, stackDeep, events[i..], attrs, body);
        match events[i] {
          case Start(name, own) => OnStartElement(name, own);
          case Chars(text) => handler.Call(events[i]);
          case End(name) => OnEndElement(name);
        }
        i := i + 1;
      }
      assert events[i..] == [];
      InterceptNothing(stackDeep, attrs, body);
      assert handler.events + [] == handler.events;
    }
  }

  lemma InterceptNothing(depth: int, attrs: seq<Pair>, body: seq<Event>)
    ensures Intercept(depth, [], attrs, body) == []
  {
  }

  /** The first event, behind the events `before`. */
  lemma InterceptStep(before: seq<Event>, depth: int, events: seq<Event>, attrs: seq<Pair>, body: seq<Event>)
    requires events != []
    ensures before + Intercept(depth, events, attrs, body)
         == match events[0]
            case Start(name, own) =>
              before + [Start(name, own + if depth == 0 then attrs else [])] + Intercept(depth + 1, events[1..], attrs, body)
            case Chars(text) => before + [events[0]] + Intercept(depth, events[1..], attrs, body)
            case End(name) =>
              before + (if depth > 1 then [] else body) + [End(name)] + Intercept(depth - 1, events[1..], attrs, body)
  {
    match events[0] {
      case Start(name, own) =>
        Assoc(before, [Start(name, own + if depth == 0 then attrs else [])], Intercept(depth + 1, events[1..], attrs, body));
      case Chars(text) =>
        Assoc(before, [events[0]], Intercept(depth, events[1..], attrs, body));
      case End(name) =>
        var last := if depth > 1 then [] else body;
        assert last + [End(name)] == if depth - 1 > 0 then [End(name)] else body + [End(name)];
        Assoc(before, last + [End(name)], Intercept(depth - 1, events[1..], attrs, body));
        Assoc(before, last, [End(name)]);
    }
  }
}
