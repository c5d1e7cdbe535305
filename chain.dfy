/**
 * The chain of responsibility for input events: drag, click, hover and
 * scroll handlers linked one after the other and closed by an end handler.
 * The first handler whose kind of event is flagged marks the event
 * processed and stops; every other handler passes the event on.
 */
module Chain {
  import opened Wrappers

  /** An input event: which kinds it is, and whether a handler took it. */
  class Event {
    var dragEvent: bool
    var clickEvent: bool
    var hoverEvent: bool
    var scrollEvent: bool
    var processed: bool

    constructor (drag: bool, click: bool, hover: bool, scroll: bool)
      ensures dragEvent == drag && clickEvent == click && hoverEvent == hover && scrollEvent == scroll
      ensures !processed
    {
      dragEvent, clickEvent, hoverEvent, scrollEvent := drag, click, hover, scroll;
      processed := false;
    }
  }

  /** The four kind flags of an event, as a value. */
  datatype Flags = Flags(drag: bool, click: bool, hover: bool, scroll: bool)

  function FlagsOf(e: Event): Flags
    reads e
  {
    Flags(e.dragEvent, e.clickEvent, e.hoverEvent, e.scrollEvent)
  }

  /** The handler types; `End` stands last and takes nothing. */
  datatype Kind = Drag | Click | Hover | Scroll | End

  /** Whether a handler of kind `k` takes an event with flags `f`. */
  predicate Takes(k: Kind, f: Flags) {
    match k
    case Drag => f.drag
    case Click => f.click
    case Hover => f.hover
    case Scroll => f.scroll
    case End => false
  }

  /** The first kind along `kinds` that takes the event, if any. */
  function FirstTaker(kinds: seq<Kind>, f: Flags): (r: Option<nat>)
    ensures r.Some? ==> r.value < |kinds| && Takes(kinds[r.value], f)
    ensures r.Some? ==> forall j :: 0 <= j < r.value ==> !Takes(kinds[j], f)
    ensures r.None? ==> forall j :: 0 <= j < |kinds| ==> !Takes(kinds[j], f)
  {
    if kinds == [] then None
    else if Takes(kinds[0], f) then Some(0)
    else match FirstTaker(kinds[1..], f)
      case None => None
      case Some(i) => Some(i + 1)
  }

  /** What a handler prints: its event's name, or the end handler's complaint. */
  function Report(k: Kind): string {
    match k
    case Drag => "Processed DragEvent"
    case Click => "Processed ClickEvent"
    case Hover => "Processed HoverEvent"
    case Scroll => "Processed ScrollEvent"
    case End => "Couldn't processes event"
  }

  /** One handler of the chain and the link to the next. */
  class Handler {
    const kind: Kind
    var next: Handler?

    constructor (kind: Kind)
      ensures this.kind == kind && next == null
    {
      this.kind := kind;
      next := null;
    }

    /** setNext; the end handler has no link and ignores it. */
    method SetNext(n: Handler)
      modifies this
      ensures next == (if kind == End then old(next) else n)
    {
      if kind != End {
        next := n;
      }
    }

    /**
     * execute: a handler whose kind is flagged marks the event processed and
     * stops; otherwise the event goes on to the next handler. The end handler
     * only reports. The flags are never written.
     */
    method Execute(event: Event, ghost nodes: seq<Handler>) returns (line: string)
      requires Linked(nodes) && nodes[0] == this
      modifies event
      decreases |nodes|
      ensures FlagsOf(event) == old(FlagsOf(event))
      ensures FirstTaker(Kinds(nodes), FlagsOf(event)).Some? ==> event.processed
      ensures FirstTaker(Kinds(nodes), FlagsOf(event)).None? ==> event.processed == old(event.processed)
      ensures line == Report(Taker(Kinds(nodes), FlagsOf(event)))
    {
      var taken := match kind
        case Drag => event.dragEvent
        case Click => event.clickEvent
        case Hover => event.hoverEvent
        case Scroll => event.scrollEvent
        case End => false;
      if kind == End {
        return Report(End);
      }
      if taken {
        event.processed := true;
        return Report(kind);
      }
      assert |nodes| > 1 && next == nodes[1];
      line := next.Execute(event, nodes[1..]);
      assert Kinds(nodes) == [kind] + Kinds(nodes[1..]);
    }
  }

  /** `nodes` is a chain: each handler links to the following one and only the last is the end handler. */
  ghost predicate Linked(nodes: seq<Handler>)
    reads set i | 0 <= i < |nodes| :: nodes[i]
  {
    && |nodes| >= 1
    && nodes[|nodes| - 1].kind == End
    && forall i :: 0 <= i < |nodes| - 1 ==> nodes[i].kind != End && nodes[i].next == nodes[i + 1]
  }

  /** The kinds along a chain. */
  function Kinds(nodes: seq<Handler>): (ks: seq<Kind>)
    ensures |ks| == |nodes| && forall i :: 0 <= i < |nodes| ==> ks[i] == nodes[i].kind
  {
    seq(|nodes|, i requires 0 <= i < |nodes| => nodes[i].kind)
  }

  /** The kind of the handler that takes the event, or the end handler when none does. */
  function Taker(kinds: seq<Kind>, f: Flags): Kind
  {
    match FirstTaker(kinds, f)
    case Some(i) => kinds[i]
    case None => End
  }

  /** The order main links the handlers in. */
  const ChainOrder: seq<Kind> := [Drag, Click, Hover, Scroll, End]

  /** main's wiring: drag, then click, hover, scroll and the end handler. */
  method BuildChain() returns (head: Handler, ghost nodes: seq<Handler>)
    ensures Linked(nodes) && nodes[0] == head && Kinds(nodes) == ChainOrder
    ensures head.kind == Drag && head.next != null && head.next.kind == Click
  {
    var dragHandler := new Handler(Drag);
    var clickHandler := new Handler(Click);
    var hoverHandler := new Handler(Hover);
    var scrollHandler := new Handler(Scroll);
    var endHandler := new Handler(End);

    dragHandler.SetNext(clickHandler);
    clickHandler.SetNext(hoverHandler);
    hoverHandler.SetNext(scrollHandler);
    scrollHandler.SetNext(endHandler);

    head := dragHandler;
    nodes := [dragHandler, clickHandler, hoverHandler, scrollHandler, endHandler];
  }

  // ------------------------------------------------------------ properties

  /** With several flags set, drag wins over click, click over hover, hover over scroll. */
  lemma Precedence(f: Flags)
    ensures f.drag ==> FirstTaker(ChainOrder, f) == Some(0)
    ensures !f.drag && f.click ==> FirstTaker(ChainOrder, f) == Some(1)
    ensures !f.drag && !f.click && f.hover ==> FirstTaker(ChainOrder, f) == Some(2)
    ensures !f.drag && !f.click && !f.hover && f.scroll ==> FirstTaker(ChainOrder, f) == Some(3)
    ensures !f.drag && !f.click && !f.hover && !f.scroll ==> FirstTaker(ChainOrder, f) == None
  {
    var t1 := ChainOrder[1..];
    var t2 := t1[1..];
    var t3 := t2[1..];
    var t4 := t3[1..];
    assert t1 == [Click, Hover, Scroll, End] && t2 == [Hover, Scroll, End];
    assert t3 == [Scroll, End] && t4 == [End] && t4[1..] == [];
    assert FirstTaker(t4, f) == None;
    assert FirstTaker(t3, f) == if f.scroll then Some(0) else None;
    assert FirstTaker(t2, f) == if f.hover then Some(0) else if f.scroll then Some(1) else None;
  }

  /** Along main's chain, an event is taken exactly when one of its four flags is set. */
  lemma TakenIffFlagged(f: Flags)
    ensures FirstTaker(ChainOrder, f).Some? <==> f.drag || f.click || f.hover || f.scroll
  {
    Precedence(f);
  }
}
