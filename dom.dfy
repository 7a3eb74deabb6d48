/** The part of the browser document both controllers touch: elements as opaque
    ids, each with a tag, an inline style, a class list, attributes and a list
    of child ids, plus the set of elements that are direct children of <body>. */
module Dom {

  type NodeId = nat

  /** An inline style value. `CosPx(c, r, t)` and `SinPx(c, r, t)` stand for the
      pixel lengths c + r * cos(2 pi t) and c + r * sin(2 pi t) (t in turns);
      `Translate(dx, dy)` is the transform translate3d(dx px, dy px, 0). */
  datatype StyleVal =
    | Str(s: string)
    | Px(v: real)
    | Int(i: int)
    | Translate(dx: int, dy: int)
    | CosPx(center: real, radius: real, turn: real)
    | SinPx(center: real, radius: real, turn: real)

  /** An inline style: property name to value; an absent key is an empty property. */
  type Style = map<string, StyleVal>

  datatype Node = Node(
    tag: string,
    style: Style,
    classes: set<string>,
    attrs: map<string, string>,
    kids: seq<NodeId>)

  /** What the model knows of an element it never wrote to. */
  const Blank := Node("", map[], {}, map[], [])

  /** The node `n` of a node map; an element never written to is Blank. */
  function Look(nodes: map<NodeId, Node>, n: NodeId): Node
  {
    if n in nodes then nodes[n] else Blank
  }

  /** A node apart from its inline style. */
  function Shape(n: Node): Node
  {
    n.(style := map[])
  }

  /** A viewport point, in pixels. */
  datatype Point = Point(x: real, y: real)

  /** A bounding client rectangle, in viewport pixels. */
  datatype Rect = Rect(left: real, top: real, width: real, height: real)

  datatype PointerType = Mouse | Touch | Pen

  datatype PointerEvent = PointerEvent(
    pointerType: PointerType,
    pointerId: int,
    clientX: real,
    clientY: real)

  class Document {
    /** Every id below `next` names an element; ids from `next` up are unused. */
    var next: nat
    var nodes: map<NodeId, Node>
    /** The direct children of <body>. */
    var body: set<NodeId>

    ghost predicate Valid()
      reads this
    {
      && (forall n :: n in nodes ==> n < next)
      && (forall n :: n in body ==> n < next)
    }

    predicate Known(n: NodeId)
      reads this`next
    {
      n < next
    }

    function NodeOf(n: NodeId): Node
      reads this
    {
      Look(nodes, n)
    }

    function StyleOf(n: NodeId): Style
      reads this
    {
      NodeOf(n).style
    }

    /** A page of `pageNodes` elements about which nothing is known yet. */
    constructor (pageNodes: nat)
      ensures Valid()
      ensures next == pageNodes && nodes == map[] && body == {}
    {
      next := pageNodes;
      nodes := map[];
      body := {};
    }

    /** document.createElement(tag): a new element, not yet in the tree. */
    method CreateElement(tag: string) returns (n: NodeId)
      requires Valid()
      modifies this`next, this`nodes
      ensures Valid()
      ensures n == old(next) && next == n + 1
      ensures Look(nodes, n) == Blank.(tag := tag)
      ensures forall m :: m != n ==> Look(nodes, m) == Look(old(nodes), m)
    {
      n := next;
      next := next + 1;
      nodes := nodes[n := Blank.(tag := tag)];
    }

    /** el.cloneNode(true): a new element carrying a copy of `src`'s tag, inline
        style, classes and attributes, not yet in the tree. */
    method CloneNode(src: NodeId) returns (n: NodeId)
      requires Valid() && Known(src)
      modifies this`next, this`nodes
      ensures Valid()
      ensures n == old(next) && next == n + 1 && n != src
      ensures Look(nodes, n) == Look(old(nodes), src).(kids := [])
      ensures forall m :: m != n ==> Look(nodes, m) == Look(old(nodes), m)
    {
      var copy := NodeOf(src).(kids := []);
      n := next;
      next := next + 1;
      nodes := nodes[n := copy];
    }

    /** element.style[prop] = value. */
    method SetStyle(n: NodeId, prop: string, v: StyleVal)
      requires Valid() && Known(n)
      modifies this`nodes
      ensures Valid()
      ensures Look(nodes, n) == Look(old(nodes), n).(style := Look(old(nodes), n).style[prop := v])
      ensures forall m :: m != n ==> Look(nodes, m) == Look(old(nodes), m)
    {
      nodes := nodes[n := NodeOf(n).(style := StyleOf(n)[prop := v])];
    }

    /** element.style[prop] = '' (removes the inline property). */
    method ClearStyle(n: NodeId, prop: string)
      requires Valid() && Known(n)
      modifies this`nodes
      ensures Valid()
      ensures Look(nodes, n) == Look(old(nodes), n).(style := Look(old(nodes), n).style - {prop})
      ensures forall m :: m != n ==> Look(nodes, m) == Look(old(nodes), m)
    {
      nodes := nodes[n := NodeOf(n).(style := StyleOf(n) - {prop})];
    }

    /** element.classList.add(c). */
    method AddClass(n: NodeId, c: string)
      requires Valid() && Known(n)
      modifies this`nodes
      ensures Valid()
      ensures Look(nodes, n) == Look(old(nodes), n).(classes := Look(old(nodes), n).classes + {c})
      ensures forall m :: m != n ==> Look(nodes, m) == Look(old(nodes), m)
    {
      nodes := nodes[n := NodeOf(n).(classes := NodeOf(n).classes + {c})];
    }

    /** element.classList.remove(c). */
    method RemoveClass(n: NodeId, c: string)
      requires Valid() && Known(n)
      modifies this`nodes
      ensures Valid()
      ensures Look(nodes, n) == Look(old(nodes), n).(classes := Look(old(nodes), n).classes - {c})
      ensures forall m :: m != n ==> Look(nodes, m) == Look(old(nodes), m)
    {
      nodes := nodes[n := NodeOf(n).(classes := NodeOf(n).classes - {c})];
    }

    /** element.className = c. */
    method SetClassName(n: NodeId, c: string)
      requires Valid() && Known(n)
      modifies this`nodes
      ensures Valid()
      ensures Look(nodes, n) == Look(old(nodes), n).(classes := {c})
      ensures forall m :: m != n ==> Look(nodes, m) == Look(old(nodes), m)
    {
      nodes := nodes[n := NodeOf(n).(classes := {c})];
    }

    /** element[key] = value, for the string properties the model tracks
        (`type`, `alt`, `src`, `textContent`). */
    method SetAttr(n: NodeId, key: string, value: string)
      requires Valid() && Known(n)
      modifies this`nodes
      ensures Valid()
      ensures Look(nodes, n) == Look(old(nodes), n).(attrs := Look(old(nodes), n).attrs[key := value])
      ensures forall m :: m != n ==> Look(nodes, m) == Look(old(nodes), m)
    {
      nodes := nodes[n := NodeOf(n).(attrs := NodeOf(n).attrs[key := value])];
    }

    /** parent.appendChild(child), for a parent other than <body>. */
    method AppendChild(parent: NodeId, child: NodeId)
      requires Valid() && Known(parent) && Known(child)
      modifies this`nodes
      ensures Valid()
      ensures Look(nodes, parent) == Look(old(nodes), parent).(kids := Look(old(nodes), parent).kids + [child])
      ensures forall m :: m != parent ==> Look(nodes, m) == Look(old(nodes), m)
    {
      nodes := nodes[parent := NodeOf(parent).(kids := NodeOf(parent).kids + [child])];
    }

    /** document.body.appendChild(n). */
    method AppendToBody(n: NodeId)
      requires Valid() && Known(n)
      modifies this`body
      ensures Valid()
      ensures body == old(body) + {n}
    {
      body := body + {n};
    }

    /** n.parentNode.removeChild(n) for a child of <body>; nothing when n is not one. */
    method RemoveFromBody(n: NodeId)
      requires Valid()
      modifies this`body
      ensures Valid()
      ensures body == old(body) - {n}
    {
      body := body - {n};
    }
  }
}
